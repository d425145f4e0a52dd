/** What an analysis reports about all worktrees: the rows by size, a summary per repository, and
    the totals. */
module WorkspaceAnalysis {
  import opened Text

  /** Sums of sizes are unsigned integers of 64 bits. */
  const WIDTH := 0x1_0000_0000_0000_0000

  datatype Row = Row(repoId: string, displayName: string, ok: bool, size: nat, reclaimable: nat, error: Option<string>)

  datatype Summary = Summary(
    repoId: string, worktrees: nat, scanned: nat, unavailable: nat, total: nat, reclaimable: nat, error: Option<string>)

  datatype Analysis = Analysis(
    total: nat, reclaimable: nat, worktrees: nat, scanned: nat, unavailable: nat, repos: seq<Summary>, rows: seq<Row>)

  function Total<T>(items: seq<T>, f: T -> nat): nat {
    if items == [] then 0 else f(items[0]) + Total(items[1..], f)
  }

  /** The repositories in the order their first worktree was resolved. */
  function FirstSeen(rows: seq<Row>, observed: set<string>): seq<string> {
    if rows == [] then []
    else if rows[0].repoId in observed then FirstSeen(rows[1..], observed)
    else [rows[0].repoId] + FirstSeen(rows[1..], observed + {rows[0].repoId})
  }

  function Group(rows: seq<Row>, repoId: string): seq<Row> {
    if rows == [] then []
    else if rows[0].repoId == repoId then [rows[0]] + Group(rows[1..], repoId)
    else Group(rows[1..], repoId)
  }

  /** Text order by scalar values. */
  predicate IsNotAfter(a: string, b: string) {
    a == [] || (b != [] && (a[0] < b[0] || (a[0] == b[0] && IsNotAfter(a[1..], b[1..]))))
  }

  /** Larger rows first, rows of one size by name. */
  predicate Precedes(a: Row, b: Row) {
    a.size > b.size || (a.size == b.size && IsNotAfter(a.displayName, b.displayName))
  }

  function Inserted(row: Row, sorted: seq<Row>): seq<Row> {
    if sorted == [] || Precedes(row, sorted[0]) then [row] + sorted
    else [sorted[0]] + Inserted(row, sorted[1..])
  }

  /** A stable sort. */
  function Sorted(rows: seq<Row>): seq<Row> {
    if rows == [] then [] else Inserted(rows[0], Sorted(rows[1..]))
  }

  function FirstError(rows: seq<Row>): Option<string> {
    if rows == [] then None
    else if rows[0].error.Some? then rows[0].error
    else FirstError(rows[1..])
  }

  const SIZE := (row: Row) => row.size
  const RECLAIMABLE := (row: Row) => row.reclaimable
  const SCANNED := (row: Row) => if row.ok then 1 else 0
  const UNAVAILABLE := (row: Row) => if row.ok then 0 else 1
  const ONE := (row: Row) => 1

  function Summarized(repoId: string, group: seq<Row>): Summary {
    Summary(repoId, |group|, Total(group, SCANNED), Total(group, UNAVAILABLE),
            Total(group, SIZE) % WIDTH, Total(group, RECLAIMABLE) % WIDTH, FirstError(group))
  }

  function Summaries(repoIds: seq<string>, rows: seq<Row>): seq<Summary> {
    if repoIds == [] then []
    else
      var group := Group(rows, repoIds[0]);
      (if group == [] then [] else [Summarized(repoIds[0], group)]) + Summaries(repoIds[1..], rows)
  }

  function Analyzed(resolved: seq<Row>): Analysis {
    var rows := Sorted(resolved);
    Analysis(Total(rows, SIZE) % WIDTH, Total(rows, RECLAIMABLE) % WIDTH, |rows|, Total(rows, SCANNED),
             Total(rows, UNAVAILABLE), Summaries(FirstSeen(resolved, {}), rows), rows)
  }

  // ---- The code ----

  method RepoIds(resolved: seq<Row>) returns (repoIds: seq<string>)
    ensures repoIds == FirstSeen(resolved, {})
  {
    repoIds := [];
    var observed := {};
    for i := 0 to |resolved|
      invariant repoIds + FirstSeen(resolved[i..], observed) == FirstSeen(resolved, {})
    {
      assert resolved[i..][0] == resolved[i] && resolved[i..][1..] == resolved[i + 1..];
      if resolved[i].repoId !in observed {
        repoIds := repoIds + [resolved[i].repoId];
      } else {
        assert observed + {resolved[i].repoId} == observed;
      }
      observed := observed + {resolved[i].repoId};
    }
  }

  method Analyze(resolved: seq<Row>) returns (analysis: Analysis)
    ensures analysis == Analyzed(resolved)
  {
    var rows := Sorted(resolved);
    var repoIds := RepoIds(resolved);
    hide Group, Summarized, Sorted, FirstSeen, Total;
    var repos := [];
    assert repos + Summaries(repoIds, rows) == Summaries(repoIds, rows) && repoIds[0..] == repoIds;
    for i := 0 to |repoIds|
      invariant repos + Summaries(repoIds[i..], rows) == Summaries(repoIds, rows)
    {
      assert repoIds[i..][0] == repoIds[i] && repoIds[i..][1..] == repoIds[i + 1..];
      SummariesStep(repos, repoIds[i..], rows);
      var group := Group(rows, repoIds[i]);
      if |group| == 0 {
        continue;
      }
      repos := repos + [Summarized(repoIds[i], group)];
    }
    assert repos + [] == repos;
    analysis := Analysis(Total(rows, SIZE) % WIDTH, Total(rows, RECLAIMABLE) % WIDTH, |rows|, Total(rows, SCANNED),
                         Total(rows, UNAVAILABLE), repos, rows);
  }

  lemma SummariesStep(done: seq<Summary>, repoIds: seq<string>, rows: seq<Row>)
    requires repoIds != []
    ensures var group := Group(rows, repoIds[0]);
      done + Summaries(repoIds, rows)
      == (if group == [] then done else done + [Summarized(repoIds[0], group)]) + Summaries(repoIds[1..], rows)
  {
    hide Group, Summarized;
    var group := Group(rows, repoIds[0]);
    var first := if group == [] then [] else [Summarized(repoIds[0], group)];
    assert done + (first + Summaries(repoIds[1..], rows)) == done + first + Summaries(repoIds[1..], rows);
    assert done + [] == done;
  }

  // ---- Sorting ----

  lemma {:induction false} NamesTotal(a: string, b: string)
    ensures IsNotAfter(a, b) || IsNotAfter(b, a)
    ensures IsNotAfter(a, b) && IsNotAfter(b, a) ==> a == b
  {
    if a != [] && b != [] { NamesTotal(a[1..], b[1..]); }
    if a != [] && b != [] && a[0] == b[0] && a[1..] == b[1..] {
      assert a == [a[0]] + a[1..] && b == [b[0]] + b[1..];
    }
  }

  lemma {:induction false} NamesTransitive(a: string, b: string, c: string)
    requires IsNotAfter(a, b) && IsNotAfter(b, c)
    ensures IsNotAfter(a, c)
  {
    if a != [] && a[0] == b[0] == c[0] { NamesTransitive(a[1..], b[1..], c[1..]); }
  }

  predicate IsSorted(rows: seq<Row>) {
    forall i, j :: 0 <= i < j < |rows| ==> Precedes(rows[i], rows[j])
  }

  lemma {:induction false} InsertedKeeps(row: Row, sorted: seq<Row>)
    requires IsSorted(sorted)
    ensures multiset(Inserted(row, sorted)) == multiset{row} + multiset(sorted)
    ensures IsSorted(Inserted(row, sorted))
    decreases sorted
  {
    if sorted == [] {
    } else if Precedes(row, sorted[0]) {
      forall k | 0 <= k < |sorted| ensures Precedes(row, sorted[k]) {
        if k > 0 && row.size == sorted[k].size {
          NamesTransitive(row.displayName, sorted[0].displayName, sorted[k].displayName);
        }
      }
    } else {
      NamesTotal(row.displayName, sorted[0].displayName);
      InsertedKeeps(row, sorted[1..]);
      var rest := Inserted(row, sorted[1..]);
      assert sorted == [sorted[0]] + sorted[1..];
      forall k | 0 <= k < |rest| ensures Precedes(sorted[0], rest[k]) {
        assert rest[k] in multiset(rest);
        assert rest[k] == row || rest[k] in sorted[1..];
      }
    }
  }

  /** The rows are sorted, and none is lost or doubled. */
  lemma {:induction false} SortedKeeps(rows: seq<Row>)
    ensures multiset(Sorted(rows)) == multiset(rows) && IsSorted(Sorted(rows))
    decreases rows
  {
    if rows != [] {
      SortedKeeps(rows[1..]);
      InsertedKeeps(rows[0], Sorted(rows[1..]));
      assert rows == [rows[0]] + rows[1..];
    }
  }

  // ---- Repositories ----

  predicate AreDistinct(ids: seq<string>) {
    forall i, j :: 0 <= i < j < |ids| ==> ids[i] != ids[j]
  }

  lemma {:induction false} FirstSeenOnce(rows: seq<Row>, observed: set<string>)
    ensures AreDistinct(FirstSeen(rows, observed))
    ensures forall id <- FirstSeen(rows, observed) :: id !in observed && exists r :: r in rows && r.repoId == id
    ensures forall r <- rows :: r.repoId in observed || r.repoId in FirstSeen(rows, observed)
    decreases rows
  {
    if rows != [] {
      var row := rows[0];
      FirstSeenOnce(rows[1..], observed);
      FirstSeenOnce(rows[1..], observed + {row.repoId});
      assert row in rows && (forall r <- rows[1..] :: r in rows) && forall r <- rows :: r == row || r in rows[1..];
    }
  }

  function GroupTotals(ids: seq<string>, rows: seq<Row>, f: Row -> nat): nat {
    if ids == [] then 0 else Total(Group(rows, ids[0]), f) + GroupTotals(ids[1..], rows, f)
  }

  lemma {:induction false} OneMoreRow(ids: seq<string>, rows: seq<Row>, f: Row -> nat)
    requires rows != [] && AreDistinct(ids)
    ensures GroupTotals(ids, rows, f)
         == GroupTotals(ids, rows[1..], f) + if rows[0].repoId in ids then f(rows[0]) else 0
    decreases ids
  {
    if ids != [] {
      OneMoreRow(ids[1..], rows, f);
      assert ids == [ids[0]] + ids[1..] && ids[0] !in ids[1..];
      var group := Group(rows[1..], ids[0]);
      assert ([rows[0]] + group)[1..] == group;
    }
  }

  /** Summing group by group is summing all rows, when every row is in one of the groups. */
  lemma {:induction false} GroupsPartition(ids: seq<string>, rows: seq<Row>, f: Row -> nat)
    requires AreDistinct(ids) && forall r <- rows :: r.repoId in ids
    ensures GroupTotals(ids, rows, f) == Total(rows, f)
    decreases rows
  {
    if rows == [] {
      EmptyGroups(ids, f);
    } else {
      OneMoreRow(ids, rows, f);
      assert rows[0] in rows && forall r <- rows[1..] :: r in rows;
      GroupsPartition(ids, rows[1..], f);
    }
  }

  lemma {:induction false} EmptyGroups(ids: seq<string>, f: Row -> nat)
    ensures GroupTotals(ids, [], f) == 0
    decreases ids
  {
    if ids != [] { EmptyGroups(ids[1..], f); }
  }

  lemma {:induction false} GroupIsThere(rows: seq<Row>, row: Row)
    requires row in rows
    ensures Group(rows, row.repoId) != []
    decreases rows
  {
    if rows[0] != row { GroupIsThere(rows[1..], row); }
  }

  lemma {:induction false} SummaryPerRepo(repoIds: seq<string>, rows: seq<Row>)
    requires forall id <- repoIds :: Group(rows, id) != []
    ensures var repos := Summaries(repoIds, rows);
      && |repos| == |repoIds|
      && forall i :: 0 <= i < |repos| ==> repos[i] == Summarized(repoIds[i], Group(rows, repoIds[i]))
    decreases repoIds
  {
    if repoIds != [] {
      hide Group, Summarized;
      assert repoIds[0] in repoIds && forall id <- repoIds[1..] :: id in repoIds;
      SummaryPerRepo(repoIds[1..], rows);
    }
  }

  // ---- Conservation ----

  lemma {:induction false} TotalInserted(row: Row, sorted: seq<Row>, f: Row -> nat)
    ensures Total(Inserted(row, sorted), f) == f(row) + Total(sorted, f)
    decreases sorted
  {
    if sorted == [] || Precedes(row, sorted[0]) {
      assert ([row] + sorted)[1..] == sorted;
    } else {
      TotalInserted(row, sorted[1..], f);
      var rest := Inserted(row, sorted[1..]);
      assert ([sorted[0]] + rest)[1..] == rest;
    }
  }

  lemma {:induction false} TotalSorted(rows: seq<Row>, f: Row -> nat)
    ensures Total(Sorted(rows), f) == Total(rows, f)
    decreases rows
  {
    if rows != [] {
      TotalSorted(rows[1..], f);
      TotalInserted(rows[0], Sorted(rows[1..]), f);
    }
  }

  lemma {:induction false} CountIsTotal(rows: seq<Row>)
    ensures Total(rows, ONE) == |rows|
    ensures Total(rows, SCANNED) + Total(rows, UNAVAILABLE) == |rows|
  {
    if rows != [] { CountIsTotal(rows[1..]); }
  }

  lemma ModAdds(a: nat, b: nat, t: nat)
    requires t % WIDTH == b % WIDTH
    ensures (a % WIDTH + t) % WIDTH == (a + b) % WIDTH
  {
    var q, r, u := a / WIDTH, b / WIDTH, t / WIDTH;
    assert a + b == a % WIDTH + t + WIDTH * (q + r - u);
  }

  lemma {:induction false} ModTotal(repos: seq<Summary>, repoIds: seq<string>, rows: seq<Row>, f: Row -> nat, g: Summary -> nat)
    requires |repos| == |repoIds|
    requires forall i :: 0 <= i < |repos| ==> g(repos[i]) == Total(Group(rows, repoIds[i]), f) % WIDTH
    ensures Total(repos, g) % WIDTH == GroupTotals(repoIds, rows, f) % WIDTH
    decreases repos
  {
    if repos != [] {
      hide Group;
      ModTotal(repos[1..], repoIds[1..], rows, f, g);
      ModAdds(Total(Group(rows, repoIds[0]), f), GroupTotals(repoIds[1..], rows, f), Total(repos[1..], g));
    }
  }

  lemma {:induction false} SameTotal(repos: seq<Summary>, repoIds: seq<string>, rows: seq<Row>, f: Row -> nat, g: Summary -> nat)
    requires |repos| == |repoIds|
    requires forall i :: 0 <= i < |repos| ==> g(repos[i]) == Total(Group(rows, repoIds[i]), f)
    ensures Total(repos, g) == GroupTotals(repoIds, rows, f)
    decreases repos
  {
    if repos != [] { SameTotal(repos[1..], repoIds[1..], rows, f, g); }
  }

  /** The reported rows are the resolved ones, by size, and every repository of a row has exactly one
      summary, of all its rows, in the order of first appearance. */
  lemma AnalysisLists(resolved: seq<Row>)
    ensures var a := Analyzed(resolved);
      multiset(a.rows) == multiset(resolved) && IsSorted(a.rows)
    ensures var ids, a := FirstSeen(resolved, {}), Analyzed(resolved);
      && AreDistinct(ids) && (forall r <- a.rows :: r.repoId in ids) && |a.repos| == |ids|
      && forall i :: 0 <= i < |ids| ==> a.repos[i] == Summarized(ids[i], Group(a.rows, ids[i]))
  {
    var rows, ids := Sorted(resolved), FirstSeen(resolved, {});
    SortedKeeps(resolved);
    FirstSeenOnce(resolved, {});
    hide Sorted, FirstSeen, Group, IsSorted, Summaries, Total, Summarized;
    forall r <- rows ensures r.repoId in ids {
      assert r in multiset(rows);
    }
    forall id <- ids ensures Group(rows, id) != [] {
      var r :| r in resolved && r.repoId == id;
      assert r in multiset(resolved);
      GroupIsThere(rows, r);
    }
    SummaryPerRepo(ids, rows);
  }

  /** The summaries of the repositories add up to the analysis, and the analysis is the total of the
      resolved rows; sums of sizes wrap around. */
  lemma AnalysisConserves(resolved: seq<Row>)
    ensures var a := Analyzed(resolved);
      && a.worktrees == |resolved| == a.scanned + a.unavailable
      && a.total == Total(resolved, SIZE) % WIDTH && a.reclaimable == Total(resolved, RECLAIMABLE) % WIDTH
      && Total(a.repos, (s: Summary) => s.worktrees) == a.worktrees
      && Total(a.repos, (s: Summary) => s.scanned) == a.scanned
      && Total(a.repos, (s: Summary) => s.unavailable) == a.unavailable
      && Total(a.repos, (s: Summary) => s.total) % WIDTH == a.total
      && Total(a.repos, (s: Summary) => s.reclaimable) % WIDTH == a.reclaimable
  {
    hide Sorted, FirstSeen, Group, IsSorted, Summaries, Total, GroupTotals, Summarized;
    var a := Analyzed(resolved);
    AnalysisLists(resolved);
    TotalSorted(resolved, SIZE);
    TotalSorted(resolved, RECLAIMABLE);
    SameLength(a.rows, resolved);
    CountIsTotal(a.rows);
    RepoTotals(FirstSeen(resolved, {}), a.rows, a.repos);
  }

  lemma SameLength(a: seq<Row>, b: seq<Row>)
    requires multiset(a) == multiset(b)
    ensures |a| == |b|
  {
    assert |multiset(a)| == |multiset(b)|;
  }

  lemma RepoTotals(ids: seq<string>, rows: seq<Row>, repos: seq<Summary>)
    requires AreDistinct(ids) && (forall r <- rows :: r.repoId in ids) && |repos| == |ids|
    requires forall i :: 0 <= i < |ids| ==> repos[i] == Summarized(ids[i], Group(rows, ids[i]))
    ensures Total(repos, (s: Summary) => s.worktrees) == Total(rows, ONE)
    ensures Total(repos, (s: Summary) => s.scanned) == Total(rows, SCANNED)
    ensures Total(repos, (s: Summary) => s.unavailable) == Total(rows, UNAVAILABLE)
    ensures Total(repos, (s: Summary) => s.total) % WIDTH == Total(rows, SIZE) % WIDTH
    ensures Total(repos, (s: Summary) => s.reclaimable) % WIDTH == Total(rows, RECLAIMABLE) % WIDTH
  {
    hide Group, Total, GroupTotals;
    forall i | 0 <= i < |ids| ensures repos[i].worktrees == Total(Group(rows, ids[i]), ONE) {
      CountIsTotal(Group(rows, ids[i]));
    }
    GroupsPartition(ids, rows, ONE);
    GroupsPartition(ids, rows, SCANNED);
    GroupsPartition(ids, rows, UNAVAILABLE);
    GroupsPartition(ids, rows, SIZE);
    GroupsPartition(ids, rows, RECLAIMABLE);
    SameTotal(repos, ids, rows, ONE, (s: Summary) => s.worktrees);
    SameTotal(repos, ids, rows, SCANNED, (s: Summary) => s.scanned);
    SameTotal(repos, ids, rows, UNAVAILABLE, (s: Summary) => s.unavailable);
    ModTotal(repos, ids, rows, SIZE, (s: Summary) => s.total);
    ModTotal(repos, ids, rows, RECLAIMABLE, (s: Summary) => s.reclaimable);
  }
}
