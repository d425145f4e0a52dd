/** The in-place edit that marks one project as trusted in a TOML configuration. The specification
    works on the rows of the text: it finds the block of the project, and replaces its trust line,
    inserts one behind its header, or appends a block. The methods work on offsets into the text, as
    the code does, and are proved to compute the same. */
module Toml {
  import opened Text
  import opened TomlSyntax
  import opened TomlScan
  import opened TomlLaws

  const BOM := '\U{feff}'

  // ---- Specification on the rows of a document ----

  function ScanRows(rows: seq<Row>, s: ScanState): ScanState {
    if rows == [] then s else ScanRows(rows[1..], ScanLine(rows[0].text, s))
  }

  /** What a search through structural lines looks for. */
  datatype Goal = Header | Project(path: string) | Trust

  predicate Meets(line: string, goal: Goal) {
    match goal
    case Header => IsTableHeader(line)
    case Project(path) => IsTableHeader(line) && IsHeaderOf(line, path)
    case Trust => IsTrustAssignment(line)
  }

  predicate IsHeaderOf(line: string, path: string) {
    var parsed := ParseProjectHeader(line);
    parsed.Some? && LookupPath(parsed.value) == LookupPath(path)
  }

  /** The first row that meets the goal where the scan is structural, or the number of rows. */
  function Find(rows: seq<Row>, s: ScanState, goal: Goal): (n: nat)
    ensures n <= |rows|
  {
    if rows == [] || (s.IsStructural() && Meets(rows[0].text, goal)) then 0
    else 1 + Find(rows[1..], ScanLine(rows[0].text, s), goal)
  }

  /** A project's header row, the rows of its block, and the rows before and after. */
  datatype Cut = Cut(before: seq<Row>, header: Row, inside: seq<Row>, after: seq<Row>)

  function CutAt(rows: seq<Row>, path: string): Option<Cut> {
    var h := Find(rows, START, Project(path));
    if h == |rows| then None
    else
      var rest := rows[h + 1..];
      var len := Find(rest, ScanLine(rows[h].text, START), Header);
      Some(Cut(rows[..h], rows[h], rest[..len], rest[len..]))
  }

  function Closing(rows: seq<Row>, eol: string): seq<Row> {
    var text := Unlines(rows);
    if rows == [] then []
    else if EndsWith(text, eol + eol) then rows
    else if EndsWith(text, eol) then rows + [Row("", eol)]
    else if EndsWith(text, "\n") then rows + [Row("", eol), Row("", eol)]
    else rows[..|rows| - 1] + [FirstRow(rows[|rows| - 1].Raw() + eol), Row("", eol)]
  }

  function Appended(rows: seq<Row>, eol: string, path: string): seq<Row> {
    Closing(rows, eol) + [Row(ProjectHeader(path), eol), Row(TRUST_LINE, eol)]
  }

  function WithTrust(c: Cut, eol: string): seq<Row> {
    var t := Find(c.inside, START, Trust);
    if t < |c.inside| then
      c.before + [c.header] + c.inside[t := Row(TRUST_LINE, c.inside[t].ending)] + c.after
    else
      c.before + [FirstRow(c.header.text + eol), Row(TRUST_LINE, c.header.ending)] + c.inside + c.after
  }

  /** The rows the scan of the project's block reads, or all of them when there is no block. */
  function Scanned(rows: seq<Row>, path: string): seq<Row> {
    match CutAt(rows, path)
    case None => rows
    case Some(c) => c.before + [c.header] + c.inside
  }

  predicate Panics(rows: seq<Row>, path: string) {
    ScanRows(Scanned(rows, path), START).Panicked?
  }

  function Edited(rows: seq<Row>, eol: string, path: string): seq<Row> {
    match CutAt(rows, path)
    case None => Appended(rows, eol, path)
    case Some(c) => WithTrust(c, eol)
  }

  function Body(content: string): string {
    if [BOM] <= content then content[1..] else content
  }

  predicate Contains(s: string, part: string) {
    part <= s || (s != [] && Contains(s[1..], part))
  }

  function Eol(body: string): string {
    if Contains(body, "\r\n") then "\r\n" else "\n"
  }

  /** The edited text, or None when the scanner panics. */
  function Upsert(content: string, path: string): Option<string> {
    var body := Body(content);
    var rows := Rows(body);
    if Panics(rows, path) then None else Some(Unlines(Edited(rows, Eol(body), path)))
  }

  // ---- Searching piece by piece ----

  lemma {:induction false} ScanConcat(a: seq<Row>, b: seq<Row>, s: ScanState)
    ensures ScanRows(a + b, s) == ScanRows(b, ScanRows(a, s))
    decreases a
  {
    if a == [] {
      assert a + b == b;
    } else {
      assert (a + b)[1..] == a[1..] + b;
      ScanConcat(a[1..], b, ScanLine(a[0].text, s));
    }
  }

  lemma {:induction false} FindConcat(a: seq<Row>, b: seq<Row>, s: ScanState, goal: Goal)
    ensures Find(a + b, s, goal)
         == if Find(a, s, goal) < |a| then Find(a, s, goal) else |a| + Find(b, ScanRows(a, s), goal)
    decreases a
  {
    if a == [] {
      assert a + b == b;
    } else {
      assert (a + b)[0] == a[0] && (a + b)[1..] == a[1..] + b;
      FindConcat(a[1..], b, ScanLine(a[0].text, s), goal);
    }
  }

  lemma {:induction false} FindStopsAt(rows: seq<Row>, s: ScanState, goal: Goal)
    ensures var n := Find(rows, s, goal);
      n < |rows| ==> ScanRows(rows[..n], s).IsStructural() && Meets(rows[n].text, goal)
    ensures Find(rows[..Find(rows, s, goal)], s, goal) == Find(rows, s, goal)
    decreases rows
  {
    if rows != [] && !(s.IsStructural() && Meets(rows[0].text, goal)) {
      var s1 := ScanLine(rows[0].text, s);
      FindStopsAt(rows[1..], s1, goal);
      var n := Find(rows[1..], s1, goal);
      assert rows[..n + 1][1..] == rows[1..][..n];
    }
  }

  lemma {:induction false} PanickedForever(rows: seq<Row>, goal: Goal)
    ensures ScanRows(rows, Panicked) == Panicked && Find(rows, Panicked, goal) == |rows|
    decreases rows
  {
    if rows != [] {
      PanickedForever(rows[1..], goal);
    }
  }

  lemma StructuralIsStart(s: ScanState)
    ensures s.IsStructural() <==> s == START
  {
  }

  /** When a cut is the one the search finds. */
  ghost predicate IsCut(c: Cut, path: string) {
    && Find(c.before, START, Project(path)) == |c.before|
    && ScanRows(c.before, START) == START && Meets(c.header.text, Project(path))
    && Find(c.inside, ScanLine(c.header.text, START), Header) == |c.inside|
    && (c.after != [] ==> ScanRows(c.inside, ScanLine(c.header.text, START)).IsStructural() && IsTableHeader(c.after[0].text))
  }

  lemma CutIs(c: Cut, path: string)
    requires IsCut(c, path)
    ensures CutAt(c.before + [c.header] + c.inside + c.after, path) == Some(c)
  {
    hide Find, ScanRows, ScanLine, IsTableHeader, IsHeaderOf;
    var tail := c.inside + c.after;
    FindConcat(c.before, [c.header] + tail, START, Project(path));
    FindConcat(c.inside, c.after, ScanLine(c.header.text, START), Header);
    CutParts(c.before, c.header, c.inside, c.after);
    FindFirst(c.header, tail, START, Project(path));
    EndsOrMeets(c.after, ScanRows(c.inside, ScanLine(c.header.text, START)), Header);
    hide Meets;
  }

  lemma FindFirst(row: Row, tail: seq<Row>, s: ScanState, goal: Goal)
    requires s.IsStructural() && Meets(row.text, goal)
    ensures Find([row] + tail, s, goal) == 0
  {
  }

  lemma EndsOrMeets(rows: seq<Row>, s: ScanState, goal: Goal)
    requires rows != [] ==> s.IsStructural() && Meets(rows[0].text, goal)
    ensures Find(rows, s, goal) == 0
  {
  }

  lemma CutParts(a: seq<Row>, row: Row, b: seq<Row>, c: seq<Row>)
    ensures var rows := a + [row] + b + c;
      && rows == a + ([row] + (b + c)) && |rows| == |a| + 1 + |b| + |c|
      && rows[..|a|] == a && rows[|a|] == row && rows[|a| + 1..] == b + c
      && (b + c)[..|b|] == b && (b + c)[|b|..] == c
  {
  }

  lemma CutCovers(rows: seq<Row>, path: string)
    requires CutAt(rows, path).Some?
    ensures var c := CutAt(rows, path).value; rows == c.before + [c.header] + c.inside + c.after
  {
    var h := Find(rows, START, Project(path));
    assert rows == rows[..h] + [rows[h]] + rows[h + 1..];
  }

  lemma FoundIsCut(rows: seq<Row>, path: string)
    requires CutAt(rows, path).Some?
    ensures IsCut(CutAt(rows, path).value, path)
  {
    var h := Find(rows, START, Project(path));
    FindStopsAt(rows, START, Project(path));
    StructuralIsStart(ScanRows(rows[..h], START));
    FindStopsAt(rows[h + 1..], ScanLine(rows[h].text, START), Header);
  }

  // ---- The code ----

  /** Where the search stands: the rows read, split at the project's header once it is found. */
  ghost predicate IsReading(content: string, start: nat, done: seq<Row>, rest: seq<Row>, state: ScanState) {
    && start == |Unlines(done)| <= |content|
    && (start > 0 ==> content[start - 1] == '\n' || start == |content|)
    && Rows(content) == done + rest && Rows(content[start..]) == rest
    && state == ScanRows(done, START)
  }

  ghost predicate IsCutSoFar(done: seq<Row>, state: ScanState, path: string, c: Cut) {
    && done == c.before + [c.header] + c.inside
    && Find(c.before, START, Project(path)) == |c.before|
    && ScanRows(c.before, START) == START && Meets(c.header.text, Project(path))
    && Find(c.inside, ScanLine(c.header.text, START), Header) == |c.inside|
    && state == ScanRows(c.inside, ScanLine(c.header.text, START))
    && c.after == []
  }

  lemma SearchStarts(path: string)
    ensures Find([], START, Project(path)) == 0 && Find([], START, Trust) == 0
  {
  }

  lemma ReadingStarts(content: string)
    ensures IsReading(content, 0, [], Rows(content), START)
  {
    assert content[0..] == content;
  }

  lemma ReadRow(content: string, start: nat, done: seq<Row>, rest: seq<Row>, state: ScanState, line: Line)
    requires IsReading(content, start, done, rest, state) && start < |content|
    requires start <= line.end <= line.next <= |content|
    requires var row := FirstRow(content[start..]);
      content[start..line.end] == row.text && content[line.end..line.next] == row.ending && |row.Raw()| == line.next - start
    requires line.next < |content| ==> content[line.next - 1] == '\n'
    requires start < line.next
    ensures rest != [] && rest[0].text == content[start..line.end]
    ensures IsReading(content, line.next, done + [rest[0]], rest[1..], ScanLine(rest[0].text, state))
  {
    hide Rows, FirstRow, ScanRows, Unlines, ScanLine, Row.Raw;
    var row := FirstRow(content[start..]);
    RowsStep(content, start, line.next);
    HeadTail(row, Rows(content[line.next..]));
    AppendRow(done, row);
    Shift(done, rest);
  }

  lemma HeadTail(row: Row, tail: seq<Row>)
    ensures ([row] + tail)[0] == row && ([row] + tail)[1..] == tail
  {
  }

  lemma Shift(done: seq<Row>, rest: seq<Row>)
    requires rest != []
    ensures done + rest == done + [rest[0]] + rest[1..]
  {
  }

  lemma RowsStep(content: string, start: nat, next: nat)
    requires start < next <= |content| && |FirstRow(content[start..]).Raw()| == next - start
    ensures Rows(content[start..]) == [FirstRow(content[start..])] + Rows(content[next..])
  {
    assert content[start..][next - start..] == content[next..];
  }

  lemma AppendRow(done: seq<Row>, row: Row)
    ensures ScanRows(done + [row], START) == ScanLine(row.text, ScanRows(done, START))
    ensures |Unlines(done + [row])| == |Unlines(done)| + |row.Raw()|
  {
    ScanConcat(done, [row], START);
    UnlinesConcat(done, [row]);
    assert Unlines([row]) == row.Raw() + [];
  }

  lemma ReadingEnds(content: string, start: nat, done: seq<Row>, rest: seq<Row>, state: ScanState)
    requires IsReading(content, start, done, rest, state) && start >= |content|
    ensures rest == [] && done == Rows(content) && done + rest == Rows(content)
  {
    assert content[start..] == [];
    assert done + [] == done;
  }

  lemma NoBlock(done: seq<Row>, path: string)
    requires Find(done, START, Project(path)) == |done| && !ScanRows(done, START).Panicked?
    ensures CutAt(done, path) == None && !Panics(done, path)
  {
  }

  lemma HeaderStep(done: seq<Row>, row: Row, path: string)
    requires Find(done, START, Project(path)) == |done|
    ensures var s := ScanRows(done, START);
      if s.IsStructural() && Meets(row.text, Project(path))
      then IsCutSoFar(done + [row], ScanLine(row.text, s), path, Cut(done, row, [], []))
      else Find(done + [row], START, Project(path)) == |done| + 1
  {
    FindConcat(done, [row], START, Project(path));
    StructuralIsStart(ScanRows(done, START));
    assert done + [row] + [] == done + [row];
  }

  lemma BlockStep(done: seq<Row>, row: Row, state: ScanState, path: string, c: Cut)
    requires IsCutSoFar(done, state, path, c)
    requires !(state.IsStructural() && IsTableHeader(row.text))
    ensures IsCutSoFar(done + [row], ScanLine(row.text, state), path, c.(inside := c.inside + [row]))
  {
    var s := ScanLine(c.header.text, START);
    FindConcat(c.inside, [row], s, Header);
    ScanConcat(c.inside, [row], s);
    assert c.before + [c.header] + (c.inside + [row]) == done + [row];
  }

  lemma BlockEnds(done: seq<Row>, rest: seq<Row>, state: ScanState, path: string, c: Cut)
    requires IsCutSoFar(done, state, path, c) && !state.Panicked?
    requires rest != [] ==> state.IsStructural() && IsTableHeader(rest[0].text)
    ensures CutAt(done + rest, path) == Some(c.(after := rest)) && !Panics(done + rest, path)
  {
    CutIs(c.(after := rest), path);
    ScanThrough(c, START);
  }

  /** Once a scanned prefix panics without the search having ended, the whole edit panics. */
  lemma PanicInSearch(done: seq<Row>, rest: seq<Row>, path: string)
    requires Find(done, START, Project(path)) == |done| && ScanRows(done, START).Panicked?
    ensures Panics(done + rest, path)
  {
    PanickedForever(rest, Project(path));
    FindConcat(done, rest, START, Project(path));
    ScanConcat(done, rest, START);
  }

  lemma PanicInBlock(done: seq<Row>, rest: seq<Row>, path: string, c: Cut)
    requires IsCutSoFar(done, Panicked, path, c)
    ensures Panics(done + rest, path)
  {
    var s := ScanLine(c.header.text, START);
    PanickedForever(rest, Header);
    FindConcat(c.inside, rest, s, Header);
    ScanConcat(c.inside, rest, s);
    var whole := c.(inside := c.inside + rest);
    CutIs(whole, path);
    var rows := c.before + [c.header] + (c.inside + rest);
    assert rows + [] == rows;
    Regroup(c.before, [c.header], c.inside, rest);
    ScanThrough(whole, START);
    hide ScanRows, Find;
  }

  lemma Regroup(a: seq<Row>, b: seq<Row>, c: seq<Row>, d: seq<Row>)
    ensures a + b + c + d == a + b + (c + d)
  {
  }

  lemma ScanThrough(c: Cut, s: ScanState)
    ensures ScanRows(c.before + [c.header] + c.inside, s) == ScanRows(c.inside, ScanLine(c.header.text, ScanRows(c.before, s)))
  {
    ScanConcat(c.before + [c.header], c.inside, s);
    ScanConcat(c.before, [c.header], s);
  }

  /** The offsets around a project's block: after the header's text, and at the next table header. */
  method FindProjectBlock(content: string, path: string) returns (panicked: bool, r: Option<(nat, nat)>)
    ensures panicked == Panics(Rows(content), path)
    ensures !panicked ==> (r == match CutAt(Rows(content), path)
      case None => None
      case Some(c) => Some((|Unlines(c.before)| + |c.header.text|, |Unlines(c.before + [c.header] + c.inside)|)))
  {
    hide Rows, FirstRow, ScanRows, ScanLine, Unlines, Find, CutAt, Panics, IsCutSoFar, IsTableHeader, IsHeaderOf;
    var start := 0;
    var state := START;
    var matching: Option<nat> := None;
    ghost var done, rest := [], Rows(content);
    ghost var c := Cut([], Row("", ""), [], []);
    ReadingStarts(content);
    SearchStarts(path);
    while start < |content|
      invariant IsReading(content, start, done, rest, state) && !state.Panicked?
      invariant matching.None? ==> Find(done, START, Project(path)) == |done|
      invariant matching.Some? ==> IsCutSoFar(done, state, path, c) && matching.value == |Unlines(c.before)| + |c.header.text|
      invariant matching.Some? ==> c.after == [] && done == c.before + [c.header] + c.inside
      decreases |content| - start
    {
      var line := NextLine(content, start);
      var text := content[line.start..line.end];
      ReadRow(content, start, done, rest, state, line);
      ghost var row := rest[0];
      if state.IsStructural() && IsTableHeader(text) && matching.Some? {
        BlockEnds(done, rest, state, path, c);
        return false, Some((matching.value, line.start));
      }
      if matching.Some? {
        BlockStep(done, row, state, path, c);
        c := c.(inside := c.inside + [row]);
      } else {
        HeaderStep(done, row, path);
        if state.IsStructural() && IsTableHeader(text) && IsHeaderOf(text, path) {
          matching := Some(line.end);
          c := Cut(done, row, [], []);
        }
      }
      state := ScanLineFrom(state, text);
      done, rest := done + [row], rest[1..];
      if state.Panicked? {
        if matching.Some? { PanicInBlock(done, rest, path, c); } else { PanicInSearch(done, rest, path); }
        return true, None;
      }
      start := line.next;
    }
    ReadingEnds(content, start, done, rest, state);
    if matching.Some? {
      BlockEnds(done, rest, state, path, c);
      return false, Some((matching.value, |content|));
    }
    NoBlock(done, path);
    return false, None;
  }

  /** The offsets of the first structural trust assignment of a block. */
  method FindTrustLine(block: string) returns (panicked: bool, r: Option<(nat, nat)>)
    ensures var rows := Rows(block);
      var t := Find(rows, START, Trust);
      && (panicked ==> ScanRows(rows, START).Panicked?)
      && (!panicked ==> r == if t == |rows| then None
           else Some((|Unlines(rows[..t])|, |Unlines(rows[..t])| + |rows[t].text|)))
  {
    hide Rows, FirstRow, ScanRows, ScanLine, Unlines, Find, IsTrustAssignment;
    var start := 0;
    var state := START;
    ghost var done, rest := [], Rows(block);
    ReadingStarts(block);
    SearchStarts("");
    while start < |block|
      invariant IsReading(block, start, done, rest, state) && !state.Panicked?
      invariant Find(done, START, Trust) == |done|
      decreases |block| - start
    {
      var line := NextLine(block, start);
      var text := block[line.start..line.end];
      ReadRow(block, start, done, rest, state, line);
      ghost var row := rest[0];
      TrustStep(done, rest);
      if state.IsStructural() && IsTrustAssignment(text) {
        return false, Some((line.start, line.end));
      }
      state := ScanLineFrom(state, text);
      done, rest := done + [row], rest[1..];
      if state.Panicked? {
        PanicInTrust(done, rest);
        return true, None;
      }
      start := line.next;
    }
    ReadingEnds(block, start, done, rest, state);
    return false, None;
  }

  lemma PanicInTrust(done: seq<Row>, rest: seq<Row>)
    requires ScanRows(done, START).Panicked?
    ensures ScanRows(done + rest, START).Panicked?
  {
    ScanConcat(done, rest, START);
    PanickedForever(rest, Trust);
  }

  lemma TrustStep(done: seq<Row>, rest: seq<Row>)
    requires Find(done, START, Trust) == |done| && rest != []
    ensures var s := ScanRows(done, START);
      if s.IsStructural() && IsTrustAssignment(rest[0].text)
      then Find(done + rest, START, Trust) == |done| && (done + rest)[..|done|] == done && (done + rest)[|done|] == rest[0]
      else Find(done + [rest[0]], START, Trust) == |done| + 1
  {
    FindConcat(done, rest, START, Trust);
    FindConcat(done, [rest[0]], START, Trust);
  }

  // ---- The edit on the text is the edit on the rows ----

  /** Closing a line with `eol`: the row's text is the line's, but for one carriage return at the seam. */
  lemma CloseRow(raw: string, eol: string)
    requires '\n' !in raw && (eol == "\n" || eol == "\r\n")
    ensures var row := FirstRow(raw + eol);
      && row.Raw() == raw + eol && IsRow(row, false)
      && (raw == row.text || (eol == "\n" && raw == row.text + "\r"))
  {
    ClosedLength(raw, eol);
    FirstRowIsRow(raw + eol);
    hide IsRow, FirstRow;
    assert FirstRow(raw + eol).Raw() == raw + eol;
  }

  lemma ClosedLength(raw: string, eol: string)
    requires '\n' !in raw && (eol == "\n" || eol == "\r\n")
    ensures var row := FirstRow(raw + eol);
      && |row.Raw()| == |raw + eol| && row.ending in {"\n", "\r\n"}
      && (raw == row.text || (eol == "\n" && raw == row.text + "\r"))
      && (IsRow(row, true) ==> IsRow(row, false))
  {
    var line := if eol == "\n" then raw else raw + "\r";
    assert raw + eol == line + "\n";
    ClosedLine(line);
    hide FirstRow;
    assert EndsWithCr(line) ==> line == line[..|line| - 1] + "\r";
  }

  lemma ClosedLine(line: string)
    requires '\n' !in line
    ensures FirstRow(line + "\n")
         == if EndsWithCr(line) then Row(line[..|line| - 1], "\r\n") else Row(line, "\n")
  {
    hide FindNewline;
    var s := line + "\n";
    assert s[..|s| - 1] == line;
    FindNewlineIs(s, |s| - 1);
    assert EndsWithCr(line) ==> s[|s| - 2..|s|] == "\r\n" && s[..|s| - 2] == line[..|line| - 1];
    assert !EndsWithCr(line) ==> s[|s| - 1..|s|] == "\n";
  }

  lemma DocumentPart(rows: seq<Row>, i: nat, j: nat)
    requires IsDocument(rows) && i <= j <= |rows|
    ensures IsDocument(rows[i..j])
    ensures j < |rows| ==> forall k :: i <= k < j ==> IsRow(rows[k], false)
  {
    forall k | i <= k < j ensures IsRow(rows[k], k == j - 1) && (j < |rows| ==> IsRow(rows[k], false)) {
      assert IsRow(rows[k], k == |rows| - 1);
    }
  }

  /** Replacing the middle of a document by rows of the same kind leaves a document. */
  lemma DocumentSplice(a: seq<Row>, m: seq<Row>, c: seq<Row>, m': seq<Row>)
    requires IsDocument(a + m + c) && m != [] && m' != []
    requires forall k :: 0 <= k < |m'| - 1 ==> IsRow(m'[k], false)
    requires IsRow(m[|m| - 1], true) ==> IsRow(m'[|m'| - 1], true)
    requires IsRow(m[|m| - 1], false) ==> IsRow(m'[|m'| - 1], false)
    ensures IsDocument(a + m' + c)
  {
    var rows, rows' := a + m + c, a + m' + c;
    forall i | 0 <= i < |rows'| ensures IsRow(rows'[i], i == |rows'| - 1) {
      if i < |a| {
        assert IsRow(rows[i], i == |rows| - 1) && rows[i] == rows'[i];
      } else if i < |a| + |m'| - 1 {
        assert rows'[i] == m'[i - |a|];
      } else if i == |a| + |m'| - 1 {
        assert IsRow(rows[|a| + |m| - 1], |a| + |m| - 1 == |rows| - 1) && rows[|a| + |m| - 1] == m[|m| - 1];
      } else {
        var j := i - |m'| + |m|;
        assert IsRow(rows[j], j == |rows| - 1) && rows[j] == rows'[i];
      }
    }
  }

  function BlankRow(ending: string): seq<Row> {
    if ending == [] then [] else [Row("", ending)]
  }

  lemma BlankRowReads(ending: string, rows: seq<Row>, s: ScanState, goal: Goal)
    requires goal == Trust
    ensures ScanRows(BlankRow(ending) + rows, s) == ScanRows(rows, s)
    ensures Find(BlankRow(ending) + rows, s, goal) == |BlankRow(ending)| + Find(rows, s, goal)
  {
    assert Trim("") == [];
    FindConcat(BlankRow(ending), rows, s, goal);
    ScanConcat(BlankRow(ending), rows, s);
  }

  /** The text of a block, from the end of the header's text, read as rows. */
  lemma BlockRows(rows: seq<Row>, c: Cut)
    requires IsDocument(rows) && rows == c.before + [c.header] + c.inside + c.after
    ensures Rows(c.header.ending + Unlines(c.inside)) == BlankRow(c.header.ending) + c.inside
  {
    var h := |c.before|;
    var block := BlankRow(c.header.ending) + c.inside;
    assert IsRow(rows[h], h == |rows| - 1) && rows[h] == c.header;
    DocumentPart(rows, h + 1, h + 1 + |c.inside|);
    assert rows[h + 1..h + 1 + |c.inside|] == c.inside;
    if c.header.ending == [] {
      assert block == c.inside && c.inside == [];
    } else {
      forall i | 0 <= i < |block| ensures IsRow(block[i], i == |block| - 1) {
        if i > 0 { assert IsRow(c.inside[i - 1], i - 1 == |c.inside| - 1); }
      }
      DocumentRows(block);
      assert Unlines(block) == c.header.ending + Unlines(c.inside) by {
        assert block[1..] == c.inside;
        assert "" + c.header.ending == c.header.ending;
      }
    }
  }

  /** A document's text around one of its rows. */
  lemma UnlinesAround(a: seq<Row>, row: Row, b: seq<Row>)
    ensures Unlines(a + [row] + b) == Unlines(a) + row.text + (row.ending + Unlines(b))
  {
    UnlinesConcat(a + [row], b);
    UnlinesConcat(a, [row]);
    UnlinesOne(row);
    Regrouped(Unlines(a), row.text, row.ending, Unlines(b));
    hide Unlines;
  }

  lemma Regrouped(a: string, b: string, c: string, d: string)
    ensures a + (b + c) + d == a + b + (c + d)
  {
  }

  lemma UnlinesOne(row: Row)
    ensures Unlines([row]) == row.text + row.ending
  {
    assert Unlines([row]) == row.Raw() + [];
  }

  lemma AppendText(rows: seq<Row>, eol: string, path: string)
    requires IsDocument(rows) && (eol == "\n" || eol == "\r\n")
    ensures var text := Unlines(rows);
      var separator := if rows == [] || EndsWith(text, eol + eol) then "" else if EndsWith(text, eol) then eol else eol + eol;
      Unlines(Appended(rows, eol, path)) == text + separator + (ProjectHeader(path) + eol + TRUST_LINE + eol)
  {
    hide TRUST_LINE, ProjectHeader;
    var text := Unlines(rows);
    var r1, r2 := Row(ProjectHeader(path), eol), Row(TRUST_LINE, eol);
    UnlinesConcat(Closing(rows, eol), [r1, r2]);
    assert [r1, r2] == [r1] + [r2];
    UnlinesConcat([r1], [r2]);
    UnlinesOne(r1);
    UnlinesOne(r2);
    ClosingText(rows, eol);
    hide Unlines, Closing, EndsWith;
  }

  lemma ClosingText(rows: seq<Row>, eol: string)
    requires IsDocument(rows) && (eol == "\n" || eol == "\r\n")
    ensures var text := Unlines(rows);
      Unlines(Closing(rows, eol))
      == text + if rows == [] || EndsWith(text, eol + eol) then "" else if EndsWith(text, eol) then eol else eol + eol
  {
    var text := Unlines(rows);
    var blank := Row("", eol);
    UnlinesOne(blank);
    if rows != [] && !EndsWith(text, eol + eol) {
      UnlinesConcat(rows, [blank]);
      if !EndsWith(text, eol) {
        if EndsWith(text, "\n") {
          UnlinesConcat(rows + [blank], [blank]);
          assert rows + [blank, blank] == rows + [blank] + [blank];
        } else {
          ClosingOpenLine(rows, eol);
        }
      }
    }
  }

  lemma ClosingOpenLine(rows: seq<Row>, eol: string)
    requires IsDocument(rows) && (eol == "\n" || eol == "\r\n")
    requires rows != [] && !EndsWith(Unlines(rows), "\n")
    ensures var last := rows[|rows| - 1];
      && '\n' !in last.Raw() && last.ending in {"\r", ""}
      && Unlines(rows[..|rows| - 1] + [FirstRow(last.Raw() + eol), Row("", eol)]) == Unlines(rows) + (eol + eol)
  {
    var front, last := rows[..|rows| - 1], rows[|rows| - 1];
    assert IsRow(rows[|rows| - 1], true);
    assert rows == front + [last] + [];
    UnlinesAround(front, last, []);
    assert Unlines([]) == "" && last.ending + "" == last.ending;
    LineFeedEnds(Unlines(front), last);
    CloseRow(last.Raw(), eol);
    ClosedText(front, last, FirstRow(last.Raw() + eol), eol);
  }

  lemma ClosedText(front: seq<Row>, last: Row, closed: Row, eol: string)
    requires closed.Raw() == last.Raw() + eol
    ensures Unlines(front + [closed, Row("", eol)]) == Unlines(front) + last.text + last.ending + (eol + eol)
  {
    hide Unlines;
    var blank := Row("", eol);
    assert front + [closed, blank] == front + [closed] + [blank];
    UnlinesAround(front, closed, [blank]);
    UnlinesOne(blank);
    assert "" + eol == eol;
    Regrouped(Unlines(front), closed.text, closed.ending, eol);
    ClosedRaw(Unlines(front), last, closed, eol);
  }

  lemma ClosedRaw(front: string, last: Row, closed: Row, eol: string)
    requires closed.Raw() == last.Raw() + eol
    ensures front + closed.text + (closed.ending + eol) == front + last.text + last.ending + (eol + eol)
  {
    Regrouped(front, closed.text, closed.ending, eol);
    Assoc(front, closed.Raw(), eol);
    Assoc(front, last.Raw(), eol + eol);
    Assoc(last.Raw(), eol, eol);
    Assoc(front, last.text, last.ending);
  }

  lemma LineFeedEnds(front: string, last: Row)
    requires IsRow(last, true)
    ensures '\n' in last.Raw() || last.ending in {"\n", "\r\n"} ==> EndsWith(front + last.text + last.ending, "\n")
  {
    var s := front + last.text + last.ending;
    if last.ending == "\n" || last.ending == "\r\n" {
      assert s[|s| - 1..] == "\n";
    }
  }

  function HeaderEnd(c: Cut): nat {
    |Unlines(c.before)| + |c.header.text|
  }

  function BlockEnd(c: Cut): nat {
    HeaderEnd(c) + |c.header.ending| + |Unlines(c.inside)|
  }

  lemma UnlinesOfBlock(c: Cut)
    ensures Unlines(c.before + [c.header] + c.inside + c.after)
         == Unlines(c.before) + c.header.text + (c.header.ending + Unlines(c.inside) + Unlines(c.after))
    ensures |Unlines(c.before + [c.header] + c.inside)| == BlockEnd(c)
  {
    hide Unlines;
    UnlinesAround(c.before, c.header, c.inside);
    UnlinesAround(c.before, c.header, c.inside + c.after);
    UnlinesConcat(c.inside, c.after);
    assert c.before + [c.header] + c.inside + c.after == c.before + [c.header] + (c.inside + c.after);
    Assoc(c.header.ending, Unlines(c.inside), Unlines(c.after));
  }

  /** The block's own scan agrees with the document's. */
  lemma BlockScan(rows: seq<Row>, path: string, c: Cut)
    requires !Panics(rows, path) && CutAt(rows, path) == Some(c)
    ensures !ScanRows(c.inside, START).Panicked?
  {
    FoundIsCut(rows, path);
    HeaderStaysStructural(c.header.text);
    ScanThrough(c, START);
  }

  /** The slice between the two offsets is the block, read as its rows. */
  lemma BlockOffsets(body: string, path: string, c: Cut)
    requires !Panics(Rows(body), path) && CutAt(Rows(body), path) == Some(c)
    ensures BlockEnd(c) == |Unlines(c.before + [c.header] + c.inside)| <= |body|
    ensures var block := Rows(body[HeaderEnd(c)..BlockEnd(c)]);
      && block == BlankRow(c.header.ending) + c.inside
      && Find(block, START, Trust) == |BlankRow(c.header.ending)| + Find(c.inside, START, Trust)
      && !ScanRows(block, START).Panicked?
  {
    hide Rows, Unlines, ScanRows, Find, CutAt, Panics, BlankRow;
    BlockSlice(body, path, c);
    RowsOfBlock(body, path, c);
    BlockScan(Rows(body), path, c);
    BlankRowReads(c.header.ending, c.inside, START, Trust);
  }

  lemma RowsOfBlock(body: string, path: string, c: Cut)
    requires CutAt(Rows(body), path) == Some(c)
    ensures Rows(c.header.ending + Unlines(c.inside)) == BlankRow(c.header.ending) + c.inside
  {
    RowsAreDocument(body);
    CutCovers(Rows(body), path);
    BlockRows(Rows(body), c);
  }

  lemma BlockSlice(body: string, path: string, c: Cut)
    requires CutAt(Rows(body), path) == Some(c)
    ensures BlockEnd(c) == |Unlines(c.before + [c.header] + c.inside)| <= |body|
    ensures body[HeaderEnd(c)..BlockEnd(c)] == c.header.ending + Unlines(c.inside)
  {
    hide Rows, Unlines, CutAt;
    TextOfBody(body, path, c);
    UnlinesOfBlock(c);
    SliceMiddle(Unlines(c.before) + c.header.text, c.header.ending + Unlines(c.inside), Unlines(c.after));
  }

  lemma SliceMiddle(a: string, b: string, c: string)
    ensures (a + (b + c))[|a|..|a| + |b|] == b
  {
  }

  lemma ReplaceOffsets(body: string, path: string, c: Cut, eol: string, start: nat, end: nat)
    requires CutAt(Rows(body), path) == Some(c)
    requires var t := Find(c.inside, START, Trust);
      && t < |c.inside|
      && start == |Unlines((BlankRow(c.header.ending) + c.inside)[..|BlankRow(c.header.ending)| + t])|
      && end == start + |c.inside[t].text|
    ensures HeaderEnd(c) + end <= |body|
    ensures body[..HeaderEnd(c) + start] + TRUST_LINE + body[HeaderEnd(c) + end..] == Unlines(WithTrust(c, eol))
  {
    hide Rows, Unlines, ScanRows, Find, CutAt, TRUST_LINE, BlankRow, TextBefore, TextAfter, WithTrust;
    var t := Find(c.inside, START, Trust);
    TextOfBody(body, path, c);
    BlankRowLength(c.header.ending, c.inside, t);
    TextReplaced(c, eol);
    SliceAround(TextBefore(c, t), c.inside[t].text, c.inside[t].ending + TextAfter(c, t));
  }

  lemma TextReplaced(c: Cut, eol: string)
    requires Find(c.inside, START, Trust) < |c.inside|
    ensures var t := Find(c.inside, START, Trust);
      && Unlines(WithTrust(c, eol)) == TextBefore(c, t) + TRUST_LINE + (c.inside[t].ending + TextAfter(c, t))
      && Unlines(c.before + [c.header] + c.inside + c.after)
         == TextBefore(c, t) + c.inside[t].text + (c.inside[t].ending + TextAfter(c, t))
      && |TextBefore(c, t)| == HeaderEnd(c) + |c.header.ending| + |Unlines(c.inside[..t])|
  {
    hide Unlines, ScanRows, Find, TRUST_LINE, TextBefore, TextAfter, HeaderEnd;
    var t := Find(c.inside, START, Trust);
    TextAround(c, t, c.inside[t]);
    TextAround(c, t, Row(TRUST_LINE, c.inside[t].ending));
    assert c.inside[t := c.inside[t]] == c.inside;
  }

  lemma TextOfBody(body: string, path: string, c: Cut)
    requires CutAt(Rows(body), path) == Some(c)
    ensures body == Unlines(c.before + [c.header] + c.inside + c.after)
  {
    RowsAreDocument(body);
    CutCovers(Rows(body), path);
  }

  function TextBefore(c: Cut, t: nat): string
    requires t <= |c.inside|
  {
    Unlines(c.before + [c.header] + c.inside[..t])
  }

  function TextAfter(c: Cut, t: nat): string
    requires t < |c.inside|
  {
    Unlines(c.inside[t + 1..] + c.after)
  }

  lemma TextAround(c: Cut, t: nat, row: Row)
    requires t < |c.inside|
    ensures Unlines(c.before + [c.header] + c.inside[t := row] + c.after)
         == TextBefore(c, t) + row.text + (row.ending + TextAfter(c, t))
    ensures |TextBefore(c, t)| == HeaderEnd(c) + |c.header.ending| + |Unlines(c.inside[..t])|
  {
    RowsAround(c, t, row);
    UnlinesAround(c.before + [c.header] + c.inside[..t], row, c.inside[t + 1..] + c.after);
    UnlinesAround(c.before, c.header, c.inside[..t]);
    hide Unlines;
  }

  lemma RowsAround(c: Cut, t: nat, row: Row)
    requires t < |c.inside|
    ensures c.before + [c.header] + c.inside[t := row] + c.after
         == c.before + [c.header] + c.inside[..t] + [row] + (c.inside[t + 1..] + c.after)
  {
  }

  lemma SliceAround(before: string, previous: string, after: string)
    ensures (before + previous + after)[..|before|] == before && (before + previous + after)[|before| + |previous|..] == after
  {
  }

  lemma BlankRowLength(ending: string, rows: seq<Row>, t: nat)
    requires t <= |rows|
    ensures |Unlines((BlankRow(ending) + rows)[..|BlankRow(ending)| + t])| == |ending| + |Unlines(rows[..t])|
  {
    assert (BlankRow(ending) + rows)[..|BlankRow(ending)| + t] == BlankRow(ending) + rows[..t];
    UnlinesConcat(BlankRow(ending), rows[..t]);
    UnlinesOne(Row("", ending));
  }

  lemma InsertOffsets(body: string, path: string, c: Cut, eol: string)
    requires CutAt(Rows(body), path) == Some(c)
    requires Find(c.inside, START, Trust) == |c.inside| && (eol == "\n" || eol == "\r\n")
    ensures HeaderEnd(c) <= |body|
    ensures body[..HeaderEnd(c)] + eol + TRUST_LINE + body[HeaderEnd(c)..] == Unlines(WithTrust(c, eol))
  {
    hide Rows, Unlines, FirstRow, ScanRows, Find, CutAt, TRUST_LINE, IsRow;
    TextOfBody(body, path, c);
    HeaderIsLine(body, path, c);
    CloseRow(c.header.text, eol);
    var closed, trusted := FirstRow(c.header.text + eol), Row(TRUST_LINE, c.header.ending);
    var tail := Unlines(c.inside + c.after);
    TextInserted(c, closed, trusted);
    SliceAround(Unlines(c.before) + c.header.text, "", c.header.ending + tail);
    Woven(Unlines(c.before), c.header.text, eol, closed, TRUST_LINE, c.header.ending + tail);
  }

  lemma TextInserted(c: Cut, closed: Row, trusted: Row)
    ensures Unlines(c.before + [closed, trusted] + c.inside + c.after)
         == Unlines(c.before) + closed.text + (closed.ending + ("" + trusted.text + (trusted.ending + Unlines(c.inside + c.after))))
    ensures Unlines(c.before + [c.header] + c.inside + c.after)
         == Unlines(c.before) + c.header.text + "" + (c.header.ending + Unlines(c.inside + c.after))
  {
    var tail := c.inside + c.after;
    RowsInserted(c, closed, trusted);
    UnlinesAround(c.before, c.header, tail);
    UnlinesAround(c.before, closed, [trusted] + tail);
    UnlinesAround([], trusted, tail);
    assert Unlines([]) == "";
    hide Unlines;
  }

  lemma RowsInserted(c: Cut, closed: Row, trusted: Row)
    ensures c.before + [closed, trusted] + c.inside + c.after == c.before + [closed] + ([trusted] + (c.inside + c.after))
    ensures c.before + [c.header] + c.inside + c.after == c.before + [c.header] + (c.inside + c.after)
    ensures [] + [trusted] + (c.inside + c.after) == [trusted] + (c.inside + c.after)
  {
  }

  lemma Woven(before: string, text: string, eol: string, closed: Row, trust: string, after: string)
    requires closed.Raw() == text + eol
    ensures before + closed.text + (closed.ending + ("" + trust + after)) == before + text + eol + trust + after
  {
    var t := trust + after;
    assert "" + trust + after == t;
    Regrouped(before, closed.text, closed.ending, t);
    Regrouped(before, text, eol, t);
  }

  lemma HeaderIsLine(body: string, path: string, c: Cut)
    requires CutAt(Rows(body), path) == Some(c)
    ensures '\n' !in c.header.text
  {
    var rows := Rows(body);
    RowsAreDocument(body);
    var h := Find(rows, START, Project(path));
    assert IsRow(rows[h], h == |rows| - 1);
  }

  lemma EmptyBody(body: string)
    ensures (body == [] <==> Rows(body) == []) && Unlines([]) == []
  {
  }

  method UpsertProjectTrust(content: string, projectPath: string) returns (r: Option<string>)
    ensures r == Upsert(content, projectPath)
  {
    hide ProjectHeader, TRUST_LINE, Rows, Unlines, Find, ScanRows, CutAt, Panics, Appended, WithTrust, Contains, EndsWith, BlankRow, Body;
    var body := Body(content);
    var eol := Eol(body);
    ghost var rows := Rows(body);
    RowsAreDocument(body);
    var panicked, found := FindProjectBlock(body, projectPath);
    if panicked {
      return None;
    }
    if found.Some? {
      var (headerEnd, blockEnd) := found.value;
      ghost var c := CutAt(rows, projectPath).value;
      BlockOffsets(body, projectPath, c);
      var block := body[headerEnd..blockEnd];
      var blockPanicked, trust := FindTrustLine(block);
      if blockPanicked {
        // The search for the block has already scanned these lines.
        assert false;
      }
      if trust.Some? {
        var (start, end) := trust.value;
        ReplaceOffsets(body, projectPath, c, eol, start, end);
        return Some(body[..headerEnd + start] + TRUST_LINE + body[headerEnd + end..]);
      }
      InsertOffsets(body, projectPath, c, eol);
      return Some(body[..headerEnd] + eol + TRUST_LINE + body[headerEnd..]);
    }
    AppendText(rows, eol, projectPath);
    var block := ProjectHeader(projectPath) + eol + TRUST_LINE + eol;
    EmptyBody(body);
    if body == [] {
      assert body + "" + block == block;
      return Some(block);
    }
    var separator := eol + eol;
    if EndsWith(body, eol + eol) {
      separator := "";
    } else if EndsWith(body, eol) {
      separator := eol;
    }
    return Some(body + separator + block);
  }
}
