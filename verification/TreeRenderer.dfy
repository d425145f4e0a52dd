/** The renderer that walks an accessibility element graph, which may hold cycles, into
    numbered lines, element records and the id of the focused element. */
module TreeRenderer {
  import opened Text

  type Element = int

  /** The children of a tab strip that are kept, and how many tabs are left out. */
  datatype TabStrip = TabStrip(retained: set<nat>, omitted: nat)

  /** What the renderer reads from the accessibility API. The classification of an element, as one to
      elide, as a leaf or as a tab strip, may look at its ancestors too. */
  datatype Graph = Graph(
    elements: set<Element>,
    children: Element -> seq<Element>,
    isElided: (Element, seq<Element>) -> bool,
    stopsHere: (Element, seq<Element>) -> bool,
    tabStrip: (Element, seq<Element>) -> Option<TabStrip>,
    isScrollArea: Element -> bool,
    isTab: Element -> bool,
    isActiveTab: Element -> bool)
  {
    ghost predicate IsClosed() {
      forall e, c :: e in elements && c in children(e) ==> c in elements
    }
  }

  datatype Line =
    | Rendered(depth: nat, index: nat, tab: bool, active: bool)
    | Omitted(depth: nat, count: nat)

  datatype State = State(
    lines: seq<Line>,
    records: map<nat, Element>,
    focusedId: Option<nat>,
    nextIndex: nat,
    truncated: bool,
    maxDepthReached: bool)

  const EMPTY := State([], map[], None, 0, false, false)
  const MAX_NODES := 1200
  const MAX_DEPTH := 64

  // ---- Specification ----

  function Remaining(g: Graph, ancestors: seq<Element>): set<Element> {
    g.elements - set e | e in ancestors
  }

  function AddLine(g: Graph, focused: Option<Element>, e: Element, depth: nat, s: State): State {
    s.(lines := s.lines + [Rendered(depth, s.nextIndex, g.isTab(e), g.isActiveTab(e))],
       records := s.records[s.nextIndex := e],
       focusedId := if focused == Some(e) then Some(s.nextIndex) else s.focusedId,
       nextIndex := s.nextIndex + 1)
  }

  predicate IsDirectTab(line: Line, depth: nat) {
    line.Rendered? && line.tab && line.depth == depth
  }

  predicate IsDropped(line: Line, depth: nat) {
    IsDirectTab(line, depth) && !line.active
  }

  /** The lines that stay, in order. */
  function Kept(lines: seq<Line>, depth: nat): (r: seq<Line>)
    ensures FirstTab(lines, depth) <= |r| <= |lines|
  {
    if lines == [] then []
    else (if IsDropped(lines[0], depth) then [] else [lines[0]]) + Kept(lines[1..], depth)
  }

  function DroppedIndexes(lines: seq<Line>, depth: nat): set<nat> {
    set line | line in lines && IsDropped(line, depth) :: line.index
  }

  /** The position of the first direct tab line, or the number of lines. */
  function FirstTab(lines: seq<Line>, depth: nat): (n: nat)
    ensures n <= |lines|
  {
    if lines == [] || IsDirectTab(lines[0], depth) then 0 else 1 + FirstTab(lines[1..], depth)
  }

  function TabCount(lines: seq<Line>, depth: nat): nat {
    if lines == [] then 0 else (if IsDirectTab(lines[0], depth) then 1 else 0) + TabCount(lines[1..], depth)
  }

  predicate HasActiveTab(lines: seq<Line>, depth: nat) {
    exists line :: line in lines && IsDirectTab(line, depth) && line.active
  }

  function Compacted(s: State, isScrollArea: bool, startLine: nat, depth: nat): (r: State)
    requires startLine <= |s.lines|
    ensures s.lines[..startLine] <= r.lines && r.nextIndex == s.nextIndex
  {
    var tail := s.lines[startLine..];
    var kept := Kept(tail, depth);
    if !isScrollArea || TabCount(tail, depth) < 10 || !HasActiveTab(tail, depth) || |kept| == |tail| then s
    else
      var first := FirstTab(tail, depth);
      var dropped := DroppedIndexes(tail, depth);
      s.(lines := s.lines[..startLine] + kept[..first] + [Omitted(depth, |tail| - |kept|)] + kept[first..],
         records := s.records - dropped,
         focusedId := if s.focusedId.Some? && s.focusedId.value in dropped then None else s.focusedId)
  }

  function Retained(children: seq<Element>, retained: set<nat>, index: nat): (r: seq<Element>)
    ensures forall e :: e in r ==> e in children
  {
    if children == [] then []
    else (if index in retained then [children[0]] else []) + Retained(children[1..], retained, index + 1)
  }

  function Visit(g: Graph, focused: Option<Element>, compact: bool, e: Element, depth: nat, ancestors: seq<Element>, s: State): (r: State)
    requires g.IsClosed() && e in g.elements
    ensures s.lines <= r.lines
    decreases |Remaining(g, ancestors)|, 0, 0
  {
    if s.nextIndex >= MAX_NODES then s.(truncated := true)
    else if depth >= MAX_DEPTH then s.(truncated := true, maxDepthReached := true)
    else if e in ancestors then s
    else
      Descends(g, e, ancestors);
      var path := ancestors + [e];
      if g.isElided(e, ancestors) then VisitAll(g, focused, compact, g.children(e), depth, path, s)
      else
        var s1 := AddLine(g, focused, e, depth, s);
        if g.stopsHere(e, ancestors) then s1 else Below(g, focused, compact, e, depth + 1, path, s1)
  }

  /** The children of a rendered element, and the compaction of browser tabs among them; the path ends
      with the element. */
  function Below(g: Graph, focused: Option<Element>, compact: bool, e: Element, depth: nat, path: seq<Element>, s: State): (r: State)
    requires g.IsClosed() && e in g.elements
    ensures s.lines <= r.lines
    decreases |Remaining(g, path)|, 2, 0
  {
    if compact && g.tabStrip(e, path).Some? then
      var strip := g.tabStrip(e, path).value;
      var s2 := VisitAll(g, focused, compact, Retained(g.children(e), strip.retained, 0), depth, path, s);
      s2.(lines := s2.lines + [Omitted(depth, strip.omitted)])
    else
      var s2 := VisitAll(g, focused, compact, g.children(e), depth, path, s);
      if compact then Compacted(s2, g.isScrollArea(e), |s.lines|, depth) else s2
  }

  function VisitAll(g: Graph, focused: Option<Element>, compact: bool, children: seq<Element>, depth: nat, ancestors: seq<Element>, s: State): (r: State)
    requires g.IsClosed() && forall c :: c in children ==> c in g.elements
    ensures s.lines <= r.lines
    decreases |Remaining(g, ancestors)|, 1, |children|
  {
    if children == [] then s
    else VisitAll(g, focused, compact, children[1..], depth, ancestors, Visit(g, focused, compact, children[0], depth, ancestors, s))
  }

  /** The termination measure: elements that are not ancestors yet, whatever the depth. */
  lemma Descends(g: Graph, e: Element, ancestors: seq<Element>)
    requires e in g.elements && e !in ancestors
    ensures |Remaining(g, ancestors + [e])| < |Remaining(g, ancestors)|
  {
    assert Remaining(g, ancestors + [e]) == Remaining(g, ancestors) - {e};
  }

  // ---- What holds of every state of the renderer ----

  predicate Precedes(line: Line, later: seq<Line>) {
    forall l :: l in later && l.Rendered? && line.Rendered? ==> line.index < l.index
  }

  predicate IsIncreasing(lines: seq<Line>) {
    lines == [] || (Precedes(lines[0], lines[1..]) && IsIncreasing(lines[1..]))
  }

  function Indexes(lines: seq<Line>): set<nat> {
    set line | line in lines && line.Rendered? :: line.index
  }

  /** Each line says of its element whether it is a tab, and whether an active one. */
  ghost predicate LinesTell(g: Graph, lines: seq<Line>, records: map<nat, Element>) {
    forall l :: l in lines && l.Rendered? && l.index in records
      ==> l.tab == g.isTab(records[l.index]) && l.active == g.isActiveTab(records[l.index])
  }

  ghost predicate Valid(g: Graph, focused: Option<Element>, s: State) {
    && s.nextIndex <= MAX_NODES
    && IsIncreasing(s.lines)
    && s.records.Keys == Indexes(s.lines)
    && LinesTell(g, s.lines, s.records)
    && (forall i :: i in s.records ==> i < s.nextIndex && s.records[i] in g.elements)
    && (s.focusedId.Some? ==> s.focusedId.value in s.records && focused == Some(s.records[s.focusedId.value]))
  }

  lemma {:induction false} IncreasingConcat(a: seq<Line>, b: seq<Line>)
    ensures IsIncreasing(a + b) <==> IsIncreasing(a) && IsIncreasing(b) && forall x :: x in a ==> Precedes(x, b)
    decreases a
  {
    if a == [] {
      assert a + b == b;
    } else {
      assert (a + b)[1..] == a[1..] + b;
      IncreasingConcat(a[1..], b);
      assert a == [a[0]] + a[1..];
      assert Precedes(a[0], a[1..] + b) <==> Precedes(a[0], a[1..]) && Precedes(a[0], b);
    }
  }

  lemma IndexesConcat(a: seq<Line>, b: seq<Line>)
    ensures Indexes(a + b) == Indexes(a) + Indexes(b)
  {
  }

  /** Compaction keeps a subsequence, and takes away exactly the indexes of the dropped lines. */
  lemma {:induction false} KeptIncreasing(lines: seq<Line>, depth: nat)
    requires IsIncreasing(lines)
    ensures IsIncreasing(Kept(lines, depth))
    ensures forall l :: l in Kept(lines, depth) <==> l in lines && !IsDropped(l, depth)
    ensures Indexes(Kept(lines, depth)) == Indexes(lines) - DroppedIndexes(lines, depth)
    decreases lines
  {
    if lines != [] {
      KeptIncreasing(lines[1..], depth);
      assert lines == [lines[0]] + lines[1..];
      var kept := Kept(lines[1..], depth);
      if IsDropped(lines[0], depth) {
        assert Kept(lines, depth) == kept;
      } else {
        assert Kept(lines, depth) == [lines[0]] + kept;
        assert Kept(lines, depth)[1..] == kept;
        assert forall l :: l in kept ==> l in lines[1..];
        assert Precedes(lines[0], kept);
      }
      hide IsIncreasing;
      KeptIndexes(lines, depth);
    }
  }

  lemma KeptIndexes(lines: seq<Line>, depth: nat)
    requires lines != [] && IsIncreasing(lines)
    requires forall l :: l in Kept(lines[1..], depth) <==> l in lines[1..] && !IsDropped(l, depth)
    ensures Indexes(Kept(lines, depth)) == Indexes(lines) - DroppedIndexes(lines, depth)
  {
    DistinctIndexes(lines);
    assert lines == [lines[0]] + lines[1..];
    forall i ensures i in Indexes(Kept(lines, depth)) <==> i in Indexes(lines) && i !in DroppedIndexes(lines, depth) {
    }
  }

  lemma {:induction false} DistinctIndexes(lines: seq<Line>)
    requires IsIncreasing(lines)
    ensures forall x, y :: x in lines && y in lines && x.Rendered? && y.Rendered? && x.index == y.index ==> x == y
    decreases lines
  {
    if lines != [] {
      DistinctIndexes(lines[1..]);
      assert lines == [lines[0]] + lines[1..];
    }
  }

  lemma {:induction false} KeptBeforeFirst(lines: seq<Line>, depth: nat)
    ensures Kept(lines, depth)[..FirstTab(lines, depth)] == lines[..FirstTab(lines, depth)]
    decreases lines
  {
    if lines != [] && !IsDirectTab(lines[0], depth) {
      KeptBeforeFirst(lines[1..], depth);
      var n := FirstTab(lines[1..], depth);
      assert Kept(lines, depth) == [lines[0]] + Kept(lines[1..], depth);
      assert lines[..n + 1] == [lines[0]] + lines[1..][..n];
    }
  }

  lemma IncreasingWithOmitted(a: seq<Line>, b: seq<Line>, omitted: Line)
    requires IsIncreasing(a + b) && omitted.Omitted?
    ensures IsIncreasing(a + [omitted] + b) && Indexes(a + [omitted] + b) == Indexes(a + b)
  {
    IncreasingConcat(a, b);
    IncreasingConcat(a + [omitted], b);
    IncreasingConcat(a, [omitted]);
    assert IsIncreasing([omitted]);
    IndexesConcat(a + [omitted], b);
    IndexesConcat(a, [omitted]);
    IndexesConcat(a, b);
  }

  lemma CompactedValid(g: Graph, focused: Option<Element>, s: State, isScrollArea: bool, startLine: nat, depth: nat)
    requires Valid(g, focused, s) && startLine <= |s.lines|
    ensures Valid(g, focused, Compacted(s, isScrollArea, startLine, depth))
  {
    hide IsIncreasing, Kept, FirstTab, Precedes, TabCount, HasActiveTab, DroppedIndexes, Indexes;
    var tail := s.lines[startLine..];
    var r := Compacted(s, isScrollArea, startLine, depth);
    if r != s {
      var before := s.lines[..startLine];
      assert s.lines == before + tail;
      CompactedLines(before, tail, depth);
    }
  }

  /** The compacted lines are increasing, and lose exactly the dropped indexes. */
  lemma CompactedLines(before: seq<Line>, tail: seq<Line>, depth: nat)
    requires IsIncreasing(before + tail)
    ensures var kept, first := Kept(tail, depth), FirstTab(tail, depth);
      var lines := before + kept[..first] + [Omitted(depth, |tail| - |kept|)] + kept[first..];
      && IsIncreasing(lines)
      && Indexes(lines) == Indexes(before + tail) - DroppedIndexes(tail, depth)
      && forall l :: l in lines && l.Rendered? ==> l in before + tail
  {
    hide Kept, FirstTab, DroppedIndexes, Indexes, Precedes, IsIncreasing;
    var kept, first := Kept(tail, depth), FirstTab(tail, depth);
    IncreasingConcat(before, tail);
    IndexesConcat(before, tail);
    KeptIncreasing(tail, depth);
    ApartIndexes(before, tail, depth);
    KeptFollows(before, tail, depth);
    IncreasingConcat(before, kept);
    IndexesConcat(before, kept);
    assert before + kept == (before + kept[..first]) + kept[first..];
    IncreasingWithOmitted(before + kept[..first], kept[first..], Omitted(depth, |tail| - |kept|));
  }

  lemma KeptFollows(before: seq<Line>, tail: seq<Line>, depth: nat)
    requires forall x :: x in before ==> Precedes(x, tail)
    requires forall l :: l in Kept(tail, depth) <==> l in tail && !IsDropped(l, depth)
    ensures forall x :: x in before ==> Precedes(x, Kept(tail, depth))
  {
  }

  /** No line before the compacted stretch shares an index with a dropped line. */
  lemma ApartIndexes(before: seq<Line>, tail: seq<Line>, depth: nat)
    requires forall x :: x in before ==> Precedes(x, tail)
    ensures Indexes(before) !! DroppedIndexes(tail, depth)
  {
  }

  lemma AddLineValid(g: Graph, focused: Option<Element>, e: Element, depth: nat, s: State)
    requires Valid(g, focused, s) && e in g.elements && s.nextIndex < MAX_NODES
    ensures Valid(g, focused, AddLine(g, focused, e, depth, s))
  {
    hide IsIncreasing, Precedes, LinesTell, Indexes, Graph.IsClosed;
    var line := Rendered(depth, s.nextIndex, g.isTab(e), g.isActiveTab(e));
    assert s.nextIndex !in s.records;
    LineFollows(s.lines, line, s.nextIndex);
    LineTells(g, s.lines, s.records, e, line);
  }

  lemma LineFollows(lines: seq<Line>, line: Line, n: nat)
    requires IsIncreasing(lines) && line.Rendered? && line.index == n && forall i <- Indexes(lines) :: i < n
    ensures IsIncreasing(lines + [line]) && Indexes(lines + [line]) == Indexes(lines) + {n}
  {
    IncreasingConcat(lines, [line]);
    IndexesConcat(lines, [line]);
    assert Indexes([line]) == {n};
    forall x | x in lines ensures Precedes(x, [line]) {
      assert x.Rendered? ==> x.index in Indexes(lines);
    }
    assert IsIncreasing([line]);
  }

  lemma LineTells(g: Graph, lines: seq<Line>, records: map<nat, Element>, e: Element, line: Line)
    requires LinesTell(g, lines, records) && records.Keys == Indexes(lines)
    requires line.Rendered? && line.index !in records && line.tab == g.isTab(e) && line.active == g.isActiveTab(e)
    ensures LinesTell(g, lines + [line], records[line.index := e])
  {
    forall l | l in lines && l.Rendered? ensures l.index in records {
      assert l.index in Indexes(lines);
    }
  }

  lemma AddOmittedValid(g: Graph, focused: Option<Element>, s: State, omitted: Line)
    requires Valid(g, focused, s) && omitted.Omitted?
    ensures Valid(g, focused, s.(lines := s.lines + [omitted]))
  {
    assert s.lines + [] == s.lines;
    assert s.lines + [omitted] + [] == s.lines + [omitted];
    IncreasingWithOmitted(s.lines, [], omitted);
  }

  lemma FlagsValid(g: Graph, focused: Option<Element>, s: State)
    requires Valid(g, focused, s)
    ensures Valid(g, focused, s.(truncated := true)) && Valid(g, focused, s.(truncated := true, maxDepthReached := true))
  {
  }

  /** Rendering any element of a closed graph keeps the lines, the records and the focus in step. */
  lemma {:induction false} VisitValid(g: Graph, focused: Option<Element>, compact: bool, e: Element, depth: nat, ancestors: seq<Element>, s: State)
    requires g.IsClosed() && e in g.elements && Valid(g, focused, s)
    ensures Valid(g, focused, Visit(g, focused, compact, e, depth, ancestors, s))
    decreases |Remaining(g, ancestors)|, 0, 0
  {
    FlagsValid(g, focused, s);
    hide Valid, VisitAll, AddLine, Below, Remaining;
    if s.nextIndex < MAX_NODES && depth < MAX_DEPTH && e !in ancestors {
      Descends(g, e, ancestors);
      if g.isElided(e, ancestors) {
        VisitAllValid(g, focused, compact, g.children(e), depth, ancestors + [e], s);
      } else {
        RenderedValid(g, focused, compact, e, depth, ancestors + [e], s);
      }
    }
  }

  lemma {:induction false} RenderedValid(g: Graph, focused: Option<Element>, compact: bool, e: Element, depth: nat, path: seq<Element>, s: State)
    requires g.IsClosed() && e in g.elements && Valid(g, focused, s) && s.nextIndex < MAX_NODES
    ensures Valid(g, focused, AddLine(g, focused, e, depth, s))
    ensures Valid(g, focused, Below(g, focused, compact, e, depth + 1, path, AddLine(g, focused, e, depth, s)))
    decreases |Remaining(g, path)|, 3, 0
  {
    AddLineValid(g, focused, e, depth, s);
    hide Valid, VisitAll, AddLine, Below, Remaining;
    BelowValid(g, focused, compact, e, depth + 1, path, AddLine(g, focused, e, depth, s));
  }

  lemma {:induction false} BelowValid(g: Graph, focused: Option<Element>, compact: bool, e: Element, depth: nat, path: seq<Element>, s: State)
    requires g.IsClosed() && e in g.elements && Valid(g, focused, s)
    ensures Valid(g, focused, Below(g, focused, compact, e, depth, path, s))
    decreases |Remaining(g, path)|, 2, 0
  {
    hide Valid, VisitAll, Compacted;
    if compact && g.tabStrip(e, path).Some? {
      var strip := g.tabStrip(e, path).value;
      var kept := Retained(g.children(e), strip.retained, 0);
      VisitAllValid(g, focused, compact, kept, depth, path, s);
      AddOmittedValid(g, focused, VisitAll(g, focused, compact, kept, depth, path, s), Omitted(depth, strip.omitted));
    } else {
      VisitAllValid(g, focused, compact, g.children(e), depth, path, s);
      var s2 := VisitAll(g, focused, compact, g.children(e), depth, path, s);
      CompactedValid(g, focused, s2, g.isScrollArea(e), |s.lines|, depth);
    }
  }

  lemma {:induction false} VisitAllValid(g: Graph, focused: Option<Element>, compact: bool, children: seq<Element>, depth: nat, ancestors: seq<Element>, s: State)
    requires g.IsClosed() && (forall c :: c in children ==> c in g.elements) && Valid(g, focused, s)
    ensures Valid(g, focused, VisitAll(g, focused, compact, children, depth, ancestors, s))
    decreases |Remaining(g, ancestors)|, 1, |children|
  {
    if children != [] {
      VisitValid(g, focused, compact, children[0], depth, ancestors, s);
      VisitAllValid(g, focused, compact, children[1..], depth, ancestors, Visit(g, focused, compact, children[0], depth, ancestors, s));
    }
  }

  // ---- Nothing visible is lost ----

  /** The children that are visited below an element: all, or those that its tab strip retains. */
  function Visited(g: Graph, compact: bool, e: Element, ancestors: seq<Element>): (r: seq<Element>)
    ensures forall c :: c in r ==> c in g.children(e)
  {
    var strip := g.tabStrip(e, ancestors + [e]);
    if compact && !g.isElided(e, ancestors) && strip.Some? then Retained(g.children(e), strip.value.retained, 0)
    else g.children(e)
  }

  /** A walk from the first element to the last: child to child, through elements that are not
      rendered as leaves, never back to an ancestor, and ending at a rendered element. */
  ghost predicate IsWalk(g: Graph, compact: bool, walk: seq<Element>, ancestors: seq<Element>)
    decreases walk
  {
    && walk != [] && walk[0] !in ancestors
    && (|walk| == 1 ==> !g.isElided(walk[0], ancestors))
    && (|walk| > 1 ==>
          && walk[1] in Visited(g, compact, walk[0], ancestors)
          && (g.isElided(walk[0], ancestors) || !g.stopsHere(walk[0], ancestors))
          && IsWalk(g, compact, walk[1..], ancestors + [walk[0]]))
  }

  /** What the compaction of browser tabs may take away. */
  ghost predicate MayGo(g: Graph, compact: bool, e: Element) {
    compact && g.isTab(e) && !g.isActiveTab(e)
  }

  ghost predicate IsShown(e: Element, s: State) {
    e in s.records.Values
  }

  /** Records are only ever added, but for those of inactive tabs, and a cut is never forgotten. */
  ghost predicate Grows(g: Graph, compact: bool, s: State, r: State) {
    && (s.truncated ==> r.truncated)
    && forall i :: i in s.records ==> (i in r.records && r.records[i] == s.records[i]) || MayGo(g, compact, s.records[i])
  }

  lemma GrowsFurther(g: Graph, compact: bool, s: State, t: State, r: State)
    requires Grows(g, compact, s, t) && Grows(g, compact, t, r)
    ensures Grows(g, compact, s, r)
  {
  }

  lemma AddLineGrows(g: Graph, focused: Option<Element>, compact: bool, e: Element, depth: nat, s: State)
    requires Valid(g, focused, s)
    ensures Grows(g, compact, s, AddLine(g, focused, e, depth, s)) && Grows(g, compact, s, s)
    ensures Grows(g, compact, s, s.(truncated := true))
    ensures Grows(g, compact, s, s.(truncated := true, maxDepthReached := true))
  {
    assert s.nextIndex !in s.records;
  }

  lemma CompactedGrows(g: Graph, focused: Option<Element>, s: State, isScrollArea: bool, startLine: nat, depth: nat)
    requires Valid(g, focused, s) && startLine <= |s.lines|
    ensures Grows(g, true, s, Compacted(s, isScrollArea, startLine, depth))
  {
    hide IsIncreasing, Kept, FirstTab, Precedes, TabCount, HasActiveTab;
    var tail := s.lines[startLine..];
    assert forall l :: l in tail ==> l in s.lines;
    forall i | i in s.records && i in DroppedIndexes(tail, depth) ensures MayGo(g, true, s.records[i]) {
      var l :| l in tail && IsDropped(l, depth) && l.index == i;
      assert l in s.lines;
    }
    hide DroppedIndexes, MayGo, Indexes;
  }

  /** A visit only grows the state. */
  lemma {:induction false} VisitGrows(g: Graph, focused: Option<Element>, compact: bool, e: Element, depth: nat, ancestors: seq<Element>, s: State)
    requires g.IsClosed() && e in g.elements && Valid(g, focused, s)
    ensures Grows(g, compact, s, Visit(g, focused, compact, e, depth, ancestors, s))
    decreases |Remaining(g, ancestors)|, 0, 0
  {
    hide Valid, VisitAll, Grows, AddLine, Remaining, Below;
    AddLineGrows(g, focused, compact, e, depth, s);
    if s.nextIndex < MAX_NODES && depth < MAX_DEPTH && e !in ancestors {
      Descends(g, e, ancestors);
      var path := ancestors + [e];
      if g.isElided(e, ancestors) {
        VisitAllGrows(g, focused, compact, g.children(e), depth, path, s);
      } else {
        var s1 := AddLine(g, focused, e, depth, s);
        AddLineValid(g, focused, e, depth, s);
        if !g.stopsHere(e, ancestors) {
          BelowGrows(g, focused, compact, e, depth + 1, path, s1);
          GrowsFurther(g, compact, s, s1, Below(g, focused, compact, e, depth + 1, path, s1));
        }
      }
    }
  }

  lemma {:induction false} BelowGrows(g: Graph, focused: Option<Element>, compact: bool, e: Element, depth: nat, path: seq<Element>, s: State)
    requires g.IsClosed() && e in g.elements && Valid(g, focused, s)
    ensures Grows(g, compact, s, Below(g, focused, compact, e, depth, path, s))
    decreases |Remaining(g, path)|, 2, 0
  {
    hide Valid, VisitAll, Remaining, Compacted;
    if compact && g.tabStrip(e, path).Some? {
      VisitAllGrows(g, focused, compact, Retained(g.children(e), g.tabStrip(e, path).value.retained, 0), depth, path, s);
    } else {
      VisitAllGrows(g, focused, compact, g.children(e), depth, path, s);
      var s2 := VisitAll(g, focused, compact, g.children(e), depth, path, s);
      VisitAllValid(g, focused, compact, g.children(e), depth, path, s);
      CompactedGrows(g, focused, s2, g.isScrollArea(e), |s.lines|, depth);
      hide Grows;
      if compact { GrowsFurther(g, compact, s, s2, Compacted(s2, g.isScrollArea(e), |s.lines|, depth)); }
    }
  }

  lemma {:induction false} VisitAllGrows(g: Graph, focused: Option<Element>, compact: bool, children: seq<Element>, depth: nat, ancestors: seq<Element>, s: State)
    requires g.IsClosed() && (forall c :: c in children ==> c in g.elements) && Valid(g, focused, s)
    ensures Grows(g, compact, s, VisitAll(g, focused, compact, children, depth, ancestors, s))
    decreases |Remaining(g, ancestors)|, 1, |children|
  {
    if children != [] {
      var s1 := Visit(g, focused, compact, children[0], depth, ancestors, s);
      VisitGrows(g, focused, compact, children[0], depth, ancestors, s);
      VisitValid(g, focused, compact, children[0], depth, ancestors, s);
      VisitAllGrows(g, focused, compact, children[1..], depth, ancestors, s1);
      GrowsFurther(g, compact, s, s1, VisitAll(g, focused, compact, children[1..], depth, ancestors, s1));
    }
  }

  /** Every element at the end of a walk from the root gets a record, unless the tree is reported
      as truncated; the compaction of tabs takes none but an inactive tab. */
  lemma {:induction false} WalkIsShown(g: Graph, focused: Option<Element>, compact: bool, walk: seq<Element>, depth: nat, ancestors: seq<Element>, s: State)
    requires g.IsClosed() && IsWalk(g, compact, walk, ancestors) && walk[0] in g.elements && Valid(g, focused, s)
    requires !MayGo(g, compact, walk[|walk| - 1])
    ensures var r := Visit(g, focused, compact, walk[0], depth, ancestors, s);
      r.truncated || IsShown(walk[|walk| - 1], r)
    decreases |Remaining(g, ancestors)|, 0, 0
  {
    var e := walk[0];
    hide Valid, Remaining, VisitAll, Below, Grows, MayGo, AddLine, IsWalk;
    WalkBegins(g, compact, walk, ancestors);
    if s.nextIndex < MAX_NODES && depth < MAX_DEPTH {
      Descends(g, e, ancestors);
      var path := ancestors + [e];
      if g.isElided(e, ancestors) {
        WalkIsShownAmong(g, focused, compact, walk[1..], g.children(e), depth, path, s);
      } else {
        AddLineValid(g, focused, e, depth, s);
        if |walk| > 1 {
          WalkIsShownBelow(g, focused, compact, walk, depth + 1, ancestors, AddLine(g, focused, e, depth, s));
        } else {
          LastIsShown(g, focused, compact, e, depth, path, s);
        }
      }
    }
  }

  lemma LastIsShown(g: Graph, focused: Option<Element>, compact: bool, e: Element, depth: nat, path: seq<Element>, s: State)
    requires g.IsClosed() && e in g.elements && !MayGo(g, compact, e) && Valid(g, focused, AddLine(g, focused, e, depth, s))
    ensures IsShown(e, AddLine(g, focused, e, depth, s))
    ensures IsShown(e, Below(g, focused, compact, e, depth + 1, path, AddLine(g, focused, e, depth, s)))
  {
    LineIsShown(g, focused, e, depth, s);
    hide Valid, MayGo, AddLine, Below, Grows;
    var s1 := AddLine(g, focused, e, depth, s);
    BelowGrows(g, focused, compact, e, depth + 1, path, s1);
    ShownStays(g, compact, e, s1, Below(g, focused, compact, e, depth + 1, path, s1));
  }

  lemma WalkBegins(g: Graph, compact: bool, walk: seq<Element>, ancestors: seq<Element>)
    requires IsWalk(g, compact, walk, ancestors)
    ensures walk[0] !in ancestors && (|walk| == 1 ==> !g.isElided(walk[0], ancestors))
    ensures |walk| > 1 ==>
      && IsWalk(g, compact, walk[1..], ancestors + [walk[0]]) && walk[1..][0] in Visited(g, compact, walk[0], ancestors)
      && walk[1..][|walk| - 2] == walk[|walk| - 1] && (g.isElided(walk[0], ancestors) || !g.stopsHere(walk[0], ancestors))
    ensures g.isElided(walk[0], ancestors) ==> Visited(g, compact, walk[0], ancestors) == g.children(walk[0])
  {
  }

  lemma LineIsShown(g: Graph, focused: Option<Element>, e: Element, depth: nat, s: State)
    ensures IsShown(e, AddLine(g, focused, e, depth, s))
  {
    assert AddLine(g, focused, e, depth, s).records[s.nextIndex] == e;
  }

  lemma {:induction false} WalkIsShownBelow(g: Graph, focused: Option<Element>, compact: bool, walk: seq<Element>, depth: nat, ancestors: seq<Element>, s: State)
    requires g.IsClosed() && walk != [] && walk[0] in g.elements && walk[0] !in ancestors && Valid(g, focused, s)
    requires |walk| > 1 && IsWalk(g, compact, walk, ancestors) && !g.isElided(walk[0], ancestors)
    requires !MayGo(g, compact, walk[|walk| - 1])
    ensures var r := Below(g, focused, compact, walk[0], depth, ancestors + [walk[0]], s);
      r.truncated || IsShown(walk[|walk| - 1], r)
    decreases |Remaining(g, ancestors + [walk[0]])|, 2, 0
  {
    var e, path := walk[0], ancestors + [walk[0]];
    hide Valid, Remaining, VisitAll, MayGo, Compacted, IsWalk;
    WalkBegins(g, compact, walk, ancestors);
    var visited := Visited(g, compact, e, ancestors);
    WalkIsShownAmong(g, focused, compact, walk[1..], visited, depth, path, s);
    if compact && g.tabStrip(e, path).None? {
      var s2 := VisitAll(g, focused, compact, visited, depth, path, s);
      VisitAllValid(g, focused, compact, visited, depth, path, s);
      CompactedGrows(g, focused, s2, g.isScrollArea(e), |s.lines|, depth);
      ShownStays(g, compact, walk[|walk| - 1], s2, Compacted(s2, g.isScrollArea(e), |s.lines|, depth));
    }
  }

  lemma {:induction false} WalkIsShownAmong(g: Graph, focused: Option<Element>, compact: bool, walk: seq<Element>, children: seq<Element>, depth: nat, ancestors: seq<Element>, s: State)
    requires g.IsClosed() && IsWalk(g, compact, walk, ancestors) && walk[0] in children && Valid(g, focused, s)
    requires (forall c :: c in children ==> c in g.elements) && !MayGo(g, compact, walk[|walk| - 1])
    ensures var r := VisitAll(g, focused, compact, children, depth, ancestors, s);
      r.truncated || IsShown(walk[|walk| - 1], r)
    decreases |Remaining(g, ancestors)|, 1, |children|
  {
    assert walk != [];
    hide Valid, Remaining, Visit, MayGo, IsWalk;
    var s1 := Visit(g, focused, compact, children[0], depth, ancestors, s);
    VisitValid(g, focused, compact, children[0], depth, ancestors, s);
    if children[0] == walk[0] {
      WalkIsShown(g, focused, compact, walk, depth, ancestors, s);
      VisitAllGrows(g, focused, compact, children[1..], depth, ancestors, s1);
      ShownStays(g, compact, walk[|walk| - 1], s1, VisitAll(g, focused, compact, children[1..], depth, ancestors, s1));
    } else {
      WalkIsShownAmong(g, focused, compact, walk, children[1..], depth, ancestors, s1);
    }
  }

  lemma ShownStays(g: Graph, compact: bool, e: Element, s: State, r: State)
    requires Grows(g, compact, s, r) && !MayGo(g, compact, e)
    ensures s.truncated ==> r.truncated
    ensures IsShown(e, s) ==> IsShown(e, r)
  {
    if IsShown(e, s) {
      var i :| i in s.records && s.records[i] == e;
      assert r.records[i] == e;
    }
  }

  // ---- Nothing else is shown, and nothing is cut without need ----

  ghost predicate EndsWalk(g: Graph, compact: bool, e: Element, ancestors: seq<Element>, end: Element) {
    exists walk :: IsWalk(g, compact, walk, ancestors) && walk[0] == e && walk[|walk| - 1] == end
  }

  /** A way down from the first element: like a walk, but every element on it has its children
      visited, and the last one has some. */
  ghost predicate IsTrail(g: Graph, compact: bool, trail: seq<Element>, ancestors: seq<Element>)
    decreases trail
  {
    && trail != [] && trail[0] !in ancestors && (g.isElided(trail[0], ancestors) || !g.stopsHere(trail[0], ancestors))
    && (if |trail| == 1 then Visited(g, compact, trail[0], ancestors) != []
        else trail[1] in Visited(g, compact, trail[0], ancestors) && IsTrail(g, compact, trail[1..], ancestors + [trail[0]]))
  }

  /** How many elements of a trail are rendered. */
  ghost function RenderedOn(g: Graph, trail: seq<Element>, ancestors: seq<Element>): nat
    decreases trail
  {
    if trail == [] then 0
    else (if g.isElided(trail[0], ancestors) then 0 else 1) + RenderedOn(g, trail[1..], ancestors + [trail[0]])
  }

  /** Whether visiting an element leads to one below as many rendered elements as asked for. */
  ghost predicate LeadsDeep(g: Graph, compact: bool, e: Element, ancestors: seq<Element>, levels: int) {
    levels <= 0 || exists trail :: IsTrail(g, compact, trail, ancestors) && trail[0] == e && RenderedOn(g, trail, ancestors) == levels
  }

  lemma WalkFurther(g: Graph, compact: bool, e: Element, c: Element, ancestors: seq<Element>, end: Element)
    requires EndsWalk(g, compact, c, ancestors + [e], end) && c in Visited(g, compact, e, ancestors) && e !in ancestors
    requires g.isElided(e, ancestors) || !g.stopsHere(e, ancestors)
    ensures EndsWalk(g, compact, e, ancestors, end)
  {
    var walk :| IsWalk(g, compact, walk, ancestors + [e]) && walk[0] == c && walk[|walk| - 1] == end;
    assert ([e] + walk)[1..] == walk && ([e] + walk)[|walk|] == end;
    assert IsWalk(g, compact, [e] + walk, ancestors);
  }

  lemma DeepFurther(g: Graph, compact: bool, e: Element, c: Element, ancestors: seq<Element>, levels: int)
    requires c in Visited(g, compact, e, ancestors) && e !in ancestors && levels > 0
    requires g.isElided(e, ancestors) || !g.stopsHere(e, ancestors)
    requires LeadsDeep(g, compact, c, ancestors + [e], if g.isElided(e, ancestors) then levels else levels - 1)
    ensures LeadsDeep(g, compact, e, ancestors, levels)
  {
    if levels == 1 && !g.isElided(e, ancestors) {
      assert [e][1..] == [];
      assert IsTrail(g, compact, [e], ancestors) && RenderedOn(g, [e], ancestors) == 1;
    } else {
      var trail :| IsTrail(g, compact, trail, ancestors + [e]) && trail[0] == c
        && RenderedOn(g, trail, ancestors + [e]) == if g.isElided(e, ancestors) then levels else levels - 1;
      assert ([e] + trail)[1..] == trail;
      assert IsTrail(g, compact, [e] + trail, ancestors);
    }
  }

  /** What a visit of an element adds: records at the ends of walks, and a cut only when all numbers
      are used or the depth is. */
  ghost predicate AddsOnly(g: Graph, compact: bool, e: Element, ancestors: seq<Element>, levels: int, s: State, r: State) {
    && s.nextIndex <= r.nextIndex
    && (forall x <- r.records.Values :: x in s.records.Values || EndsWalk(g, compact, e, ancestors, x))
    && (r.truncated ==> s.truncated || r.nextIndex >= MAX_NODES || LeadsDeep(g, compact, e, ancestors, levels))
  }

  ghost predicate AddsOnlyAmong(g: Graph, compact: bool, children: seq<Element>, ancestors: seq<Element>, levels: int, s: State, r: State) {
    && s.nextIndex <= r.nextIndex
    && (forall x <- r.records.Values :: x in s.records.Values || exists c :: c in children && EndsWalk(g, compact, c, ancestors, x))
    && (r.truncated ==> s.truncated || r.nextIndex >= MAX_NODES
                        || exists c :: c in children && LeadsDeep(g, compact, c, ancestors, levels))
  }

  lemma {:induction false} VisitAddsOnly(g: Graph, focused: Option<Element>, compact: bool, e: Element, depth: nat, ancestors: seq<Element>, s: State)
    requires g.IsClosed() && e in g.elements
    ensures AddsOnly(g, compact, e, ancestors, MAX_DEPTH - depth, s, Visit(g, focused, compact, e, depth, ancestors, s))
    decreases |Remaining(g, ancestors)|, 0, 0
  {
    hide EndsWalk, LeadsDeep, Remaining;
    if depth >= MAX_DEPTH {
      assert LeadsDeep(g, compact, e, ancestors, MAX_DEPTH - depth) by { DeepAlready(g, compact, e, ancestors, MAX_DEPTH - depth); }
    } else if s.nextIndex < MAX_NODES && e !in ancestors {
      Descends(g, e, ancestors);
      var path := ancestors + [e];
      if g.isElided(e, ancestors) {
        VisitAllAddsOnly(g, focused, compact, g.children(e), depth, path, s);
        AddsBelow(g, compact, e, ancestors, g.children(e), MAX_DEPTH - depth, s, Visit(g, focused, compact, e, depth, ancestors, s));
      } else {
        var s1 := AddLine(g, focused, e, depth, s);
        LineAddsOnly(g, focused, compact, e, depth, ancestors, s);
        if !g.stopsHere(e, ancestors) {
          BelowAddsOnly(g, focused, compact, e, depth + 1, ancestors, s1);
          var r := Below(g, focused, compact, e, depth + 1, path, s1);
          AddsBelow(g, compact, e, ancestors, Visited(g, compact, e, ancestors), MAX_DEPTH - depth, s1, r);
          AddsFurther(g, compact, e, ancestors, MAX_DEPTH - depth, s, s1, r);
        }
      }
    }
  }

  lemma DeepAlready(g: Graph, compact: bool, e: Element, ancestors: seq<Element>, levels: int)
    requires levels <= 0
    ensures LeadsDeep(g, compact, e, ancestors, levels)
  {
  }

  lemma LineAddsOnly(g: Graph, focused: Option<Element>, compact: bool, e: Element, depth: nat, ancestors: seq<Element>, s: State)
    requires e !in ancestors && !g.isElided(e, ancestors) && s.nextIndex < MAX_NODES
    ensures AddsOnly(g, compact, e, ancestors, MAX_DEPTH - depth, s, AddLine(g, focused, e, depth, s))
  {
    assert IsWalk(g, compact, [e], ancestors);
    assert EndsWalk(g, compact, e, ancestors, e) by { assert [e][|[e]| - 1] == e; }
    hide EndsWalk, LeadsDeep;
  }

  lemma AddsFurther(g: Graph, compact: bool, e: Element, ancestors: seq<Element>, levels: int, s: State, t: State, r: State)
    requires AddsOnly(g, compact, e, ancestors, levels, s, t) && AddsOnly(g, compact, e, ancestors, levels, t, r)
    ensures AddsOnly(g, compact, e, ancestors, levels, s, r)
  {
    hide EndsWalk, LeadsDeep;
  }

  /** What is added among the children is added below their parent. */
  lemma AddsBelow(g: Graph, compact: bool, e: Element, ancestors: seq<Element>, children: seq<Element>, levels: int, s: State, r: State)
    requires AddsOnlyAmong(g, compact, children, ancestors + [e], if g.isElided(e, ancestors) then levels else levels - 1, s, r)
    requires (forall c <- children :: c in Visited(g, compact, e, ancestors)) && e !in ancestors && levels > 0
    requires g.isElided(e, ancestors) || !g.stopsHere(e, ancestors)
    ensures AddsOnly(g, compact, e, ancestors, levels, s, r)
  {
    hide EndsWalk, LeadsDeep;
    forall x <- r.records.Values ensures x in s.records.Values || EndsWalk(g, compact, e, ancestors, x) {
      if x !in s.records.Values {
        var c :| c in children && EndsWalk(g, compact, c, ancestors + [e], x);
        WalkFurther(g, compact, e, c, ancestors, x);
      }
    }
    if r.truncated && !s.truncated && r.nextIndex < MAX_NODES {
      var c :| c in children && LeadsDeep(g, compact, c, ancestors + [e], if g.isElided(e, ancestors) then levels else levels - 1);
      DeepFurther(g, compact, e, c, ancestors, levels);
    }
  }

  lemma {:induction false} BelowAddsOnly(g: Graph, focused: Option<Element>, compact: bool, e: Element, depth: nat, ancestors: seq<Element>, s: State)
    requires g.IsClosed() && e in g.elements && !g.isElided(e, ancestors)
    ensures AddsOnlyAmong(g, compact, Visited(g, compact, e, ancestors), ancestors + [e], MAX_DEPTH - depth, s,
                          Below(g, focused, compact, e, depth, ancestors + [e], s))
    decreases |Remaining(g, ancestors + [e])|, 2, 0
  {
    hide EndsWalk, LeadsDeep, Remaining, Visit;
    VisitAllAddsOnly(g, focused, compact, Visited(g, compact, e, ancestors), depth, ancestors + [e], s);
  }

  lemma {:induction false} VisitAllAddsOnly(g: Graph, focused: Option<Element>, compact: bool, children: seq<Element>, depth: nat, ancestors: seq<Element>, s: State)
    requires g.IsClosed() && forall c :: c in children ==> c in g.elements
    ensures AddsOnlyAmong(g, compact, children, ancestors, MAX_DEPTH - depth, s, VisitAll(g, focused, compact, children, depth, ancestors, s))
    decreases |Remaining(g, ancestors)|, 1, |children|
  {
    hide EndsWalk, LeadsDeep, Remaining, Visit;
    if children != [] {
      var s1 := Visit(g, focused, compact, children[0], depth, ancestors, s);
      VisitAddsOnly(g, focused, compact, children[0], depth, ancestors, s);
      VisitAllAddsOnly(g, focused, compact, children[1..], depth, ancestors, s1);
      assert children[0] in children && forall c <- children[1..] :: c in children;
    }
  }

  // ---- The code ----

  lemma {:induction false} KeptFromTop(lines: seq<Line>, depth: nat, i: nat)
    requires i < |lines|
    ensures Kept(lines[i..], depth) == (if IsDropped(lines[i], depth) then [] else [lines[i]]) + Kept(lines[i + 1..], depth)
  {
    assert lines[i..][1..] == lines[i + 1..];
  }

  lemma DroppedFromTop(lines: seq<Line>, depth: nat, i: nat)
    requires i < |lines|
    ensures DroppedIndexes(lines[i..], depth)
         == (if IsDropped(lines[i], depth) then {lines[i].index} else {}) + DroppedIndexes(lines[i + 1..], depth)
  {
    assert lines[i..] == [lines[i]] + lines[i + 1..];
  }

  lemma {:induction false} KeptAll(lines: seq<Line>, depth: nat)
    ensures |Kept(lines, depth)| == |lines| ==> Kept(lines, depth) == lines && DroppedIndexes(lines, depth) == {}
    decreases lines
  {
    if lines != [] {
      KeptAll(lines[1..], depth);
      DroppedFromTop(lines, depth, 0);
      assert lines == [lines[0]] + lines[1..] == lines[0..];
    }
  }

  lemma InsertedAt(a: seq<Line>, b: seq<Line>, k: nat, line: Line)
    requires k <= |b|
    ensures (a + b)[..|a| + k] + [line] + (a + b)[|a| + k..] == a + b[..k] + [line] + b[k..]
  {
  }

  /** The state once the inactive direct tab lines from line `k` on are gone. */
  function DroppedFrom(s: State, k: nat, depth: nat): State
    requires k <= |s.lines|
  {
    var dropped := DroppedIndexes(s.lines[k..], depth);
    s.(lines := s.lines[..k] + Kept(s.lines[k..], depth),
       records := s.records - dropped,
       focusedId := if s.focusedId.Some? && s.focusedId.value in dropped then None else s.focusedId)
  }

  lemma DroppedFromEnd(s: State, depth: nat)
    ensures DroppedFrom(s, |s.lines|, depth) == s
  {
    assert s.lines[|s.lines|..] == [];
    assert s.records - {} == s.records;
  }

  lemma DroppedCount(s: State, k: nat, depth: nat)
    requires k <= |s.lines|
    ensures |DroppedFrom(s, k, depth).lines| == k + |Kept(s.lines[k..], depth)|
  {
  }

  /** One step of the backward pass: a dropped line goes with its record and the focus on it. */
  lemma DroppedStep(s: State, k: nat, depth: nat)
    requires k < |s.lines|
    ensures var t := DroppedFrom(s, k + 1, depth);
      && k < |t.lines| && t.lines[k] == s.lines[k]
      && DroppedFrom(s, k, depth)
         == if IsDropped(s.lines[k], depth) then t.(
              lines := t.lines[..k] + t.lines[k + 1..],
              records := t.records - {s.lines[k].index},
              focusedId := if t.focusedId == Some(s.lines[k].index) then None else t.focusedId)
            else t
  {
    hide Kept, DroppedIndexes;
    var line, kept, dropped := s.lines[k], Kept(s.lines[k + 1..], depth), DroppedIndexes(s.lines[k + 1..], depth);
    KeptFromTop(s.lines, depth, k);
    DroppedFromTop(s.lines, depth, k);
    LinesStep(s.lines, k, kept);
    if IsDropped(line, depth) {
      assert s.records - ({line.index} + dropped) == s.records - dropped - {line.index};
    } else {
      assert {} + dropped == dropped;
    }
  }

  lemma LinesStep(lines: seq<Line>, k: nat, kept: seq<Line>)
    requires k < |lines|
    ensures var t := lines[..k + 1] + kept;
      && t[k] == lines[k] && t[..k] + t[k + 1..] == lines[..k] + ([] + kept) && t == lines[..k] + ([lines[k]] + kept)
  {
  }

  function WithOmitted(lines: seq<Line>, k: nat, line: Line): seq<Line>
    requires k <= |lines|
  {
    lines[..k] + [line] + lines[k..]
  }

  /** The inactive tabs dropped, and one line in their place if there were any. */
  function WithoutTabs(s: State, startLine: nat, depth: nat): State
    requires startLine <= |s.lines|
  {
    var tail := s.lines[startLine..];
    var count, k := |tail| - |Kept(tail, depth)|, startLine + FirstTab(tail, depth);
    var t := DroppedFrom(s, startLine, depth);
    if count == 0 then t else t.(lines := WithOmitted(t.lines, k, Omitted(depth, count)))
  }

  /** Compaction is leaving out the inactive tabs when there are enough tabs and an active one. */
  lemma CompactionByDropping(s: State, startLine: nat, depth: nat)
    requires startLine <= |s.lines|
    ensures var tail := s.lines[startLine..];
      Compacted(s, true, startLine, depth)
      == if TabCount(tail, depth) < 10 || !HasActiveTab(tail, depth) then s else WithoutTabs(s, startLine, depth)
  {
    hide Kept, TabCount, HasActiveTab, DroppedIndexes, FirstTab;
    var before, tail := s.lines[..startLine], s.lines[startLine..];
    KeptAll(tail, depth);
    NothingDropped(s, startLine);
    InsertedAt(before, Kept(tail, depth), FirstTab(tail, depth), Omitted(depth, |tail| - |Kept(tail, depth)|));
  }

  lemma NothingDropped(s: State, startLine: nat)
    requires startLine <= |s.lines|
    ensures s.lines[..startLine] + s.lines[startLine..] == s.lines && s.records - {} == s.records
  {
  }

  class Renderer {
    const graph: Graph
    const focused: Option<Element>
    const compactBrowserTabs: bool
    var lines: seq<Line>
    var records: map<nat, Element>
    var focusedElementId: Option<nat>
    var nextIndex: nat
    var truncated: bool
    var maxDepthReached: bool

    ghost function Snapshot(): State
      reads this
    {
      State(lines, records, focusedElementId, nextIndex, truncated, maxDepthReached)
    }

    constructor (graph: Graph, focused: Option<Element>, compactBrowserTabs: bool)
      ensures Snapshot() == EMPTY
      ensures this.graph == graph && this.focused == focused && this.compactBrowserTabs == compactBrowserTabs
    {
      this.graph, this.focused, this.compactBrowserTabs := graph, focused, compactBrowserTabs;
      lines, records, focusedElementId, nextIndex, truncated, maxDepthReached := [], map[], None, 0, false, false;
    }

    method Render(element: Element, depth: nat, ancestors: seq<Element>)
      requires graph.IsClosed() && element in graph.elements
      modifies this
      ensures Snapshot() == Visit(graph, focused, compactBrowserTabs, element, depth, ancestors, old(Snapshot()))
      decreases |Remaining(graph, ancestors)|, 0
    {
      hide VisitAll, Below, Remaining;
      if nextIndex >= MAX_NODES {
        truncated := true;
        return;
      }
      if depth >= MAX_DEPTH {
        truncated, maxDepthReached := true, true;
        return;
      }
      if element in ancestors {
        return;
      }
      Descends(graph, element, ancestors);
      var children := graph.children(element);
      if graph.isElided(element, ancestors) {
        RenderAll(children, depth, ancestors + [element]);
        return;
      }
      var index := nextIndex;
      nextIndex := nextIndex + 1;
      lines := lines + [Rendered(depth, index, graph.isTab(element), graph.isActiveTab(element))];
      records := records[index := element];
      if focused == Some(element) {
        focusedElementId := Some(index);
      }
      if graph.stopsHere(element, ancestors) {
        return;
      }
      RenderBelow(element, depth + 1, ancestors + [element]);
    }

    method RenderBelow(element: Element, depth: nat, path: seq<Element>)
      requires graph.IsClosed() && element in graph.elements
      modifies this
      ensures Snapshot() == Below(graph, focused, compactBrowserTabs, element, depth, path, old(Snapshot()))
      decreases |Remaining(graph, path)|, 2
    {
      hide VisitAll, Compacted;
      var children := graph.children(element);
      var strip := graph.tabStrip(element, path);
      if compactBrowserTabs && strip.Some? {
        RenderAll(Retained(children, strip.value.retained, 0), depth, path);
        lines := lines + [Omitted(depth, strip.value.omitted)];
        return;
      }
      var childLineStart := |lines|;
      RenderAll(children, depth, path);
      if compactBrowserTabs {
        CompactRenderedBrowserTabs(graph.isScrollArea(element), childLineStart, depth);
      }
    }

    method RenderAll(children: seq<Element>, depth: nat, ancestors: seq<Element>)
      requires graph.IsClosed() && forall c :: c in children ==> c in graph.elements
      modifies this
      ensures Snapshot() == VisitAll(graph, focused, compactBrowserTabs, children, depth, ancestors, old(Snapshot()))
      decreases |Remaining(graph, ancestors)|, 1
    {
      for i := 0 to |children|
        invariant VisitAll(graph, focused, compactBrowserTabs, children[i..], depth, ancestors, Snapshot())
               == VisitAll(graph, focused, compactBrowserTabs, children, depth, ancestors, old(Snapshot()))
      {
        assert children[i..][1..] == children[i + 1..];
        Render(children[i], depth, ancestors);
      }
    }

    method CompactRenderedBrowserTabs(isScrollArea: bool, startLine: nat, depth: nat)
      requires startLine <= |lines|
      modifies this
      ensures Snapshot() == Compacted(old(Snapshot()), isScrollArea, startLine, depth)
    {
      if !isScrollArea {
        return;
      }
      hide Kept, TabCount, HasActiveTab, FirstTab, Compacted, WithoutTabs;
      CompactionByDropping(Snapshot(), startLine, depth);
      var tabs, active, first := CountTabs(startLine, depth);
      if tabs >= 10 && active {
        OmitInactiveTabs(startLine, first, depth);
      }
    }

    method OmitInactiveTabs(startLine: nat, first: nat, depth: nat)
      requires startLine <= |lines| && first == FirstTab(lines[startLine..], depth)
      modifies this
      ensures Snapshot() == WithoutTabs(old(Snapshot()), startLine, depth)
    {
      hide Kept, FirstTab, DroppedFrom, WithOmitted;
      var omittedCount := DropInactiveTabs(startLine, depth);
      if omittedCount > 0 {
        lines := WithOmitted(lines, startLine + first, Omitted(depth, omittedCount));
      }
    }

    /** Removes the inactive direct tab lines from the end backwards, with their records. */
    method DropInactiveTabs(startLine: nat, depth: nat) returns (omittedCount: nat)
      requires startLine <= |lines|
      modifies this
      ensures Snapshot() == DroppedFrom(old(Snapshot()), startLine, depth)
      ensures omittedCount == |old(lines)[startLine..]| - |Kept(old(lines)[startLine..], depth)|
      ensures |lines| + omittedCount == |old(lines)|
    {
      hide DroppedFrom, Kept, DroppedIndexes;
      ghost var s0 := Snapshot();
      omittedCount := 0;
      var lineIndex := |lines|;
      DroppedFromEnd(s0, depth);
      DroppedCount(s0, startLine, depth);
      while startLine < lineIndex
        invariant startLine <= lineIndex <= |s0.lines|
        invariant Snapshot() == DroppedFrom(s0, lineIndex, depth)
        invariant omittedCount == |s0.lines| - |lines|
      {
        lineIndex := lineIndex - 1;
        DroppedStep(s0, lineIndex, depth);
        if IsDropped(lines[lineIndex], depth) {
          var recordIndex := lines[lineIndex].index;
          records := records - {recordIndex};
          if focusedElementId == Some(recordIndex) {
            focusedElementId := None;
          }
          lines := lines[..lineIndex] + lines[lineIndex + 1..];
          omittedCount := omittedCount + 1;
        }
      }
    }

    /** How many lines after the start are direct tab lines, whether one is active, and where the first is. */
    method CountTabs(startLine: nat, depth: nat) returns (tabs: nat, active: bool, first: nat)
      requires startLine <= |lines|
      ensures var tail := lines[startLine..];
        tabs == TabCount(tail, depth) && (active <==> HasActiveTab(tail, depth)) && first == FirstTab(tail, depth)
    {
      ghost var tail := lines[startLine..];
      tabs, active, first := 0, false, |lines| - startLine;
      var i := |lines|;
      while startLine < i
        invariant startLine <= i <= |lines|
        invariant tabs == TabCount(lines[i..], depth) && (active <==> HasActiveTab(lines[i..], depth))
        invariant first == i - startLine + FirstTab(lines[i..], depth)
      {
        i := i - 1;
        assert lines[i..] == [lines[i]] + lines[i + 1..];
        assert lines[i..][1..] == lines[i + 1..];
        if IsDirectTab(lines[i], depth) {
          tabs := tabs + 1;
          first := i - startLine;
          if lines[i].active { active := true; }
        }
      }
    }
  }

  /** A whole rendering: the state is valid; every record is of an element that a walk from the root
      ends at, and every such element has one unless the result says that it is truncated, or it is an
      inactive tab and tabs are compacted; and it is truncated only when 1200 elements are numbered or
      a trail is 64 levels deep. */
  method RenderTree(graph: Graph, focused: Option<Element>, compactBrowserTabs: bool, root: Element) returns (s: Renderer)
    requires graph.IsClosed() && root in graph.elements
    ensures fresh(s) && Valid(graph, focused, s.Snapshot())
    ensures forall e :: IsShown(e, s.Snapshot()) ==> EndsWalk(graph, compactBrowserTabs, root, [], e)
    ensures !s.truncated ==> forall e :: EndsWalk(graph, compactBrowserTabs, root, [], e) && !MayGo(graph, compactBrowserTabs, e)
                                         ==> IsShown(e, s.Snapshot())
    ensures s.truncated ==> s.nextIndex == MAX_NODES || LeadsDeep(graph, compactBrowserTabs, root, [], MAX_DEPTH)
  {
    hide MayGo, LeadsDeep, Visit;
    s := new Renderer(graph, focused, compactBrowserTabs);
    assert Valid(graph, focused, EMPTY);
    VisitValid(graph, focused, compactBrowserTabs, root, 0, [], EMPTY);
    VisitAddsOnly(graph, focused, compactBrowserTabs, root, 0, [], EMPTY);
    s.Render(root, 0, []);
    if !s.truncated {
      forall e | EndsWalk(graph, compactBrowserTabs, root, [], e) && !MayGo(graph, compactBrowserTabs, e)
        ensures IsShown(e, s.Snapshot())
      {
        var walk :| IsWalk(graph, compactBrowserTabs, walk, []) && walk[0] == root && walk[|walk| - 1] == e;
        WalkIsShown(graph, focused, compactBrowserTabs, walk, 0, [], EMPTY);
      }
    }
  }
}
