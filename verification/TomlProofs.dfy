/** What the trust edit promises: it is effective, idempotent, and leaves the trust of every other
    project alone. None of this holds of every text, because a block appended to a text that ends
    inside a string or an array is not seen, and may even close a string that hid the end of another
    project's block. Each promise is proved with the exact condition under which it holds, and for the
    failing cases there are texts in which they occur. */
module TomlProofs {
  import opened Text
  import opened TomlSyntax
  import opened TomlScan
  import opened TomlLaws
  import opened Toml

  // ---- Rows that differ by a carriage return at the end of their text ----

  /** A row as it stood before the edit, and as it reads with a line break appended after it. */
  predicate IsSeam(before: string, after: string) {
    after == before || after == before + "\r"
  }

  lemma SeamReads(before: string, after: string, s: ScanState, goal: Goal)
    requires IsSeam(before, after)
    ensures ScanLine(after, s) == ScanLine(before, s)
    ensures Meets(after, goal) ==> Meets(before, goal)
    ensures !goal.Project? ==> Meets(after, goal) == Meets(before, goal)
    ensures TrustLevel(after) == TrustLevel(before)
  {
    ScanCr(before, s);
    TableHeaderCr(before);
    TrustLevelCr(before);
    if after == before + "\r" && ParseProjectHeader(after).Some? {
      ProjectHeaderCr(before);
    }
  }

  lemma ClosedHeader(c: Cut, path: string, eol: string)
    requires '\n' !in c.header.text && (eol == "\n" || eol == "\r\n")
    requires Meets(c.header.text, Project(path))
    ensures var closed := FirstRow(c.header.text + eol).text;
      Meets(closed, Project(path)) && ScanLine(closed, START) == START && ScanLine(c.header.text, START) == START
  {
    CloseRow(c.header.text, eol);
    var closed := FirstRow(c.header.text + eol).text;
    hide FirstRow, ScanLine, IsTableHeader, ParseProjectHeader;
    SeamReads(closed, c.header.text, START, Project(path));
    HeaderStaysStructural(closed);
  }

  lemma TrustRowReads()
    ensures ScanLine(TRUST_LINE, START) == START && !IsTableHeader(TRUST_LINE)
    ensures IsTrustAssignment(TRUST_LINE) && TrustLevel(TRUST_LINE) == Some("trusted")
  {
    TrustLineIsTrusted();
    TrustStaysStructural(TRUST_LINE);
  }

  // ---- Rewriting the inside of a block ----

  lemma {:induction false} NoHeaderNoProject(rows: seq<Row>, s: ScanState, path: string)
    requires Find(rows, s, Header) == |rows|
    ensures Find(rows, s, Project(path)) == |rows|
    decreases rows
  {
    if rows != [] {
      NoHeaderNoProject(rows[1..], ScanLine(rows[0].text, s), path);
    }
  }

  lemma FindOne(row: Row, s: ScanState, goal: Goal)
    ensures Find([row], s, goal) == if s.IsStructural() && Meets(row.text, goal) then 0 else 1
    ensures ScanRows([row], s) == ScanLine(row.text, s)
  {
    assert [row][1..] == [];
  }

  lemma FindAround(a: seq<Row>, row: Row, b: seq<Row>, s: ScanState, goal: Goal)
    ensures var s1 := ScanRows(a, s);
      var s2 := ScanLine(row.text, s1);
      Find(a + [row] + b, s, goal)
      == if Find(a, s, goal) < |a| then Find(a, s, goal)
         else if s1.IsStructural() && Meets(row.text, goal) then |a|
         else |a| + 1 + Find(b, s2, goal)
    ensures ScanRows(a + [row] + b, s) == ScanRows(b, ScanLine(row.text, ScanRows(a, s)))
  {
    hide Find, ScanRows, ScanLine, Meets;
    FindConcat(a + [row], b, s, goal);
    FindConcat(a, [row], s, goal);
    ScanConcat(a + [row], b, s);
    ScanConcat(a, [row], s);
    FindOne(row, ScanRows(a, s), goal);
  }

  /** Replacing the first trust row by the trusted one: same states, same headers, same place. */
  lemma SwapTrust(inside: seq<Row>)
    requires Find(inside, START, Trust) < |inside| && Find(inside, START, Header) == |inside|
    ensures var t := Find(inside, START, Trust);
      var swapped := inside[t := Row(TRUST_LINE, inside[t].ending)];
      && ScanRows(swapped, START) == ScanRows(inside, START)
      && Find(swapped, START, Header) == |swapped| && Find(swapped, START, Trust) == t
  {
    hide TRUST_LINE, ScanLine, IsTableHeader, IsTrustAssignment;
    var t := Find(inside, START, Trust);
    var row := Row(TRUST_LINE, inside[t].ending);
    FindStopsAt(inside, START, Trust);
    StructuralIsStart(ScanRows(inside[..t], START));
    TrustRowReads();
    TrustStaysStructural(inside[t].text);
    assert inside == inside[..t] + [inside[t]] + inside[t + 1..];
    assert inside[t := row] == inside[..t] + [row] + inside[t + 1..];
    hide Find, ScanRows;
    FindAround(inside[..t], inside[t], inside[t + 1..], START, Header);
    FindAround(inside[..t], row, inside[t + 1..], START, Header);
    FindAround(inside[..t], row, inside[t + 1..], START, Trust);
  }

  lemma PrependTrust(inside: seq<Row>, ending: string)
    requires Find(inside, START, Header) == |inside|
    ensures var grown := [Row(TRUST_LINE, ending)] + inside;
      && ScanRows(grown, START) == ScanRows(inside, START)
      && Find(grown, START, Header) == |grown| && Find(grown, START, Trust) == 0
  {
    hide TRUST_LINE, ScanLine, IsTableHeader, IsTrustAssignment, Find, ScanRows;
    TrustRowReads();
    var row := Row(TRUST_LINE, ending);
    assert [] + [row] + inside == [row] + inside;
    FindAround([], row, inside, START, Header);
    FindAround([], row, inside, START, Trust);
    SearchNothing(START, Header);
    SearchNothing(START, Trust);
  }

  lemma SearchNothing(s: ScanState, goal: Goal)
    ensures Find([], s, goal) == 0 && ScanRows([], s) == s
  {
  }

  // ---- After the edit the project's block is trusted ----

  /** The scan reaches a block for the project whose first trust row is the rendered one. */
  ghost predicate IsTrusted(rows: seq<Row>, path: string) {
    && !Panics(rows, path) && CutAt(rows, path).Some?
    && var c := CutAt(rows, path).value;
       var t := Find(c.inside, START, Trust);
       t < |c.inside| && c.inside[t].text == TRUST_LINE
  }

  /** The edited cut, as the next edit finds it. */
  function NextCut(c: Cut, eol: string): Cut {
    var t := Find(c.inside, START, Trust);
    if t < |c.inside| then c.(inside := c.inside[t := Row(TRUST_LINE, c.inside[t].ending)])
    else c.(header := FirstRow(c.header.text + eol), inside := [Row(TRUST_LINE, c.header.ending)] + c.inside)
  }

  function Join(c: Cut): seq<Row> {
    c.before + [c.header] + c.inside + c.after
  }

  lemma WithTrustIsNextCut(c: Cut, eol: string)
    ensures WithTrust(c, eol) == Join(NextCut(c, eol))
  {
    hide Find, FirstRow, TRUST_LINE;
    var closed, row := FirstRow(c.header.text + eol), Row(TRUST_LINE, c.header.ending);
    assert c.before + [closed, row] + c.inside + c.after == c.before + [closed] + ([row] + c.inside) + c.after;
  }

  lemma NextCutIsCut(c: Cut, path: string, eol: string)
    requires IsCut(c, path) && '\n' !in c.header.text && (eol == "\n" || eol == "\r\n")
    ensures IsCut(NextCut(c, eol), path)
    ensures NextCut(c, eol).before == c.before && NextCut(c, eol).after == c.after
    ensures var inside := NextCut(c, eol).inside;
      && ScanRows(inside, START) == ScanRows(c.inside, START)
      && ScanLine(NextCut(c, eol).header.text, START) == START
      && var t := Find(inside, START, Trust); t < |inside| && inside[t].text == TRUST_LINE
  {
    ClosedHeader(c, path, eol);
    hide Find, ScanRows, ScanLine, FirstRow, TRUST_LINE, Meets, IsTableHeader;
    if Find(c.inside, START, Trust) < |c.inside| {
      SwapTrust(c.inside);
    } else {
      PrependTrust(c.inside, c.header.ending);
    }
  }

  lemma EditTrusts(rows: seq<Row>, path: string, eol: string)
    requires IsDocument(rows) && (eol == "\n" || eol == "\r\n")
    requires !Panics(rows, path) && CutAt(rows, path).Some?
    ensures CutAt(Edited(rows, eol, path), path) == Some(NextCut(CutAt(rows, path).value, eol))
    ensures IsTrusted(Edited(rows, eol, path), path)
  {
    var c := CutAt(rows, path).value;
    HeaderInDocument(rows, path);
    hide WithTrust, NextCut, CutAt;
    FoundIsCut(rows, path);
    WithTrustIsNextCut(c, eol);
    NextCutIsCut(c, path, eol);
    hide Find, ScanRows, ScanLine, IsCut, TRUST_LINE;
    var n := NextCut(c, eol);
    CutIs(n, path);
    SameScan(c, n, path);
  }

  lemma SameScan(c: Cut, n: Cut, path: string)
    requires IsCut(c, path) && n.before == c.before
    requires ScanRows(n.inside, START) == ScanRows(c.inside, START)
    requires ScanLine(n.header.text, START) == START
    ensures ScanRows(n.before + [n.header] + n.inside, START) == ScanRows(c.before + [c.header] + c.inside, START)
  {
    hide ScanRows, Find, ScanLine;
    ScanThrough(c, START);
    ScanThrough(n, START);
    HeaderStaysStructural(c.header.text);
  }

  lemma HeaderInDocument(rows: seq<Row>, path: string)
    requires IsDocument(rows) && CutAt(rows, path).Some?
    ensures '\n' !in CutAt(rows, path).value.header.text
  {
    var h := Find(rows, START, Project(path));
    assert IsRow(rows[h], h == |rows| - 1);
  }

  // ---- Appending a block ----

  predicate AreBlank(rows: seq<Row>) {
    forall row <- rows :: row.text == ""
  }

  lemma {:induction false} BlanksRead(blanks: seq<Row>, s: ScanState, goal: Goal)
    requires AreBlank(blanks)
    ensures ScanRows(blanks, s) == s && Find(blanks, s, goal) == |blanks|
    decreases blanks
  {
    NothingMeets(goal);
    if blanks != [] {
      assert blanks[0] in blanks;
      BlanksRead(blanks[1..], s, goal);
    }
  }

  lemma NothingMeets(goal: Goal)
    ensures !Meets("", goal)
  {
    assert TrimStart("") == "" && Trim("") == "";
  }

  /** The last line of a document, when it had no line break, and the same line closed. */
  predicate AreSeams(m: seq<Row>, m': seq<Row>) {
    (m == [] && m' == []) || (|m| == 1 && |m'| == 1 && IsSeam(m[0].text, m'[0].text))
  }

  /** Closing a document keeps its rows but for a seam at the end, and adds blank rows. */
  lemma ClosingShape(rows: seq<Row>, eol: string) returns (a: seq<Row>, m: seq<Row>, m': seq<Row>, blanks: seq<Row>)
    requires IsDocument(rows) && (eol == "\n" || eol == "\r\n")
    ensures rows == a + m && Closing(rows, eol) == a + m' + blanks
    ensures AreSeams(m, m') && AreBlank(blanks)
  {
    hide Unlines, EndsWith, FirstRow;
    a, m, m', blanks := rows, [], [], [];
    var text := Unlines(rows);
    if rows == [] || EndsWith(text, eol + eol) {
    } else if EndsWith(text, eol) {
      blanks := [Row("", eol)];
    } else if EndsWith(text, "\n") {
      blanks := [Row("", eol), Row("", eol)];
    } else {
      var last := rows[|rows| - 1];
      assert IsRow(last, true) by { assert IsRow(rows[|rows| - 1], true); }
      ClosingOpenLine(rows, eol);
      CloseRow(last.Raw(), eol);
      SeamOfLast(last, FirstRow(last.Raw() + eol), eol);
      a, m, m', blanks := rows[..|rows| - 1], [last], [FirstRow(last.Raw() + eol)], [Row("", eol)];
      assert a + m == rows;
      assert a + m' + blanks == a + [m'[0], blanks[0]];
    }
    assert rows + [] == rows;
  }

  lemma SeamOfLast(last: Row, closed: Row, eol: string)
    requires IsRow(last, true) && last.ending in {"\r", ""}
    requires last.Raw() == closed.text || last.Raw() == closed.text + "\r"
    ensures IsSeam(last.text, closed.text)
  {
    if last.ending == "" {
      assert last.Raw() == last.text;
      assert last.Raw() == closed.text + "\r" ==> EndsWithCr(last.text);
    } else {
      assert last.Raw() == closed.text + "\r" ==> last.text == last.Raw()[..|last.Raw()| - 1] == closed.text;
    }
  }

  lemma SeamsRead(m: seq<Row>, m': seq<Row>, s: ScanState, goal: Goal)
    requires AreSeams(m, m')
    ensures ScanRows(m', s) == ScanRows(m, s) && |m'| == |m|
    ensures Find(m, s, goal) == |m| ==> Find(m', s, goal) == |m'|
    ensures !goal.Project? ==> Find(m', s, goal) == Find(m, s, goal)
  {
    if m != [] {
      SeamReads(m[0].text, m'[0].text, s, goal);
      hide Find, ScanRows, ScanLine, Meets;
      assert m == [m[0]] && m' == [m'[0]];
      FindOne(m[0], s, goal);
      FindOne(m'[0], s, goal);
    }
  }

  lemma ClosingReads(rows: seq<Row>, eol: string, path: string)
    requires IsDocument(rows) && (eol == "\n" || eol == "\r\n")
    ensures ScanRows(Closing(rows, eol), START) == ScanRows(rows, START)
    ensures Find(rows, START, Project(path)) == |rows|
      ==> Find(Closing(rows, eol), START, Project(path)) == |Closing(rows, eol)|
  {
    hide Find, ScanRows, Closing;
    var a, m, m', blanks := ClosingShape(rows, eol);
    var s := ScanRows(a, START);
    SeamsRead(m, m', s, Project(path));
    BlanksRead(blanks, ScanRows(m, s), Project(path));
    ScanConcat(a, m, START);
    ScanConcat(a + m', blanks, START);
    ScanConcat(a, m', START);
    FindConcat(a, m, START, Project(path));
    FindConcat(a + m', blanks, START, Project(path));
    FindConcat(a, m', START, Project(path));
  }

  /** What the two appended rows do from a state that is not structural. */
  lemma AppendedRowsUnread(path: string, eol: string, s: ScanState, goal: Goal)
    requires s != START
    ensures var added := [Row(ProjectHeader(path), eol), Row(TRUST_LINE, eol)];
      var inner := ScanLine(ProjectHeader(path), s);
      Find(added, s, goal) == if goal.Trust? && inner == START then 1 else 2
  {
    TrustRowReads();
    var h, t := Row(ProjectHeader(path), eol), Row(TRUST_LINE, eol);
    var inner := ScanLine(h.text, s);
    StructuralIsStart(s);
    StructuralIsStart(inner);
    TrustMeets();
    assert Meets(TRUST_LINE, goal) <==> goal.Trust?;
    hide ScanLine, Meets, Find, ScanRows, ProjectHeader, TRUST_LINE;
    assert [h] + [t] == [h, t];
    FindConcat([h], [t], s, goal);
    FindOne(h, s, goal);
    FindOne(t, inner, goal);
  }

  /** An appended block is found when the document before it ends structural, and only then. */
  lemma AppendTrusts(rows: seq<Row>, path: string, eol: string)
    requires IsDocument(rows) && (eol == "\n" || eol == "\r\n")
    requires CutAt(rows, path).None?
    ensures ScanRows(rows, START) == START ==> IsTrusted(Appended(rows, eol, path), path)
    ensures ScanRows(rows, START) != START ==> CutAt(Appended(rows, eol, path), path).None?
  {
    var closing := Closing(rows, eol);
    var h, t := Row(ProjectHeader(path), eol), Row(TRUST_LINE, eol);
    ClosingReads(rows, eol, path);
    ProjectHeaderParses(path);
    HeaderStaysStructural(ProjectHeader(path));
    assert Meets(h.text, Project(path));
    hide Closing, ProjectHeader, TRUST_LINE, ScanLine, Meets, Find, ScanRows;
    if ScanRows(rows, START) == START {
      AppendedCut(closing, h, t, path);
    } else {
      AppendedRowsUnread(path, eol, ScanRows(rows, START), Project(path));
      FindConcat(closing, [h, t], START, Project(path));
    }
  }

  lemma AppendedCut(closing: seq<Row>, h: Row, t: Row, path: string)
    requires Find(closing, START, Project(path)) == |closing| && ScanRows(closing, START) == START
    requires Meets(h.text, Project(path)) && ScanLine(h.text, START) == START && t.text == TRUST_LINE
    ensures IsTrusted(closing + [h, t], path)
  {
    hide TRUST_LINE, ScanLine, Meets, Find, ScanRows, CutAt;
    TrustRowReads();
    TrustMeets();
    var c := Cut(closing, h, [t], []);
    FindOne(t, START, Header);
    FindOne(t, START, Trust);
    CutIs(c, path);
    assert closing + [h] + [t] + [] == closing + [h, t] == closing + [h] + [t];
    ScanThrough(c, START);
  }

  lemma TrustMeets()
    ensures !Meets(TRUST_LINE, Header) && Meets(TRUST_LINE, Trust)
  {
    TrustRowReads();
  }

  lemma EditedDocument(rows: seq<Row>, path: string, eol: string)
    requires IsDocument(rows) && (eol == "\n" || eol == "\r\n")
    ensures Rows(Unlines(Edited(rows, eol, path))) == Edited(rows, eol, path)
  {
    if CutAt(rows, path).None? {
      AppendedDocument(rows, path, eol);
    } else {
      var c := CutAt(rows, path).value;
      CutCovers(rows, path);
      HeaderInDocument(rows, path);
      hide CutAt;
      WithTrustDocument(c, eol);
    }
    DocumentRows(Edited(rows, eol, path));
  }

  lemma WithTrustDocument(c: Cut, eol: string)
    requires IsDocument(Join(c)) && '\n' !in c.header.text && (eol == "\n" || eol == "\r\n")
    ensures IsDocument(WithTrust(c, eol))
  {
    hide FirstRow, Find;
    TrustLineCharacters();
    var t := Find(c.inside, START, Trust);
    if t < |c.inside| {
      var row := Row(TRUST_LINE, c.inside[t].ending);
      RowsAround(c, t, c.inside[t]);
      RowsAround(c, t, row);
      assert c.inside[t := c.inside[t]] == c.inside;
      hide TRUST_LINE, IsDocument;
      DocumentSplice(c.before + [c.header] + c.inside[..t], [c.inside[t]], c.inside[t + 1..] + c.after, [row]);
    } else {
      CloseRow(c.header.text, eol);
      var closed, row := FirstRow(c.header.text + eol), Row(TRUST_LINE, c.header.ending);
      assert Join(c) == c.before + [c.header] + (c.inside + c.after);
      assert WithTrust(c, eol) == c.before + [closed, row] + (c.inside + c.after);
      hide TRUST_LINE, IsDocument, WithTrust;
      DocumentSplice(c.before, [c.header], c.inside + c.after, [closed, row]);
    }
  }

  lemma AppendedDocument(rows: seq<Row>, path: string, eol: string)
    requires IsDocument(rows) && (eol == "\n" || eol == "\r\n")
    ensures IsDocument(Appended(rows, eol, path))
  {
    ProjectHeaderParses(path);
    TrustLineCharacters();
    var closing := Closing(rows, eol);
    var h, t := Row(ProjectHeader(path), eol), Row(TRUST_LINE, eol);
    assert IsRow(h, false) && IsRow(t, false) && IsRow(t, true) && IsRow(Row("", eol), false);
    hide ProjectHeader, TRUST_LINE;
    ClosingRows(rows, eol);
    hide Closing, IsRow;
    forall i | 0 <= i < |closing| + 2 ensures IsRow((closing + [h, t])[i], i == |closing| + 1) {
    }
  }

  predicate AreClosed(rows: seq<Row>) {
    forall i :: 0 <= i < |rows| ==> IsRow(rows[i], false)
  }

  lemma ClosedConcat(a: seq<Row>, b: seq<Row>)
    requires AreClosed(a) && AreClosed(b)
    ensures AreClosed(a + b)
  {
  }

  lemma ClosingRows(rows: seq<Row>, eol: string)
    requires IsDocument(rows) && (eol == "\n" || eol == "\r\n")
    ensures AreClosed(Closing(rows, eol))
  {
    if rows != [] {
      if EndsWith(Unlines(rows), "\n") {
        LastRowEnds(rows);
        FrontRows(rows);
        assert AreClosed(rows);
        hide IsRow, IsDocument, AreClosed, Unlines, EndsWith;
        ClosedEnding(rows, eol);
      } else {
        FrontRows(rows);
        assert AreClosed(rows[..|rows| - 1]);
        OpenLastRow(rows, eol);
        hide IsRow, IsDocument, AreClosed, Unlines, EndsWith;
        OpenEnding(rows, eol);
      }
    }
  }

  lemma ClosedEnding(rows: seq<Row>, eol: string)
    requires AreClosed(rows) && rows != [] && EndsWith(Unlines(rows), "\n") && (eol == "\n" || eol == "\r\n")
    ensures AreClosed(Closing(rows, eol))
  {
    hide AreClosed, Unlines, EndsWith;
    BlanksAreClosed(eol);
    ClosedConcat(rows, [Row("", eol)]);
    ClosedConcat(rows, [Row("", eol), Row("", eol)]);
  }

  lemma OpenEnding(rows: seq<Row>, eol: string)
    requires rows != [] && !EndsWith(Unlines(rows), "\n") && (eol == "\n" || eol == "\r\n")
    requires AreClosed(rows[..|rows| - 1]) && IsRow(FirstRow(rows[|rows| - 1].Raw() + eol), false)
    ensures AreClosed(Closing(rows, eol))
  {
    hide AreClosed, Unlines, EndsWith, FirstRow, IsRow;
    var front, closed, blank := rows[..|rows| - 1], FirstRow(rows[|rows| - 1].Raw() + eol), Row("", eol);
    EolEnds(Unlines(rows), eol);
    BlanksAreClosed(eol);
    ClosedLast(front, closed);
    ClosedConcat(front + [closed], [blank]);
    assert front + [closed] + [blank] == front + [closed, blank];
  }

  lemma BlanksAreClosed(eol: string)
    requires eol == "\n" || eol == "\r\n"
    ensures AreClosed([Row("", eol)]) && AreClosed([Row("", eol), Row("", eol)])
  {
    assert IsRow(Row("", eol), false);
  }

  lemma ClosedLast(front: seq<Row>, last: Row)
    requires AreClosed(front) && IsRow(last, false)
    ensures AreClosed(front + [last])
  {
  }

  lemma OpenLastRow(rows: seq<Row>, eol: string)
    requires IsDocument(rows) && (eol == "\n" || eol == "\r\n")
    requires rows != [] && !EndsWith(Unlines(rows), "\n")
    ensures IsRow(FirstRow(rows[|rows| - 1].Raw() + eol), false)
  {
    ClosingOpenLine(rows, eol);
    CloseRow(rows[|rows| - 1].Raw(), eol);
  }

  lemma FrontRows(rows: seq<Row>)
    requires IsDocument(rows)
    ensures forall i :: 0 <= i < |rows| - 1 ==> IsRow(rows[i], false)
  {
    forall i | 0 <= i < |rows| - 1 ensures IsRow(rows[i], false) {
      assert IsRow(rows[i], i == |rows| - 1);
    }
  }

  lemma EolEnds(text: string, eol: string)
    requires eol == "\n" || eol == "\r\n"
    ensures EndsWith(text, eol + eol) ==> EndsWith(text, eol)
    ensures EndsWith(text, eol) ==> EndsWith(text, "\n")
  {
    SuffixOfSuffix(text, eol, eol);
    if eol == "\r\n" {
      assert "\r" + "\n" == eol;
      SuffixOfSuffix(text, "\r", "\n");
    }
  }

  lemma SuffixOfSuffix(text: string, a: string, b: string)
    ensures EndsWith(text, a + b) ==> EndsWith(text, b)
  {
    if EndsWith(text, a + b) {
      var suffix := text[|text| - |a + b|..];
      assert text[|text| - |b|..] == suffix[|a|..];
    }
  }

  lemma LastRowEnds(rows: seq<Row>)
    requires IsDocument(rows) && rows != []
    ensures EndsWith(Unlines(rows), "\n") ==> IsRow(rows[|rows| - 1], false)
  {
    hide Unlines, EndsWith;
    var front, last := rows[..|rows| - 1], rows[|rows| - 1];
    assert IsRow(rows[|rows| - 1], true);
    assert rows == front + [last];
    UnlinesConcat(front, [last]);
    UnlinesOne(last);
    LastCharacter(Unlines(front), last.text, last.ending);
  }

  lemma LastCharacter(front: string, text: string, ending: string)
    requires '\n' !in text && text + ending != []
    ensures EndsWith(front + (text + ending), "\n") ==> ending != [] && ending[|ending| - 1] == '\n'
  {
    var raw := text + ending;
    var s := front + raw;
    assert s[|s| - 1..] == [raw[|raw| - 1]];
    assert ending == [] ==> raw[|raw| - 1] == text[|text| - 1] && text[|text| - 1] in text;
  }

  // ---- Idempotence ----

  lemma TrustedIsFixed(rows: seq<Row>, path: string, eol: string)
    requires IsTrusted(rows, path)
    ensures Edited(rows, eol, path) == rows
  {
    var c := CutAt(rows, path).value;
    CutCovers(rows, path);
    hide CutAt, Find, TRUST_LINE;
    var t := Find(c.inside, START, Trust);
    assert c.inside[t := Row(TRUST_LINE, c.inside[t].ending)] == c.inside;
  }

  predicate AppendsBlock(content: string, path: string) {
    CutAt(Rows(Body(content)), path).None?
  }

  predicate EndsStructural(content: string) {
    ScanRows(Rows(Body(content)), START).IsStructural()
  }

  /** The text as written always holds a trusted block for the project, unless a block was appended
      inside a string or an array that the original text never closes; then it holds no block. */
  lemma WrittenIsTrusted(content: string, path: string)
    requires Upsert(content, path).Some?
    ensures IsTrusted(Rows(Upsert(content, path).value), path)
      <==> (AppendsBlock(content, path) ==> EndsStructural(content))
    ensures AppendsBlock(content, path) && !EndsStructural(content)
      ==> CutAt(Rows(Upsert(content, path).value), path).None?
  {
    var body := Body(content);
    var rows := Rows(body);
    var eol := Eol(body);
    RowsAreDocument(body);
    StructuralIsStart(ScanRows(rows, START));
    EditedDocument(rows, path, eol);
    hide Rows, CutAt, Body, ScanRows, Appended, Eol;
    if CutAt(rows, path).None? {
      AppendTrusts(rows, path, eol);
    } else {
      EditTrusts(rows, path, eol);
    }
  }

  lemma EolIs(body: string)
    ensures Eol(body) == "\n" || Eol(body) == "\r\n"
  {
  }

  lemma HeaderHasBracket(line: string)
    requires IsTableHeader(line)
    ensures '[' in line
  {
    var blank := TrimStartSplit(line);
    assert line[|blank|] == '[';
  }

  /** The edit of an existing block keeps the text around one place after the header. */
  lemma EditSlices(body: string, path: string, eol: string) returns (k: nat, middle: string, k': nat)
    requires CutAt(Rows(body), path).Some? && (eol == "\n" || eol == "\r\n")
    ensures k <= k' <= |body| && '[' in body[..k]
    ensures Unlines(Edited(Rows(body), eol, path)) == body[..k] + middle + body[k'..]
  {
    var c := CutAt(Rows(body), path).value;
    FoundIsCut(Rows(body), path);
    HeaderHasBracket(c.header.text);
    TextOfBody(body, path, c);
    hide Rows, CutAt, Unlines, Find, ScanRows, WithTrust, IsCut, IsTableHeader, Meets;
    HeaderInPrefix(body, c);
    if Find(c.inside, START, Trust) < |c.inside| {
      k, middle, k' := ReplaceSlices(body, path, c, eol);
    } else {
      k, middle, k' := InsertSlices(body, path, c, eol);
    }
  }

  lemma ReplaceSlices(body: string, path: string, c: Cut, eol: string) returns (k: nat, middle: string, k': nat)
    requires CutAt(Rows(body), path) == Some(c) && Find(c.inside, START, Trust) < |c.inside|
    requires HeaderEnd(c) <= |body| && '[' in body[..HeaderEnd(c)]
    ensures k <= k' <= |body| && '[' in body[..k]
    ensures Unlines(WithTrust(c, eol)) == body[..k] + middle + body[k'..]
  {
    hide Rows, CutAt, Unlines, Find, ScanRows, TRUST_LINE, BlankRow, WithTrust, HeaderEnd;
    var t := Find(c.inside, START, Trust);
    var start := |Unlines((BlankRow(c.header.ending) + c.inside)[..|BlankRow(c.header.ending)| + t])|;
    ReplaceOffsets(body, path, c, eol, start, start + |c.inside[t].text|);
    k, middle, k' := HeaderEnd(c) + start, TRUST_LINE, HeaderEnd(c) + start + |c.inside[t].text|;
    assert body[..HeaderEnd(c)] == body[..k][..HeaderEnd(c)];
  }

  lemma InsertSlices(body: string, path: string, c: Cut, eol: string) returns (k: nat, middle: string, k': nat)
    requires CutAt(Rows(body), path) == Some(c) && Find(c.inside, START, Trust) == |c.inside|
    requires eol == "\n" || eol == "\r\n"
    requires HeaderEnd(c) <= |body| && '[' in body[..HeaderEnd(c)]
    ensures k <= k' <= |body| && '[' in body[..k]
    ensures Unlines(WithTrust(c, eol)) == body[..k] + middle + body[k'..]
  {
    hide Rows, CutAt, Unlines, Find, ScanRows, TRUST_LINE, WithTrust, HeaderEnd;
    InsertOffsets(body, path, c, eol);
    k, middle, k' := HeaderEnd(c), eol + TRUST_LINE, HeaderEnd(c);
    Assoc(body[..k], eol, TRUST_LINE);
  }

  lemma HeaderInPrefix(body: string, c: Cut)
    requires body == Unlines(c.before + [c.header] + c.inside + c.after) && '[' in c.header.text
    ensures HeaderEnd(c) <= |body| && '[' in body[..HeaderEnd(c)]
  {
    hide Unlines;
    UnlinesOfBlock(c);
    var front := Unlines(c.before) + c.header.text;
    assert body[..HeaderEnd(c)] == front;
  }

  /** An edit never returns the text it was given with a byte order mark put in front. */
  lemma EditIsNoShift(body: string, path: string, eol: string)
    requires eol == "\n" || eol == "\r\n"
    ensures Unlines(Edited(Rows(body), eol, path)) != [BOM] + body
    ensures body != [] ==> Unlines(Edited(Rows(body), eol, path)) != [] && Unlines(Edited(Rows(body), eol, path))[0] == body[0]
    ensures body == [] ==> !([BOM] <= Unlines(Edited(Rows(body), eol, path)))
  {
    RowsAreDocument(body);
    var edited := Unlines(Edited(Rows(body), eol, path));
    if CutAt(Rows(body), path).None? {
      AppendText(Rows(body), eol, path);
      AppendStarts(body, path, eol);
    } else {
      var k, middle, k' := EditSlices(body, path, eol);
      hide Rows, Unlines, Edited, CutAt;
      NoShift(body, k, middle, k');
      assert edited[..k] == body[..k];
      assert k > 0;
    }
  }

  lemma AppendStarts(body: string, path: string, eol: string)
    requires CutAt(Rows(body), path).None? && (eol == "\n" || eol == "\r\n")
    ensures var edited := Unlines(Edited(Rows(body), eol, path));
      && |edited| > |body| + 1 && body <= edited && (body == [] ==> edited[0] == '[')
  {
    RowsAreDocument(body);
    AppendText(Rows(body), eol, path);
    EmptyBody(body);
    var block := ProjectHeader(path) + eol + TRUST_LINE + eol;
    assert ProjectHeader(path)[0] == '[' && |ProjectHeader(path)| > 1;
    assert block[0] == '[' && |block| > 1;
    hide ProjectHeader, TRUST_LINE, Rows, Unlines, Appended, CutAt, EndsWith;
  }

  lemma {:induction false} NoShift(body: string, k: nat, middle: string, k': nat)
    requires k <= k' <= |body| && '[' in body[..k]
    ensures body[..k] + middle + body[k'..] != [BOM] + body
  {
    if body[..k] + middle + body[k'..] == [BOM] + body {
      AllMarks(body, k, middle + body[k'..]);
    }
  }

  lemma {:induction false} AllMarks(body: string, k: nat, rest: string)
    requires k <= |body|
    requires body[..k] + rest == [BOM] + body
    ensures '[' !in body[..k]
  {
    if k > 0 {
      var s := [BOM] + body;
      assert body[..k] == body[..k - 1] + [body[k - 1]];
      assert body[..k - 1] + ([body[k - 1]] + rest) == s;
      AllMarks(body, k - 1, [body[k - 1]] + rest);
      assert (body[..k] + rest)[k - 1] == body[k - 1] == s[k - 1];
      assert k > 1 ==> s[k - 1] == body[k - 2] && body[k - 2] in body[..k - 1];
    }
  }

  lemma AppendedAgain(rows: seq<Row>, path: string, eol: string)
    requires IsDocument(rows) && (eol == "\n" || eol == "\r\n")
    requires CutAt(rows, path).None?
    ensures Unlines(Edited(rows, eol, path)) != Unlines(rows)
  {
    AppendText(rows, eol, path);
    hide CutAt, Unlines, Appended, EndsWith, ProjectHeader, TRUST_LINE;
  }

  /** Editing twice is editing once, unless a second byte order mark follows the one that is
      stripped, or a block is appended to a text that ends inside a string or an array. */
  lemma UpsertIsIdempotent(content: string, path: string)
    requires Upsert(content, path).Some?
    ensures var once := Upsert(content, path).value;
      Upsert(once, path) == Some(once)
      <==> !([BOM, BOM] <= content) && (AppendsBlock(content, path) ==> EndsStructural(content))
  {
    hide Rows, CutAt, Unlines, Edited, IsDocument, Panics, Eol;
    var body := Body(content);
    var once := Upsert(content, path).value;
    EolIs(body);
    EolIs(Body(once));
    EditIsNoShift(body, path, Eol(body));
    if [BOM, BOM] <= content {
      assert body[0] == BOM;
      assert once == [BOM] + Body(once);
      EditIsNoShift(Body(once), path, Eol(Body(once)));
    } else {
      assert body != [] ==> body[0] != BOM;
      assert Body(once) == once;
      WrittenIsTrusted(content, path);
      hide Body;
      SecondEdit(content, path, once);
    }
  }

  lemma SecondEdit(content: string, path: string, once: string)
    requires Upsert(content, path) == Some(once) && Body(once) == once
    requires IsTrusted(Rows(once), path) <==> (AppendsBlock(content, path) ==> EndsStructural(content))
    ensures Upsert(once, path) == Some(once) <==> IsTrusted(Rows(once), path)
  {
    var body := Body(content);
    RowsAreDocument(body);
    RowsAreDocument(once);
    EditedDocument(Rows(body), path, Eol(body));
    StructuralIsStart(ScanRows(Rows(body), START));
    if IsTrusted(Rows(once), path) {
      TrustedIsFixed(Rows(once), path, Eol(once));
    } else {
      AppendTrusts(Rows(body), path, Eol(body));
      AppendedAgain(Rows(once), path, Eol(once));
    }
  }

  // ---- Growing for ever ----

  /** The text after a number of edits. */
  function UpsertTimes(content: string, path: string, n: nat): Option<string> {
    if n == 0 then Some(content)
    else
      var before :- UpsertTimes(content, path, n - 1);
      Upsert(before, path)
  }

  /** A text without a block for the project that ends inside an array. */
  ghost predicate EndsInArray(content: string, path: string) {
    && Body(content) == content && CutAt(Rows(content), path).None?
    && exists depth: nat :: depth > 0 && ScanRows(Rows(content), START) == ScanState(depth, NoString)
  }

  lemma ArrayStaysOpen(rows: seq<Row>, path: string, eol: string, depth: nat)
    requires IsDocument(rows) && (eol == "\n" || eol == "\r\n") && CutAt(rows, path).None?
    requires depth > 0 && ScanRows(rows, START) == ScanState(depth, NoString)
    ensures CutAt(Appended(rows, eol, path), path).None?
    ensures ScanRows(Appended(rows, eol, path), START) == ScanState(depth, NoString)
  {
    AppendTrusts(rows, path, eol);
    ClosingReads(rows, eol, path);
    ProjectHeaderParses(path);
    HeaderKeepsDepth(ProjectHeader(path), depth);
    TrustLineKeepsDepth(depth);
    hide Closing, ProjectHeader, TRUST_LINE, ScanLine, Find, ScanRows, CutAt;
    var h, t := Row(ProjectHeader(path), eol), Row(TRUST_LINE, eol);
    var s := ScanState(depth, NoString);
    ScanConcat(Closing(rows, eol), [h, t], START);
    assert [h] + [t] == [h, t];
    ScanConcat([h], [t], s);
    FindOne(h, s, Header);
    FindOne(t, s, Header);
  }

  lemma ArrayGrows(content: string, path: string)
    requires EndsInArray(content, path)
    ensures Upsert(content, path).Some? && |Upsert(content, path).value| > |content|
    ensures EndsInArray(Upsert(content, path).value, path)
  {
    hide Rows, Unlines, ScanRows, CutAt, Appended, IsDocument, Eol, Body;
    var depth: nat :| depth > 0 && ScanRows(Rows(content), START) == ScanState(depth, NoString);
    var rows, eol := Rows(content), Eol(content);
    EolIs(content);
    RowsAreDocument(content);
    EditedDocument(rows, path, eol);
    AppendStarts(content, path, eol);
    ArrayStaysOpen(rows, path, eol, depth);
    var once := Unlines(Edited(rows, eol, path));
    assert Upsert(content, path) == Some(once);
    NothingIsStructural(content);
    StartDecidesBody(content, once);
  }

  lemma NothingIsStructural(content: string)
    ensures ScanRows(Rows(content), START) != START ==> content != []
  {
  }

  lemma StartDecidesBody(content: string, once: string)
    requires content != [] && content <= once && Body(content) == content
    ensures Body(once) == once
  {
    assert once[0] == content[0];
  }

  lemma {:induction false} OpenArrayGrows(content: string, path: string, n: nat)
    requires EndsInArray(content, path)
    ensures UpsertTimes(content, path, n).Some? && UpsertTimes(content, path, n + 1).Some?
    ensures |UpsertTimes(content, path, n + 1).value| > |UpsertTimes(content, path, n).value|
    ensures EndsInArray(UpsertTimes(content, path, n).value, path)
    decreases n
  {
    hide EndsInArray, Upsert;
    if n > 0 { OpenArrayGrows(content, path, n - 1); ArrayGrows(UpsertTimes(content, path, n - 1).value, path); }
    ArrayGrows(UpsertTimes(content, path, n).value, path);
  }

  /** An unclosed bracket is enough: every edit makes the text longer, whatever the project. */
  lemma UnclosedArrayGrows(path: string, n: nat)
    ensures UpsertTimes("[", path, n).Some? && UpsertTimes("[", path, n + 1).Some?
    ensures |UpsertTimes("[", path, n + 1).value| > |UpsertTimes("[", path, n).value|
  {
    var rows := [Row("[", "")];
    assert IsDocument(rows) && Unlines(rows) == "[";
    DocumentRows(rows);
    OpenBracketReads();
    FindOne(rows[0], START, Project(path));
    hide Rows, Unlines, ScanLine, Find, ScanRows, IsTableHeader, UpsertTimes;
    OpenArrayGrows("[", path, n);
  }

  lemma OpenBracketReads()
    ensures ScanLine("[", START) == ScanState(1, NoString) && !IsTableHeader("[")
  {
    assert "["[1..] == "";
    assert TrimStart("[") == "[" && !HeaderCloses("", Bare);
    assert !(TRIPLE_BASIC <= "[") && !(TRIPLE_LITERAL <= "[");
  }

  // ---- The trust of other projects ----

  /** The trust line a reader finds for a project whose header row is just before these rows. */
  function TrustRow(rows: seq<Row>): Option<string> {
    var inside := rows[..Find(rows, START, Header)];
    var t := Find(inside, START, Trust);
    if t < |inside| then Some(inside[t].text) else None
  }

  /** The trust level on that line. */
  function TrustInside(rows: seq<Row>): Option<string> {
    var line := TrustRow(rows);
    if line.Some? then TrustLevel(line.value) else None
  }

  /** The trust level a reader of the document finds for a project, if any. */
  function TrustFrom(rows: seq<Row>, s: ScanState, path: string): Option<string> {
    var h := Find(rows, s, Project(path));
    if h == |rows| then None else TrustInside(rows[h + 1..])
  }

  function TrustOf(rows: seq<Row>, path: string): Option<string> {
    TrustFrom(rows, START, path)
  }

  /** A found project header splits the rows, and the scan is at its start state after it. */
  lemma FoundHeader(rows: seq<Row>, s: ScanState, path: string)
    requires Find(rows, s, Project(path)) < |rows|
    ensures var h := Find(rows, s, Project(path)); ScanRows(rows[h + 1..], START) == ScanRows(rows, s)
  {
    hide Find, ScanRows, ScanLine, Meets;
    var h := Find(rows, s, Project(path));
    FindStopsAt(rows, s, Project(path));
    StructuralIsStart(ScanRows(rows[..h], s));
    MeetsStaysStructural(rows[h].text, path);
    assert rows == rows[..h] + [rows[h]] + rows[h + 1..];
    FindAround(rows[..h], rows[h], rows[h + 1..], s, Header);
  }

  lemma MeetsStaysStructural(line: string, path: string)
    requires Meets(line, Project(path))
    ensures ScanLine(line, START) == START
  {
    HeaderStaysStructural(line);
  }

  /** A reader of a block does not see past the next structural table header. */
  lemma InsideStops(inside: seq<Row>, next: seq<Row>)
    requires ScanRows(inside, START) == START && next != [] && IsTableHeader(next[0].text)
    ensures TrustRow(inside + next) == TrustRow(inside) && TrustInside(inside + next) == TrustInside(inside)
  {
    FindConcat(inside, next, START, Header);
    EndsOrMeets(next, START, Header);
    hide Find, ScanRows;
    var n := Find(inside, START, Header);
    assert (inside + next)[..n] == inside[..n];
  }

  /** A stretch of rows that starts with a table header and holds no header of the project is skipped. */
  lemma TrustAround(a: seq<Row>, m: seq<Row>, c: seq<Row>, path: string)
    requires ScanRows(a, START) == START && m != [] && IsTableHeader(m[0].text)
    requires Find(m, START, Project(path)) == |m|
    ensures TrustOf(a + m + c, path)
         == if Find(a, START, Project(path)) < |a| then TrustOf(a, path) else TrustFrom(c, ScanRows(m, START), path)
  {
    hide Find, ScanRows, TrustInside, TrustRow, IsTableHeader;
    assert a + m + c == a + (m + c);
    if Find(a, START, Project(path)) < |a| {
      TrustBefore(a, m + c, path);
    } else {
      TrustAfter(a, m, c, path);
    }
  }

  lemma TrustBefore(a: seq<Row>, next: seq<Row>, path: string)
    requires ScanRows(a, START) == START && next != [] && IsTableHeader(next[0].text)
    requires Find(a, START, Project(path)) < |a|
    ensures TrustOf(a + next, path) == TrustOf(a, path)
  {
    hide Find, ScanRows, TrustInside, TrustRow, IsTableHeader;
    var h := Find(a, START, Project(path));
    FindConcat(a, next, START, Project(path));
    FoundHeader(a, START, path);
    InsideStops(a[h + 1..], next);
    assert (a + next)[h + 1..] == a[h + 1..] + next;
  }

  lemma TrustAfter(a: seq<Row>, m: seq<Row>, c: seq<Row>, path: string)
    requires ScanRows(a, START) == START
    requires Find(a, START, Project(path)) == |a| && Find(m, START, Project(path)) == |m|
    ensures TrustOf(a + (m + c), path) == TrustFrom(c, ScanRows(m, START), path)
  {
    hide Find, ScanRows, TrustInside, TrustRow;
    var goal := Project(path);
    FindConcat(a, m + c, START, goal);
    FindConcat(m, c, START, goal);
    var k := Find(c, ScanRows(m, START), goal);
    if k < |c| {
      DropPast(a, m, c, k + 1);
    }
  }

  lemma DropPast(a: seq<Row>, m: seq<Row>, c: seq<Row>, k: nat)
    requires k <= |c|
    ensures (a + (m + c))[|a| + |m| + k..] == c[k..]
  {
  }

  lemma OtherHeader(line: string, path: string, other: string)
    requires Meets(line, Project(path)) && LookupPath(path) != LookupPath(other)
    ensures !Meets(line, Project(other))
  {
  }

  lemma NoOtherProject(header: Row, inside: seq<Row>, path: string, other: string)
    requires Meets(header.text, Project(path)) && LookupPath(path) != LookupPath(other)
    requires ScanLine(header.text, START) == START && Find(inside, START, Header) == |inside|
    ensures Find([header] + inside, START, Project(other)) == |inside| + 1
    ensures ScanRows([header] + inside, START) == ScanRows(inside, START)
  {
    OtherHeader(header.text, path, other);
    NoHeaderNoProject(inside, START, other);
    assert ([header] + inside)[1..] == inside;
  }

  /** Editing a project's block leaves the trust of every other project as it was. */
  lemma EditFrame(rows: seq<Row>, path: string, eol: string, other: string)
    requires IsDocument(rows) && (eol == "\n" || eol == "\r\n")
    requires CutAt(rows, path).Some? && LookupPath(path) != LookupPath(other)
    ensures TrustOf(Edited(rows, eol, path), other) == TrustOf(rows, other)
  {
    var c := CutAt(rows, path).value;
    CutCovers(rows, path);
    HeaderInDocument(rows, path);
    FoundIsCut(rows, path);
    WithTrustIsNextCut(c, eol);
    NextCutIsCut(c, path, eol);
    hide CutAt, WithTrust, NextCut, TrustFrom, ScanLine, Find, ScanRows, IsCut;
    var n := NextCut(c, eol);
    TrustAroundCut(c, path, other);
    TrustAroundCut(n, path, other);
  }

  /** What a reader of another project sees around a cut. */
  lemma TrustAroundCut(c: Cut, path: string, other: string)
    requires IsCut(c, path) && LookupPath(path) != LookupPath(other)
    ensures TrustOf(Join(c), other)
         == if Find(c.before, START, Project(other)) < |c.before| then TrustOf(c.before, other)
            else TrustFrom(c.after, ScanRows(c.inside, START), other)
  {
    CutStarts(c, path);
    NoOtherProject(c.header, c.inside, path, other);
    JoinParts(c);
    hide TrustFrom, TrustInside, TrustRow, ScanLine, Find, ScanRows, IsTableHeader, LookupPath, Meets, IsCut, Join;
    var block := [c.header] + c.inside;
    assert block[0] == c.header && |block| == |c.inside| + 1;
    TrustAround(c.before, block, c.after, other);
  }

  lemma JoinParts(c: Cut)
    ensures Join(c) == c.before + ([c.header] + c.inside) + c.after
  {
    assert c.before + ([c.header] + c.inside) == c.before + [c.header] + c.inside;
  }

  lemma CutStarts(c: Cut, path: string)
    requires IsCut(c, path)
    ensures ScanRows(c.before, START) == START && Meets(c.header.text, Project(path)) && IsTableHeader(c.header.text)
    ensures Find(c.inside, START, Header) == |c.inside| && ScanLine(c.header.text, START) == START
  {
    HeaderStaysStructural(c.header.text);
    hide ScanLine, IsTableHeader, IsHeaderOf, Find;
  }

  // ---- Appending leaves other projects alone, unless the new block opens up an unclosed text ----

  /** The rows after a header form a block that is still open at their end and holds no trust row. */
  predicate IsOpenWithoutTrust(rows: seq<Row>) {
    Find(rows, START, Header) == |rows| && Find(rows, START, Trust) == |rows|
  }

  lemma InsideAppended(inside: seq<Row>, added: seq<Row>)
    requires Find(added, ScanRows(inside, START), Header) == |added|
    ensures TrustRow(inside + added)
         == if !IsOpenWithoutTrust(inside) then TrustRow(inside)
            else var t := Find(added, ScanRows(inside, START), Trust); if t < |added| then Some(added[t].text) else None
    ensures TrustInside(inside + added)
         == if !IsOpenWithoutTrust(inside) then TrustInside(inside)
            else var t := Find(added, ScanRows(inside, START), Trust); if t < |added| then TrustLevel(added[t].text) else None
  {
    hide ScanRows, Find;
    FindConcat(inside, added, START, Header);
    var n := Find(inside, START, Header);
    if n < |inside| {
      assert (inside + added)[..n] == inside[..n];
    } else {
      assert (inside + added)[..n + |added|] == inside + added && inside[..n] == inside;
      FindConcat(inside, added, START, Trust);
    }
  }

  lemma InsideSeam(inside: seq<Row>, m: seq<Row>, m': seq<Row>)
    requires AreSeams(m, m')
    ensures TrustInside(inside + m') == TrustInside(inside + m)
    ensures IsOpenWithoutTrust(inside + m') == IsOpenWithoutTrust(inside + m)
  {
    var s := ScanRows(inside, START);
    if m != [] { SeamReads(m[0].text, m'[0].text, s, Trust); }
    hide ScanRows, Find, ScanLine, Meets, TrustLevel;
    SeamsRead(m, m', s, Header);
    SeamsRead(m, m', s, Trust);
    FindConcat(inside, m, START, Header);
    FindConcat(inside, m', START, Header);
    FindConcat(inside, m, START, Trust);
    FindConcat(inside, m', START, Trust);
    var n := Find(inside + m, START, Header);
    InsideRead(inside, m, n);
    InsideRead(inside, m', n);
  }

  /** Where a block's reader stops: in the first part, or in the part of at most one row after it. */
  lemma InsideRead(inside: seq<Row>, m: seq<Row>, n: nat)
    requires n == Find(inside + m, START, Header)
    requires |m| <= 1
    ensures var t := Find(inside, START, Trust);
      TrustInside(inside + m)
      == if t < |inside| && t < n then TrustLevel(inside[t].text)
         else if n <= |inside| then None
         else if Find(inside + m, START, Trust) < |inside + m| then TrustLevel((inside + m)[Find(inside + m, START, Trust)].text)
         else None
  {
    hide ScanRows, Find, TrustLevel;
    if n <= |inside| {
      assert (inside + m)[..n] == inside[..n];
      assert inside == inside[..n] + inside[n..];
      FindConcat(inside[..n], inside[n..], START, Trust);
    } else {
      assert (inside + m)[..n] == inside + m;
      FindConcat(inside, m, START, Trust);
    }
  }

  lemma InsideBlanks(inside: seq<Row>, blanks: seq<Row>)
    requires AreBlank(blanks)
    ensures TrustInside(inside + blanks) == TrustInside(inside)
    ensures IsOpenWithoutTrust(inside + blanks) == IsOpenWithoutTrust(inside)
  {
    hide ScanRows, Find, Meets;
    BlanksRead(blanks, ScanRows(inside, START), Header);
    BlanksRead(blanks, ScanRows(inside, START), Trust);
    InsideAppended(inside, blanks);
    FindConcat(inside, blanks, START, Header);
    FindConcat(inside, blanks, START, Trust);
    OpenIsUntrusted(inside);
  }

  lemma OpenIsUntrusted(inside: seq<Row>)
    ensures IsOpenWithoutTrust(inside) ==> TrustInside(inside) == None && TrustRow(inside) == None
  {
    hide Find;
    assert inside[..|inside|] == inside;
  }

  predicate IsProjectOpen(rows: seq<Row>, path: string) {
    var h := Find(rows, START, Project(path));
    h < |rows| && IsOpenWithoutTrust(rows[h + 1..])
  }

  /** Closing the document changes no project's trust; a project in an open block stays so when
      the document does not end structural. */
  lemma ClosingTrust(rows: seq<Row>, eol: string, path: string)
    requires IsDocument(rows) && (eol == "\n" || eol == "\r\n")
    ensures TrustOf(Closing(rows, eol), path) == TrustOf(rows, path)
    ensures ScanRows(rows, START) != START ==> IsProjectOpen(Closing(rows, eol), path) == IsProjectOpen(rows, path)
  {
    hide Find, ScanRows, Closing, TrustInside, TrustRow, IsOpenWithoutTrust, ScanLine;
    var a, m, m', blanks := ClosingShape(rows, eol);
    var goal := Project(path);
    var h := Find(a, START, goal);
    assert a + m' + blanks == a + (m' + blanks);
    FindConcat(a, m, START, goal);
    FindConcat(a, m' + blanks, START, goal);
    if h < |a| {
      var inside := a[h + 1..];
      assert (a + m)[h + 1..] == inside + m && (a + (m' + blanks))[h + 1..] == inside + m' + blanks;
      InsideSeam(inside, m, m');
      InsideBlanks(inside + m', blanks);
    } else {
      ClosingLast(a, m, m', blanks, path);
    }
  }

  lemma ClosingLast(a: seq<Row>, m: seq<Row>, m': seq<Row>, blanks: seq<Row>, path: string)
    requires AreSeams(m, m') && AreBlank(blanks)
    requires Find(a, START, Project(path)) == |a|
    ensures TrustOf(a + (m' + blanks), path) == None && TrustOf(a + m, path) == None
    ensures ScanRows(a + m, START) != START ==> !IsProjectOpen(a + m, path) && !IsProjectOpen(a + (m' + blanks), path)
  {
    hide Find, ScanRows, ScanLine, Meets;
    var goal := Project(path);
    var s := ScanRows(a, START);
    SeamsRead(m, m', s, goal);
    BlanksRead(blanks, ScanRows(m', s), goal);
    FindConcat(a, m, START, goal);
    FindConcat(a, m' + blanks, START, goal);
    FindConcat(m', blanks, s, goal);
    ScanConcat(a, m, START);
    if Find(m, s, goal) < |m| {
      LastHeaderIsEmpty(a, m, [], path);
      assert a + (m + []) == a + m;
    }
    if Find(m', s, goal) < |m'| {
      LastHeaderIsEmpty(a, m', blanks, path);
    }
  }

  /** A project header in the last line has no block, and leaves the document structural. */
  lemma LastHeaderIsEmpty(a: seq<Row>, m: seq<Row>, blanks: seq<Row>, path: string)
    requires |m| == 1 && AreBlank(blanks)
    requires Find(a, START, Project(path)) == |a| && Find(m, ScanRows(a, START), Project(path)) == 0
    ensures TrustOf(a + (m + blanks), path) == None
    ensures ScanRows(m, ScanRows(a, START)) == START
  {
    var goal := Project(path);
    var s := ScanRows(a, START);
    StructuralIsStart(s);
    MeetsStaysStructural(m[0].text, path);
    FindOne(m[0], s, goal);
    assert m == [m[0]];
    hide Find, ScanRows, ScanLine, Meets;
    FindConcat(a, m + blanks, START, goal);
    FindConcat(m, blanks, s, goal);
    assert (a + (m + blanks))[|a| + 1..] == [] + blanks;
    InsideBlanks([], blanks);
    NoRowsNoTrust();
  }

  lemma NoRowsNoTrust()
    ensures TrustInside([]) == None
  {
  }

  /** The new block leaks into another project's: the text does not end structural, that project's
      block is open there without a trust line, and the new header happens to close what is open.
      That is always a multi-line literal string. */
  predicate Leaks(rows: seq<Row>, path: string, other: string) {
    && CutAt(rows, path).None? && ScanRows(rows, START) != START
    && ScanLine(ProjectHeader(path), ScanRows(rows, START)) == START
    && IsProjectOpen(rows, other)
  }

  lemma AppendFrame(rows: seq<Row>, path: string, eol: string, other: string)
    requires IsDocument(rows) && (eol == "\n" || eol == "\r\n")
    requires CutAt(rows, path).None? && LookupPath(path) != LookupPath(other)
    ensures TrustOf(Appended(rows, eol, path), other) == TrustOf(rows, other) <==> !Leaks(rows, path, other)
  {
    hide Closing, CutAt, TrustFrom, LookupPath, ScanLine, IsProjectOpen, Find, ScanRows;
    var closing := Closing(rows, eol);
    var s := ScanRows(rows, START);
    ClosingReads(rows, eol, path);
    ClosingTrust(rows, eol, other);
    if s == START {
      AppendedBlockApart(closing, path, eol, other);
    } else {
      AppendedUnread(closing, path, eol, other);
    }
  }

  lemma AppendedBlockApart(closing: seq<Row>, path: string, eol: string, other: string)
    requires ScanRows(closing, START) == START && LookupPath(path) != LookupPath(other)
    ensures TrustOf(closing + [Row(ProjectHeader(path), eol), Row(TRUST_LINE, eol)], other) == TrustOf(closing, other)
  {
    var h, t := Row(ProjectHeader(path), eol), Row(TRUST_LINE, eol);
    ProjectHeaderParses(path);
    HeaderStaysStructural(h.text);
    TrustMeets();
    FindOne(t, START, Header);
    assert Meets(h.text, Project(path));
    hide ScanLine, Find, ScanRows, ProjectHeader, TRUST_LINE, IsTableHeader, LookupPath;
    NoOtherProject(h, [t], path, other);
    assert [h] + [t] == [h, t] && closing + [h, t] + [] == closing + [h, t];
    TrustAround(closing, [h, t], [], other);
    SearchNothing(ScanRows([h, t], START), Project(other));
  }

  lemma AppendedUnread(closing: seq<Row>, path: string, eol: string, other: string)
    requires ScanRows(closing, START) != START
    ensures var leak := ScanLine(ProjectHeader(path), ScanRows(closing, START)) == START && IsProjectOpen(closing, other);
      TrustOf(closing + [Row(ProjectHeader(path), eol), Row(TRUST_LINE, eol)], other)
      == if leak then Some("trusted") else TrustOf(closing, other)
    ensures IsProjectOpen(closing, other) ==> TrustOf(closing, other) == None
  {
    TrustRowReads();
    hide Find, ScanRows, ScanLine, ProjectHeader, TRUST_LINE, TrustInside, TrustRow, IsOpenWithoutTrust, TrustLevel;
    var added := [Row(ProjectHeader(path), eol), Row(TRUST_LINE, eol)];
    var s := ScanRows(closing, START);
    var goal := Project(other);
    AppendedRowsUnread(path, eol, s, goal);
    AppendedRowsUnread(path, eol, s, Header);
    AppendedRowsUnread(path, eol, s, Trust);
    FindConcat(closing, added, START, goal);
    var h := Find(closing, START, goal);
    if h < |closing| {
      var inside := closing[h + 1..];
      FoundHeader(closing, START, other);
      assert (closing + added)[h + 1..] == inside + added;
      InsideAppended(inside, added);
      OpenIsUntrusted(inside);
    }
  }

  /** A leak needs an open literal string: an array stays open behind the header, and so does a
      basic string. */
  lemma LeakIsLiteral(rows: seq<Row>, path: string, other: string)
    requires Leaks(rows, path, other)
    ensures var s := ScanRows(rows, START); s.ScanState? && s.mode == Literal
  {
    hide CutAt, IsProjectOpen, ScanRows, ProjectHeader;
    ProjectHeaderParses(path);
    match ScanRows(rows, START)
    case Panicked => PanicStays(ProjectHeader(path));
    case ScanState(depth, mode) =>
      HeaderKeepsDepth(ProjectHeader(path), depth);
      HeaderStaysBasic(path, depth);
  }

  lemma PanicStays(line: string)
    ensures ScanLine(line, Panicked) == Panicked
  {
  }

  /** The edit leaves the trust level of every other project as the written text has it, except in
      the one case above. */
  lemma WrittenFrame(content: string, path: string, other: string)
    requires Upsert(content, path).Some? && LookupPath(path) != LookupPath(other)
    ensures TrustOf(Rows(Upsert(content, path).value), other) == TrustOf(Rows(Body(content)), other)
      <==> !Leaks(Rows(Body(content)), path, other)
  {
    var body := Body(content);
    EolIs(body);
    RowsAreDocument(body);
    EditedDocument(Rows(body), path, Eol(body));
    hide Rows, Unlines, IsDocument, Panics, Eol, Body, CutAt, TrustFrom, LookupPath, Appended, WithTrust;
    if CutAt(Rows(body), path).None? {
      AppendFrame(Rows(body), path, Eol(body), other);
    } else {
      EditFrame(Rows(body), path, Eol(body), other);
    }
  }

  lemma {:induction false} ScanLiteral(plain: string, rest: string, s: ScanState)
    requires s.ScanState? && s.mode == Literal && '\'' !in plain
    ensures ScanLine(plain + TRIPLE_LITERAL + rest, s) == ScanLine(rest, s.(mode := NoString))
    decreases plain
  {
    var line := plain + TRIPLE_LITERAL + rest;
    if plain == [] {
      assert line == TRIPLE_LITERAL + rest;
      assert line[3..] == rest;
    } else {
      assert line[0] == plain[0] && plain[0] in plain;
      assert line[1..] == plain[1..] + TRIPLE_LITERAL + rest;
      ScanLiteral(plain[1..], rest, s);
    }
  }

  /** The header of a path that holds three quotes ends an open literal string. */
  lemma QuotedPathCloses()
    ensures ScanLine(ProjectHeader("'\''"), ScanState(0, Literal)) == START
  {
    var tail := "\"]";
    QuotedPathHeader();
    hide ProjectHeader;
    ScanLiteral("[projects.\"", tail, ScanState(0, Literal));
    assert tail[0] == '"' && |tail| == 2 && tail[1..] == "]" && "]"[1..] == "";
    assert SkipQuoted("]", '"', true) == Some([]);
  }

  lemma QuotedPathHeader()
    ensures ProjectHeader("'\''") == "[projects.\"" + TRIPLE_LITERAL + "\"]"
  {
    assert "'\''" == ['\''] + "\''" && "\''" == ['\''] + "'" && "'" == ['\''] + "";
    EscapeStep('\'', "\''");
    EscapeStep('\'', "'");
    EscapeStep('\'', "");
    assert EscapeString("") == "";
    hide EscapeString;
    assert EscapeString("'\''") == TRIPLE_LITERAL;
  }

  /** Rows in which the leak happens: project `q` is open, and a literal string is never closed. */
  lemma LeakingRows() returns (rows: seq<Row>)
    ensures IsDocument(rows) && Leaks(rows, "'\''", "q") && rows[0].text == ProjectHeader("q")
  {
    var h, open := Row(ProjectHeader("q"), "\n"), Row(TRIPLE_LITERAL, "");
    rows := [h, open];
    ProjectHeaderParses("q");
    assert IsRow(h, false) && IsRow(open, true);
    OtherPaths();
    assert Meets(h.text, Project("q"));
    QuotedPathCloses();
    HeaderStaysStructural(h.text);
    OpenLiteralReads();
    hide ScanLine, ProjectHeader, IsTableHeader, IsTrustAssignment, IsHeaderOf, LookupPath, TRIPLE_LITERAL, Leaks, Meets;
    LeakFrom(h, open);
    TwoRows(h, open);
  }

  lemma OtherPaths()
    ensures LookupPath("q") != LookupPath("'\''")
  {
    assert LookupPath("q") == "q";
    assert LookupPath("'\''") == "'\''";
  }

  lemma TwoRows(h: Row, t: Row)
    requires IsRow(h, false) && IsRow(t, true)
    ensures IsDocument([h, t])
  {
    hide IsRow;
    forall i | 0 <= i < 2 ensures IsRow([h, t][i], i == 1) {
    }
  }

  lemma OpenLiteralReads()
    ensures ScanLine(TRIPLE_LITERAL, START) == ScanState(0, Literal)
    ensures !IsTableHeader(TRIPLE_LITERAL) && !IsTrustAssignment(TRIPLE_LITERAL)
  {
    assert TRIPLE_BASIC[0] == '"' && TRIPLE_LITERAL[0] == '\'' && TRIPLE_LITERAL[3..] == "";
    TripleMeetsNothing(Header);
    TripleMeetsNothing(Trust);
  }

  lemma LeakFrom(h: Row, open: Row)
    requires Meets(h.text, Project("q")) && ScanLine(h.text, START) == START
    requires LookupPath("q") != LookupPath("'\''")
    requires ScanLine(open.text, START) == ScanState(0, Literal)
    requires !IsTableHeader(open.text) && !IsTrustAssignment(open.text)
    requires ScanLine(ProjectHeader("'\''"), ScanState(0, Literal)) == START
    ensures Leaks([h, open], "'\''", "q")
  {
    var q, p := Project("q"), Project("'\''");
    OtherHeader(h.text, "q", "'\''");
    assert !Meets(open.text, p) && !Meets(open.text, Header) && !Meets(open.text, Trust);
    hide ScanLine, ProjectHeader, IsTableHeader, IsTrustAssignment, IsHeaderOf, LookupPath, Meets;
    FindOne(open, START, Header);
    FindOne(open, START, Trust);
    FindOne(open, START, p);
    FindOne(h, START, p);
    FindConcat([h], [open], START, p);
    ScanConcat([h], [open], START);
    FindFirst(h, [open], START, q);
    assert [h] + [open] == [h, open] && [h, open][1..] == [open];
    hide Find, ScanRows;
  }

  lemma TripleMeetsNothing(goal: Goal)
    requires !goal.Project?
    ensures !Meets(TRIPLE_LITERAL, goal) && !IsTableHeader(TRIPLE_LITERAL)
  {
    assert TrimStart(TRIPLE_LITERAL) == TRIPLE_LITERAL;
    TrimSolid(TRIPLE_LITERAL);
  }
}
