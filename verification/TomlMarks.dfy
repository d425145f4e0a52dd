/** What a reader finds in the text that the trust edit returns. A reader strips one byte order mark,
    as the edit does with the text it is given. So when two marks stand in front of that text, the
    edit sees its first line behind a mark, where it is no header, and the next reader sees it without:
    a block that was hidden comes to light. The promises of the edit are proved here for what is read
    back, with the exact condition under which they hold, and with texts in which they fail. */
module TomlMarks {
  import opened Text
  import opened TomlSyntax
  import opened TomlScan
  import opened TomlLaws
  import opened Toml
  import opened TomlProofs

  /** The rows of a text as they are read: without one byte order mark. */
  function ReadRows(content: string): seq<Row> {
    Rows(Body(content))
  }

  predicate IsMarked(rows: seq<Row>) {
    rows != [] && [BOM] <= rows[0].text
  }

  /** The rows without the mark on the first line. */
  function Unmark(rows: seq<Row>): seq<Row>
    requires IsMarked(rows)
  {
    [Row(rows[0].text[1..], rows[0].ending)] + rows[1..]
  }

  /** Behind a mark on the first line stands the header of a project. */
  predicate HidesProject(rows: seq<Row>, path: string) {
    IsMarked(rows) && Meets(rows[0].text[1..], Project(path))
  }

  /** The appended block leaks into the block behind the first line. */
  predicate LeaksBehindFirst(rows: seq<Row>, path: string) {
    && CutAt(rows, path).None? && ScanRows(rows, START) != START
    && ScanLine(ProjectHeader(path), ScanRows(rows, START)) == START
    && rows != [] && IsOpenWithoutTrust(rows[1..])
  }

  /** The trust of the block behind the first line, once the edit for a project is made. */
  function HiddenTrust(rows: seq<Row>, path: string): Option<string>
    requires rows != []
  {
    if LeaksBehindFirst(rows, path) then Some("trusted") else TrustInside(rows[1..])
  }

  /** The trust line of that block. */
  function HiddenLine(rows: seq<Row>, eol: string, path: string): Option<string>
    requires rows != []
  {
    if LeaksBehindFirst(rows, path) then Some(TRUST_LINE)
    else
      var closed := if CutAt(rows, path).None? then Closing(rows, eol) else rows;
      if closed == [] then None else TrustRow(closed[1..])
  }

  // ---- A marked line ----

  lemma MarkMeetsNothing(text: string, path: string)
    requires [BOM] <= text
    ensures !IsTableHeader(text) && !Meets(text, Project(path)) && ScanLine(text, START) == ScanLine(text[1..], START)
  {
    assert text[0] == BOM && text == [BOM] + text[1..];
    assert TrimStart(text) == text;
    ScanUnmarked(BOM, text[1..], START);
  }

  lemma FirstCharacter(body: string)
    ensures body != [] && body[0] == BOM <==> IsMarked(Rows(body))
  {
    if body != [] {
      FirstRowIsRow(body);
      var row := FirstRow(body);
      assert Rows(body)[0] == row;
      assert row.Raw()[0] == body[0] by { assert row.Raw() <= body && row.Raw() != []; }
    }
  }

  // ---- The first row through the edit ----

  lemma EditedKeepsFirst(rows: seq<Row>, eol: string, path: string)
    requires IsDocument(rows) && IsMarked(rows) && eol == Eol(Unlines(rows))
    ensures var edited := Edited(rows, eol, path); |edited| >= 2 && edited[0].text == rows[0].text
  {
    MarkMeetsNothing(rows[0].text, path);
    EolIs(Unlines(rows));
    if CutAt(rows, path).Some? {
      assert Find(rows, START, Project(path)) > 0;
      hide Find, FirstRow, TRUST_LINE;
    } else {
      hide CutAt;
      ClosingKeepsFirst(rows, eol);
    }
  }

  lemma ClosingKeepsFirst(rows: seq<Row>, eol: string)
    requires IsDocument(rows) && rows != [] && eol == Eol(Unlines(rows))
    ensures Closing(rows, eol) != [] && Closing(rows, eol)[0].text == rows[0].text
  {
    EolIs(Unlines(rows));
    if |rows| == 1 {
      OnlyRow(rows[0], eol);
      assert rows == [rows[0]] && rows[..0] == [];
    }
    hide Unlines, EndsWith, FirstRow, Eol, IsDocument;
  }

  /** A single row keeps its text when it is closed: a text without a line feed has no other ending. */
  lemma OnlyRow(row: Row, eol: string)
    requires IsDocument([row]) && eol == Eol(Unlines([row]))
    ensures !EndsWith(Unlines([row]), "\n") ==> FirstRow(row.Raw() + eol).text == row.text
  {
    assert IsRow([row][0], true);
    UnlinesOne(row);
    if !EndsWith(Unlines([row]), "\n") {
      LineFeedEnds("", row);
      assert "" + row.text + row.ending == row.Raw() == Unlines([row]);
      NoCrlf(row.Raw());
      EolIs(row.Raw());
      CloseRow(row.Raw(), "\n");
      assert row.ending == "" ==> row.Raw() == row.text;
      assert row.ending == "\r" ==> row.Raw() == row.text + "\r" && EndsWithCr(row.Raw()) && row.Raw()[..|row.Raw()| - 1] == row.text;
      ClosedEndingOf(row);
    }
  }

  lemma {:induction false} NoCrlf(s: string)
    requires '\n' !in s
    ensures !Contains(s, "\r\n")
  {
    CrlfHasLineFeed(s);
    if s != [] {
      assert forall c <- s[1..] :: c in s;
      NoCrlf(s[1..]);
    }
  }

  lemma CrlfHasLineFeed(s: string)
    ensures "\r\n" <= s ==> '\n' in s
  {
    if "\r\n" <= s { assert s[1] == '\n'; }
  }

  lemma ClosedEndingOf(row: Row)
    requires IsRow(row, true) && row.ending in {"", "\r"} && '\n' !in row.Raw()
    requires var closed := FirstRow(row.Raw() + "\n");
      closed.Raw() == row.Raw() + "\n" && IsRow(closed, false) && (row.Raw() == closed.text || row.Raw() == closed.text + "\r")
    ensures FirstRow(row.Raw() + "\n").text == row.text
  {
    var closed := FirstRow(row.Raw() + "\n");
    hide FirstRow;
    if row.ending == "" {
      assert row.Raw() == row.text;
      LastIsCr(closed.text);
    } else {
      SameEnding(row.Raw(), closed);
      assert row.Raw()[|row.Raw()| - 1] == '\r';
      assert row.Raw() == closed.text ==> EndsWithCr(closed.text) && closed.ending == "\n";
      assert row.Raw()[..|row.Raw()| - 1] == row.text;
      assert row.Raw() == closed.text + "\r" ==> closed.text == row.Raw()[..|row.Raw()| - 1];
    }
  }

  lemma LastIsCr(s: string)
    ensures EndsWithCr(s + "\r")
  {
  }

  lemma SameEnding(raw: string, closed: Row)
    requires closed.Raw() == raw + "\n"
    ensures raw == closed.text ==> closed.ending == "\n"
  {
    assert closed.Raw()[|closed.text|..] == closed.ending && (raw + "\n")[|raw|..] == "\n";
  }

  // ---- Reading the result ----

  lemma UnmarkedDocument(rows: seq<Row>)
    requires IsDocument(rows) && IsMarked(rows) && |rows| >= 2
    ensures IsDocument(Unmark(rows)) && Unlines(rows) == [BOM] + Unlines(Unmark(rows))
  {
    assert IsRow(rows[0], 0 == |rows| - 1);
    UnmarkedRow(rows[0]);
    hide IsRow, Unlines;
    forall i | 0 <= i < |rows| ensures IsRow(Unmark(rows)[i], i == |rows| - 1) {
      assert IsRow(rows[i], i == |rows| - 1);
    }
    UnmarkedText(rows);
  }

  lemma UnmarkedRow(row: Row)
    requires IsRow(row, false) && [BOM] <= row.text
    ensures IsRow(Row(row.text[1..], row.ending), false)
  {
    var text := row.text[1..];
    assert row.text == [BOM] + text;
    assert EndsWithCr(text) ==> EndsWithCr(row.text);
    assert forall c <- text :: c in row.text;
  }

  lemma UnmarkedText(rows: seq<Row>)
    requires IsMarked(rows)
    ensures Unlines(rows) == [BOM] + Unlines(Unmark(rows))
  {
    var text := rows[0].text[1..];
    assert rows[0].text == [BOM] + text && Unmark(rows)[1..] == rows[1..];
    MarkInFront(text, rows[0].ending, Unlines(rows[1..]));
  }

  lemma MarkInFront(text: string, ending: string, rest: string)
    ensures [BOM] + text + ending + rest == [BOM] + (text + ending + rest)
  {
  }

  /** The rows of the result as it is read: those written, without a mark on the first one. */
  lemma ResultAsRead(content: string, path: string)
    requires Upsert(content, path).Some?
    ensures var once := Upsert(content, path).value;
      var marked := IsMarked(ReadRows(content));
      && IsMarked(Rows(once)) == marked && ReadRows(once) == if marked then Unmark(Rows(once)) else Rows(once)
    ensures Rows(Upsert(content, path).value) == Edited(ReadRows(content), Eol(Body(content)), path)
    ensures IsMarked(ReadRows(content)) ==> Rows(Upsert(content, path).value)[0].text == ReadRows(content)[0].text
  {
    hide Rows, Unlines, Edited, IsDocument, Panics, Eol, Unmark, IsMarked;
    var body := Body(content);
    var once := Upsert(content, path).value;
    EolIs(body);
    RowsAreDocument(body);
    EditedDocument(Rows(body), path, Eol(body));
    EditIsNoShift(body, path, Eol(body));
    FirstCharacter(body);
    FirstCharacter(once);
    if IsMarked(Rows(body)) {
      EditedKeepsFirst(Rows(body), Eol(body), path);
      MarkedResult(once);
    } else {
      assert body != [] ==> once[0] == body[0];
      UnmarkedResult(once);
    }
  }

  lemma MarkedResult(once: string)
    requires IsMarked(Rows(once)) && |Rows(once)| >= 2
    ensures Rows(Body(once)) == Unmark(Rows(once))
  {
    hide Rows, Unlines, IsDocument, Unmark;
    RowsAreDocument(once);
    UnmarkedDocument(Rows(once));
    DocumentRows(Unmark(Rows(once)));
    assert once[1..] == Unlines(Unmark(Rows(once)));
  }

  lemma UnmarkedResult(once: string)
    requires !(once != [] && once[0] == BOM)
    ensures Body(once) == once
  {
  }

  // ---- Trust as it is read ----

  lemma ScanUnmarkedRows(rows: seq<Row>)
    requires IsMarked(rows)
    ensures ScanRows(Unmark(rows), START) == ScanRows(rows, START)
    ensures ScanLine(rows[0].text, START) == ScanLine(rows[0].text[1..], START)
  {
    MarkMeetsNothing(rows[0].text, "");
    assert Unmark(rows)[1..] == rows[1..];
    hide ScanLine;
  }

  /** Without a header behind the mark, a search finds the same place with and without it. */
  lemma UnmarkedFind(rows: seq<Row>, path: string)
    requires IsMarked(rows) && !HidesProject(rows, path)
    ensures Find(Unmark(rows), START, Project(path)) == Find(rows, START, Project(path)) > 0
  {
    MarkMeetsNothing(rows[0].text, path);
    assert Unmark(rows)[1..] == rows[1..];
    hide ScanLine, Meets;
  }

  lemma UnmarkedTrust(rows: seq<Row>, path: string)
    requires IsMarked(rows) && !HidesProject(rows, path)
    ensures TrustOf(Unmark(rows), path) == TrustOf(rows, path)
    ensures IsTrusted(Unmark(rows), path) == IsTrusted(rows, path)
    ensures CutAt(Unmark(rows), path).None? == CutAt(rows, path).None?
  {
    UnmarkedFind(rows, path);
    var h := Find(rows, START, Project(path));
    var plain := Unmark(rows);
    hide Find, ScanRows, TrustInside, TrustRow, Meets;
    assert plain[h..] == rows[h..] by { assert forall i :: 1 <= i < |rows| ==> plain[i] == rows[i]; }
    if h < |rows| {
      assert plain[h + 1..] == rows[h + 1..] && plain[h] == rows[h];
      SameCut(rows, path);
    }
  }

  lemma SameCut(rows: seq<Row>, path: string)
    requires IsMarked(rows) && !HidesProject(rows, path) && CutAt(rows, path).Some?
    requires Find(Unmark(rows), START, Project(path)) == Find(rows, START, Project(path)) > 0
    ensures CutAt(Unmark(rows), path).Some?
    ensures var c, d := CutAt(rows, path).value, CutAt(Unmark(rows), path).value;
      d.inside == c.inside && d.header == c.header && Panics(Unmark(rows), path) == Panics(rows, path)
  {
    hide ScanLine, ScanRows, Find, HidesProject;
    var h := Find(rows, START, Project(path));
    UnmarkedParts(rows, h);
    var c := CutAt(rows, path).value;
    var before := rows[..h];
    var tail := [c.header] + c.inside;
    ScanUnmarkedRows(before);
    ScanConcat(before, tail, START);
    ScanConcat(Unmark(before), tail, START);
    assert before + [c.header] + c.inside == before + tail;
    assert Unmark(before) + [c.header] + c.inside == Unmark(before) + tail;
  }

  lemma UnmarkedParts(rows: seq<Row>, h: nat)
    requires IsMarked(rows) && 0 < h < |rows|
    ensures var plain := Unmark(rows);
      && plain[h] == rows[h] && plain[h + 1..] == rows[h + 1..]
      && IsMarked(rows[..h]) && plain[..h] == Unmark(rows[..h])
  {
  }

  lemma TrustedIsRead(rows: seq<Row>, path: string)
    ensures IsTrusted(rows, path) ==> TrustOf(rows, path) == Some("trusted")
    ensures CutAt(rows, path).None? ==> TrustOf(rows, path) == None
  {
    if IsTrusted(rows, path) {
      var h := Find(rows, START, Project(path));
      TrustRowReads();
      FindStopsAt(rows, START, Project(path));
      MeetsStaysStructural(rows[h].text, path);
    }
  }

  // ---- A block that comes to light ----

  /** A header behind the mark makes the rows after it the block of its project. */
  lemma RevealedTrust(rows: seq<Row>, path: string)
    requires HidesProject(rows, path)
    ensures TrustOf(Unmark(rows), path) == TrustInside(rows[1..])
    ensures ScanLine(rows[0].text, START) == START
  {
    var plain := Unmark(rows);
    MeetsStaysStructural(rows[0].text[1..], path);
    ScanUnmarkedRows(rows);
    hide TrustInside, TrustRow, Meets, ScanLine;
    assert Find(plain, START, Project(path)) == 0;
    assert plain[1..] == rows[1..];
  }

  /** What the edit for a project does to the block behind the first row. */
  lemma EditBehindFirst(rows: seq<Row>, eol: string, path: string)
    requires IsDocument(rows) && rows != [] && (eol == "\n" || eol == "\r\n") && !Panics(rows, path)
    requires !Meets(rows[0].text, Project(path)) && ScanLine(rows[0].text, START) == START
    ensures Edited(rows, eol, path) != []
    ensures TrustInside(Edited(rows, eol, path)[1..]) == HiddenTrust(rows, path)
    ensures TrustRow(Edited(rows, eol, path)[1..]) == HiddenLine(rows, eol, path)
  {
    hide TrustRow, TrustInside;
    if CutAt(rows, path).Some? {
      CutBehindFirst(rows, eol, path);
    } else {
      AppendBehindFirst(rows, eol, path);
    }
  }

  lemma CutBehindFirst(rows: seq<Row>, eol: string, path: string)
    requires IsDocument(rows) && rows != [] && (eol == "\n" || eol == "\r\n") && CutAt(rows, path).Some?
    requires !Meets(rows[0].text, Project(path)) && ScanLine(rows[0].text, START) == START
    ensures WithTrust(CutAt(rows, path).value, eol) != []
    ensures TrustInside(WithTrust(CutAt(rows, path).value, eol)[1..]) == TrustInside(rows[1..])
    ensures TrustRow(WithTrust(CutAt(rows, path).value, eol)[1..]) == TrustRow(rows[1..])
  {
    var c := CutAt(rows, path).value;
    CutBefore(rows, path);
    CutCovers(rows, path);
    HeaderInDocument(rows, path);
    FoundIsCut(rows, path);
    hide CutAt, WithTrust, NextCut, TrustInside, TrustRow, Find, ScanLine, ScanRows, IsTableHeader, IsDocument;
    WithTrustIsNextCut(c, eol);
    NextCutIsCut(c, path, eol);
    var n := NextCut(c, eol);
    BehindFirst(c, path);
    BehindFirst(n, path);
  }

  lemma CutBefore(rows: seq<Row>, path: string)
    requires rows != [] && CutAt(rows, path).Some? && !Meets(rows[0].text, Project(path))
    ensures var c := CutAt(rows, path).value; c.before != [] && c.before[0] == rows[0]
  {
    assert Find(rows, START, Project(path)) > 0;
    hide Find;
  }

  /** What a reader behind the first row of a document finds in front of a cut. */
  lemma BehindFirst(c: Cut, path: string)
    requires IsCut(c, path) && c.before != [] && ScanLine(c.before[0].text, START) == START
    ensures Join(c) != []
    ensures TrustInside(Join(c)[1..]) == TrustInside(c.before[1..]) && TrustRow(Join(c)[1..]) == TrustRow(c.before[1..])
  {
    hide TrustInside, TrustRow, ScanLine, IsTableHeader, Find, ScanRows;
    FirstScanned(c.before);
    JoinBehind(c);
    InsideStops(c.before[1..], [c.header] + c.inside + c.after);
  }

  lemma FirstScanned(rows: seq<Row>)
    requires rows != [] && ScanLine(rows[0].text, START) == START
    ensures ScanRows(rows[1..], START) == ScanRows(rows, START)
  {
    hide ScanLine;
  }

  lemma JoinBehind(c: Cut)
    requires c.before != []
    ensures Join(c) != [] && Join(c)[1..] == c.before[1..] + ([c.header] + c.inside + c.after)
  {
  }

  /** Closing a document leaves what stands behind its first row as it reads. */
  lemma ClosingBehindFirst(rows: seq<Row>, eol: string)
    requires IsDocument(rows) && rows != [] && (eol == "\n" || eol == "\r\n") && ScanLine(rows[0].text, START) == START
    ensures Closing(rows, eol) != []
    ensures var behind := Closing(rows, eol)[1..];
      && TrustInside(behind) == TrustInside(rows[1..]) && IsOpenWithoutTrust(behind) == IsOpenWithoutTrust(rows[1..])
      && ScanRows(behind, START) == ScanRows(rows, START)
  {
    hide Closing, TrustInside, TrustRow, IsOpenWithoutTrust, ScanLine, Find, FirstRow, Unlines, Meets;
    var a, m, m', blanks := ClosingShape(rows, eol);
    ClosingReads(rows, eol, "");
    if a != [] {
      var inside := a[1..];
      InsideSeam(inside, m, m');
      InsideBlanks(inside + m', blanks);
      assert rows[1..] == inside + m && (a + m' + blanks)[1..] == inside + m' + blanks;
      assert Closing(rows, eol)[0] == rows[0];
    } else {
      SeamReads(m[0].text, m'[0].text, START, Header);
      InsideBlanks([], blanks);
      assert rows[1..] == [] && (a + m' + blanks)[1..] == [] + blanks && Closing(rows, eol)[0] == m'[0];
    }
  }

  lemma AppendBehindFirst(rows: seq<Row>, eol: string, path: string)
    requires IsDocument(rows) && rows != [] && (eol == "\n" || eol == "\r\n") && CutAt(rows, path).None?
    requires ScanLine(rows[0].text, START) == START
    ensures Appended(rows, eol, path) != []
    ensures TrustInside(Appended(rows, eol, path)[1..]) == HiddenTrust(rows, path)
    ensures TrustRow(Appended(rows, eol, path)[1..]) == HiddenLine(rows, eol, path)
  {
    ProjectHeaderParses(path);
    TrustRowReads();
    hide Closing, TrustInside, TrustRow, IsOpenWithoutTrust, ScanLine, ScanRows, Find, IsTableHeader, ProjectHeader, TRUST_LINE, TrustLevel, CutAt;
    ClosingBehindFirst(rows, eol);
    var behind, added := Closing(rows, eol)[1..], [Row(ProjectHeader(path), eol), Row(TRUST_LINE, eol)];
    assert Appended(rows, eol, path)[1..] == behind + added;
    if ScanRows(rows, START) == START {
      InsideStops(behind, added);
    } else {
      AppendedRowsUnread(path, eol, ScanRows(rows, START), Header);
      AppendedRowsUnread(path, eol, ScanRows(rows, START), Trust);
      InsideAppended(behind, added);
      OpenIsUntrusted(behind);
    }
  }

  // ---- The promises of the edit ----

  lemma NoPanic(content: string, path: string)
    requires Upsert(content, path).Some?
    ensures !Panics(ReadRows(content), path) && IsDocument(ReadRows(content))
    ensures Eol(Body(content)) == "\n" || Eol(Body(content)) == "\r\n"
  {
    RowsAreDocument(Body(content));
    EolIs(Body(content));
  }

  /** What is read of a project whose header a mark hid. */
  lemma HiddenIsRead(content: string, path: string, hidden: string)
    requires Upsert(content, path).Some? && HidesProject(ReadRows(content), hidden)
    ensures TrustOf(ReadRows(Upsert(content, path).value), hidden) == HiddenTrust(ReadRows(content), path)
  {
    var rows, eol := ReadRows(content), Eol(Body(content));
    NoPanic(content, path);
    ResultAsRead(content, path);
    hide Upsert, ReadRows, Edited, Rows, Eol, Body, Panics, IsDocument, TrustInside, TrustRow, TrustFrom, HiddenTrust, ScanLine, Meets;
    RevealedTrust(rows, hidden);
    MarkMeetsNothing(rows[0].text, path);
    EditBehindFirst(rows, eol, path);
    var edited := Edited(rows, eol, path);
    assert HidesProject(edited, hidden);
    RevealedTrust(edited, hidden);
  }

  /** What is read of any other project is what was written. */
  lemma WrittenIsRead(content: string, path: string, other: string)
    requires Upsert(content, path).Some? && !HidesProject(ReadRows(content), other)
    ensures var once := Upsert(content, path).value;
      && TrustOf(ReadRows(once), other) == TrustOf(Rows(once), other)
      && IsTrusted(ReadRows(once), other) == IsTrusted(Rows(once), other)
      && CutAt(ReadRows(once), other).None? == CutAt(Rows(once), other).None?
  {
    ResultAsRead(content, path);
    hide Upsert, ReadRows, Edited, Rows, Eol, Body, TrustFrom, Meets, IsTrusted, CutAt;
    var once := Upsert(content, path).value;
    if IsMarked(Rows(once)) {
      UnmarkedTrust(Rows(once), other);
    }
  }

  /** The edit is effective: read back, the project is trusted, by the line the edit writes, exactly
      unless a block was appended to a text that does not end structural. Only when a second mark hid a
      header of the project on the first line does the block there decide. */
  lemma UpsertIsEffective(content: string, path: string)
    requires Upsert(content, path).Some?
    ensures var rows, read := ReadRows(content), ReadRows(Upsert(content, path).value);
      && (TrustOf(read, path) == Some("trusted")
          <==> if HidesProject(rows, path) then HiddenTrust(rows, path) == Some("trusted")
               else AppendsBlock(content, path) ==> EndsStructural(content))
      && (!HidesProject(rows, path) ==>
            (IsTrusted(read, path) <==> (AppendsBlock(content, path) ==> EndsStructural(content))))
  {
    hide Upsert, ReadRows, Rows, Body, TrustFrom, Meets, IsTrusted, CutAt, HiddenTrust, ScanRows, HidesProject;
    var read := ReadRows(Upsert(content, path).value);
    if HidesProject(ReadRows(content), path) {
      HiddenIsRead(content, path, path);
    } else {
      WrittenIsTrusted(content, path);
      WrittenIsRead(content, path, path);
      TrustedIsRead(read, path);
    }
  }

  /** The edit leaves the trust of every other project as it was read before, exactly unless it leaks;
      only when a second mark hid a header of that project on the first line must the block there say
      what the text said before. */
  lemma UpsertFrame(content: string, path: string, other: string)
    requires Upsert(content, path).Some? && LookupPath(path) != LookupPath(other)
    ensures var rows, read := ReadRows(content), ReadRows(Upsert(content, path).value);
      TrustOf(read, other) == TrustOf(rows, other)
      <==> if HidesProject(rows, other) then HiddenTrust(rows, path) == TrustOf(rows, other)
           else !Leaks(rows, path, other)
  {
    hide Upsert, Rows, Body, TrustFrom, Meets, LookupPath, HiddenTrust, Leaks, HidesProject;
    if HidesProject(ReadRows(content), other) {
      HiddenIsRead(content, path, other);
    } else {
      WrittenFrame(content, path, other);
      WrittenIsRead(content, path, other);
    }
  }

  // ---- Texts in which the promises fail ----

  /** A text in which the leak happens: it changes the trust of project `q` from none at all. */
  lemma LeakExample() returns (content: string)
    ensures Upsert(content, "'\''").Some? && LookupPath("'\''") != LookupPath("q")
    ensures TrustOf(ReadRows(Upsert(content, "'\''").value), "q") != TrustOf(ReadRows(content), "q")
  {
    var rows := LeakingRows();
    content := Unlines(rows);
    DocumentRows(rows);
    LeakReturns(rows, "'\''", "q");
    OtherPaths();
    HeaderStarts("q");
    LeaksWhenRead(content);
  }

  lemma LeaksWhenRead(content: string)
    requires var rows := Rows(content);
      rows != [] && rows[0].text == ProjectHeader("q") && Leaks(rows, "'\''", "q") && !Panics(rows, "'\''")
    requires LookupPath("'\''") != LookupPath("q") && ProjectHeader("q") != [] && ProjectHeader("q")[0] == '['
    ensures Upsert(content, "'\''").Some?
    ensures TrustOf(ReadRows(Upsert(content, "'\''").value), "q") != TrustOf(ReadRows(content), "q")
  {
    hide Rows, Unlines, ProjectHeader, Leaks, Panics, LookupPath, TrustFrom, IsDocument, Edited, Eol;
    FirstCharacter(content);
    UnmarkedResult(content);
    assert ReadRows(content) == Rows(content) && !IsMarked(Rows(content));
    UpsertFrame(content, "'\''", "q");
  }

  lemma HeaderStarts(path: string)
    ensures ProjectHeader(path) != [] && ProjectHeader(path)[0] == '['
  {
  }

  lemma LeakReturns(rows: seq<Row>, path: string, other: string)
    requires Leaks(rows, path, other)
    ensures !Panics(rows, path)
  {
    PanicStays(ProjectHeader(path));
    hide ScanLine, ScanRows, ProjectHeader, IsProjectOpen;
  }

  const UNTRUSTED_LINE := "trust_level = \"untrusted\""

  /** Two marks, the header of a project, and a line that says it is not trusted. */
  function HidingText(hidden: string): string {
    [BOM, BOM] + ProjectHeader(hidden) + "\n" + UNTRUSTED_LINE + "\n"
  }

  function HidingRows(hidden: string): seq<Row> {
    [Row([BOM] + ProjectHeader(hidden), "\n"), Row(UNTRUSTED_LINE, "\n")]
  }

  lemma HidingTextRows(hidden: string)
    ensures ReadRows(HidingText(hidden)) == HidingRows(hidden)
  {
    ProjectHeaderParses(hidden);
    var header := ProjectHeader(hidden);
    hide ProjectHeader, UNTRUSTED_LINE;
    UntrustedLine();
    var h, t := Row([BOM] + header, "\n"), Row(UNTRUSTED_LINE, "\n");
    assert IsRow(h, false) && IsRow(t, true);
    assert Unlines([h, t]) == HidingText(hidden)[1..] by { HidingLines(h, t, header); }
    TwoRows(h, t);
    hide IsDocument, Rows, Unlines, HidingText;
    DocumentRows([h, t]);
    HidingTextIsMarked(hidden);
  }

  lemma HidingTextIsMarked(hidden: string)
    ensures Body(HidingText(hidden)) == HidingText(hidden)[1..]
  {
    assert HidingText(hidden)[0] == BOM;
  }

  lemma HidingLines(h: Row, t: Row, header: string)
    requires h == Row([BOM] + header, "\n") && t == Row(UNTRUSTED_LINE, "\n")
    ensures Unlines([h, t]) == ([BOM, BOM] + header + "\n" + UNTRUSTED_LINE + "\n")[1..]
  {
    hide UNTRUSTED_LINE;
    assert [h, t] == [h] + [t];
    UnlinesConcat([h], [t]);
    UnlinesOne(h);
    UnlinesOne(t);
    hide Unlines;
    assert [BOM, BOM] + header + "\n" + UNTRUSTED_LINE + "\n" == [BOM] + ([BOM] + header + "\n" + (UNTRUSTED_LINE + "\n"));
  }

  lemma UntrustedLineShape()
    ensures UNTRUSTED_LINE == "trust_level" + (" " + ("=" + " \"untrusted\""))
  {
  }

  lemma UntrustedLineCharacters()
    ensures '\n' !in UNTRUSTED_LINE && '\r' !in UNTRUSTED_LINE
    ensures UNTRUSTED_LINE != [] && UNTRUSTED_LINE[0] == 't' && UNTRUSTED_LINE[|UNTRUSTED_LINE| - 1] == '"'
  {
  }

  lemma UntrustedLine()
    ensures TrustLevel(UNTRUSTED_LINE) == Some("untrusted")
    ensures '\n' !in UNTRUSTED_LINE && !EndsWithCr(UNTRUSTED_LINE)
  {
    var s3 := " \"untrusted\"";
    var s2 := "=" + s3;
    var s1 := " " + s2;
    UntrustedLineShape();
    UntrustedLineCharacters();
    hide UNTRUSTED_LINE;
    TrimSolid(UNTRUSTED_LINE);
    StripPrefixOf("trust_level", s1);
    StripPrefixOf("=", s3);
    assert s1[1..] == s2 && TrimStart(s1) == s2;
    UntrustedValue();
    hide Trim, TrimStart, StripPrefix, TrustValue;
  }

  lemma UntrustedValue()
    ensures TrustValue(TrimStart(" \"untrusted\"")) == Some(("untrusted", ""))
    ensures Trim("") == []
  {
    var s4 := "\"untrusted\"";
    assert " \"untrusted\""[1..] == s4 && TrimStart(s4) == s4;
    SplitAt("untrusted", '"', "");
    assert s4[1..] == "untrusted" + ['"'] + "";
  }

  /** A mark hides a block: the edit, whatever its project, does not see it, and the next reader does. */
  lemma HiddenBlockIsUntrusted(hidden: string, path: string)
    ensures var rows := HidingRows(hidden);
      && CutAt(rows, path).None? && ScanRows(rows, START) == START
      && HidesProject(rows, hidden) && HiddenTrust(rows, path) == Some("untrusted") && TrustOf(rows, hidden) == None
  {
    UntrustedLine();
    ProjectHeaderParses(hidden);
    TrustStaysStructural(UNTRUSTED_LINE);
    var h, t := Row([BOM] + ProjectHeader(hidden), "\n"), Row(UNTRUSTED_LINE, "\n");
    assert h.text[1..] == ProjectHeader(hidden);
    assert Meets(h.text[1..], Project(hidden));
    HeaderStaysStructural(h.text[1..]);
    MarkMeetsNothing(h.text, path);
    MarkMeetsNothing(h.text, hidden);
    hide ProjectHeader, UNTRUSTED_LINE, ScanLine, IsTableHeader, Meets, TrustLevel;
    HiddenSearch(h, t, path);
    HiddenSearch(h, t, hidden);
    HiddenInside(t);
    assert [h, t][1..] == [t];
    hide Find, ScanRows, TrustInside, TrustRow;
  }

  lemma HiddenSearch(h: Row, t: Row, path: string)
    requires !Meets(h.text, Project(path)) && ScanLine(h.text, START) == START
    requires ScanLine(t.text, START) == START && !IsTableHeader(t.text)
    ensures Find([h, t], START, Project(path)) == 2 && ScanRows([h, t], START) == START
  {
    assert !Meets(t.text, Project(path));
    hide Find, ScanRows, ScanLine, Meets, IsTableHeader;
    assert [h] + [t] == [h, t];
    FindConcat([h], [t], START, Project(path));
    ScanConcat([h], [t], START);
    FindOne(h, START, Project(path));
    FindOne(t, START, Project(path));
  }

  lemma HiddenInside(t: Row)
    requires TrustLevel(t.text).Some? && !IsTableHeader(t.text)
    ensures TrustInside([t]) == TrustLevel(t.text)
  {
    hide TrustLevel, IsTableHeader;
    assert Meets(t.text, Trust) && !Meets(t.text, Header);
    hide Meets;
    FindOne(t, START, Header);
    FindOne(t, START, Trust);
    assert [t][..1] == [t];
    hide Find;
  }

  /** For every project there is a text in which nothing is left open, and after the edit that should
      trust it, it is read as untrusted; and for every other project an edit that brings this to light. */
  lemma MarkExample(hidden: string, path: string)
    ensures var content := HidingText(hidden);
      && Upsert(content, path).Some? && AppendsBlock(content, path) && EndsStructural(content)
      && TrustOf(ReadRows(content), hidden) == None
      && TrustOf(ReadRows(Upsert(content, path).value), hidden) == Some("untrusted")
  {
    hide Rows, Unlines, Body, TrustFrom, HiddenTrust, HidingRows, HidingText, HidesProject, ScanRows, CutAt, Edited;
    HidingTextRows(hidden);
    HiddenBlockIsUntrusted(hidden, path);
    HiddenIsRead(HidingText(hidden), path, hidden);
  }
}
