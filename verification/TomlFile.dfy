/** The configuration file around the trust edit. A run reads the file without one byte order mark, the
    edit strips another one, and the file is replaced only if the text is no longer the one read. */
module TomlFile {
  import opened Text
  import opened TomlSyntax
  import opened TomlScan
  import opened TomlLaws
  import opened Toml
  import opened TomlProofs
  import opened TomlMarks
  import opened TomlPanics

  /** The text of a configuration file, if there is one. */
  type File = Option<string>

  datatype Update = Crash | Unchanged | Replaced(text: string)

  function ReadConfig(file: File): string {
    if file.None? then "" else Body(file.value)
  }

  function UpdateConfig(file: File, path: string): Update {
    var existing := ReadConfig(file);
    match Upsert(existing, path)
    case None => Crash
    case Some(updated) => if updated != existing then Replaced(updated) else Unchanged
  }

  /** The file after a run that has not crashed. */
  function Updated(file: File, path: string): File {
    match UpdateConfig(file, path)
    case Replaced(text) => Some(text)
    case _ => file
  }

  // ---- When a text is left alone ----

  /** A text without a mark is left alone exactly if it trusts the project by the line the edit writes. */
  lemma FixedIsTrusted(text: string, path: string)
    requires Body(text) == text
    ensures Upsert(text, path) == Some(text) <==> IsTrusted(Rows(text), path)
  {
    RowsAreDocument(text);
    if IsTrusted(Rows(text), path) {
      TrustedIsFixed(Rows(text), path, Eol(text));
    }
    if Upsert(text, path) == Some(text) {
      UpsertIsIdempotent(text, path);
      WrittenIsTrusted(text, path);
    }
    hide Rows, Unlines, Edited, Eol, CutAt, IsDocument;
  }

  /** A text with a mark is never left alone. */
  lemma MarkedIsChanged(text: string, path: string)
    requires [BOM] <= text
    ensures Upsert(text, path) != Some(text)
  {
    hide Rows, Unlines, Edited, CutAt, Panics, Eol;
    EolIs(Body(text));
    EditIsNoShift(Body(text), path, Eol(Body(text)));
    assert text == [BOM] + Body(text);
  }

  // ---- A block that comes to light ----

  lemma PrefixReads(a: seq<Row>, b: seq<Row>, s: ScanState)
    ensures !ScanRows(a + b, s).Panicked? ==> !ScanRows(a, s).Panicked?
  {
    ScanConcat(a, b, s);
    if ScanRows(a, s).Panicked? {
      PanickedForever(b, Header);
    }
  }

  /** What the scan of a document reads, and more than that. */
  lemma EarlierReads(rows: seq<Row>, n: nat, m: nat, s: ScanState)
    requires n <= m <= |rows| && !ScanRows(rows[..m], s).Panicked?
    ensures !ScanRows(rows[..n], s).Panicked?
  {
    assert rows[..n] + rows[n..m] == rows[..m];
    PrefixReads(rows[..n], rows[n..m], s);
  }

  /** When the header behind the mark is the first row, its block is trusted by its own trust line. */
  lemma RevealedIsTrusted(rows: seq<Row>, path: string)
    requires HidesProject(rows, path)
    requires ReadsBehindFirst(rows)
    ensures !Panics(Unmark(rows), path)
    ensures IsTrusted(Unmark(rows), path) <==> TrustRow(rows[1..]) == Some(TRUST_LINE)
  {
    var plain := Unmark(rows);
    var rest := rows[1..];
    var n := Find(rest, START, Header);
    MeetsStaysStructural(plain[0].text, path);
    assert plain[1..] == rest;
    assert Find(plain, START, Project(path)) == 0;
    hide Find, ScanRows, ScanLine, Meets, TRUST_LINE;
    var c := Cut([], plain[0], rest[..n], rest[n..]);
    assert plain[..0] == [];
    assert CutAt(plain, path) == Some(c);
    FirstOfScanned(plain[0], rest[..n]);
    assert [] + [plain[0]] + rest[..n] == [plain[0]] + rest[..n];
  }

  lemma FirstOfScanned(header: Row, inside: seq<Row>)
    requires ScanLine(header.text, START) == START
    ensures ScanRows([header] + inside, START) == ScanRows(inside, START)
  {
    hide ScanLine;
    assert ([header] + inside)[1..] == inside;
  }

  // ---- What the next run reads behind the mark ----

  /** The edit of a document that has no block for the project leaves a text whose scan does not crash. */
  lemma AppendedReads(rows: seq<Row>, eol: string, path: string)
    requires IsDocument(rows) && (eol == "\n" || eol == "\r\n") && !ScanRows(rows, START).Panicked?
    ensures !ScanRows(Appended(rows, eol, path), START).Panicked?
  {
    var h, t := Row(ProjectHeader(path), eol), Row(TRUST_LINE, eol);
    ClosingReads(rows, eol, path);
    var s := ScanRows(rows, START);
    HeaderNeverCrashes(path, s);
    TrustLineNeverCrashes(ScanLine(h.text, s));
    hide Closing, ScanLine, ProjectHeader, TRUST_LINE, ScanRows;
    ScanConcat(Closing(rows, eol), [h, t], START);
    TwoScanned(h, t, s);
  }

  lemma TwoScanned(h: Row, t: Row, s: ScanState)
    ensures ScanRows([h, t], s) == ScanLine(t.text, ScanLine(h.text, s))
  {
    hide ScanLine;
    assert [h, t][1..] == [t] && [t][1..] == [];
    assert ScanRows([t], ScanLine(h.text, s)) == ScanLine(t.text, ScanLine(h.text, s));
  }

  /** The scan of the block behind the first row does not crash once the edit has returned. */
  lemma HiddenReads(rows: seq<Row>, eol: string, path: string)
    requires IsDocument(rows) && rows != [] && eol == Eol(Unlines(rows)) && IsMarked(rows) && !Panics(rows, path)
    ensures var edited := Edited(rows, eol, path);
      |edited| >= 2 && edited[0].text == rows[0].text && (ScanLine(edited[0].text, START) == START ==> ReadsBehindFirst(edited))
  {
    EolIs(Unlines(rows));
    EditedKeepsFirst(rows, eol, path);
    MarkMeetsNothing(rows[0].text, path);
    hide ScanLine, Find, ScanRows, Meets, Closing, Unlines, Eol, CutAt, WithTrust, Appended, ReadsBehindFirst, IsDocument;
    if ScanLine(rows[0].text, START) == START {
      if CutAt(rows, path).None? {
        assert Panics(rows, path) == ScanRows(rows, START).Panicked?;
        BlockInAppended(rows, eol, path);
      } else {
        BlockBeforeCut(rows, eol, path);
      }
    }
  }

  lemma BlockInAppended(rows: seq<Row>, eol: string, path: string)
    requires IsDocument(rows) && (eol == "\n" || eol == "\r\n") && !ScanRows(rows, START).Panicked?
    requires var edited := Appended(rows, eol, path); edited != [] && ScanLine(edited[0].text, START) == START
    ensures ReadsBehindFirst(Appended(rows, eol, path))
  {
    hide IsDocument, Appended, ScanLine, Find, ScanRows;
    var edited := Appended(rows, eol, path);
    AppendedReads(rows, eol, path);
    FirstScanned(edited);
    var rest := edited[1..];
    assert rest[..|rest|] == rest;
    EarlierReads(rest, Find(rest, START, Header), |rest|, START);
  }

  /** A block whose header is just before the second row can be read without a crash. */
  predicate ReadsBehindFirst(rows: seq<Row>)
    requires rows != []
  {
    !ScanRows(rows[1..][..Find(rows[1..], START, Header)], START).Panicked?
  }

  /** Behind the first row the reader of a hidden block stops before the cut of the project. */
  lemma BlockBeforeCut(rows: seq<Row>, eol: string, path: string)
    requires IsDocument(rows) && rows != [] && (eol == "\n" || eol == "\r\n") && CutAt(rows, path).Some?
    requires !Meets(rows[0].text, Project(path)) && ScanLine(rows[0].text, START) == START
    ensures var edited := WithTrust(CutAt(rows, path).value, eol);
      edited != [] && ReadsBehindFirst(edited)
  {
    var c := CutAt(rows, path).value;
    CutBefore(rows, path);
    CutCovers(rows, path);
    HeaderInDocument(rows, path);
    FoundIsCut(rows, path);
    hide CutAt, WithTrust, NextCut, Find, ScanLine, ScanRows, Meets, IsDocument, IsCut;
    WithTrustIsNextCut(c, eol);
    NextCutIsCut(c, path, eol);
    var n := NextCut(c, eol);
    NextKeepsBefore(c, eol);
    CutStarts(n, path);
    JoinBehind(n);
    FirstScanned(n.before);
    StopsBefore(n.before[1..], [n.header] + n.inside + n.after);
  }

  lemma NextKeepsBefore(c: Cut, eol: string)
    ensures NextCut(c, eol).before == c.before
  {
  }

  lemma StopsBefore(a: seq<Row>, next: seq<Row>)
    requires ScanRows(a, START) == START && next != [] && IsTableHeader(next[0].text)
    ensures !ScanRows((a + next)[..Find(a + next, START, Header)], START).Panicked?
  {
    FindConcat(a, next, START, Header);
    EndsOrMeets(next, START, Header);
    hide Find, ScanRows, IsTableHeader;
    var n := Find(a + next, START, Header);
    assert (a + next)[..n] == a[..n] && a[..|a|] == a;
    EarlierReads(a, n, |a|, START);
  }

  // ---- The next run ----

  /** After a run of the edit, when a second mark hid the header of the project on the first line. */
  lemma HiddenIsSettled(text: string, path: string)
    requires Upsert(text, path).Some? && HidesProject(ReadRows(text), path)
    ensures var once := Upsert(text, path).value;
      IsTrusted(ReadRows(once), path) <==> HiddenLine(ReadRows(text), Eol(Body(text)), path) == Some(TRUST_LINE)
  {
    var rows, eol := ReadRows(text), Eol(Body(text));
    RowsAreDocument(Body(text));
    NoPanic(text, path);
    ResultAsRead(text, path);
    MarkMeetsNothing(rows[0].text, path);
    MeetsStaysStructural(rows[0].text[1..], path);
    assert ScanLine(rows[0].text, START) == START;
    hide Upsert, ReadRows, Edited, Rows, Eol, Body, Panics, IsDocument, TrustRow, ScanLine, Meets, TRUST_LINE, HiddenLine, Unlines;
    hide ReadsBehindFirst;
    HiddenReads(rows, eol, path);
    EditBehindFirst(rows, eol, path);
    RevealedIsTrusted(Edited(rows, eol, path), path);
  }

  /** What the text must be for the next run to leave the file alone: at most two marks, and a trusted
      block for the next reader. */
  predicate IsSettled(text: string, path: string) {
    && !([BOM, BOM, BOM] <= text)
    && (if HidesProject(ReadRows(text), path)
        then HiddenLine(ReadRows(text), Eol(Body(text)), path) == Some(TRUST_LINE)
        else AppendsBlock(text, path) ==> EndsStructural(text))
  }

  /** The second of two marks is on the first row, too. */
  lemma SecondMark(body: string)
    requires body != [] && body[0] == BOM
    ensures [BOM, BOM] <= body <==> [BOM, BOM] <= Rows(body)[0].text
  {
    FirstRowIsRow(body);
    var row := FirstRow(body);
    assert Rows(body)[0] == row;
    assert row.Raw() == body[..|row.Raw()|] && row.text == body[..|row.text|];
    if [BOM, BOM] <= body {
      assert body[1..][0] == BOM;
      assert FindNewline(body) >= 2;
    }
  }

  /** The text read by the next run, when the text was marked twice. */
  lemma NextText(text: string, path: string)
    requires Upsert(text, path).Some? && [BOM, BOM] <= text
    ensures var once := Upsert(text, path).value;
      once != [] && once[0] == BOM && (Body(Body(once)) == Body(once) <==> !([BOM, BOM, BOM] <= text))
  {
    hide Rows, Upsert, Edited, Eol, Body, Unmark;
    ResultAsRead(text, path);
    ThreeMarks(text);
    FirstCharacter(Body(text));
    MarksStay(Body(text), Upsert(text, path).value);
    BodyTwice(Upsert(text, path).value);
  }

  lemma ThreeMarks(text: string)
    requires [BOM, BOM] <= text
    ensures Body(text) != [] && Body(text)[0] == BOM && ([BOM, BOM, BOM] <= text <==> [BOM, BOM] <= Body(text))
  {
    assert Body(text) == text[1..];
    if [BOM, BOM] <= text[1..] {
      assert text[1..][..2] == [BOM, BOM];
      assert text[..3] == [BOM, BOM, BOM];
    }
  }

  lemma MarksStay(body: string, once: string)
    requires body != [] && body[0] == BOM && IsMarked(Rows(body))
    requires IsMarked(Rows(once)) && Rows(once)[0].text == Rows(body)[0].text
    ensures once != [] && once[0] == BOM && ([BOM, BOM] <= once <==> [BOM, BOM] <= body)
  {
    hide Rows;
    FirstCharacter(once);
    SecondMark(body);
    SecondMark(once);
  }

  lemma BodyTwice(text: string)
    requires text != [] && text[0] == BOM
    ensures Body(Body(text)) == Body(text) <==> !([BOM, BOM] <= text)
  {
    assert Body(text) == text[1..];
    if [BOM] <= text[1..] {
      assert |Body(Body(text))| < |Body(text)|;
      assert text[..2] == [BOM, BOM];
    }
  }

  /** What the next run does depends on what this one has read: it leaves the file alone exactly if at
      most two marks and a trusted block are there, so that nothing comes to light. */
  lemma SecondRunWritesNothing(file: File, path: string)
    requires !UpdateConfig(file, path).Crash?
    ensures UpdateConfig(Updated(file, path), path).Unchanged? <==> IsSettled(ReadConfig(file), path)
  {
    hide Upsert, Body, Rows, HiddenLine, AppendsBlock, EndsStructural;
    var text := ReadConfig(file);
    var once := Upsert(text, path).value;
    if [BOM, BOM] <= text {
      MarkedTwice(text, path);
    } else {
      MarkedOnce(text, path);
    }
  }

  lemma MarkedOnce(text: string, path: string)
    requires Upsert(text, path).Some? && !([BOM, BOM] <= text)
    ensures var once := Upsert(text, path).value;
      && Body(once) == once && (once == text ==> IsSettled(text, path))
      && (Upsert(once, path) == Some(once) <==> IsSettled(text, path))
  {
    UpsertIsIdempotent(text, path);
    NothingIsMarked(text, path);
    assert [BOM, BOM, BOM] <= text ==> [BOM, BOM] <= text;
    hide Upsert, Rows, ReadRows, Body, HiddenLine, AppendsBlock, EndsStructural;
  }

  lemma NothingIsMarked(text: string, path: string)
    requires Upsert(text, path).Some? && !([BOM, BOM] <= text)
    ensures !HidesProject(ReadRows(text), path) && Body(Upsert(text, path).value) == Upsert(text, path).value
  {
    ResultAsRead(text, path);
    var once := Upsert(text, path).value;
    FirstCharacter(Body(text));
    FirstCharacter(once);
    hide Rows, Edited, Eol, Upsert;
    assert !IsMarked(ReadRows(text));
  }

  lemma MarkedTwice(text: string, path: string)
    requires Upsert(text, path).Some? && [BOM, BOM] <= text
    ensures var once := Upsert(text, path).value;
      once != text && (Upsert(Body(once), path) == Some(Body(once)) <==> IsSettled(text, path))
  {
    var once := Upsert(text, path).value;
    MarkedIsChanged(text, path);
    NextText(text, path);
    hide Upsert, Rows, HiddenLine, AppendsBlock, EndsStructural, IsTrusted, HidesProject;
    if [BOM, BOM, BOM] <= text {
      assert [BOM] <= Body(once);
      MarkedIsChanged(Body(once), path);
    } else {
      FixedIsTrusted(Body(once), path);
      UpsertIsEffective(text, path);
      if HidesProject(ReadRows(text), path) { HiddenIsSettled(text, path); }
    }
  }

  // ---- The next run does not crash ----

  /** Neither the search in these rows crashes, nor one that takes the first row for the header. */
  predicate IsSafe(rows: seq<Row>, path: string) {
    && !Panics(rows, path)
    && (IsMarked(rows) && ScanLine(rows[0].text, START) == START ==> ReadsBehindFirst(rows))
  }

  lemma UnmarkedIsSafe(rows: seq<Row>, path: string)
    requires IsSafe(rows, path) && IsMarked(rows)
    ensures IsSafe(Unmark(rows), path)
  {
    ScanUnmarkedRows(rows);
    assert Unmark(rows)[1..] == rows[1..];
    hide ScanLine, ScanRows, Find, HidesProject, ReadsBehindFirst;
    if HidesProject(rows, path) {
      RevealedTrust(rows, path);
      RevealedIsTrusted(rows, path);
    } else {
      UnmarkedTrust(rows, path);
      if CutAt(rows, path).Some? { SameSearch(rows, path); }
    }
  }

  lemma SameSearch(rows: seq<Row>, path: string)
    requires IsMarked(rows) && !HidesProject(rows, path) && CutAt(rows, path).Some?
    ensures Panics(Unmark(rows), path) == Panics(rows, path)
  {
    UnmarkedFind(rows, path);
    hide Find, ScanLine, ScanRows, HidesProject;
    SameCut(rows, path);
  }

  lemma EditedIsSafe(text: string, path: string)
    requires Upsert(text, path).Some?
    ensures IsSafe(Rows(Upsert(text, path).value), path)
    ensures IsMarked(Rows(Upsert(text, path).value)) ==> |Rows(Upsert(text, path).value)| >= 2
  {
    var rows, eol := ReadRows(text), Eol(Body(text));
    RowsAreDocument(Body(text));
    NoPanic(text, path);
    ResultAsRead(text, path);
    hide Upsert, ReadRows, Rows, Eol, Body, IsDocument, ScanLine, Unlines, ReadsBehindFirst;
    if IsMarked(rows) { HiddenReads(rows, eol, path); }
    if CutAt(rows, path).None? {
      AppendedReads(rows, eol, path);
      ScannedReads(Edited(rows, eol, path), path);
    } else {
      EditTrusts(rows, path, eol);
    }
  }

  lemma ScannedReads(rows: seq<Row>, path: string)
    requires !ScanRows(rows, START).Panicked?
    ensures !Panics(rows, path)
  {
    ScannedIsPrefix(rows, path);
    var n := |Scanned(rows, path)|;
    assert rows[..|rows|] == rows && rows[..n] == Scanned(rows, path);
    hide Scanned, ScanRows;
    EarlierReads(rows, n, |rows|, START);
  }

  /** A run that has not crashed is not followed by one that does. */
  lemma SecondRunReturns(file: File, path: string)
    requires !UpdateConfig(file, path).Crash?
    ensures !UpdateConfig(Updated(file, path), path).Crash?
  {
    hide IsSafe, Rows, Body, Upsert;
    var text := ReadConfig(file);
    var once := Upsert(text, path).value;
    if once != text {
      EditedIsSafe(text, path);
      BodyIsSafe(once, path);
      BodyIsSafe(Body(once), path);
      SafeReturns(Body(once), path);
    }
  }

  lemma SafeReturns(text: string, path: string)
    requires IsSafe(Rows(Body(text)), path)
    ensures Upsert(text, path).Some?
  {
    hide Rows, Edited, Eol, Unlines, Panics, ReadsBehindFirst;
  }

  lemma BodyIsSafe(text: string, path: string)
    requires IsSafe(Rows(text), path) && (IsMarked(Rows(text)) ==> |Rows(text)| >= 2)
    ensures IsSafe(Rows(Body(text)), path) && (IsMarked(Rows(Body(text))) ==> |Rows(Body(text))| >= 2)
  {
    FirstCharacter(text);
    hide IsSafe, Rows;
    if IsMarked(Rows(text)) {
      MarkedResult(text);
      UnmarkedIsSafe(Rows(text), path);
    } else {
      UnmarkedResult(text);
    }
  }

  // ---- Files that the next run writes again ----

  /** A mark, the text with two marks that hides a block of the project, and a run on it. */
  lemma NextRunWrites(path: string)
    ensures var file := Some([BOM] + HidingText(path));
      UpdateConfig(file, path).Replaced? && UpdateConfig(Updated(file, path), path).Replaced?
  {
    var text := HidingText(path);
    var file := Some([BOM] + text);
    assert [BOM, BOM] <= text;
    assert ReadConfig(file) == text;
    HidingTextRows(path);
    HiddenBlockIsUntrusted(path, path);
    MarkExample(path, path);
    var once := Upsert(text, path).value;
    TrustedIsRead(ReadRows(once), path);
    hide HidingText, Upsert, ReadRows, Body, HiddenLine, TrustFrom, IsTrusted, AppendsBlock, EndsStructural;
    MarkedTwice(text, path);
    HiddenIsSettled(text, path);
    SecondRunWritesNothing(file, path);
    SecondRunReturns(file, path);
  }
}
