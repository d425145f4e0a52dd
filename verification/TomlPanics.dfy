/** When the trust edit crashes. The scanner steps two bytes over an escape in a basic string, and so
    into the middle of a character outside ASCII. The reader here steps over characters and never
    crashes; it says where the escapes are. The edit crashes exactly when one of them, in the rows that
    the search for the project's block reads, stands before a character outside ASCII. */
module TomlPanics {
  import opened Text
  import opened TomlSyntax
  import opened TomlScan
  import opened TomlLaws
  import opened Toml
  import opened TomlProofs

  // ---- Reading the strings of a line ----

  /** The quotes that open a string in front of a line. */
  function Delimiter(line: string): string
    requires line != []
  {
    if TRIPLE_BASIC <= line then TRIPLE_BASIC
    else if TRIPLE_LITERAL <= line then TRIPLE_LITERAL
    else if line[0] == '"' || line[0] == '\'' then line[..1]
    else ""
  }

  /** A backslash in front, in a string that knows escapes. */
  predicate StartsEscape(line: string, open: string) {
    open != "" && open[0] == '"' && line != [] && line[0] == '\\'
  }

  /** How many characters are read together, and the quotes that are open behind them. */
  datatype Reading = Reading(length: nat, open: string)

  function Read(line: string, open: string): (r: Reading)
    requires line != []
    ensures 0 < r.length <= |line|
  {
    if open == "" then
      if line[0] == '#' then Reading(|line|, "")
      else if Delimiter(line) != "" then Reading(|Delimiter(line)|, Delimiter(line))
      else Reading(1, "")
    else if StartsEscape(line, open) then Reading(if |line| == 1 then 1 else 2, open)
    else if open <= line then Reading(|open|, "")
    else Reading(1, open)
  }

  /** Position k holds the backslash of an escape. */
  predicate IsEscapeAt(line: string, open: string, k: nat)
    requires k < |line|
    decreases |line|
  {
    var r := Read(line, open);
    if k < r.length then k == 0 && StartsEscape(line, open) else IsEscapeAt(line[r.length..], r.open, k - r.length)
  }

  /** The quotes still open on the next line; a string in single quotes ends with its line. */
  function OpenAfter(line: string, open: string): string
    decreases |line|
  {
    if line == [] then if |open| == 3 then open else ""
    else OpenAfter(line[Read(line, open).length..], Read(line, open).open)
  }

  function OpenBehind(rows: seq<Row>, open: string): string {
    if rows == [] then open else OpenBehind(rows[1..], OpenAfter(rows[0].text, open))
  }

  /** An escape at position k before a character outside ASCII. */
  predicate SplitsCharacter(line: string, open: string, k: nat) {
    k + 1 < |line| && IsEscapeAt(line, open, k) && !IsAscii(line[k + 1])
  }

  /** Such an escape on line i. */
  predicate SplitsOnLine(rows: seq<Row>, open: string, i: nat, k: nat) {
    i < |rows| && SplitsCharacter(rows[i].text, OpenBehind(rows[..i], open), k)
  }

  // ---- One line ----

  /** The quotes that a scanner state stands for. */
  function OpenIn(s: ScanState): string {
    if s.Panicked? || s.mode == NoString then "" else if s.mode == Basic then TRIPLE_BASIC else TRIPLE_LITERAL
  }

  ghost predicate Splits(line: string, open: string) {
    exists k: nat :: SplitsCharacter(line, open, k)
  }

  lemma SplitsStep(line: string, open: string)
    requires line != []
    ensures var r := Read(line, open);
      Splits(line, open) <==> SplitsCharacter(line, open, 0) || Splits(line[r.length..], r.open)
  {
    var r := Read(line, open);
    var tail := line[r.length..];
    forall k: nat ensures SplitsCharacter(tail, r.open, k) <==> k < |tail| && SplitsCharacter(line, open, r.length + k) {
      assert k < |tail| ==> (IsEscapeAt(line, open, r.length + k) <==> IsEscapeAt(tail, r.open, k));
    }
    if Splits(line, open) {
      var k: nat :| SplitsCharacter(line, open, k);
      if k >= r.length {
        assert SplitsCharacter(tail, r.open, k - r.length);
      }
    }
  }

  lemma {:induction false} QuotedReads(rest: string, quote: char)
    requires quote == '"' || quote == '\''
    ensures var after := SkipQuoted(rest, quote, quote == '"');
      && (after.None? ==> Splits(rest, [quote]))
      && (after.Some? ==>
            && (Splits(rest, [quote]) <==> Splits(after.value, ""))
            && OpenAfter(rest, [quote]) == OpenAfter(after.value, ""))
    decreases |rest|
  {
    if rest == [] {
    } else {
      SplitsStep(rest, [quote]);
      if StartsEscape(rest, [quote]) {
        if |rest| > 1 && IsAscii(rest[1]) {
          QuotedReads(rest[2..], quote);
        } else if |rest| == 1 {
          QuotedReads([], quote);
        }
      } else if rest[0] != quote {
        QuotedReads(rest[1..], quote);
      }
    }
  }

  lemma {:induction false} LineReads(line: string, s: ScanState)
    requires !s.Panicked?
    ensures ScanLine(line, s).Panicked? <==> Splits(line, OpenIn(s))
    ensures !ScanLine(line, s).Panicked? ==> OpenIn(ScanLine(line, s)) == OpenAfter(line, OpenIn(s))
    decreases |line|, 1
  {
    if line != [] {
      SplitsStep(line, OpenIn(s));
      if s.mode == NoString {
        BareReads(line, s);
      } else if StartsEscape(line, OpenIn(s)) {
        if |line| > 1 && IsAscii(line[1]) {
          LineReads(line[2..], s);
        } else if |line| == 1 {
          LineReads([], s);
        }
      } else if OpenIn(s) <= line {
        LineReads(line[3..], s.(mode := NoString));
      } else {
        LineReads(line[1..], s);
      }
    }
  }

  lemma {:induction false} BareReads(line: string, s: ScanState)
    requires line != [] && s.ScanState? && s.mode == NoString
    ensures ScanLine(line, s).Panicked? <==> Splits(line, "")
    ensures !ScanLine(line, s).Panicked? ==> OpenIn(ScanLine(line, s)) == OpenAfter(line, "")
    decreases |line|, 0
  {
    SplitsStep(line, "");
    var tail := line[1..];
    if TRIPLE_BASIC <= line {
      LineReads(line[3..], s.(mode := Basic));
    } else if TRIPLE_LITERAL <= line {
      LineReads(line[3..], s.(mode := Literal));
    } else if line[0] == '"' || line[0] == '\'' {
      QuotedReads(tail, line[0]);
      assert Read(line, "") == Reading(1, [line[0]]);
      var after := SkipQuoted(tail, line[0], line[0] == '"');
      if after.Some? {
        LineReads(after.value, s);
      }
    } else if line[0] == '[' {
      LineReads(tail, s.(arrayDepth := s.arrayDepth + 1));
    } else if line[0] == ']' {
      LineReads(tail, s.(arrayDepth := if s.arrayDepth == 0 then 0 else s.arrayDepth - 1));
    } else if line[0] != '#' {
      LineReads(tail, s);
    }
  }

  // ---- All lines ----

  lemma SplitsOnFirst(rows: seq<Row>, open: string)
    requires rows != []
    ensures var next := OpenAfter(rows[0].text, open);
      && (forall k: nat :: SplitsOnLine(rows, open, 0, k) <==> SplitsCharacter(rows[0].text, open, k))
      && (forall i: nat, k: nat :: SplitsOnLine(rows, open, i + 1, k) <==> SplitsOnLine(rows[1..], next, i, k))
  {
    var next := OpenAfter(rows[0].text, open);
    hide SplitsCharacter, OpenAfter;
    assert rows[..0] == [];
    forall i: nat | i + 1 < |rows| ensures OpenBehind(rows[..i + 1], open) == OpenBehind(rows[1..][..i], next) {
      assert rows[..i + 1][1..] == rows[1..][..i];
    }
  }

  lemma {:induction false} RowsRead(rows: seq<Row>, s: ScanState)
    requires !s.Panicked?
    ensures ScanRows(rows, s).Panicked? <==> exists i: nat, k: nat :: SplitsOnLine(rows, OpenIn(s), i, k)
    decreases rows
  {
    if rows != [] {
      var open, next := OpenIn(s), ScanLine(rows[0].text, s);
      LineReads(rows[0].text, s);
      SplitsOnFirst(rows, open);
      hide SplitsOnLine, SplitsCharacter, OpenAfter, ScanLine, OpenIn;
      if next.Panicked? {
        PanickedForever(rows[1..], Header);
        var k: nat :| SplitsCharacter(rows[0].text, open, k);
        assert SplitsOnLine(rows, open, 0, k);
      } else {
        RowsRead(rows[1..], next);
        assert forall k: nat :: !SplitsOnLine(rows, open, 0, k);
        if i: nat, k: nat :| SplitsOnLine(rows, open, i, k) {
          assert SplitsOnLine(rows[1..], OpenIn(next), i - 1, k);
        }
        if i: nat, k: nat :| SplitsOnLine(rows[1..], OpenIn(next), i, k) {
          assert SplitsOnLine(rows, open, i + 1, k);
        }
      }
    }
  }

  /** The edit crashes exactly when, in the rows that the search for the project's block reads, an
      escape in a basic string stands before a character outside ASCII. */
  lemma UpsertCrashes(content: string, path: string)
    ensures Upsert(content, path).None?
      <==> exists i: nat, k: nat :: SplitsOnLine(Scanned(Rows(Body(content)), path), "", i, k)
  {
    hide Scanned, Rows, SplitsOnLine, ScanRows, ScanLine, Edited, Unlines, Eol, Body;
    RowsRead(Scanned(Rows(Body(content)), path), START);
    assert OpenIn(START) == "";
    assert Panics(Rows(Body(content)), path) == ScanRows(Scanned(Rows(Body(content)), path), START).Panicked?;
  }

  // ---- A text that never crashes ----

  /** Behind every backslash stands an ASCII character, or the end of the text. */
  predicate EscapesAscii(s: string) {
    forall k :: 0 <= k < |s| - 1 && s[k] == '\\' ==> IsAscii(s[k + 1])
  }

  lemma {:induction false} EscapeIsBackslash(line: string, open: string, k: nat)
    requires k < |line| && IsEscapeAt(line, open, k)
    ensures line[k] == '\\'
    decreases |line|
  {
    var r := Read(line, open);
    if k >= r.length {
      EscapeIsBackslash(line[r.length..], r.open, k - r.length);
    }
  }

  lemma {:induction false} RowsEscapeAscii(s: string)
    requires EscapesAscii(s)
    ensures forall i :: 0 <= i < |Rows(s)| ==> EscapesAscii(Rows(s)[i].text)
    decreases |s|
  {
    if s != [] {
      FirstRowIsRow(s);
      var row := FirstRow(s);
      var tail := s[|row.Raw()|..];
      assert row.text == s[..|row.text|];
      hide FirstRow, IsRow;
      assert EscapesAscii(tail) by {
        forall k | 0 <= k < |tail| - 1 && tail[k] == '\\' ensures IsAscii(tail[k + 1]) {
          assert s[|row.Raw()| + k] == '\\';
        }
      }
      RowsEscapeAscii(tail);
    }
  }

  /** On a text in which every backslash stands before an ASCII character every edit returns. */
  lemma EditsReturn(content: string, path: string)
    requires EscapesAscii(content)
    ensures Upsert(content, path).Some?
  {
    var rows := Rows(Body(content));
    var scanned := Scanned(rows, path);
    assert EscapesAscii(Body(content)) by {
      assert forall k :: 0 <= k < |content| - 1 && content[k] == '\\' ==> IsAscii(content[k + 1]);
      assert Body(content) == content || Body(content) == content[1..];
    }
    RowsEscapeAscii(Body(content));
    ScannedIsPrefix(rows, path);
    UpsertCrashes(content, path);
    hide Scanned, Rows, Upsert, Body;
    if i: nat, k: nat :| SplitsOnLine(scanned, "", i, k) {
      SplitsBreak(scanned, rows, i, k);
    }
  }

  lemma SplitsBreak(scanned: seq<Row>, rows: seq<Row>, i: nat, k: nat)
    requires scanned <= rows && SplitsOnLine(scanned, "", i, k)
    ensures i < |rows| && !EscapesAscii(rows[i].text)
  {
    EscapeIsBackslash(scanned[i].text, OpenBehind(scanned[..i], ""), k);
    assert scanned[i] == rows[i];
  }

  lemma ScannedIsPrefix(rows: seq<Row>, path: string)
    ensures Scanned(rows, path) <= rows
  {
    if CutAt(rows, path).Some? {
      CutCovers(rows, path);
    }
  }

  // ---- The lines the edit writes ----

  lemma PlainNeverSplits(line: string, open: string)
    requires '\\' !in line
    ensures !Splits(line, open)
  {
    if k: nat :| SplitsCharacter(line, open, k) {
      EscapeIsBackslash(line, open, k);
    }
  }

  /** The text of a header behind the quote: an escaped path and the end. */
  function HeaderRest(value: string): string {
    EscapeString(value) + "\"]"
  }

  lemma HeaderRestStep(value: string)
    requires value != []
    ensures HeaderRest(value) == EscapedChar(value[0]) + HeaderRest(value[1..])
    ensures var rest := HeaderRest(value[1..]);
      rest != [] && (rest[0] == '"' ==> rest == "\"]") && (rest[0] == '\'' ==> value[1..] != [] && value[1] == '\'')
  {
    assert value == [value[0]] + value[1..];
    EscapeStep(value[0], value[1..]);
    HeaderRestStart(value[1..]);
    hide EscapeString;
  }

  lemma HeaderRestStart(value: string)
    ensures var rest := HeaderRest(value);
      rest != [] && (rest[0] == '"' ==> rest == "\"]") && (rest[0] == '\'' ==> value != [] && value[0] == '\'')
  {
    if value == [] {
      assert EscapeString([]) == [];
    } else {
      assert value == [value[0]] + value[1..];
      EscapeStep(value[0], value[1..]);
      hide EscapeString;
    }
  }

  lemma SingleQuotes(value: string)
    requires TRIPLE_LITERAL <= HeaderRest(value)
    ensures |value| >= 3 && HeaderRest(value)[3..] == HeaderRest(value[3..])
  {
    HeaderRestStart(value);
    HeaderRestStep(value);
    hide HeaderRest;
    assert HeaderRest(value)[1] == HeaderRest(value[1..])[0];
    HeaderRestStep(value[1..]);
    assert value[1..][1..] == value[2..];
    assert HeaderRest(value)[2] == HeaderRest(value[2..])[0];
    HeaderRestStep(value[2..]);
    assert value[2..][1..] == value[3..];
  }

  predicate IsQuotes(open: string) {
    open in {"", "\"", "'", TRIPLE_BASIC, TRIPLE_LITERAL}
  }

  /** A reader of an escaped path, whatever string it is in, meets every escape at its backslash. */
  lemma {:induction false} EscapedNeverSplits(value: string, open: string)
    requires IsQuotes(open)
    ensures !Splits(HeaderRest(value), open)
    decreases |value|
  {
    if value == [] {
      assert EscapeString([]) == [];
      PlainNeverSplits("\"]", open);
    } else {
      if |EscapedChar(value[0])| == 2 {
        PairNeverSplits(value, open);
      } else {
        SingleNeverSplits(value, open);
      }
    }
  }

  lemma {:induction false} SingleNeverSplits(value: string, open: string)
    requires value != [] && |EscapedChar(value[0])| != 2 && IsQuotes(open)
    ensures !Splits(HeaderRest(value), open)
    decreases |value|, 0
  {
    HeaderRestStep(value);
    var line, unit := HeaderRest(value), EscapedChar(value[0]);
    assert unit == [value[0]] && unit[0] != '\\' && unit[0] != '"';
    assert line[1..] == HeaderRest(value[1..]);
    SplitsStep(line, open);
    if TRIPLE_LITERAL <= line {
      SingleQuotes(value);
    }
    hide HeaderRest, EscapedChar, Splits;
    var r := Read(line, open);
    SingleReads(line, open);
    hide Read;
    if r.length == |line| {
      assert line[r.length..] == [];
      PlainNeverSplits([], r.open);
    } else if r.length == 1 {
      EscapedNeverSplits(value[1..], r.open);
    } else {
      EscapedNeverSplits(value[3..], r.open);
    }
  }

  lemma SingleReads(line: string, open: string)
    requires line != [] && line[0] != '\\' && line[0] != '"' && IsQuotes(open)
    ensures !StartsEscape(line, open)
    ensures var r := Read(line, open);
      IsQuotes(r.open) && (r.length == |line| || r.length == 1 || (r.length == 3 && TRIPLE_LITERAL <= line))
  {
    assert line[..1] == [line[0]];
  }

  lemma {:induction false} PairNeverSplits(value: string, open: string)
    requires value != [] && |EscapedChar(value[0])| == 2 && IsQuotes(open)
    ensures !Splits(HeaderRest(value), open)
    decreases |value|, 0
  {
    HeaderRestStep(value);
    var tail, unit := HeaderRest(value[1..]), EscapedChar(value[0]);
    assert unit[0] == '\\' && unit == ['\\', unit[1]] && IsEscapeLetter(unit[1]);
    EscapedNeverSplits(value[1..], open);
    EscapedNeverSplits(value[1..], "\"");
    hide HeaderRest, EscapedChar;
    PairSteps(unit[1], tail, open);
  }

  predicate IsEscapeLetter(d: char) {
    d in {'\\', '"', 'b', 'f', 'n', 'r', 't'}
  }

  /** A reader steps over an escaped character at once, or over its two characters. */
  lemma PairSteps(d: char, tail: string, open: string)
    requires IsEscapeLetter(d) && IsQuotes(open) && (tail != [] && tail[0] == '"' ==> tail == "\"]")
    requires !Splits(tail, open) && !Splits(tail, "\"")
    ensures !Splits(['\\', d] + tail, open)
  {
    var line := ['\\', d] + tail;
    assert line[1..] == [d] + tail && line[2..] == tail;
    SplitsStep(line, open);
    hide Splits;
    if !StartsEscape(line, open) {
      assert Read(line, open) == Reading(1, open);
      LetterSteps(d, tail, open);
    }
  }

  lemma LetterSteps(d: char, tail: string, open: string)
    requires IsEscapeLetter(d) && IsQuotes(open) && (tail != [] && tail[0] == '"' ==> tail == "\"]")
    requires open == "" || open[0] == '\''
    requires !Splits(tail, open) && !Splits(tail, "\"")
    ensures !Splits([d] + tail, open)
  {
    var line := [d] + tail;
    assert line[1..] == tail;
    SplitsStep(line, open);
    hide Splits;
    assert |tail| >= 2 ==> line[1] == tail[0] && line[2] == tail[1];
    assert !(TRIPLE_BASIC <= line);
    assert !(TRIPLE_LITERAL <= line) && line[..1] == [d];
  }

  lemma {:induction false} PrefixSteps(start: string, rest: string)
    requires '\'' !in start && '\\' !in start
    ensures Splits(start + rest, TRIPLE_LITERAL) <==> Splits(rest, TRIPLE_LITERAL)
    decreases start
  {
    if start == [] {
      assert start + rest == rest;
    } else {
      var line := start + rest;
      assert line[0] == start[0] && start[0] in start;
      assert line[1..] == start[1..] + rest;
      SplitsStep(line, TRIPLE_LITERAL);
      PrefixSteps(start[1..], rest);
      hide Splits;
    }
  }

  /** A header never makes the scanner crash, whatever is open when it begins. */
  lemma HeaderNeverCrashes(path: string, s: ScanState)
    requires !s.Panicked?
    ensures !ScanLine(ProjectHeader(path), s).Panicked?
  {
    match s.mode
    case NoString =>
      ProjectHeaderParses(path);
      HeaderKeepsDepth(ProjectHeader(path), s.arrayDepth);
    case Basic => HeaderStaysBasic(path, s.arrayDepth);
    case Literal =>
      var start, rest := "[projects.\"", HeaderRest(path);
      assert ProjectHeader(path) == start + rest;
      assert '\'' !in start;
      hide ProjectHeader, HeaderRest, ScanLine, Splits;
      EscapedNeverSplits(path, TRIPLE_LITERAL);
      PrefixSteps(start, rest);
      LineReads(ProjectHeader(path), s);
  }

  lemma TrustLineNeverCrashes(s: ScanState)
    requires !s.Panicked?
    ensures !ScanLine(TRUST_LINE, s).Panicked?
  {
    PlainNeverSplits(TRUST_LINE, OpenIn(s));
    LineReads(TRUST_LINE, s);
  }

  /** A text of three characters on which every edit crashes. */
  const CRASHING := "\"\\\U{e9}"

  lemma CrashExample(path: string)
    ensures Upsert(CRASHING, path).None?
  {
    var rows := [Row(CRASHING, "")];
    assert IsRow(rows[0], true);
    assert Unlines(rows) == CRASHING;
    assert IsDocument(rows);
    DocumentRows(rows);
    hide IsDocument, Rows, Unlines;
    assert Scanned(rows, path) == rows;
    assert SplitsOnLine(rows, "", 0, 1);
    UpsertCrashes(CRASHING, path);
  }
}
