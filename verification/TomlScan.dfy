/** The line scanner that tells structural TOML lines from the inside of strings and arrays. */
module TomlScan {
  import opened Text

  datatype StringMode = Basic | Literal | NoString

  /** The scanner state. The code steps two bytes over an escape, so it panics when a backslash
      stands before a character outside ASCII; a panicked scan never continues. */
  datatype ScanState = ScanState(arrayDepth: nat, mode: StringMode) | Panicked {
    predicate IsStructural() {
      ScanState? && mode == NoString && arrayDepth == 0
    }
  }

  const START := ScanState(0, NoString)

  predicate IsAscii(c: char) {
    c < '\U{0080}'
  }

  // ---- Specification: the state after the rest of a line ----

  /** The text after a backslash escape, or None when the code panics. */
  function AfterEscape(rest: string): Option<string>
    requires rest != []
  {
    if |rest| == 1 then Some([])
    else if IsAscii(rest[1]) then Some(rest[2..])
    else None
  }

  function SkipQuoted(rest: string, quote: char, escapes: bool): (r: Option<string>)
    ensures r.Some? ==> |r.value| <= |rest|
    decreases |rest|
  {
    if rest == [] then Some([])
    else if escapes && rest[0] == '\\' then
      var after :- AfterEscape(rest);
      SkipQuoted(after, quote, escapes)
    else if rest[0] == quote then Some(rest[1..])
    else SkipQuoted(rest[1..], quote, escapes)
  }

  const TRIPLE_BASIC := "\"\"\""
  const TRIPLE_LITERAL := "'''"

  function ScanLine(rest: string, s: ScanState): ScanState
    decreases |rest|
  {
    if rest == [] || s.Panicked? then s
    else match s.mode
      case Basic =>
        if rest[0] == '\\' then
          match AfterEscape(rest)
          case Some(after) => ScanLine(after, s)
          case None => Panicked
        else if TRIPLE_BASIC <= rest then ScanLine(rest[3..], s.(mode := NoString))
        else ScanLine(rest[1..], s)
      case Literal =>
        if TRIPLE_LITERAL <= rest then ScanLine(rest[3..], s.(mode := NoString)) else ScanLine(rest[1..], s)
      case NoString =>
        if TRIPLE_BASIC <= rest then ScanLine(rest[3..], s.(mode := Basic))
        else if TRIPLE_LITERAL <= rest then ScanLine(rest[3..], s.(mode := Literal))
        else if rest[0] == '#' then s
        else if rest[0] == '"' || rest[0] == '\'' then
          match SkipQuoted(rest[1..], rest[0], rest[0] == '"')
          case Some(after) => ScanLine(after, s)
          case None => Panicked
        else if rest[0] == '[' then ScanLine(rest[1..], s.(arrayDepth := s.arrayDepth + 1))
        else if rest[0] == ']' then ScanLine(rest[1..], s.(arrayDepth := if s.arrayDepth == 0 then 0 else s.arrayDepth - 1))
        else ScanLine(rest[1..], s)
  }

  // ---- The code ----

  method SkipQuotedAt(line: string, start: nat, quote: char, escapes: bool) returns (end: Option<nat>)
    requires start <= |line|
    ensures SkipQuoted(line[start..], quote, escapes) == if end.Some? && end.value <= |line| then Some(line[end.value..]) else None
    ensures end.Some? ==> start <= end.value <= |line|
  {
    var index := start;
    while index < |line|
      invariant start <= index <= |line|
      invariant SkipQuoted(line[start..], quote, escapes) == SkipQuoted(line[index..], quote, escapes)
    {
      if escapes && line[index] == '\\' {
        if index + 1 < |line| && !IsAscii(line[index + 1]) {
          return None;
        }
        assert index + 2 <= |line| ==> line[index..][2..] == line[index + 2..];
        index := if index + 2 <= |line| then index + 2 else |line|;
      } else if line[index] == quote {
        assert line[index..][1..] == line[index + 1..];
        return Some(index + 1);
      } else {
        assert line[index..][1..] == line[index + 1..];
        index := index + 1;
      }
    }
    return Some(index);
  }

  predicate StartsAt(line: string, index: nat, prefix: string)
    requires index <= |line|
  {
    index + |prefix| <= |line| && line[index..index + |prefix|] == prefix
  }

  lemma StartsAtIsPrefix(line: string, index: nat, prefix: string)
    requires index <= |line|
    ensures StartsAt(line, index, prefix) <==> prefix <= line[index..]
  {
    if index + |prefix| <= |line| {
      assert line[index..][..|prefix|] == line[index..index + |prefix|];
    }
  }

  /** Scans one line from a running state; the panicked state is the crash of the scanner. */
  method ScanLineFrom(state: ScanState, line: string) returns (after: ScanState)
    requires !state.Panicked?
    ensures after == ScanLine(line, state)
  {
    var index, depth, mode := 0, state.arrayDepth, state.mode;
    while index < |line|
      invariant 0 <= index <= |line|
      invariant ScanLine(line, state) == ScanLine(line[index..], ScanState(depth, mode))
    {
      ghost var rest := line[index..];
      StartsAtIsPrefix(line, index, TRIPLE_BASIC);
      StartsAtIsPrefix(line, index, TRIPLE_LITERAL);
      assert rest[1..] == line[index + 1..];
      assert |rest| >= 2 ==> rest[2..] == line[index + 2..];
      assert |rest| >= 3 ==> rest[3..] == line[index + 3..];
      if mode == Basic {
        if line[index] == '\\' {
          if index + 1 < |line| && !IsAscii(line[index + 1]) {
            return Panicked;
          }
          index := if index + 2 <= |line| then index + 2 else |line|;
        } else if StartsAt(line, index, TRIPLE_BASIC) {
          mode := NoString;
          index := index + 3;
        } else {
          index := index + 1;
        }
        continue;
      }
      if mode == Literal {
        if StartsAt(line, index, TRIPLE_LITERAL) {
          mode := NoString;
          index := index + 3;
        } else {
          index := index + 1;
        }
        continue;
      }
      if StartsAt(line, index, TRIPLE_BASIC) {
        mode := Basic;
        index := index + 3;
      } else if StartsAt(line, index, TRIPLE_LITERAL) {
        mode := Literal;
        index := index + 3;
      } else {
        match line[index] {
          case '#' => return ScanState(depth, mode);
          case '"' =>
            var end := SkipQuotedAt(line, index + 1, '"', true);
            if end.None? { return Panicked; }
            index := end.value;
          case '\'' =>
            var end := SkipQuotedAt(line, index + 1, '\'', false);
            if end.None? { return Panicked; }
            index := end.value;
          case '[' =>
            depth := depth + 1;
            index := index + 1;
          case ']' =>
            depth := if depth == 0 then 0 else depth - 1;
            index := index + 1;
          case _ => index := index + 1;
        }
      }
    }
    return ScanState(depth, mode);
  }

  // ---- Lines of a document ----

  /** A line's text and the line ending that follows it. */
  datatype Row = Row(text: string, ending: string) {
    function Raw(): string {
      text + ending
    }
  }

  predicate EndsWithCr(s: string) {
    s != [] && s[|s| - 1] == '\r'
  }

  /** The first row of a text: a line feed ends it, and one carriage return before that (or before
      the end of the text) belongs to the ending. */
  function FirstRow(s: string): Row {
    var n := FindNewline(s);
    var textEnd := if EndsWithCr(s[..n]) then n - 1 else n;
    Row(s[..textEnd], s[textEnd..if n < |s| then n + 1 else n])
  }

  function Rows(s: string): seq<Row>
    decreases |s|
  {
    if s == [] then [] else [FirstRow(s)] + Rows(s[|FirstRow(s).Raw()|..])
  }

  function Unlines(rows: seq<Row>): string {
    if rows == [] then [] else rows[0].Raw() + Unlines(rows[1..])
  }

  /** A row that the line iterator can produce; only the last one may lack a line feed. */
  predicate IsRow(row: Row, last: bool) {
    && '\n' !in row.text
    && row.ending in {"\n", "\r\n", "\r", ""}
    && (row.ending in {"\r", ""} ==> last && row.Raw() != [])
    && (row.ending in {"\n", ""} ==> !EndsWithCr(row.text))
  }

  predicate IsDocument(rows: seq<Row>) {
    forall i :: 0 <= i < |rows| ==> IsRow(rows[i], i == |rows| - 1)
  }

  lemma FirstRowIsRow(s: string)
    requires s != []
    ensures var row := FirstRow(s); row.Raw() <= s && IsRow(row, row.Raw() == s)
  {
    var n := FindNewline(s);
    var row := FirstRow(s);
    var end := if n < |s| then n + 1 else n;
    assert s[..|row.text|] + s[|row.text|..end] == s[..end];
    if n < |s| {
      assert s[n..n + 1] == "\n";
      assert EndsWithCr(s[..n]) ==> s[n - 1..n + 1] == "\r\n";
    } else {
      assert EndsWithCr(s[..n]) ==> s[n - 1..n] == "\r";
    }
  }

  lemma {:induction false} RowsAreDocument(s: string)
    ensures IsDocument(Rows(s)) && Unlines(Rows(s)) == s
    decreases |s|
  {
    if s != [] {
      FirstRowIsRow(s);
      var row := FirstRow(s);
      var tail := s[|row.Raw()|..];
      RowsAreDocument(tail);
      assert row.Raw() + tail == s;
      assert Rows(s)[1..] == Rows(tail);
      assert tail == [] <==> Rows(tail) == [];
    }
  }

  lemma FirstRowOf(row: Row, rest: string)
    requires IsRow(row, rest == [])
    ensures FirstRow(row.Raw() + rest) == row && (row.Raw() + rest)[|row.Raw()|..] == rest
  {
    var s := row.Raw() + rest;
    var k := |row.text| + if "\r" <= row.ending then 1 else 0;
    TextOfRow(row, rest, k);
    FirstRowIs(s, k);
    hide FirstRow, FindNewline;
    assert s[|row.text|..|row.Raw()|] == row.ending && s[..|row.text|] == row.text;
  }

  lemma TextOfRow(row: Row, rest: string, k: nat)
    requires IsRow(row, rest == []) && k == |row.text| + if "\r" <= row.ending then 1 else 0
    ensures var s := row.Raw() + rest;
      && k <= |s| && '\n' !in s[..k] && (k < |s| ==> s[k] == '\n')
      && (if k < |s| then k + 1 else k) == |row.Raw()|
      && (if EndsWithCr(s[..k]) then k - 1 else k) == |row.text|
  {
    var s := row.Raw() + rest;
    assert s[..k] == row.text + row.ending[..k - |row.text|];
    if "\r" <= row.ending {
      assert s[..k][k - 1] == '\r';
    } else {
      assert s[..k] == row.text;
    }
  }

  lemma {:induction false} DocumentRows(rows: seq<Row>)
    requires IsDocument(rows)
    ensures Rows(Unlines(rows)) == rows
  {
    if rows != [] {
      var rest := Unlines(rows[1..]);
      DocumentTail(rows);
      DocumentRows(rows[1..]);
      FirstRowOf(rows[0], rest);
      var s := rows[0].Raw() + rest;
      assert Unlines(rows) == s && s != [];
      hide IsDocument, IsRow, FirstRow, Unlines, Row.Raw;
      RowsUnfold(s);
      hide Rows;
      assert rows == [rows[0]] + rows[1..];
    }
  }

  lemma RowsUnfold(s: string)
    requires s != []
    ensures Rows(s) == [FirstRow(s)] + Rows(s[|FirstRow(s).Raw()|..])
  {
  }

  lemma DocumentTail(rows: seq<Row>)
    requires IsDocument(rows) && rows != []
    ensures IsDocument(rows[1..]) && rows[0].Raw() != []
    ensures IsRow(rows[0], Unlines(rows[1..]) == [])
  {
    assert IsRow(rows[0], 0 == |rows| - 1);
    forall i | 0 <= i < |rows| - 1 ensures IsRow(rows[1..][i], i == |rows| - 2) {
      assert IsRow(rows[i + 1], i + 1 == |rows| - 1);
    }
    if |rows| > 1 {
      assert IsRow(rows[1], 1 == |rows| - 1);
      assert rows[1..][0] == rows[1];
    }
  }

  lemma {:induction false} UnlinesConcat(a: seq<Row>, b: seq<Row>)
    ensures Unlines(a + b) == Unlines(a) + Unlines(b)
  {
    if a == [] {
      assert a + b == b;
    } else {
      assert (a + b)[1..] == a[1..] + b;
      UnlinesConcat(a[1..], b);
    }
  }

  datatype Line = Line(start: nat, end: nat, next: nat)

  /** One step of the line iterator: the bounds of the line's text, and where the next line starts. */
  method NextLine(content: string, start: nat) returns (line: Line)
    requires start < |content|
    requires start > 0 ==> content[start - 1] == '\n'
    ensures start <= line.end <= line.next <= |content| && start < line.next && line.start == start
    ensures var row := FirstRow(content[start..]);
      content[start..line.end] == row.text && content[line.end..line.next] == row.ending && |row.Raw()| == line.next - start
    ensures line.next < |content| ==> content[line.next - 1] == '\n'
  {
    var newline := start;
    while newline < |content| && content[newline] != '\n'
      invariant start <= newline <= |content|
      invariant '\n' !in content[start..newline]
    {
      newline := newline + 1;
    }
    var textEnd := if newline > 0 && content[newline - 1] == '\r' then newline - 1 else newline;
    var next := if newline < |content| then newline + 1 else |content|;
    RowBounds(content, start, newline, textEnd, next);
    line := Line(start, textEnd, next);
  }

  lemma RowBounds(content: string, start: nat, newline: nat, textEnd: nat, next: nat)
    requires start < |content| && start <= newline <= |content|
    requires start > 0 ==> content[start - 1] == '\n'
    requires '\n' !in content[start..newline] && (newline < |content| ==> content[newline] == '\n')
    requires textEnd == (if newline > 0 && content[newline - 1] == '\r' then newline - 1 else newline)
    requires next == (if newline < |content| then newline + 1 else |content|)
    ensures start <= textEnd <= next
    ensures var row := FirstRow(content[start..]);
      content[start..textEnd] == row.text && content[textEnd..next] == row.ending && |row.Raw()| == next - start
  {
    hide FirstRow, FindNewline, EndsWithCr, Row.Raw;
    var n := newline - start;
    SliceOfSlice(content, start, 0, n);
    CarriageReturnBefore(content, start, newline);
    NewlineBehind(content, start, newline);
    FirstRowIs(content[start..], n);
    SliceOfSlice(content, start, 0, textEnd - start);
    SliceOfSlice(content, start, textEnd - start, next - start);
  }

  lemma NewlineBehind(content: string, start: nat, newline: nat)
    requires start <= newline <= |content| && (newline < |content| ==> content[newline] == '\n')
    ensures newline - start < |content[start..]| ==> content[start..][newline - start] == '\n'
  {
  }

  lemma FirstRowIs(s: string, n: nat)
    requires n <= |s| && '\n' !in s[..n] && (n < |s| ==> s[n] == '\n')
    ensures var end := if EndsWithCr(s[..n]) then n - 1 else n;
      var next := if n < |s| then n + 1 else n;
      FirstRow(s) == Row(s[..end], s[end..next]) && |FirstRow(s).Raw()| == next
  {
    FindNewlineIs(s, n);
    hide FindNewline;
  }

  lemma SliceOfSlice(content: string, start: nat, from: nat, to: nat)
    requires from <= to && start + to <= |content|
    ensures content[start..][from..to] == content[start + from..start + to]
    ensures from == 0 ==> content[start..][..to] == content[start..start + to]
  {
  }

  lemma CarriageReturnBefore(content: string, start: nat, newline: nat)
    requires start <= newline <= |content| && (start > 0 ==> content[start - 1] == '\n')
    ensures EndsWithCr(content[start..newline]) <==> newline > 0 && content[newline - 1] == '\r'
  {
    if start < newline { assert content[start..newline][newline - start - 1] == content[newline - 1]; }
  }
}
