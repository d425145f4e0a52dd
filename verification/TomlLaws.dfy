/** What the line recognisers of `TomlSyntax` promise to the line scanner of `TomlScan`. */
module TomlLaws {
  import opened Text
  import opened TomlSyntax
  import opened TomlScan

  predicate IsBlank(s: string) {
    forall c <- s :: IsWhitespace(c)
  }

  predicate IsUnmarked(c: char) {
    c !in {'"', '\'', '#', '[', ']'}
  }

  lemma ScanUnmarked(c: char, rest: string, s: ScanState)
    requires IsUnmarked(c) && s.ScanState? && s.mode == NoString
    ensures ScanLine([c] + rest, s) == ScanLine(rest, s)
  {
    var line := [c] + rest;
    assert line[0] == c && line[1..] == rest;
    assert !(TRIPLE_BASIC <= line) && !(TRIPLE_LITERAL <= line);
  }

  lemma {:induction false} ScanPlain(plain: string, rest: string, s: ScanState)
    requires (forall c <- plain :: IsUnmarked(c)) && s.ScanState? && s.mode == NoString
    ensures ScanLine(plain + rest, s) == ScanLine(rest, s)
    decreases plain
  {
    if plain == [] {
      assert plain + rest == rest;
    } else {
      assert plain[0] in plain;
      assert plain + rest == [plain[0]] + (plain[1..] + rest);
      ScanUnmarked(plain[0], plain[1..] + rest, s);
      ScanPlain(plain[1..], rest, s);
    }
  }

  lemma {:induction false} TrimStartSplit(s: string) returns (blank: string)
    ensures s == blank + TrimStart(s) && IsBlank(blank)
    ensures TrimStart(s) != [] ==> !IsWhitespace(TrimStart(s)[0])
    decreases s
  {
    if s != [] && IsWhitespace(s[0]) {
      var b := TrimStartSplit(s[1..]);
      blank := [s[0]] + b;
    } else {
      blank := [];
    }
  }

  lemma {:induction false} TrimEndSplit(s: string) returns (blank: string)
    ensures s == TrimEnd(s) + blank && IsBlank(blank)
    ensures TrimEnd(s) != [] ==> !IsWhitespace(TrimEnd(s)[|TrimEnd(s)| - 1])
    decreases s
  {
    if s != [] && IsWhitespace(s[|s| - 1]) {
      var b := TrimEndSplit(s[..|s| - 1]);
      blank := b + [s[|s| - 1]];
    } else {
      blank := [];
    }
  }

  lemma ScanBlank(blank: string, rest: string, s: ScanState)
    requires IsBlank(blank) && s.ScanState? && s.mode == NoString
    ensures ScanLine(blank + rest, s) == ScanLine(rest, s)
  {
    forall c <- blank ensures IsUnmarked(c) {
    }
    ScanPlain(blank, rest, s);
  }

  lemma ScanTrimStart(line: string, s: ScanState)
    requires s.ScanState? && s.mode == NoString
    ensures ScanLine(line, s) == ScanLine(TrimStart(line), s)
  {
    var blank := TrimStartSplit(line);
    ScanBlank(blank, TrimStart(line), s);
  }

  lemma {:induction false} ScanSkipSpace(line: string, s: ScanState)
    requires s.ScanState? && s.mode == NoString
    ensures ScanLine(line, s) == ScanLine(SkipSpace(line), s)
  {
    if line != [] && (line[0] == ' ' || line[0] == '\t') {
      assert line == [line[0]] + line[1..];
      ScanUnmarked(line[0], line[1..], s);
      ScanSkipSpace(line[1..], s);
    }
  }

  /** A parsed string body is what the scanner skips. */
  lemma {:induction false} SkipParsedBody(s: string, quote: char)
    requires quote == '"' || quote == '\''
    requires ParseBody(s, quote).Some?
    ensures SkipQuoted(s, quote, quote == '"') == Some(ParseBody(s, quote).value.1)
    decreases |s|
  {
    if s[0] != quote {
      if quote == '"' && s[0] == '\\' {
        SkipEscape(s);
        SkipParsedBody(ParseEscape(s[1..]).value.1, quote);
      } else {
        SkipParsedBody(s[1..], quote);
      }
    }
  }

  lemma SkipEscape(s: string)
    requires s != [] && s[0] == '\\' && ParseEscape(s[1..]).Some?
    ensures |ParseEscape(s[1..]).value.1| < |s|
    ensures SkipQuoted(s, '"', true) == SkipQuoted(ParseEscape(s[1..]).value.1, '"', true)
  {
    assert IsAscii(s[1]);
    assert s[1..][1..] == s[2..];
    if s[1] == 'u' || s[1] == 'U' {
      var length := if s[1] == 'u' then 4 else 8;
      var digits := s[2..][..length];
      assert s[2..] == digits + s[2..][length..];
      SkipDigits(digits, s[2..][length..]);
    }
  }

  lemma {:induction false} SkipDigits(digits: string, rest: string)
    requires forall c <- digits :: IsHexDigit(c)
    ensures SkipQuoted(digits + rest, '"', true) == SkipQuoted(rest, '"', true)
    decreases digits
  {
    if digits == [] {
      assert digits + rest == rest;
    } else {
      assert digits[0] in digits;
      assert (digits + rest)[1..] == digits[1..] + rest;
      SkipDigits(digits[1..], rest);
    }
  }

  lemma ScanPrefix(line: string, prefix: string, s: ScanState)
    requires StripPrefix(line, prefix).Some? && s.ScanState? && s.mode == NoString
    requires forall c <- prefix :: IsUnmarked(c)
    ensures ScanLine(line, s) == ScanLine(StripPrefix(line, prefix).value, s)
  {
    assert line == prefix + line[|prefix|..];
    ScanPlain(prefix, line[|prefix|..], s);
  }

  /** A quoted string that does not open a multi-line one is skipped as a whole. */
  lemma ScanString(s: string, after: string, state: ScanState)
    requires state.ScanState? && state.mode == NoString
    requires s != [] && (s[0] == '"' || s[0] == '\'')
    requires SkipQuoted(s[1..], s[0], s[0] == '"') == Some(after)
    requires |s| > 2 ==> !(s[1] == s[0] && s[2] == s[0])
    ensures ScanLine(s, state) == ScanLine(after, state)
  {
    assert !(TRIPLE_BASIC <= s) && !(TRIPLE_LITERAL <= s);
  }

  lemma ParsedStringIsSingle(s: string)
    requires ParseString(s).Some?
    requires StripPrefix(SkipSpace(ParseString(s).value.1), "]").Some?
    ensures |s| > 2 ==> !(s[1] == s[0] && s[2] == s[0])
  {
    if |s| > 2 && s[1] == s[0] {
      assert ParseBody(s[1..], s[0]) == Some(([], s[2..])) by {
        assert s[1..][1..] == s[2..];
      }
    }
  }

  /** A parsed project header opens and closes one bracket, so it leaves the scan as deep in arrays
      as it found it. */
  lemma HeaderKeepsDepth(line: string, depth: nat)
    requires ParseProjectHeader(line).Some?
    ensures ScanLine(line, ScanState(depth, NoString)) == ScanState(depth, NoString)
  {
    var outside, inside := ScanState(depth, NoString), ScanState(depth + 1, NoString);
    var trimmed := TrimStart(line);
    ScanTrimStart(line, outside);
    var afterBracket := StripPrefix(trimmed, "[").value;
    assert ScanLine(trimmed, outside) == ScanLine(afterBracket, inside) by {
      assert !(TRIPLE_BASIC <= trimmed) && !(TRIPLE_LITERAL <= trimmed);
    }
    ScanSkipSpace(afterBracket, inside);
    var afterProjects := StripPrefix(SkipSpace(afterBracket), "projects").value;
    ScanPrefix(SkipSpace(afterBracket), "projects", inside);
    ScanSkipSpace(afterProjects, inside);
    var afterDot := StripPrefix(SkipSpace(afterProjects), ".").value;
    ScanPrefix(SkipSpace(afterProjects), ".", inside);
    ScanSkipSpace(afterDot, inside);
    var s := SkipSpace(afterDot);
    HeaderTail(s, depth);
    hide ScanLine;
  }

  lemma HeaderTail(s: string, depth: nat)
    requires ParseString(s).Some?
    requires StripPrefix(SkipSpace(ParseString(s).value.1), "]").Some?
    requires var tail := SkipSpace(StripPrefix(SkipSpace(ParseString(s).value.1), "]").value);
      tail == [] || tail[0] == '#'
    ensures ScanLine(s, ScanState(depth + 1, NoString)) == ScanState(depth, NoString)
  {
    var outside, inside := ScanState(depth, NoString), ScanState(depth + 1, NoString);
    var after := ParseString(s).value.1;
    SkipParsedBody(s[1..], s[0]);
    ParsedStringIsSingle(s);
    ScanString(s, after, inside);
    ScanSkipSpace(after, inside);
    var closing := SkipSpace(after);
    hide ParseString;
    assert ScanLine(closing, inside) == ScanLine(closing[1..], outside) by {
      assert !(TRIPLE_BASIC <= closing) && !(TRIPLE_LITERAL <= closing);
    }
    ScanSkipSpace(closing[1..], outside);
    var tail := SkipSpace(closing[1..]);
    assert !(tail != [] && TRIPLE_BASIC <= tail) && !(tail != [] && TRIPLE_LITERAL <= tail);
  }

  /** So outside arrays the scan stays structural. */
  lemma HeaderStaysStructural(line: string)
    requires ParseProjectHeader(line).Some?
    ensures ScanLine(line, START) == START
  {
    HeaderKeepsDepth(line, 0);
  }

  // ---- The rendered lines inside a string or an array ----

  lemma TrustLineKeepsDepth(depth: nat)
    ensures ScanLine(TRUST_LINE, ScanState(depth, NoString)) == ScanState(depth, NoString)
  {
    var s := ScanState(depth, NoString);
    var plain, quoted := "trust_level = ", "\"trusted\"";
    assert TRUST_LINE == plain + quoted;
    ScanPlain(plain, quoted, s);
    var value := "trusted";
    assert quoted[1..] == value + ['"'] + "";
    SkipValue(value, '"', "");
    ScanString(quoted, "", s);
  }

  /** In a multi-line basic string, plain characters and escapes are read over. */
  lemma BasicPlain(c: char, rest: string, s: ScanState)
    requires s.ScanState? && s.mode == Basic && c != '\\' && c != '"'
    ensures ScanLine([c] + rest, s) == ScanLine(rest, s)
  {
    var line := [c] + rest;
    assert line[0] == c && line[1..] == rest && TRIPLE_BASIC[0] == '"';
  }

  lemma BasicEscape(d: char, rest: string, s: ScanState)
    requires s.ScanState? && s.mode == Basic && IsAscii(d)
    ensures ScanLine(['\\', d] + rest, s) == ScanLine(rest, s)
  {
    var line := ['\\', d] + rest;
    assert line[0] == '\\' && line[1] == d && line[2..] == rest;
  }

  lemma {:induction false} BasicPrefix(plain: string, rest: string, s: ScanState)
    requires s.ScanState? && s.mode == Basic && forall c <- plain :: c != '\\' && c != '"'
    ensures ScanLine(plain + rest, s) == ScanLine(rest, s)
    decreases plain
  {
    if plain == [] {
      assert plain + rest == rest;
    } else {
      assert plain[0] in plain && forall c <- plain[1..] :: c in plain;
      assert plain + rest == [plain[0]] + (plain[1..] + rest);
      BasicPlain(plain[0], plain[1..] + rest, s);
      BasicPrefix(plain[1..], rest, s);
    }
  }

  lemma {:induction false} BasicEscaped(value: string, rest: string, s: ScanState)
    requires s.ScanState? && s.mode == Basic
    ensures ScanLine(EscapeString(value) + rest, s) == ScanLine(rest, s)
    ensures EscapeString(value) != [] ==> EscapeString(value)[0] != '"'
    decreases value
  {
    if value == [] {
      assert EscapeString(value) == [] && [] + rest == rest;
    } else {
      assert value == [value[0]] + value[1..];
      EscapeStep(value[0], value[1..]);
      BasicEscaped(value[1..], rest, s);
      hide EscapeString, ScanLine;
      var tail := EscapeString(value[1..]) + rest;
      var e := EscapedChar(value[0]);
      Assoc(e, EscapeString(value[1..]), rest);
      if |e| == 1 {
        assert e == [value[0]];
        BasicPlain(value[0], tail, s);
      } else {
        assert e == ['\\', e[1]];
        BasicEscape(e[1], tail, s);
      }
    }
  }

  /** The rendered header does not close a multi-line basic string: its quotes stand alone. */
  lemma HeaderStaysBasic(path: string, depth: nat)
    ensures ScanLine(ProjectHeader(path), ScanState(depth, Basic)) == ScanState(depth, Basic)
  {
    var s := ScanState(depth, Basic);
    var escaped := EscapeString(path);
    BasicEscaped(path, "\"]", s);
    hide EscapeString;
    var quoted := "\"" + (escaped + "\"]");
    assert ProjectHeader(path) == "[projects." + quoted;
    hide ProjectHeader;
    BasicPrefix("[projects.", quoted, s);
    assert quoted[0] == '"' && quoted[1..] == escaped + "\"]";
    assert quoted[1] == (if escaped == [] then '"' else escaped[0]);
    assert escaped == [] ==> quoted == "\"\"]" && quoted[2] == ']';
    assert !(TRIPLE_BASIC <= quoted);
    LastQuote(s);
  }

  lemma LastQuote(s: ScanState)
    requires s.ScanState? && s.mode == Basic
    ensures ScanLine("\"]", s) == s
  {
    assert "\"]"[1..] == "]" && "]"[1..] == "" && !(TRIPLE_BASIC <= "\"]") && !(TRIPLE_BASIC <= "]");
  }

  lemma {:induction false} SkipValue(value: string, quote: char, rest: string)
    requires (quote == '"' || quote == '\'') && quote !in value && '\\' !in value
    ensures SkipQuoted(value + [quote] + rest, quote, quote == '"') == Some(rest)
    decreases value
  {
    var s := value + [quote] + rest;
    if value == [] {
      assert s[1..] == rest;
    } else {
      assert value[0] in value;
      assert s[1..] == value[1..] + [quote] + rest;
      SkipValue(value[1..], quote, rest);
    }
  }

  lemma ScanComment(s: string)
    requires s != [] && s[0] == '#'
    ensures ScanLine(s, START) == START
  {
    assert !(TRIPLE_BASIC <= s) && !(TRIPLE_LITERAL <= s);
  }

  lemma ScanTailBlank(tail: string, blank: string)
    requires IsBlank(blank)
    requires Trim(tail) == [] || "#" <= TrimStart(tail)
    ensures ScanLine(tail + blank, START) == START
  {
    var before := TrimStartSplit(tail);
    var core := TrimStart(tail);
    Assoc(before, core, blank);
    ScanBlank(before, core + blank, START);
    hide ScanLine;
    if "#" <= core {
      ScanComment(core + blank);
    } else {
      TrimmedAway(core);
      assert core + blank == blank + [];
      ScanBlank(blank, [], START);
    }
  }

  lemma TrimmedAway(core: string)
    requires TrimEnd(core) == [] && (core != [] ==> !IsWhitespace(core[0]))
    ensures core == []
  {
    assert core != [] ==> core[0] in core;
    var after := TrimEndSplit(core);
  }

  lemma ScanTrustValue(s: string, blank: string)
    requires IsBlank(blank)
    requires TrustValue(s).Some?
    requires var (value, tail) := TrustValue(s).value;
      value in {"trusted", "untrusted"} && (Trim(tail) == [] || "#" <= TrimStart(tail))
    ensures ScanLine(s + blank, START) == START
  {
    var (value, tail) := TrustValue(s).value;
    SplitOnceParts(s[1..], s[0]);
    assert (s + blank)[1..] == value + [s[0]] + (tail + blank);
    assert '\\' !in value && (value[0] == 't' || value[0] == 'u');
    SkipValue(value, s[0], tail + blank);
    assert (s + blank)[1] == value[0];
    ScanString(s + blank, tail + blank, START);
    ScanTailBlank(tail, blank);
  }

  /** A trust assignment leaves the scan structural and is not a table header. */
  lemma TrustStaysStructural(line: string)
    requires IsTrustAssignment(line)
    ensures ScanLine(line, START) == START && !IsTableHeader(line)
  {
    var afterKey, blank := TrustStart(line);
    ScanTrimStart(line, START);
    ScanPlain("trust_level", afterKey + blank, START);
    hide ScanLine, HeaderCloses, TrimStart;
    assert ("trust_level" + (afterKey + blank))[0] == 't';
  }

  /** The line without its leading whitespace, cut after the key, and scanned from there. */
  lemma TrustStart(line: string) returns (afterKey: string, blank: string)
    requires IsTrustAssignment(line)
    ensures TrimStart(line) == "trust_level" + (afterKey + blank)
    ensures ScanLine(afterKey + blank, START) == START
  {
    hide TrimStart, TrimEnd, ScanLine;
    blank := TrimEndSplit(TrimStart(line));
    afterKey := StripPrefix(Trim(line), "trust_level").value;
    Prefixed(Trim(line), "trust_level", blank);
    TrustAfterKey(afterKey, blank);
  }

  lemma Prefixed(s: string, prefix: string, rest: string)
    requires StripPrefix(s, prefix).Some?
    ensures s + rest == prefix + (StripPrefix(s, prefix).value + rest)
  {
  }

  lemma TrustAfterKey(afterKey: string, blank: string)
    requires IsBlank(blank)
    requires StripPrefix(TrimStart(afterKey), "=").Some?
    requires var r := TrustValue(TrimStart(StripPrefix(TrimStart(afterKey), "=").value));
      r.Some? && r.value.0 in {"trusted", "untrusted"} && (Trim(r.value.1) == [] || "#" <= TrimStart(r.value.1))
    ensures ScanLine(afterKey + blank, START) == START
  {
    hide TrustValue;
    var b1 := TrimStartSplit(afterKey);
    var afterEquals := StripPrefix(TrimStart(afterKey), "=").value;
    var b2 := TrimStartSplit(afterEquals);
    var s := TrimStart(afterEquals);
    Prefixed(TrimStart(afterKey), "=", blank);
    Assoc(b1, TrimStart(afterKey), blank);
    Assoc(b2, s, blank);
    ScanBlank(b1, "=" + (b2 + (s + blank)), START);
    ScanPlain("=", b2 + (s + blank), START);
    ScanBlank(b2, s + blank, START);
    ScanTrustValue(s, blank);
    hide ScanLine, StripPrefix, TrimStart, TrimEnd, Trim;
  }

  // ---- A carriage return at the end of a line changes nothing that is read from it ----

  lemma {:induction false} SkipQuotedCr(s: string, quote: char, escapes: bool)
    requires quote != '\r'
    ensures var r, r' := SkipQuoted(s, quote, escapes), SkipQuoted(s + "\r", quote, escapes);
      if r.None? then r'.None?
      else r'.Some? && (r'.value == r.value + "\r" || (r.value == [] && r'.value == []))
    decreases |s|
  {
    var s' := s + "\r";
    if s == [] {
      assert s'[1..] == [];
    } else {
      assert s'[1..] == s[1..] + "\r";
      if escapes && s[0] == '\\' {
        assert |s| > 1 ==> s'[2..] == s[2..] + "\r";
        assert |s| == 1 ==> s'[2..] == [];
        if |s| > 1 { SkipQuotedCr(s[2..], quote, escapes); }
      } else if s[0] != quote {
        SkipQuotedCr(s[1..], quote, escapes);
      }
    }
  }

  lemma PrefixCr(s: string, prefix: string)
    requires prefix != [] && '\r' !in prefix
    ensures prefix <= s + "\r" <==> prefix <= s
    ensures prefix <= s ==> (s + "\r")[|prefix|..] == s[|prefix|..] + "\r"
  {
    assert prefix[|prefix| - 1] in prefix;
    assert (s + "\r")[|s|] == '\r';
    assert prefix <= s + "\r" ==> prefix[|prefix| - 1] == (s + "\r")[|prefix| - 1];
  }

  lemma TripleCr(s: string, triple: string)
    requires triple == TRIPLE_BASIC || triple == TRIPLE_LITERAL
    ensures triple <= s + "\r" <==> triple <= s
    ensures triple <= s ==> (s + "\r")[3..] == s[3..] + "\r"
  {
    PrefixCr(s, triple);
  }

  lemma {:induction false} ScanCr(s: string, state: ScanState)
    ensures ScanLine(s + "\r", state) == ScanLine(s, state)
    decreases |s|
  {
    var s' := s + "\r";
    if state.ScanState? {
      TripleCr(s, TRIPLE_BASIC);
      TripleCr(s, TRIPLE_LITERAL);
      if s == [] {
        assert s'[1..] == [];
      } else {
        assert s'[0] == s[0] && s'[1..] == s[1..] + "\r";
        match state.mode {
          case Basic => ScanCrBasic(s, state);
          case Literal => ScanCr(if TRIPLE_LITERAL <= s then s[3..] else s[1..],
                                 if TRIPLE_LITERAL <= s then state.(mode := NoString) else state);
          case NoString => ScanCrBare(s, state);
        }
      }
    }
  }

  lemma {:induction false} ScanCrBasic(s: string, state: ScanState)
    requires s != [] && state.ScanState? && state.mode == Basic
    ensures ScanLine(s + "\r", state) == ScanLine(s, state)
    decreases |s|, 0
  {
    var s' := s + "\r";
    assert s'[0] == s[0] && s'[1..] == s[1..] + "\r";
    if s[0] == '\\' {
      if |s| > 1 {
        assert s'[1] == s[1] && s'[2..] == s[2..] + "\r";
        if IsAscii(s[1]) { ScanCr(s[2..], state); }
      } else {
        assert AfterEscape(s') == Some([]) && AfterEscape(s) == Some([]);
      }
    } else {
      TripleCr(s, TRIPLE_BASIC);
      ScanCr(if TRIPLE_BASIC <= s then s[3..] else s[1..],
             if TRIPLE_BASIC <= s then state.(mode := NoString) else state);
    }
  }

  lemma {:induction false} ScanCrBare(s: string, state: ScanState)
    requires s != [] && state.ScanState? && state.mode == NoString
    ensures ScanLine(s + "\r", state) == ScanLine(s, state)
    decreases |s|, 0
  {
    var s' := s + "\r";
    assert s'[0] == s[0] && s'[1..] == s[1..] + "\r";
    TripleCr(s, TRIPLE_BASIC);
    TripleCr(s, TRIPLE_LITERAL);
    if TRIPLE_BASIC <= s {
      ScanCr(s[3..], state.(mode := Basic));
    } else if TRIPLE_LITERAL <= s {
      ScanCr(s[3..], state.(mode := Literal));
    } else if s[0] == '"' || s[0] == '\'' {
      SkipQuotedCr(s[1..], s[0], s[0] == '"');
      var after := SkipQuoted(s[1..], s[0], s[0] == '"');
      if after.Some? { ScanCr(after.value, state); }
    } else {
      ScanCr(s[1..], if s[0] == '[' then state.(arrayDepth := state.arrayDepth + 1)
        else if s[0] == ']' then state.(arrayDepth := if state.arrayDepth == 0 then 0 else state.arrayDepth - 1)
        else state);
    }
  }

  lemma {:induction false} TrimStartCr(s: string)
    ensures TrimStart(s + "\r") == if TrimStart(s) == [] then [] else TrimStart(s) + "\r"
  {
    if s != [] {
      assert (s + "\r")[1..] == s[1..] + "\r";
      if IsWhitespace(s[0]) { TrimStartCr(s[1..]); }
    } else {
      assert (s + "\r")[1..] == [];
    }
  }

  lemma TrimCr(s: string)
    ensures Trim(s + "\r") == Trim(s)
  {
    TrimStartCr(s);
    var core := TrimStart(s);
    assert (core + "\r")[..|core + "\r"| - 1] == core;
  }

  lemma TrustLevelCr(line: string)
    ensures TrustLevel(line + "\r") == TrustLevel(line)
  {
    TrimCr(line);
  }

  lemma {:induction false} HeaderClosesCr(s: string, mode: HeaderMode)
    ensures HeaderCloses(s + "\r", mode) == HeaderCloses(s, mode)
    decreases s
  {
    var s' := s + "\r";
    if s == [] {
      assert s'[1..] == [];
    } else {
      assert s'[0] == s[0] && s'[1..] == s[1..] + "\r";
      if mode.Bare? && s[0] == ']' {
        TrimCr(s[1..]);
      } else {
        HeaderClosesCr(s[1..], match mode
          case BasicKey(true) => BasicKey(false)
          case BasicKey(false) => if s[0] == '\\' then BasicKey(true) else if s[0] == '"' then Bare else mode
          case LiteralKey => if s[0] == '\'' then Bare else LiteralKey
          case Bare => if s[0] == '"' then BasicKey(false) else if s[0] == '\'' then LiteralKey else Bare);
      }
    }
  }

  lemma TableHeaderCr(line: string)
    ensures IsTableHeader(line + "\r") == IsTableHeader(line)
  {
    TrimStartCr(line);
    var core := TrimStart(line);
    if core != [] {
      assert (core + "\r")[1..] == core[1..] + "\r";
      HeaderClosesCr(core[1..], Bare);
    }
  }

  lemma {:induction false} SkipSpaceCr(s: string)
    ensures SkipSpace(s + "\r") == SkipSpace(s) + "\r"
  {
    if s != [] && (s[0] == ' ' || s[0] == '\t') {
      assert (s + "\r")[1..] == s[1..] + "\r";
      SkipSpaceCr(s[1..]);
    }
  }

  lemma StripPrefixCr(s: string, prefix: string)
    requires prefix != [] && '\r' !in prefix
    ensures StripPrefix(s + "\r", prefix).Some? <==> StripPrefix(s, prefix).Some?
    ensures StripPrefix(s, prefix).Some? ==> StripPrefix(s + "\r", prefix).value == StripPrefix(s, prefix).value + "\r"
  {
    PrefixCr(s, prefix);
  }

  /** A string that parses before a carriage return parses without it. */
  lemma {:induction false} ParseBodyCr(s: string, quote: char)
    requires quote == '"' || quote == '\''
    requires ParseBody(s + "\r", quote).Some?
    ensures ParseBody(s, quote).Some?
    ensures var (v, after) := ParseBody(s, quote).value; ParseBody(s + "\r", quote).value == (v, after + "\r")
    decreases |s|
  {
    var s' := s + "\r";
    if s == [] {
      assert s'[1..] == [];
    } else {
      assert s'[0] == s[0] && s'[1..] == s[1..] + "\r";
      if s[0] != quote {
        if quote == '"' && s[0] == '\\' {
          ParseEscapeCr(s[1..]);
          ParseBodyCr(ParseEscape(s[1..]).value.1, quote);
        } else {
          ParseBodyCr(s[1..], quote);
        }
      }
    }
  }

  lemma ParseEscapeCr(s: string)
    requires ParseEscape(s + "\r").Some?
    ensures ParseEscape(s).Some? && |ParseEscape(s).value.1| < |s|
    ensures var (c, after) := ParseEscape(s).value; ParseEscape(s + "\r").value == (c, after + "\r")
  {
    var s' := s + "\r";
    if s != [] {
      assert s'[0] == s[0] && s'[1..] == s[1..] + "\r";
      if s[0] == 'u' {
        UnicodeEscapeCr(s[1..], 4);
      } else if s[0] == 'U' {
        UnicodeEscapeCr(s[1..], 8);
      }
    }
  }

  lemma UnicodeEscapeCr(s: string, length: nat)
    requires ParseUnicodeEscape(s + "\r", length).Some?
    ensures ParseUnicodeEscape(s, length).Some?
    ensures var (c, after) := ParseUnicodeEscape(s, length).value;
      ParseUnicodeEscape(s + "\r", length).value == (c, after + "\r")
  {
    var s' := s + "\r";
    var digits := s'[..length];
    assert length > 0 ==> digits[length - 1] == s'[length - 1] && digits[length - 1] in digits;
    assert s'[|s|] == '\r' && !IsHexDigit('\r');
    assert digits == s[..length];
    assert s'[length..] == s[length..] + "\r";
  }

  lemma ProjectHeaderCr(line: string)
    requires ParseProjectHeader(line + "\r").Some?
    ensures ParseProjectHeader(line) == ParseProjectHeader(line + "\r")
  {
    TrimStartCr(line);
    assert StripPrefix([], "[").None?;
    StripPrefixCr(TrimStart(line), "[");
    var afterBracket := StripPrefix(TrimStart(line), "[").value;
    SkipSpaceCr(afterBracket);
    StripPrefixCr(SkipSpace(afterBracket), "projects");
    var afterProjects := StripPrefix(SkipSpace(afterBracket), "projects").value;
    SkipSpaceCr(afterProjects);
    StripPrefixCr(SkipSpace(afterProjects), ".");
    var afterDot := StripPrefix(SkipSpace(afterProjects), ".").value;
    SkipSpaceCr(afterDot);
    var s := SkipSpace(afterDot);
    ParseStringCr(s);
    var afterString := ParseString(s).value.1;
    SkipSpaceCr(afterString);
    StripPrefixCr(SkipSpace(afterString), "]");
    var afterClose := StripPrefix(SkipSpace(afterString), "]").value;
    SkipSpaceCr(afterClose);
    var tail := SkipSpace(afterClose);
    assert (tail + "\r")[0] == if tail == [] then '\r' else tail[0];
    hide StripPrefix, SkipSpace, ParseString, TrimStart;
  }

  lemma ParseStringCr(s: string)
    requires ParseString(s + "\r").Some?
    ensures ParseString(s).Some?
    ensures var (v, after) := ParseString(s).value; ParseString(s + "\r").value == (v, after + "\r")
  {
    assert s != [] ==> (s + "\r")[0] == s[0] && (s + "\r")[1..] == s[1..] + "\r";
    ParseBodyCr(s[1..], s[0]);
  }
}
