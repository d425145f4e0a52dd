/** The parts of TOML that the trust edit recognises on a single line. */
module TomlSyntax {
  import opened Text

  function SkipSpace(s: string): string {
    if s != [] && (s[0] == ' ' || s[0] == '\t') then SkipSpace(s[1..]) else s
  }

  predicate IsHexDigit(c: char) {
    '0' <= c <= '9' || 'a' <= c <= 'f' || 'A' <= c <= 'F'
  }

  function HexValue(c: char): nat
    requires IsHexDigit(c)
  {
    if c <= '9' then (c - '0') as nat else if c <= 'F' then (c - 'A') as nat + 10 else (c - 'a') as nat + 10
  }

  function FromHex(digits: string): nat
    requires forall c <- digits :: IsHexDigit(c)
  {
    if digits == [] then 0
    else
      assert forall c <- digits[..|digits| - 1] :: c in digits;
      assert digits[|digits| - 1] in digits;
      16 * FromHex(digits[..|digits| - 1]) + HexValue(digits[|digits| - 1])
  }

  function FromScalar(code: nat): Option<char> {
    if code < 0xD800 || 0xE000 <= code < 0x11_0000 then Some(code as char) else None
  }

  function ParseUnicodeEscape(s: string, length: nat): Option<(char, string)> {
    if length <= |s| && forall c <- s[..length] :: IsHexDigit(c) then
      var c :- FromScalar(FromHex(s[..length]));
      Some((c, s[length..]))
    else None
  }

  /** The character after a backslash, and the text after the escape. */
  function ParseEscape(s: string): Option<(char, string)> {
    if s == [] then None
    else match s[0]
      case 'b' => Some(('\U{0008}', s[1..]))
      case 't' => Some(('\t', s[1..]))
      case 'n' => Some(('\n', s[1..]))
      case 'f' => Some(('\U{000c}', s[1..]))
      case 'r' => Some(('\r', s[1..]))
      case '"' => Some(('"', s[1..]))
      case '\\' => Some(('\\', s[1..]))
      case 'u' => ParseUnicodeEscape(s[1..], 4)
      case 'U' => ParseUnicodeEscape(s[1..], 8)
      case _ => None
  }

  /** The value of a string after its opening quote, and the text after its closing quote. */
  function ParseBody(s: string, quote: char): (r: Option<(string, string)>)
    ensures r.Some? ==> |r.value.1| < |s|
    decreases |s|
  {
    if s == [] then None
    else if s[0] == quote then Some(([], s[1..]))
    else if quote == '"' && s[0] == '\\' then
      var (c, afterEscape) :- ParseEscape(s[1..]);
      var (value, after) :- ParseBody(afterEscape, quote);
      Some(([c] + value, after))
    else
      var (value, after) :- ParseBody(s[1..], quote);
      Some(([s[0]] + value, after))
  }

  function ParseString(s: string): Option<(string, string)> {
    if s != [] && (s[0] == '"' || s[0] == '\'') then ParseBody(s[1..], s[0]) else None
  }

  /** `[ projects . "path" ] # comment`, with the path decoded. */
  function ParseProjectHeader(line: string): Option<string> {
    var afterBracket :- StripPrefix(TrimStart(line), "[");
    var afterProjects :- StripPrefix(SkipSpace(afterBracket), "projects");
    var afterDot :- StripPrefix(SkipSpace(afterProjects), ".");
    var (value, afterString) :- ParseString(SkipSpace(afterDot));
    var afterClose :- StripPrefix(SkipSpace(afterString), "]");
    var tail := SkipSpace(afterClose);
    if tail == [] || tail[0] == '#' then Some(value) else None
  }

  /** `trust_level = "value" # comment` with one of the two known values. */
  function TrustLevel(line: string): Option<string> {
    var afterKey :- StripPrefix(Trim(line), "trust_level");
    var afterEquals :- StripPrefix(TrimStart(afterKey), "=");
    var (value, tail) :- TrustValue(TrimStart(afterEquals));
    if value in {"trusted", "untrusted"} && (Trim(tail) == [] || "#" <= TrimStart(tail)) then Some(value) else None
  }

  function TrustValue(s: string): Option<(string, string)> {
    if s == [] then None
    else if s[0] == '"' || s[0] == '\'' then SplitOnce(s[1..], s[0])
    else None
  }

  predicate IsTrustAssignment(line: string) {
    TrustLevel(line).Some?
  }

  datatype HeaderMode = Bare | BasicKey(escaped: bool) | LiteralKey

  predicate HeaderCloses(s: string, mode: HeaderMode) {
    if s == [] then false
    else match mode
      case BasicKey(true) => HeaderCloses(s[1..], BasicKey(false))
      case BasicKey(false) =>
        HeaderCloses(s[1..], if s[0] == '\\' then BasicKey(true) else if s[0] == '"' then Bare else mode)
      case LiteralKey => HeaderCloses(s[1..], if s[0] == '\'' then Bare else LiteralKey)
      case Bare =>
        if s[0] == '"' then HeaderCloses(s[1..], BasicKey(false))
        else if s[0] == '\'' then HeaderCloses(s[1..], LiteralKey)
        else if s[0] == ']' then
          var tail := Trim(s[1..]);
          tail == [] || tail[0] == '#' || tail[0] == ']'
        else HeaderCloses(s[1..], Bare)
  }

  predicate IsTableHeader(line: string) {
    var trimmed := TrimStart(line);
    trimmed != [] && trimmed[0] == '[' && HeaderCloses(trimmed[1..], Bare)
  }

  function EscapeString(value: string): string {
    var v1 := Replace(value, '\\', "\\\\");
    var v2 := Replace(v1, '"', "\\\"");
    var v3 := Replace(v2, '\U{0008}', "\\b");
    var v4 := Replace(v3, '\U{000c}', "\\f");
    var v5 := Replace(v4, '\n', "\\n");
    var v6 := Replace(v5, '\r', "\\r");
    Replace(v6, '\t', "\\t")
  }

  predicate IsWslUnc(components: seq<string>) {
    && |components| >= 4
    && components[0] == [] && components[1] == []
    && ToAsciiLower(components[2]) in {"wsl$", "wsl.localhost"}
  }

  function JoinTail(tail: seq<string>, fold: bool): string {
    if tail == [] then []
    else "/" + (if fold then ToAsciiLower(tail[0]) else tail[0]) + JoinTail(tail[1..], fold)
  }

  /** The key two spellings of a project path share. */
  function LookupPath(path: string): string {
    if '\\' !in path && !("//" <= path) then path
    else
      var slashed := Replace(path, '\\', "/");
      var components := Split(slashed, '/');
      if IsWslUnc(components) then
        var tail := components[4..];
        var fold := |tail| >= 2 && tail[0] == "mnt" && |tail[1]| == 1 && IsAsciiAlphabetic(tail[1][0]);
        "//wsl.localhost/" + ToAsciiLower(components[3]) + JoinTail(tail, fold)
      else ToAsciiLower(slashed)
  }

  // ---- The rendered header parses back ----

  const TRUST_LINE := "trust_level = \"trusted\""

  function ProjectHeader(path: string): string {
    "[projects.\"" + EscapeString(path) + "\"]"
  }

  /** One character as `EscapeString` renders it. */
  function EscapedChar(c: char): string {
    if c == '\\' then "\\\\"
    else if c == '"' then "\\\""
    else if c == '\U{0008}' then "\\b"
    else if c == '\U{000c}' then "\\f"
    else if c == '\n' then "\\n"
    else if c == '\r' then "\\r"
    else if c == '\t' then "\\t"
    else [c]
  }

  lemma ReplaceShort(c: char, d: char, from: char, to: string)
    ensures Replace([c], from, to) == if c == from then to else [c]
    ensures Replace([c, d], from, to) == (if c == from then to else [c]) + (if d == from then to else [d])
  {
    assert [c][1..] == [] && [d][1..] == [] && [c, d][1..] == [d];
    assert Replace([], from, to) == [];
    assert Replace([d], from, to) == if d == from then to else [d];
  }

  lemma EscapeOfChar(c: char)
    ensures EscapeString([c]) == EscapedChar(c)
  {
    ReplaceShort(c, c, '\\', "\\\\");
    var d := if c == '\\' then '\\' else if c == '"' then '"' else if c == '\U{0008}' then 'b'
      else if c == '\U{000c}' then 'f' else if c == '\n' then 'n' else if c == '\r' then 'r' else 't';
    forall from, to | from in {'"', '\U{0008}', '\U{000c}', '\n', '\r', '\t'}
      ensures Replace(['\\', d], from, to) == if d == from then ['\\'] + to else ['\\', d]
      ensures Replace([c], from, to) == if c == from then to else [c]
    {
      ReplaceShort('\\', d, from, to);
      ReplaceShort(c, c, from, to);
    }
  }

  lemma EscapeStep(c: char, rest: string)
    ensures EscapeString([c] + rest) == EscapedChar(c) + EscapeString(rest)
  {
    EscapeOfChar(c);
    var a1, b1 := Replace([c], '\\', "\\\\"), Replace(rest, '\\', "\\\\");
    ReplaceConcat([c], rest, '\\', "\\\\");
    var a2, b2 := Replace(a1, '"', "\\\""), Replace(b1, '"', "\\\"");
    ReplaceConcat(a1, b1, '"', "\\\"");
    var a3, b3 := Replace(a2, '\U{0008}', "\\b"), Replace(b2, '\U{0008}', "\\b");
    ReplaceConcat(a2, b2, '\U{0008}', "\\b");
    var a4, b4 := Replace(a3, '\U{000c}', "\\f"), Replace(b3, '\U{000c}', "\\f");
    ReplaceConcat(a3, b3, '\U{000c}', "\\f");
    var a5, b5 := Replace(a4, '\n', "\\n"), Replace(b4, '\n', "\\n");
    ReplaceConcat(a4, b4, '\n', "\\n");
    var a6, b6 := Replace(a5, '\r', "\\r"), Replace(b5, '\r', "\\r");
    ReplaceConcat(a5, b5, '\r', "\\r");
    ReplaceConcat(a6, b6, '\t', "\\t");
    hide Replace;
  }

  /** Escaping then parsing gives the value back, whatever follows the closing quote; and the
      table-header test walks over the escaped text to the same place. */
  lemma {:induction false} EscapedBodyParses(value: string, rest: string)
    ensures ParseBody(EscapeString(value) + "\"" + rest, '"') == Some((value, rest))
    ensures HeaderCloses(EscapeString(value) + "\"" + rest, BasicKey(false)) == HeaderCloses(rest, Bare)
    ensures '\n' !in EscapeString(value)
    decreases value
  {
    if value == [] {
      assert EscapeString([]) == [];
      var s := "\"" + rest;
      assert EscapeString([]) + "\"" + rest == s;
      assert s[1..] == rest;
    } else {
      var c := value[0];
      assert value == [c] + value[1..];
      EscapeStep(c, value[1..]);
      EscapedBodyParses(value[1..], rest);
      EscapedCharParses(c, EscapeString(value[1..]) + "\"" + rest);
      assert EscapeString(value) + "\"" + rest == EscapedChar(c) + (EscapeString(value[1..]) + "\"" + rest);
      hide EscapeString;
    }
  }

  lemma EscapedCharParses(c: char, rest: string)
    ensures ParseBody(EscapedChar(c) + rest, '"')
         == match ParseBody(rest, '"') { case None => None case Some((v, after)) => Some(([c] + v, after)) }
    ensures HeaderCloses(EscapedChar(c) + rest, BasicKey(false)) == HeaderCloses(rest, BasicKey(false))
  {
    if |EscapedChar(c)| == 1 {
      assert ([c] + rest)[1..] == rest;
    } else {
      var d := EscapedChar(c)[1];
      assert EscapedChar(c) == ['\\', d];
      EscapedPair(d, rest);
      EscapeDecodes(c, rest);
      hide ParseBody, HeaderCloses, ParseEscape, EscapedChar;
    }
  }

  lemma EscapeDecodes(c: char, rest: string)
    requires |EscapedChar(c)| == 2
    ensures ParseEscape([EscapedChar(c)[1]] + rest) == Some((c, rest))
  {
    assert ([EscapedChar(c)[1]] + rest)[1..] == rest;
  }

  lemma EscapedPair(d: char, rest: string)
    ensures ParseBody(['\\', d] + rest, '"')
         == (var (c, s) :- ParseEscape([d] + rest); var (v, after) :- ParseBody(s, '"'); Some(([c] + v, after)))
    ensures HeaderCloses(['\\', d] + rest, BasicKey(false)) == HeaderCloses(rest, BasicKey(false))
  {
    var s := ['\\', d] + rest;
    assert s[1..] == [d] + rest;
    assert ([d] + rest)[1..] == rest;
  }

  lemma SkipNothing(s: string)
    requires s != [] && !(s[0] == ' ' || s[0] == '\t')
    ensures SkipSpace(s) == s
  {
  }

  lemma RenderedHeaderParses(path: string)
    ensures ParseProjectHeader(ProjectHeader(path)) == Some(path)
  {
    var quoted := EscapeString(path) + "\"" + "]";
    EscapedBodyParses(path, "]");
    var s3 := "\"" + quoted;
    var s2 := "." + s3;
    var s1 := "projects" + s2;
    assert ProjectHeader(path) == "[" + s1;
    hide EscapeString, ProjectHeader;
    assert TrimStart("[" + s1) == "[" + s1;
    hide TrimStart;
    SkipNothing(s1);
    SkipNothing(s2);
    SkipNothing(s3);
    SkipNothing("]");
    assert s3[0] == '"' && s3[1..] == quoted;
    StripPrefixOf("[", s1);
    StripPrefixOf("projects", s2);
    StripPrefixOf(".", s3);
    StripPrefixOf("]", "");
    assert "]" + "" == "]";
    assert SkipSpace("") == "";
    hide StripPrefix, SkipSpace, ParseBody;
    assert ParseString(s3) == Some((path, "]"));
  }

  lemma RenderedHeaderCloses(path: string)
    ensures IsTableHeader(ProjectHeader(path))
    ensures '\n' !in ProjectHeader(path) && ProjectHeader(path)[|ProjectHeader(path)| - 1] == ']'
  {
    var quoted := EscapeString(path) + "\"" + "]";
    var header := ProjectHeader(path);
    EscapedBodyParses(path, "]");
    assert header == "[" + ("projects." + "\"" + quoted);
    assert '\n' !in EscapeString(path);
    hide EscapeString, ProjectHeader;
    assert TrimStart(header) == header;
    assert header[1..] == "projects." + "\"" + quoted;
    PlainBeforeQuote("projects.", quoted);
    ClosingBracket();
    hide HeaderCloses;
  }

  /** The rendered header is one line that is a table header and parses back to the path. */
  lemma ProjectHeaderParses(path: string)
    ensures ParseProjectHeader(ProjectHeader(path)) == Some(path)
    ensures IsTableHeader(ProjectHeader(path))
    ensures '\n' !in ProjectHeader(path) && ProjectHeader(path)[|ProjectHeader(path)| - 1] == ']'
  {
    RenderedHeaderParses(path);
    RenderedHeaderCloses(path);
  }

  lemma ClosingBracket()
    ensures HeaderCloses("]", Bare)
  {
    assert "]"[1..] == [];
    assert Trim([]) == [];
  }

  predicate IsPlain(c: char) {
    c != '"' && c != '\'' && c != ']'
  }

  lemma {:induction false} PlainBeforeQuote(plain: string, quoted: string)
    requires forall c <- plain :: IsPlain(c)
    ensures HeaderCloses(plain + "\"" + quoted, Bare) == HeaderCloses(quoted, BasicKey(false))
    decreases plain
  {
    var s := plain + "\"" + quoted;
    if plain == [] {
      assert s[1..] == quoted;
    } else {
      assert s[1..] == plain[1..] + "\"" + quoted;
      assert plain[0] in plain;
      PlainBeforeQuote(plain[1..], quoted);
    }
  }

  lemma TrustLineShape()
    ensures TRUST_LINE == "trust_level" + (" " + ("=" + " \"trusted\""))
  {
  }

  lemma TrustLineCharacters()
    ensures '\n' !in TRUST_LINE && '\r' !in TRUST_LINE
    ensures TRUST_LINE != [] && TRUST_LINE[0] == 't' && TRUST_LINE[|TRUST_LINE| - 1] == '"'
  {
  }

  lemma TrustLineIsTrusted()
    ensures TrustLevel(TRUST_LINE) == Some("trusted")
  {
    var s3 := " \"trusted\"";
    var s2 := "=" + s3;
    var s1 := " " + s2;
    TrustLineShape();
    TrustLineCharacters();
    hide TRUST_LINE;
    TrimSolid(TRUST_LINE);
    StripPrefixOf("trust_level", s1);
    StripPrefixOf("=", s3);
    assert s1[1..] == s2 && TrimStart(s1) == s2;
    TrustedValue();
    hide Trim, TrimStart, StripPrefix, TrustValue;
  }

  lemma TrustedValue()
    ensures TrustValue(TrimStart(" \"trusted\"")) == Some(("trusted", ""))
    ensures Trim("") == []
  {
    var s4 := "\"trusted\"";
    assert " \"trusted\""[1..] == s4 && TrimStart(s4) == s4;
    SplitAt("trusted", '"', "");
    assert s4[1..] == "trusted" + ['"'] + "";
  }
}
