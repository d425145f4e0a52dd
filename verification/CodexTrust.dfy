/** Installing and removing the hook trust blocks of a TOML configuration, on platforms other
    than Windows. A block begins with a header that names its key and reaches up to the next table
    header; removal drops the blocks of some keys line by line, and an install appends new ones to
    what removal leaves, with a blank line in front of each. */
module CodexTrust {
  import opened Text

  const EVENT_LABELS := ["session_start", "user_prompt_submit", "pre_tool_use", "permission_request",
                         "post_tool_use", "subagent_start", "subagent_stop", "stop"]

  /** One trust block: its key, and the hash it records. */
  datatype Trust = Trust(key: string, hash: string)

  /** The JSON decoder of header keys, which is library code. */
  type Decoder = string -> Option<string>

  // ---- JSON string encoding, as the serializer writes it ----

  function HexDigit(n: nat): char
    requires n < 16
  {
    if n < 10 then '0' + n as char else 'a' + (n - 10) as char
  }

  function JsonChar(c: char): string {
    if c == '"' then "\\\""
    else if c == '\\' then "\\\\"
    else if c == '\n' then "\\n"
    else if c == '\r' then "\\r"
    else if c == '\t' then "\\t"
    else if c == '\U{0008}' then "\\b"
    else if c == '\U{000c}' then "\\f"
    else if c < ' ' then "\\u00" + [HexDigit(c as int / 16), HexDigit(c as int % 16)]
    else [c]
  }

  function JsonChars(s: string): string {
    if s == [] then [] else JsonChar(s[0]) + JsonChars(s[1..])
  }

  function JsonString(s: string): string {
    "\"" + JsonChars(s) + "\""
  }

  // ---- Lines ----

  /** The length of the first line, its line feed included. */
  function FirstLength(s: string): (n: nat)
    requires s != []
    ensures 0 < n <= |s|
  {
    if FindNewline(s) < |s| then FindNewline(s) + 1 else |s|
  }

  /** The lines of a text, each with its line feed. */
  function Lines(s: string): seq<string>
    decreases |s|
  {
    if s == [] then [] else [s[..FirstLength(s)]] + Lines(s[FirstLength(s)..])
  }

  function Unlines(lines: seq<string>): string {
    if lines == [] then [] else lines[0] + Unlines(lines[1..])
  }

  function TrimLineEnd(line: string): string {
    if line != [] && (line[|line| - 1] == '\r' || line[|line| - 1] == '\n') then TrimLineEnd(line[..|line| - 1]) else line
  }

  function StripSuffix(s: string, suffix: string): Option<string> {
    if EndsWith(s, suffix) then Some(s[..|s| - |suffix|]) else None
  }

  function HeaderKey(line: string, decode: Decoder): Option<string> {
    var rest :- StripPrefix(Trim(line), "[hooks.state.");
    var encoded :- StripSuffix(rest, "]");
    decode(encoded)
  }

  predicate IsTableHeader(line: string) {
    "[" <= TrimStart(line)
  }

  predicate IsKeyHeader(line: string, keys: seq<string>, decode: Decoder) {
    var key := HeaderKey(TrimLineEnd(line), decode);
    key.Some? && key.value in keys
  }

  // ---- Removal and installation ----

  /** The lines that stay: a block with one of the keys is dropped up to the next table header. */
  function Kept(lines: seq<string>, keys: seq<string>, decode: Decoder, dropping: bool): seq<string> {
    if lines == [] then []
    else if IsKeyHeader(lines[0], keys, decode) then Kept(lines[1..], keys, decode, true)
    else if dropping && !IsTableHeader(lines[0]) then Kept(lines[1..], keys, decode, true)
    else [lines[0]] + Kept(lines[1..], keys, decode, false)
  }

  function Removed(content: string, keys: seq<string>, decode: Decoder): string {
    Unlines(Kept(Lines(content), keys, decode, false))
  }

  function Header(key: string): string {
    "[hooks.state." + JsonString(key) + "]"
  }

  const ENABLED := "enabled = true"

  function HashLine(hash: string): string {
    "trusted_hash = \"" + hash + "\""
  }

  function Block(t: Trust): string {
    Header(t.key) + "\n" + ENABLED + "\n" + HashLine(t.hash) + "\n"
  }

  /** What separates a text from a block after it. */
  function Separator(text: string): string {
    if text == [] || EndsWith(text, "\n\n") then ""
    else if EndsWith(text, "\n") then "\n"
    else "\n\n"
  }

  function Append(text: string, trusts: seq<Trust>): string
    decreases trusts
  {
    if trusts == [] then text else Append(text + Separator(text) + Block(trusts[0]), trusts[1..])
  }

  function Keys(trusts: seq<Trust>): (keys: seq<string>)
    ensures |keys| == |trusts| && forall i :: 0 <= i < |trusts| ==> keys[i] == trusts[i].key
  {
    seq(|trusts|, i requires 0 <= i < |trusts| => trusts[i].key)
  }

  function Installed(existing: string, trusts: seq<Trust>, decode: Decoder): string {
    Append(Removed(existing, Keys(trusts), decode), trusts)
  }

  /** What the code relies on: header keys decode to what was encoded, hashes are one line. */
  predicate AreTrusts(trusts: seq<Trust>, decode: Decoder) {
    && trusts != []
    && forall t <- trusts :: decode(JsonString(t.key)) == Some(t.key) && '\n' !in t.hash
  }

  function TrustsFor(source: string, hash: string -> string): seq<Trust> {
    seq(8, i requires 0 <= i < 8 => Trust(source + ":" + EVENT_LABELS[i] + ":0:0", hash(EVENT_LABELS[i])))
  }

  // ---- The code ----

  method RemoveEntries(content: string, keys: seq<string>, decode: Decoder) returns (output: string)
    ensures output == Removed(content, keys, decode)
  {
    hide IsKeyHeader, IsTableHeader, Unlines, Lines;
    var lines := Lines(content);
    output := "";
    var index := 0;
    NothingYet(Unlines(Kept(lines, keys, decode, false)));
    assert lines[0..] == lines;
    while index < |lines|
      invariant 0 <= index <= |lines|
      invariant output + Unlines(Kept(lines[index..], keys, decode, false)) == Removed(content, keys, decode)
    {
      assert lines[index..][0] == lines[index] && lines[index..][1..] == lines[index + 1..];
      if IsKeyHeader(lines[index], keys, decode) {
        index := index + 1;
        while index < |lines| && !IsTableHeader(lines[index])
          invariant 0 < index <= |lines|
          invariant output + Unlines(Kept(lines[index..], keys, decode, true)) == Removed(content, keys, decode)
        {
          KeyHeaderIsHeader(lines[index], keys, decode);
          assert lines[index..][0] == lines[index] && lines[index..][1..] == lines[index + 1..];
          index := index + 1;
        }
        DroppingEnds(lines[index..], keys, decode);
        continue;
      }
      Moved(output, lines[index], Kept(lines[index + 1..], keys, decode, false));
      output := output + lines[index];
      index := index + 1;
    }
    NothingYet(output);
  }

  lemma NothingYet(s: string)
    ensures "" + s == s && s + "" == s && Unlines([]) == ""
  {
  }

  lemma Moved(output: string, line: string, rest: seq<string>)
    ensures output + Unlines([line] + rest) == output + line + Unlines(rest)
  {
    assert ([line] + rest)[1..] == rest;
  }

  lemma DroppingEnds(lines: seq<string>, keys: seq<string>, decode: Decoder)
    requires lines != [] ==> IsTableHeader(lines[0])
    ensures Kept(lines, keys, decode, true) == Kept(lines, keys, decode, false)
  {
  }

  lemma KeyHeaderIsHeader(line: string, keys: seq<string>, decode: Decoder)
    ensures IsKeyHeader(line, keys, decode) ==> IsTableHeader(line)
  {
    var core := TrimLineEnd(line);
    TrimStartOfPrefix(core, line);
    TrimIsPrefix(TrimStart(core));
  }

  method Install(existing: string, trusts: seq<Trust>, decode: Decoder) returns (updated: string)
    ensures updated == Installed(existing, trusts, decode)
  {
    updated := RemoveEntries(existing, Keys(trusts), decode);
    for i := 0 to |trusts|
      invariant Append(updated, trusts[i..]) == Installed(existing, trusts, decode)
    {
      ghost var before := updated;
      assert trusts[i..][0] == trusts[i] && trusts[i..][1..] == trusts[i + 1..];
      if updated != "" && !EndsWith(updated, "\n\n") {
        if !EndsWith(updated, "\n") {
          updated := updated + "\n";
        }
        updated := updated + "\n";
      }
      assert updated == before + Separator(before);
      updated := updated + Block(trusts[i]);
    }
  }

  // ---- Trimming ----

  lemma {:induction false} TrimEndIsPrefix(s: string)
    ensures TrimEnd(s) <= s
    decreases s
  {
    if s != [] && IsWhitespace(s[|s| - 1]) { TrimEndIsPrefix(s[..|s| - 1]); }
  }

  lemma TrimIsPrefix(s: string)
    ensures TrimEnd(s) <= s
  {
    TrimEndIsPrefix(s);
  }

  lemma {:induction false} TrimLineEndIsPrefix(s: string)
    ensures TrimLineEnd(s) <= s
    decreases s
  {
    if s != [] && (s[|s| - 1] == '\r' || s[|s| - 1] == '\n') { TrimLineEndIsPrefix(s[..|s| - 1]); }
  }

  lemma {:induction false} TrimStartPrefix(s: string, t: string)
    requires s <= t
    ensures TrimStart(s) != [] ==> TrimStart(s) <= TrimStart(t)
    decreases s
  {
    if s != [] && IsWhitespace(s[0]) {
      assert t[0] == s[0] && s[1..] <= t[1..];
      TrimStartPrefix(s[1..], t[1..]);
    }
  }

  lemma TrimStartOfPrefix(core: string, line: string)
    requires core == TrimLineEnd(line)
    ensures TrimStart(core) != [] ==> TrimStart(core) <= TrimStart(line)
  {
    TrimLineEndIsPrefix(line);
    TrimStartPrefix(core, line);
  }

  // ---- Lines of joined texts ----

  predicate IsClosed(text: string) {
    text == [] || EndsWith(text, "\n")
  }

  lemma FirstLine(line: string, rest: string)
    requires '\n' !in line
    ensures var s := line + "\n" + rest;
      FirstLength(s) == |line| + 1 && s[..|line| + 1] == line + "\n" && s[|line| + 1..] == rest
      && Lines(s) == [line + "\n"] + Lines(rest)
  {
    var s := line + "\n" + rest;
    assert s[..|line|] == line;
    FindNewlineIs(s, |line|);
  }

  /** Splitting goes piece by piece when the first piece is a number of whole lines. */
  lemma {:induction false} LinesConcat(a: string, b: string)
    requires IsClosed(a)
    ensures Lines(a + b) == Lines(a) + Lines(b)
    decreases |a|
  {
    if a == [] {
      assert a + b == b;
    } else {
      var n := FirstLength(a);
      ClosedHead(a, b);
      hide Lines, FirstLength, IsClosed;
      LinesConcat(a[n..], b);
      assert [a[..n]] + (Lines(a[n..]) + Lines(b)) == [a[..n]] + Lines(a[n..]) + Lines(b);
    }
  }

  /** The first line of a number of whole lines stays the first line whatever follows. */
  lemma ClosedHead(a: string, b: string)
    requires IsClosed(a) && a != []
    ensures var n := FirstLength(a);
      && IsClosed(a[n..]) && Lines(a) == [a[..n]] + Lines(a[n..])
      && Lines(a + b) == [a[..n]] + Lines(a[n..] + b)
  {
    hide FindNewline;
    var n := FirstLength(a);
    LineFeedIn(a);
    FindNewlineIs(a + b, n - 1) by {
      assert (a + b)[..n - 1] == a[..n - 1];
    }
    assert (a + b)[..n] == a[..n] && (a + b)[n..] == a[n..] + b;
    ClosedRest(a, n);
  }

  lemma LineFeedIn(a: string)
    requires IsClosed(a) && a != []
    ensures FindNewline(a) < |a|
  {
    var last := a[|a| - 1..];
    assert last == "\n" && last[0] == a[|a| - 1];
    assert a[..|a|] == a && a[|a| - 1] in a;
  }

  lemma ClosedRest(a: string, n: nat)
    requires IsClosed(a) && n <= |a|
    ensures IsClosed(a[n..])
  {
    if n < |a| { assert a[n..][|a[n..]| - 1..] == a[|a| - 1..]; }
  }

  lemma {:induction false} UnlinesConcat(a: seq<string>, b: seq<string>)
    ensures Unlines(a + b) == Unlines(a) + Unlines(b)
    decreases a
  {
    if a == [] {
      assert a + b == b;
    } else {
      assert (a + b)[1..] == a[1..] + b;
      UnlinesConcat(a[1..], b);
    }
  }

  /** A list of lines as splitting produces it: only the last may lack its line feed. */
  predicate AreLines(lines: seq<string>) {
    lines == [] || (lines[0] != [] && IsLine(lines[0])
                    && (lines[0][|lines[0]| - 1] == '\n' || |lines| == 1) && AreLines(lines[1..]))
  }

  lemma {:induction false} LinesAreLines(s: string)
    ensures AreLines(Lines(s)) && Unlines(Lines(s)) == s
    decreases |s|
  {
    if s != [] {
      var n := FirstLength(s);
      LinesAreLines(s[n..]);
      assert s[..n] + s[n..] == s;
      assert Lines(s)[1..] == Lines(s[n..]);
      assert s[..n][..n - 1] == s[..n - 1];
      if n < |s| {
        assert s[n - 1] == '\n';
      } else {
        assert s[n..] == [];
      }
      FirstLineClean(s);
    }
  }

  lemma FirstLineClean(s: string)
    requires s != []
    ensures '\n' !in s[..FirstLength(s) - 1]
  {
    var m := FindNewline(s);
    forall c | c in s[..FirstLength(s) - 1] ensures c in s[..m] {
    }
  }

  lemma {:induction false} LinesOfUnlines(lines: seq<string>)
    requires AreLines(lines)
    ensures Lines(Unlines(lines)) == lines
    decreases lines
  {
    if lines != [] {
      var line, n := lines[0], |lines[0]|;
      LinesOfUnlines(lines[1..]);
      if line[n - 1] == '\n' {
        assert line == line[..n - 1] + "\n";
        FirstLine(line[..n - 1], Unlines(lines[1..]));
        assert lines == [line] + lines[1..];
      } else {
        assert Unlines(lines) == line + [];
        assert line[..n] == line;
        LastLine(line);
      }
    }
  }

  lemma LastLine(line: string)
    requires line != [] && '\n' !in line[..|line| - 1] && line[|line| - 1] != '\n'
    ensures Lines(line) == [line]
  {
    OnlyLine(line);
    hide FindNewline;
    assert line[..|line|] == line && line[|line|..] == [];
    NoLines();
  }

  lemma OnlyLine(line: string)
    requires line != [] && '\n' !in line[..|line| - 1] && line[|line| - 1] != '\n'
    ensures FindNewline(line) == |line|
  {
    hide FindNewline;
    assert line == line[..|line| - 1] + [line[|line| - 1]];
    assert line[..|line|] == line;
    FindNewlineIs(line, |line|);
  }

  lemma {:induction false} KeptAreLines(lines: seq<string>, keys: seq<string>, decode: Decoder, dropping: bool)
    requires AreLines(lines)
    ensures AreLines(Kept(lines, keys, decode, dropping))
    ensures |Kept(lines, keys, decode, dropping)| <= |lines|
    decreases lines
  {
    if lines != [] {
      hide IsKeyHeader, IsTableHeader;
      KeptAreLines(lines[1..], keys, decode, true);
      KeptAreLines(lines[1..], keys, decode, false);
      LineAhead(lines[0], Kept(lines[1..], keys, decode, false));
    }
  }

  predicate IsLine(line: string) {
    line != [] && '\n' !in line[..|line| - 1]
  }

  lemma LineAhead(line: string, kept: seq<string>)
    requires line != [] && IsLine(line) && (line[|line| - 1] == '\n' || kept == []) && AreLines(kept)
    ensures AreLines([line] + kept)
  {
    hide IsLine;
    assert ([line] + kept)[1..] == kept && ([line] + kept)[0] == line;
  }

  // ---- What removal leaves ----

  predicate HasNoKey(lines: seq<string>, keys: seq<string>, decode: Decoder) {
    forall line <- lines :: !IsKeyHeader(line, keys, decode)
  }

  lemma {:induction false} KeptHasNoKey(lines: seq<string>, keys: seq<string>, decode: Decoder, dropping: bool)
    ensures HasNoKey(Kept(lines, keys, decode, dropping), keys, decode)
    decreases lines
  {
    if lines != [] {
      KeptHasNoKey(lines[1..], keys, decode, true);
      KeptHasNoKey(lines[1..], keys, decode, false);
    }
  }

  lemma {:induction false} KeptWithoutKey(lines: seq<string>, rest: seq<string>, keys: seq<string>, decode: Decoder)
    requires HasNoKey(lines, keys, decode)
    ensures Kept(lines + rest, keys, decode, false) == lines + Kept(rest, keys, decode, false)
    decreases lines
  {
    if lines == [] {
      assert lines + rest == rest;
    } else {
      hide IsKeyHeader, IsTableHeader;
      assert lines[0] in lines && forall l <- lines[1..] :: l in lines;
      KeptWithoutKey(lines[1..], rest, keys, decode);
      KeptHead(lines[0], lines[1..] + rest, keys, decode);
      HeadTail(lines, rest, Kept(rest, keys, decode, false));
    }
  }

  lemma KeptHead(line: string, rest: seq<string>, keys: seq<string>, decode: Decoder)
    requires !IsKeyHeader(line, keys, decode)
    ensures Kept([line] + rest, keys, decode, false) == [line] + Kept(rest, keys, decode, false)
  {
    assert ([line] + rest)[1..] == rest;
  }

  lemma HeadTail(lines: seq<string>, rest: seq<string>, kept: seq<string>)
    requires lines != []
    ensures lines + rest == [lines[0]] + (lines[1..] + rest) && [lines[0]] + (lines[1..] + kept) == lines + kept
  {
  }

  /** Whether every line is dropped once a block has begun. */
  predicate IsBlockLine(line: string, keys: seq<string>, decode: Decoder) {
    IsKeyHeader(line, keys, decode) || !IsTableHeader(line)
  }

  lemma {:induction false} BlockLinesDropped(lines: seq<string>, keys: seq<string>, decode: Decoder)
    requires forall line <- lines :: IsBlockLine(line, keys, decode)
    ensures Kept(lines, keys, decode, true) == []
    decreases lines
  {
    if lines != [] {
      assert lines[0] in lines && forall l <- lines[1..] :: l in lines;
      BlockLinesDropped(lines[1..], keys, decode);
    }
  }

  // ---- The lines of the blocks ----

  lemma {:induction false} JsonHasNoLineFeed(s: string)
    ensures '\n' !in JsonChars(s)
    decreases s
  {
    if s != [] {
      JsonHasNoLineFeed(s[1..]);
      JsonCharHasNoLineFeed(s[0]);
    }
  }

  lemma JsonCharHasNoLineFeed(c: char)
    ensures '\n' !in JsonChar(c)
  {
  }

  lemma HeaderReads(key: string, decode: Decoder)
    requires decode(JsonString(key)) == Some(key)
    ensures HeaderKey(TrimLineEnd(Header(key) + "\n"), decode) == Some(key)
    ensures '\n' !in Header(key)
  {
    JsonHasNoLineFeed(key);
    assert '\n' !in Header(key);
    var header, encoded := Header(key), JsonString(key);
    hide JsonString, Header;
    assert header == "[hooks.state." + (encoded + "]") by { HeaderShape(key); }
    assert (header + "\n")[..|header|] == header && header[|header| - 1] == ']';
    assert TrimLineEnd(header) == header;
    assert TrimLineEnd(header + "\n") == header;
    TrimSolid(header);
    StripPrefixOf("[hooks.state.", encoded + "]");
    StripSuffixOf(encoded, "]");
    hide TrimLineEnd, StripPrefix, StripSuffix, Trim;
  }

  lemma HeaderShape(key: string)
    ensures Header(key) == "[hooks.state." + (JsonString(key) + "]")
  {
  }

  lemma StripSuffixOf(s: string, suffix: string)
    ensures StripSuffix(s + suffix, suffix) == Some(s)
  {
    var t := s + suffix;
    assert t[|t| - |suffix|..] == suffix && t[..|t| - |suffix|] == s;
  }

  lemma BlockLines(t: Trust, decode: Decoder)
    requires decode(JsonString(t.key)) == Some(t.key) && '\n' !in t.hash
    ensures Lines(Block(t)) == [Header(t.key) + "\n", ENABLED + "\n", HashLine(t.hash) + "\n"]
    ensures IsClosed(Block(t)) && Block(t) != [] && !EndsWith(Block(t), "\n\n")
  {
    HeaderReads(t.key, decode);
    HashLineEnds(t.hash);
    assert '\n' !in ENABLED;
    hide Header, HashLine, HeaderKey, TrimLineEnd, ENABLED, Lines, FirstLength, EndsWith;
    var h, e, l := Header(t.key), ENABLED, HashLine(t.hash);
    JoinThree(h, e, l);
    ThreeLines(h, e, l);
    LastTwo(h + "\n" + e + "\n", l);
  }

  lemma ThreeLines(h: string, e: string, l: string)
    requires '\n' !in h && '\n' !in e && '\n' !in l
    ensures Lines(h + "\n" + (e + "\n" + (l + "\n" + ""))) == [h + "\n", e + "\n", l + "\n"]
  {
    NoLines();
    hide Lines, FirstLength;
    FirstLine(h, e + "\n" + (l + "\n" + ""));
    FirstLine(e, l + "\n" + "");
    FirstLine(l, "");
  }

  lemma NoLines()
    ensures Lines([]) == []
  {
  }

  lemma HashLineEnds(hash: string)
    requires '\n' !in hash
    ensures var l := HashLine(hash); '\n' !in l && l != [] && l[|l| - 1] == '"'
  {
  }

  lemma JoinThree(h: string, e: string, l: string)
    ensures h + "\n" + e + "\n" + l + "\n" == h + "\n" + (e + "\n" + (l + "\n" + ""))
    ensures h + "\n" + e + "\n" + l + "\n" == h + "\n" + e + "\n" + (l + "\n")
  {
    var x, y := h + "\n", e + "\n";
    assert l + "\n" + "" == l + "\n";
    Assoc(x, e, "\n");
    Assoc(x + y, l, "\n");
    Assoc(x, y, l + "\n");
  }

  lemma LastTwo(front: string, line: string)
    requires line != [] && line[|line| - 1] == '"'
    ensures EndsWith(front + (line + "\n"), "\n") && !EndsWith(front + (line + "\n"), "\n\n")
  {
    var s := front + (line + "\n");
    assert s[|s| - 1..] == "\n" && s[|s| - 2] == '"';
    assert s[|s| - 2..][0] == s[|s| - 2];
  }

  /** All blocks, a blank line between each two. */
  function Blocks(trusts: seq<Trust>): string {
    if trusts == [] then ""
    else if |trusts| == 1 then Block(trusts[0])
    else Block(trusts[0]) + ("\n" + Blocks(trusts[1..]))
  }

  lemma {:induction false} AppendIsBlocks(text: string, trusts: seq<Trust>, decode: Decoder)
    requires AreTrusts(trusts, decode)
    ensures Append(text, trusts) == text + Separator(text) + Blocks(trusts)
    decreases trusts
  {
    var t := trusts[0];
    BlockLines(t, decode);
    if |trusts| == 1 {
      assert trusts[1..] == [];
    } else {
      TrustsTail(trusts, decode);
      var first := text + Separator(text) + Block(t);
      AppendIsBlocks(first, trusts[1..], decode);
      SeparatorAfterBlock(text + Separator(text), Block(t));
      hide Block, Append, Separator;
      Assoc(text + Separator(text), Block(t), "\n" + Blocks(trusts[1..]));
      Assoc(first, "\n", Blocks(trusts[1..]));
    }
  }

  lemma TrustsTail(trusts: seq<Trust>, decode: Decoder)
    requires AreTrusts(trusts, decode) && |trusts| > 1
    ensures AreTrusts(trusts[1..], decode)
  {
  }

  lemma SeparatorAfterBlock(front: string, block: string)
    requires block != [] && IsClosed(block) && !EndsWith(block, "\n\n") && |block| > 1
    ensures Separator(front + block) == "\n"
  {
    var s := front + block;
    assert s[|s| - 1..] == block[|block| - 1..] && s[|s| - 2..] == block[|block| - 2..];
  }

  function CountKey(lines: seq<string>, key: string, decode: Decoder): nat {
    if lines == [] then 0
    else (if HeaderKey(TrimLineEnd(lines[0]), decode) == Some(key) then 1 else 0) + CountKey(lines[1..], key, decode)
  }

  lemma {:induction false} CountConcat(a: seq<string>, b: seq<string>, key: string, decode: Decoder)
    ensures CountKey(a + b, key, decode) == CountKey(a, key, decode) + CountKey(b, key, decode)
    decreases a
  {
    if a == [] {
      assert a + b == b;
    } else {
      assert (a + b)[1..] == a[1..] + b;
      CountConcat(a[1..], b, key, decode);
    }
  }

  /** A line that is not a table header carries no key. */
  lemma PlainLine(line: string, keys: seq<string>, decode: Decoder)
    requires !IsTableHeader(line)
    ensures !IsKeyHeader(line, keys, decode) && HeaderKey(TrimLineEnd(line), decode) == None
  {
    var core := TrimLineEnd(line);
    TrimStartOfPrefix(core, line);
    TrimEndIsPrefix(TrimStart(core));
  }

  lemma BlockRest(t: Trust)
    ensures !IsTableHeader(ENABLED + "\n") && !IsTableHeader(HashLine(t.hash) + "\n") && !IsTableHeader("\n")
  {
    assert (ENABLED + "\n")[0] == 'e' && (HashLine(t.hash) + "\n")[0] == 't';
    assert "\n"[1..] == "" && TrimStart("\n") == "";
  }

  /** The lines of the blocks: all of them are dropped as blocks, and each key heads one of them. */
  lemma {:induction false} BlocksLines(trusts: seq<Trust>, keys: seq<string>, decode: Decoder)
    requires AreTrusts(trusts, decode) && forall t <- trusts :: t.key in keys
    ensures IsClosed(Blocks(trusts)) && Lines(Blocks(trusts)) != []
    ensures IsKeyHeader(Lines(Blocks(trusts))[0], keys, decode)
    ensures forall line <- Lines(Blocks(trusts)) :: IsBlockLine(line, keys, decode)
    ensures forall key :: CountKey(Lines(Blocks(trusts)), key, decode) == CountOf(trusts, key)
    decreases trusts
  {
    var t := trusts[0];
    assert t in trusts;
    BlockLines(t, decode);
    HeaderReads(t.key, decode);
    BlockRest(t);
    var lines := [Header(t.key) + "\n", ENABLED + "\n", HashLine(t.hash) + "\n"];
    OneBlock(t, lines, keys, decode);
    if |trusts| == 1 {
      assert trusts[1..] == [];
    } else {
      TrustsTail(trusts, decode);
      BlocksLines(trusts[1..], keys, decode);
      hide Block, Header, HashLine, ENABLED, IsTableHeader, HeaderKey;
      MoreBlocks(trusts, lines, keys, decode);
    }
  }

  function CountOf(trusts: seq<Trust>, key: string): nat {
    if trusts == [] then 0 else (if trusts[0].key == key then 1 else 0) + CountOf(trusts[1..], key)
  }

  lemma OneBlock(t: Trust, lines: seq<string>, keys: seq<string>, decode: Decoder)
    requires lines == [Header(t.key) + "\n", ENABLED + "\n", HashLine(t.hash) + "\n"] && t.key in keys
    requires HeaderKey(TrimLineEnd(Header(t.key) + "\n"), decode) == Some(t.key)
    requires !IsTableHeader(ENABLED + "\n") && !IsTableHeader(HashLine(t.hash) + "\n")
    ensures IsKeyHeader(lines[0], keys, decode) && forall line <- lines :: IsBlockLine(line, keys, decode)
    ensures forall key :: CountKey(lines, key, decode) == if key == t.key then 1 else 0
  {
    PlainLine(lines[1], keys, decode);
    PlainLine(lines[2], keys, decode);
    hide Header, HashLine, ENABLED, IsTableHeader, HeaderKey, TrimLineEnd;
    forall key ensures CountKey(lines, key, decode) == if key == t.key then 1 else 0 {
      CountThree(lines[0], lines[1], lines[2], key, decode);
    }
  }

  lemma CountThree(a: string, b: string, c: string, key: string, decode: Decoder)
    requires HeaderKey(TrimLineEnd(b), decode) == None && HeaderKey(TrimLineEnd(c), decode) == None
    ensures CountKey([a, b, c], key, decode) == if HeaderKey(TrimLineEnd(a), decode) == Some(key) then 1 else 0
  {
    hide HeaderKey, TrimLineEnd;
    assert [a, b, c][1..] == [b, c] && [b, c][1..] == [c];
    CountPlain(c, key, decode);
    assert CountKey([b, c], key, decode) == CountKey([c], key, decode);
  }

  lemma MoreBlocks(trusts: seq<Trust>, lines: seq<string>, keys: seq<string>, decode: Decoder)
    requires |trusts| > 1 && lines != []
    requires IsClosed(Block(trusts[0])) && Lines(Block(trusts[0])) == lines
    requires IsKeyHeader(lines[0], keys, decode) && forall line <- lines :: IsBlockLine(line, keys, decode)
    requires forall key :: CountKey(lines, key, decode) == if key == trusts[0].key then 1 else 0
    requires var rest := Lines(Blocks(trusts[1..]));
      && IsClosed(Blocks(trusts[1..])) && (forall line <- rest :: IsBlockLine(line, keys, decode))
      && forall key :: CountKey(rest, key, decode) == CountOf(trusts[1..], key)
    ensures IsClosed(Blocks(trusts)) && Lines(Blocks(trusts)) == lines + (["\n"] + Lines(Blocks(trusts[1..])))
    ensures forall line <- Lines(Blocks(trusts)) :: IsBlockLine(line, keys, decode)
    ensures forall key :: CountKey(Lines(Blocks(trusts)), key, decode) == CountOf(trusts, key)
  {
    hide Block, IsKeyHeader, IsTableHeader, HeaderKey;
    var block, more := Block(trusts[0]), Blocks(trusts[1..]);
    var rest := Lines(more);
    BlankLine(more, keys, decode);
    LinesConcat(block, "\n" + more);
    ClosedConcat(block, "\n" + more);
    forall key ensures CountKey(lines + (["\n"] + rest), key, decode) == CountOf(trusts, key) {
      CountConcat(lines, ["\n"] + rest, key, decode);
      CountConcat(["\n"], rest, key, decode);
    }
  }

  lemma BlankLine(more: string, keys: seq<string>, decode: Decoder)
    ensures Lines("\n" + more) == ["\n"] + Lines(more) && IsBlockLine("\n", keys, decode)
    ensures IsClosed(more) ==> IsClosed("\n" + more)
    ensures forall key :: CountKey(["\n"], key, decode) == 0
  {
    BlankIsPlain();
    PlainLine("\n", keys, decode);
    LineFeedIsClosed();
    hide IsTableHeader, HeaderKey, TrimLineEnd, IsClosed, Lines, FirstLength;
    assert "" + "\n" + more == "\n" + more && "" + "\n" == "\n";
    FirstLine("", more);
    if IsClosed(more) { ClosedConcat("\n", more); }
    forall key ensures CountKey(["\n"], key, decode) == 0 {
      CountPlain("\n", key, decode);
    }
  }

  lemma LineFeedIsClosed()
    ensures IsClosed("\n")
  {
    assert "\n"[0..] == "\n";
  }

  lemma CountPlain(line: string, key: string, decode: Decoder)
    requires HeaderKey(TrimLineEnd(line), decode) == None
    ensures CountKey([line], key, decode) == 0
  {
    assert [line][1..] == [];
  }

  lemma ClosedConcat(a: string, b: string)
    requires IsClosed(a) && IsClosed(b)
    ensures IsClosed(a + b)
  {
    if b == [] {
      assert a + b == a;
    } else {
      assert (a + b)[|a + b| - 1..] == b[|b| - 1..];
    }
  }

  // ---- Installing ----

  /** A text without key blocks, closed by a blank line, followed by the blocks: a fixed point. */
  lemma FixedForm(front: string, trusts: seq<Trust>, decode: Decoder)
    requires AreTrusts(trusts, decode) && HasNoKey(Lines(front), Keys(trusts), decode)
    requires front == [] || EndsWith(front, "\n\n")
    ensures Removed(front + Blocks(trusts), Keys(trusts), decode) == front
    ensures Installed(front + Blocks(trusts), trusts, decode) == front + Blocks(trusts)
  {
    var keys := Keys(trusts);
    KeysHold(trusts);
    BlocksLines(trusts, keys, decode);
    BlankIsClosed(front);
    hide Blocks, IsBlockLine, IsKeyHeader, EndsWith, Keys;
    LinesConcat(front, Blocks(trusts));
    KeptWithoutKey(Lines(front), Lines(Blocks(trusts)), keys, decode);
    BlocksDropped(Lines(Blocks(trusts)), keys, decode);
    LinesAreLines(front);
    assert Lines(front) + [] == Lines(front);
    AppendIsBlocks(front, trusts, decode);
    assert front + "" == front;
  }

  lemma KeysHold(trusts: seq<Trust>)
    ensures forall t <- trusts :: t.key in Keys(trusts)
    ensures forall key <- Keys(trusts) :: exists t :: t in trusts && t.key == key
  {
    forall t <- trusts ensures t.key in Keys(trusts) {
      var i :| 0 <= i < |trusts| && trusts[i] == t;
      assert Keys(trusts)[i] == t.key;
    }
  }

  lemma BlankIsClosed(front: string)
    requires front == [] || EndsWith(front, "\n\n")
    ensures IsClosed(front)
  {
    if front != [] { assert front[|front| - 1..] == front[|front| - 2..][1..] == "\n"; }
  }

  lemma BlocksDropped(lines: seq<string>, keys: seq<string>, decode: Decoder)
    requires lines != [] && IsKeyHeader(lines[0], keys, decode)
    requires forall line <- lines :: IsBlockLine(line, keys, decode)
    ensures Kept(lines, keys, decode, false) == []
  {
    hide IsBlockLine, IsKeyHeader;
    assert forall l <- lines[1..] :: l in lines;
    BlockLinesDropped(lines[1..], keys, decode);
  }

  /** What a separator makes of a text: closed by a blank line, with the same lines but for the
      line break of the last one. */
  lemma SeparatedLines(text: string, keys: seq<string>, decode: Decoder)
    requires HasNoKey(Lines(text), keys, decode)
    ensures var s := text + Separator(text); s == [] || EndsWith(s, "\n\n")
    ensures HasNoKey(Lines(text + Separator(text)), keys, decode)
  {
    BlankLine("", keys, decode);
    NoLines();
    assert "\n" + "" == "\n" && ["\n"] + [] == ["\n"];
    BlankHasNoKey(keys, decode);
    hide IsKeyHeader;
    if text == [] || EndsWith(text, "\n\n") {
      assert text + "" == text;
    } else if EndsWith(text, "\n") {
      EndsTwice(text, "\n", "\n");
      LinesConcat(text, "\n");
    } else {
      OpenTextClosed(text, keys, decode);
    }
  }

  lemma BlankHasNoKey(keys: seq<string>, decode: Decoder)
    ensures !IsKeyHeader("\n", keys, decode)
  {
    BlankLine("", keys, decode);
    BlankIsPlain();
    PlainLine("\n", keys, decode);
  }

  lemma BlankIsPlain()
    ensures !IsTableHeader("\n")
  {
    BlockRest(Trust("", ""));
  }

  lemma EndsTwice(text: string, a: string, b: string)
    requires EndsWith(text, a)
    ensures EndsWith(text + b, a + b)
  {
    assert (text + b)[|text + b| - |a + b|..] == text[|text| - |a|..] + b;
  }

  lemma OpenTextClosed(text: string, keys: seq<string>, decode: Decoder)
    requires text != [] && !EndsWith(text, "\n") && HasNoKey(Lines(text), keys, decode)
    requires !IsKeyHeader("\n", keys, decode)
    ensures EndsWith(text + "\n\n", "\n\n") && HasNoKey(Lines(text + "\n\n"), keys, decode)
  {
    var closed := text + "\n";
    assert text + "\n\n" == closed + "\n";
    assert closed[|closed| - 1..] == "\n";
    assert "\n\n" == "\n" + "\n";
    EndsTwice(closed, "\n", "\n");
    BlankLine("", keys, decode);
    NoLines();
    assert "\n" + "" == "\n" && ["\n"] + [] == ["\n"];
    LinesConcat(closed, "\n");
    ClosingKeepsKeys(text, keys, decode);
    hide IsKeyHeader, Lines;
  }

  lemma {:induction false} ClosingKeepsKeys(text: string, keys: seq<string>, decode: Decoder)
    requires text != [] && !EndsWith(text, "\n") && HasNoKey(Lines(text), keys, decode)
    ensures HasNoKey(Lines(text + "\n"), keys, decode)
    decreases |text|
  {
    hide IsKeyHeader, Lines, FirstLength, FindNewline;
    var n := FindNewline(text);
    if n < |text| {
      var line, rest := text[..n], text[n + 1..];
      OpenRest(text, line, rest);
      FirstLine(line, rest);
      FirstLine(line, rest + "\n");
      assert Lines(text)[1..] == Lines(rest);
      assert forall l <- Lines(rest) :: l in Lines(text)[1..] && l in Lines(text);
      assert Lines(text)[0] == line + "\n";
      ClosingKeepsKeys(rest, keys, decode);
    } else {
      assert text[..n] == text;
      OneOpenLine(text, keys, decode);
    }
  }

  lemma OpenRest(text: string, line: string, rest: string)
    requires text == line + "\n" + rest && !EndsWith(text, "\n")
    ensures rest != [] && !EndsWith(rest, "\n") && text + "\n" == line + "\n" + (rest + "\n")
  {
    assert text[|text| - 1..] == (if rest == [] then "\n" else rest[|rest| - 1..]);
  }

  lemma OneOpenLine(text: string, keys: seq<string>, decode: Decoder)
    requires text != [] && '\n' !in text && HasNoKey(Lines(text), keys, decode)
    ensures HasNoKey(Lines(text + "\n"), keys, decode)
  {
    assert forall c <- text[..|text| - 1] :: c in text;
    assert text[|text| - 1] in text;
    LastLine(text);
    NoLines();
    TrimLineEndTwice(text);
    hide Lines, FirstLength, TrimLineEnd, HeaderKey;
    assert text + "\n" + "" == text + "\n" && [text + "\n"] + [] == [text + "\n"];
    FirstLine(text, "");
    assert text in Lines(text);
  }

  lemma TrimLineEndTwice(text: string)
    ensures TrimLineEnd(text + "\n") == TrimLineEnd(text)
  {
    assert (text + "\n")[..|text|] == text;
  }

  /** Installing is a fixed point after one step, and removing afterwards gives the plain removal
      back, up to the line breaks that separated it from the blocks. */
  lemma InstallIsFixed(existing: string, trusts: seq<Trust>, decode: Decoder)
    requires AreTrusts(trusts, decode)
    ensures var once := Installed(existing, trusts, decode);
      var plain := Removed(existing, Keys(trusts), decode);
      && Installed(once, trusts, decode) == once
      && Removed(once, Keys(trusts), decode) == plain + Separator(plain)
  {
    var keys := Keys(trusts);
    var plain := Removed(existing, keys, decode);
    PlainHasNoKey(existing, keys, decode);
    SeparatedLines(plain, keys, decode);
    AppendIsBlocks(plain, trusts, decode);
    FixedForm(plain + Separator(plain), trusts, decode);
  }

  lemma PlainHasNoKey(existing: string, keys: seq<string>, decode: Decoder)
    ensures Lines(Removed(existing, keys, decode)) == Kept(Lines(existing), keys, decode, false)
    ensures HasNoKey(Lines(Removed(existing, keys, decode)), keys, decode)
  {
    LinesAreLines(existing);
    KeptAreLines(Lines(existing), keys, decode, false);
    LinesOfUnlines(Kept(Lines(existing), keys, decode, false));
    KeptHasNoKey(Lines(existing), keys, decode, false);
  }

  /** Removing is idempotent, and takes away every line that carries one of the keys. */
  lemma RemoveIsIdempotent(existing: string, keys: seq<string>, decode: Decoder)
    ensures Removed(Removed(existing, keys, decode), keys, decode) == Removed(existing, keys, decode)
    ensures HasNoKey(Lines(Removed(existing, keys, decode)), keys, decode)
  {
    PlainHasNoKey(existing, keys, decode);
    var lines := Kept(Lines(existing), keys, decode, false);
    KeptWithoutKey(lines, [], keys, decode);
    assert lines + [] == lines;
  }

  /** After an install each of the distinct keys heads exactly one block. */
  lemma OneBlockPerKey(existing: string, trusts: seq<Trust>, decode: Decoder, key: string)
    requires AreTrusts(trusts, decode)
    requires forall i, j :: 0 <= i < j < |trusts| ==> trusts[i].key != trusts[j].key
    requires key in Keys(trusts)
    ensures CountKey(Lines(Installed(existing, trusts, decode)), key, decode) == 1
  {
    var keys := Keys(trusts);
    var plain := Removed(existing, keys, decode);
    var front := plain + Separator(plain);
    PlainHasNoKey(existing, keys, decode);
    SeparatedLines(plain, keys, decode);
    AppendIsBlocks(plain, trusts, decode);
    KeysHold(trusts);
    BlocksLines(trusts, keys, decode);
    BlankIsClosed(front);
    LinesConcat(front, Blocks(trusts));
    CountConcat(Lines(front), Lines(Blocks(trusts)), key, decode);
    CountNone(Lines(front), keys, key, decode);
    CountOfDistinct(trusts, key);
  }

  lemma {:induction false} CountNone(lines: seq<string>, keys: seq<string>, key: string, decode: Decoder)
    requires HasNoKey(lines, keys, decode) && key in keys
    ensures CountKey(lines, key, decode) == 0
    decreases lines
  {
    if lines != [] {
      assert lines[0] in lines && forall l <- lines[1..] :: l in lines;
      CountNone(lines[1..], keys, key, decode);
    }
  }

  lemma {:induction false} CountOfDistinct(trusts: seq<Trust>, key: string)
    requires forall i, j :: 0 <= i < j < |trusts| ==> trusts[i].key != trusts[j].key
    ensures CountOf(trusts, key) == if key in Keys(trusts) then 1 else 0
    decreases trusts
  {
    if trusts != [] {
      FirstKey(trusts, key);
      hide Keys;
      CountOfDistinct(trusts[1..], key);
    }
  }

  lemma FirstKey(trusts: seq<Trust>, key: string)
    requires trusts != [] && forall i, j :: 0 <= i < j < |trusts| ==> trusts[i].key != trusts[j].key
    ensures key in Keys(trusts) <==> key == trusts[0].key || key in Keys(trusts[1..])
    ensures trusts[0].key !in Keys(trusts[1..])
  {
    assert Keys(trusts) == [trusts[0].key] + Keys(trusts[1..]);
    assert forall i :: 0 <= i < |trusts| - 1 ==> Keys(trusts[1..])[i] == trusts[i + 1].key;
  }

  /** The eight trusts of a hook file have distinct keys. */
  lemma TrustsAreDistinct(source: string, hash: string -> string)
    ensures forall i, j :: 0 <= i < j < 8 ==> TrustsFor(source, hash)[i].key != TrustsFor(source, hash)[j].key
  {
    forall i, j | 0 <= i < j < 8 ensures TrustsFor(source, hash)[i].key != TrustsFor(source, hash)[j].key {
      var a, b := EVENT_LABELS[i], EVENT_LABELS[j];
      LabelsDiffer(i, j);
      InfixInjective(source + ":", a, b, ":0:0");
    }
  }

  lemma InfixInjective(p: string, a: string, b: string, s: string)
    ensures p + a + s == p + b + s ==> a == b
  {
    var x, y := p + a + s, p + b + s;
    assert |x| == |y| ==> |a| == |b|;
    assert x[|p|..|p| + |a|] == a && y[|p|..|p| + |b|] == b;
  }

  lemma LabelsDiffer(i: nat, j: nat)
    requires i < j < 8
    ensures EVENT_LABELS[i] != EVENT_LABELS[j]
  {
    assert EVENT_LABELS[0][0..2] == "se" && EVENT_LABELS[1][0..2] == "us" && EVENT_LABELS[2][0..2] == "pr";
    assert EVENT_LABELS[3][0..2] == "pe" && EVENT_LABELS[4][0..2] == "po" && EVENT_LABELS[5][0..2] == "su";
    assert |EVENT_LABELS[5]| == 14 && |EVENT_LABELS[6]| == 13 && EVENT_LABELS[7][0..2] == "st";
  }
}
