/** Installing the trust blocks into a file, whose text may stand behind a byte order mark. */
module CodexTrustFile {
  import opened Text
  import opened CodexTrust

  const BOM := '\U{feff}'

  /** The text of a file: one byte order mark in front is not part of it. */
  function FileText(file: string): string {
    if file != [] && file[0] == BOM then file[1..] else file
  }

  /** The file after an install, which writes only when the text changes. */
  function InstalledFile(file: string, trusts: seq<Trust>, decode: Decoder): string {
    var updated := Installed(FileText(file), trusts, decode);
    if updated != FileText(file) then updated else file
  }

  function FirstText(s: string): string {
    s[..FindNewline(s)]
  }

  /** Two byte order marks, and right behind them the header of a trust block. */
  predicate MarkHidesKey(file: string, keys: seq<string>, decode: Decoder) {
    |file| >= 2 && file[0] == BOM && file[1] == BOM && IsKeyHeader(FirstText(file[2..]), keys, decode)
  }

  // ---- First lines ----

  lemma {:induction false} TrimLineEndOfLine(s: string)
    requires s != []
    ensures TrimLineEnd(Lines(s)[0]) == TrimLineEnd(FirstText(s))
  {
    var n := FindNewline(s);
    if n < |s| {
      assert s[..n + 1][..n] == s[..n];
    }
  }

  lemma FirstTextMarked(s: string)
    ensures FirstText([BOM] + s) == [BOM] + FirstText(s)
  {
    var n := FindNewline(s);
    var t := [BOM] + s;
    assert t[..n + 1] == [BOM] + s[..n];
    FindNewlineIs(t, n + 1);
  }

  lemma FirstTextSeparated(plain: string)
    requires plain != []
    ensures FirstText(plain + Separator(plain)) == FirstText(plain)
  {
    var n := FindNewline(plain);
    var s := plain + Separator(plain);
    assert s[..n] == plain[..n];
    assert plain[..|plain|] == plain && plain[|plain| - 1] in plain;
    assert plain[|plain| - 1..] == [plain[|plain| - 1]];
    FindNewlineIs(s, n);
  }

  /** Putting a mark in front of a text changes its first line only. */
  lemma LinesMarked(s: string)
    requires s != []
    ensures Lines([BOM] + s) == [[BOM] + Lines(s)[0]] + Lines(s)[1..]
  {
    var n := FindNewline(s);
    var t := [BOM] + s;
    assert t[..n + 1] == [BOM] + s[..n];
    FindNewlineIs(t, n + 1);
    var k := FirstLength(s);
    assert t[..k + 1] == [BOM] + s[..k] && t[k + 1..] == s[k..];
  }

  lemma MarkedIsNoHeader(line: string, keys: seq<string>, decode: Decoder)
    requires line != [] && line[0] == BOM
    ensures !IsTableHeader(line) && !IsKeyHeader(line, keys, decode)
  {
    PlainLine(line, keys, decode);
  }

  // ---- A marked text and its removal ----

  lemma {:induction false} KeptBegins(lines: seq<string>, keys: seq<string>, decode: Decoder)
    ensures var kept := Kept(lines, keys, decode, true); kept != [] ==> IsTableHeader(kept[0])
    decreases lines
  {
    if lines != [] {
      hide IsKeyHeader, IsTableHeader;
      KeptBegins(lines[1..], keys, decode);
    }
  }

  /** Removal keeps a first line that begins with a mark, and brings no such line to the front. */
  lemma RemovedKeepsMark(text: string, keys: seq<string>, decode: Decoder)
    ensures var plain := Removed(text, keys, decode);
      && (plain != [] && plain[0] == BOM <==> text != [] && text[0] == BOM)
      && (text != [] && text[0] == BOM ==> FirstText(plain) == FirstText(text))
  {
    if text != [] {
      var lines := Lines(text);
      var kept := Kept(lines, keys, decode, false);
      var plain := Removed(text, keys, decode);
      LinesAreLines(text);
      KeptAreLines(lines, keys, decode, false);
      LinesOfUnlines(kept);
      KeptBegins(lines[1..], keys, decode);
      assert lines[0][0] == text[0];
      if text[0] == BOM {
        MarkedIsNoHeader(lines[0], keys, decode);
        hide Lines, IsTableHeader, IsKeyHeader;
        FirstOfUnlines(kept);
        assert plain[0] == BOM;
        SameFirst(text, plain, lines[0]);
      } else if plain != [] && plain[0] == BOM {
        FirstOfUnlines(kept);
        MarkedIsNoHeader(kept[0], keys, decode);
        assert false;
      }
    }
  }

  lemma FirstOfUnlines(lines: seq<string>)
    requires AreLines(lines)
    ensures lines != [] <==> Unlines(lines) != []
    ensures lines != [] ==> lines[0] != [] && Unlines(lines)[0] == lines[0][0]
  {
  }

  lemma SameFirst(a: string, b: string, line: string)
    requires a != [] && b != [] && Lines(a)[0] == line == Lines(b)[0]
    ensures FirstText(a) == FirstText(b)
  {
    FirstTextOf(a);
    FirstTextOf(b);
  }

  lemma FirstTextOf(s: string)
    requires s != []
    ensures FirstText(s) == FirstText(Lines(s)[0])
  {
    var n := FindNewline(s);
    var line := s[..FirstLength(s)];
    assert line[..n] == s[..n];
    FindNewlineIs(line, n);
  }

  // ---- Shortening ----

  lemma {:induction false} KeptIsShorter(lines: seq<string>, keys: seq<string>, decode: Decoder, dropping: bool)
    ensures |Unlines(Kept(lines, keys, decode, dropping))| <= |Unlines(lines)|
    decreases lines
  {
    if lines != [] {
      hide IsKeyHeader, IsTableHeader;
      KeptIsShorter(lines[1..], keys, decode, true);
      KeptIsShorter(lines[1..], keys, decode, false);
      var kept := Kept(lines[1..], keys, decode, false);
      assert ([lines[0]] + kept)[1..] == kept;
    }
  }

  lemma {:induction false} KeptBeforeBlocks(lines: seq<string>, blocks: seq<string>, keys: seq<string>,
                                            decode: Decoder, dropping: bool)
    requires blocks != [] && IsKeyHeader(blocks[0], keys, decode)
    requires forall line <- blocks :: IsBlockLine(line, keys, decode)
    ensures Kept(lines + blocks, keys, decode, dropping) == Kept(lines, keys, decode, dropping)
    decreases lines
  {
    hide IsKeyHeader, IsTableHeader, IsBlockLine;
    if lines == [] {
      assert lines + blocks == blocks;
      BlocksDropped(blocks, keys, decode);
      BlockLinesDropped(blocks, keys, decode);
    } else {
      assert (lines + blocks)[0] == lines[0] && (lines + blocks)[1..] == lines[1..] + blocks;
      KeptBeforeBlocks(lines[1..], blocks, keys, decode, true);
      KeptBeforeBlocks(lines[1..], blocks, keys, decode, false);
    }
  }

  lemma KeyHeaderIsLong(line: string, keys: seq<string>, decode: Decoder)
    requires IsKeyHeader(line, keys, decode)
    ensures |line| >= 13
  {
    TrimLineEndIsPrefix(line);
    TrimShortens(TrimLineEnd(line));
  }

  lemma TrimShortens(s: string)
    ensures |Trim(s)| <= |s|
  {
    TrimEndIsPrefix(TrimStart(s));
    TrimStartShortens(s);
  }

  lemma {:induction false} TrimStartShortens(s: string)
    ensures |TrimStart(s)| <= |s|
  {
    if s != [] && IsWhitespace(s[0]) { TrimStartShortens(s[1..]); }
  }

  /** When the text in front of the blocks begins with one of their headers, installing again
      takes that block away: the text gets shorter. */
  lemma HiddenKeyIsRemoved(front: string, trusts: seq<Trust>, decode: Decoder)
    requires AreTrusts(trusts, decode) && EndsWith(front, "\n\n")
    requires IsKeyHeader(Lines(front)[0], Keys(trusts), decode)
    ensures |Installed(front + Blocks(trusts), trusts, decode)| < |front + Blocks(trusts)|
  {
    var keys := Keys(trusts);
    KeysHold(trusts);
    BlocksLines(trusts, keys, decode);
    BlankIsClosed(front);
    hide Blocks, IsBlockLine, IsKeyHeader, IsTableHeader, Keys, Lines, EndsWith, Unlines, Append, Separator;
    LinesConcat(front, Blocks(trusts));
    HiddenKeyDropped(front, Lines(Blocks(trusts)), keys, decode);
    var plain := Removed(front + Blocks(trusts), keys, decode);
    AppendIsBlocks(plain, trusts, decode);
    SeparatorIsShort(plain);
  }

  lemma SeparatorIsShort(text: string)
    ensures |Separator(text)| <= 2
  {
  }

  lemma HiddenKeyDropped(front: string, blocks: seq<string>, keys: seq<string>, decode: Decoder)
    requires front != [] && IsKeyHeader(Lines(front)[0], keys, decode)
    requires blocks != [] && IsKeyHeader(blocks[0], keys, decode)
    requires forall line <- blocks :: IsBlockLine(line, keys, decode)
    ensures |Unlines(Kept(Lines(front) + blocks, keys, decode, false))| + 13 <= |front|
  {
    var lines := Lines(front);
    LinesAreLines(front);
    KeyHeaderIsLong(lines[0], keys, decode);
    hide IsBlockLine, IsKeyHeader, IsTableHeader, Lines;
    KeptBeforeBlocks(lines, blocks, keys, decode, false);
    KeptIsShorter(lines[1..], keys, decode, true);
  }

  // ---- The file ----

  /** Installing twice equals installing once, except when a second mark hid the header of a trust
      block from the first install, and that install had something to write. */
  lemma InstallFileIsFixed(file: string, trusts: seq<Trust>, decode: Decoder)
    requires AreTrusts(trusts, decode)
    ensures InstalledFile(InstalledFile(file, trusts, decode), trusts, decode) == InstalledFile(file, trusts, decode)
      <==> !(MarkHidesKey(file, Keys(trusts), decode)
             && Installed(FileText(file), trusts, decode) != FileText(file))
  {
    var text := FileText(file);
    var once := Installed(text, trusts, decode);
    InstallIsFixed(text, trusts, decode);
    hide Installed, IsKeyHeader, Keys;
    if once != text {
      InstalledMark(text, trusts, decode);
      if once != [] && once[0] == BOM {
        MarkedInstall(text, trusts, decode);
        assert file[2..] == text[1..];
      }
    }
  }

  lemma InstalledMark(text: string, trusts: seq<Trust>, decode: Decoder)
    requires AreTrusts(trusts, decode)
    ensures var once := Installed(text, trusts, decode);
      once != [] && (once[0] == BOM <==> text != [] && text[0] == BOM)
  {
    var keys := Keys(trusts);
    var plain := Removed(text, keys, decode);
    RemovedKeepsMark(text, keys, decode);
    AppendIsBlocks(plain, trusts, decode);
    BlocksBegin(trusts);
    hide Removed, Blocks, Append;
  }

  lemma BlocksBegin(trusts: seq<Trust>)
    requires trusts != []
    ensures Blocks(trusts) != [] && Blocks(trusts)[0] == '['
  {
    hide JsonString, HashLine;
    assert Block(trusts[0])[0] == '[';
  }

  /** The second install of a text behind a second mark: it works on the text without that mark. */
  lemma MarkedInstall(text: string, trusts: seq<Trust>, decode: Decoder)
    requires AreTrusts(trusts, decode) && text != [] && text[0] == BOM
    ensures var once := Installed(text, trusts, decode);
      && once != [] && (Installed(once[1..], trusts, decode) == once[1..]
                        <==> !IsKeyHeader(FirstText(text[1..]), Keys(trusts), decode))
      && |Installed(once[1..], trusts, decode)| <= |once[1..]|
  {
    hide Removed, Blocks, Append, Separator, IsKeyHeader, Lines, Keys, FirstText, EndsWith;
    var front := Front(text, trusts, decode);
    assert (front + Blocks(trusts))[1..] == front[1..] + Blocks(trusts);
    if IsKeyHeader(FirstText(text[1..]), Keys(trusts), decode) {
      HiddenKeyIsRemoved(front[1..], trusts, decode);
    } else {
      FixedForm(front[1..], trusts, decode);
    }
  }

  /** What stands in front of the blocks after an install. */
  lemma Front(text: string, trusts: seq<Trust>, decode: Decoder) returns (front: string)
    requires AreTrusts(trusts, decode) && text != [] && text[0] == BOM
    ensures Installed(text, trusts, decode) == front + Blocks(trusts)
    ensures front != [] && front[0] == BOM && front[1..] != [] && EndsWith(front[1..], "\n\n")
    ensures IsKeyHeader(Lines(front[1..])[0], Keys(trusts), decode)
       <==> IsKeyHeader(FirstText(text[1..]), Keys(trusts), decode)
    ensures !IsKeyHeader(Lines(front[1..])[0], Keys(trusts), decode)
       ==> HasNoKey(Lines(front[1..]), Keys(trusts), decode)
  {
    hide Removed, Blocks, Append, Separator, IsKeyHeader, Lines, Keys, FirstText, EndsWith;
    var keys := Keys(trusts);
    var plain := Removed(text, keys, decode);
    front := plain + Separator(plain);
    RemovedKeepsMark(text, keys, decode);
    PlainHasNoKey(text, keys, decode);
    SeparatedLines(plain, keys, decode);
    AppendIsBlocks(plain, trusts, decode);
    FirstTextSeparated(plain);
    MarkedFront(text, front, keys, decode);
  }

  lemma MarkedFront(text: string, front: string, keys: seq<string>, decode: Decoder)
    requires text != [] && text[0] == BOM && front != [] && front[0] == BOM
    requires FirstText(text) == FirstText(front) && EndsWith(front, "\n\n") && HasNoKey(Lines(front), keys, decode)
    ensures EndsWith(front[1..], "\n\n") && front[1..] != []
    ensures IsKeyHeader(Lines(front[1..])[0], keys, decode) <==> IsKeyHeader(FirstText(text[1..]), keys, decode)
    ensures !IsKeyHeader(Lines(front[1..])[0], keys, decode) ==> HasNoKey(Lines(front[1..]), keys, decode)
  {
    var f, t := front[1..], text[1..];
    assert front[|front| - 2..] == "\n\n" && |front| > 2;
    assert f[|f| - 2..] == "\n\n";
    assert front == [BOM] + f && text == [BOM] + t;
    FirstTextMarked(f);
    FirstTextMarked(t);
    assert FirstText(f) == ([BOM] + FirstText(f))[1..] == FirstText(t);
    TrimLineEndOfLine(f);
    LinesMarked(f);
    hide FirstText, EndsWith, TrimLineEnd, HeaderKey;
    assert forall line <- Lines(f)[1..] :: line in Lines(front);
  }

  // ---- The file as it is read again ----

  lemma FewerKeys(lines: seq<string>, keys: seq<string>, key: string, decode: Decoder)
    requires HasNoKey(lines, keys, decode) && key in keys
    ensures HasNoKey(lines, [key], decode)
  {
    forall line <- lines ensures !IsKeyHeader(line, [key], decode) {
    }
  }

  lemma CountHead(line: string, rest: seq<string>, key: string, decode: Decoder)
    ensures CountKey([line] + rest, key, decode)
         == (if IsKeyHeader(line, [key], decode) then 1 else 0) + CountKey(rest, key, decode)
  {
    assert ([line] + rest)[1..] == rest;
  }

  /** The text in front of the blocks, read without its mark, has one header of the key more exactly
      if the mark hid one. */
  lemma CountBehindMark(text: string, front: string, key: string, decode: Decoder)
    requires text != [] && text[0] == BOM && front != [] && front[0] == BOM
    requires FirstText(text) == FirstText(front) && EndsWith(front, "\n\n") && HasNoKey(Lines(front), [key], decode)
    ensures CountKey(Lines(front[1..]), key, decode) == if IsKeyHeader(FirstText(text[1..]), [key], decode) then 1 else 0
  {
    MarkedFront(text, front, [key], decode);
    var f := front[1..];
    assert front == [BOM] + f;
    LinesMarked(f);
    hide MarkHidesKey, FirstText, EndsWith, IsKeyHeader;
    var rest := Lines(f)[1..];
    assert Lines(f) == [Lines(f)[0]] + rest;
    assert forall line <- rest :: line in Lines(front);
    CountNone(rest, [key], key, decode);
    CountHead(Lines(f)[0], rest, key, decode);
  }

  /** What an install writes behind a mark, split in front of the blocks. */
  lemma MarkedFrontOf(text: string, trusts: seq<Trust>, decode: Decoder, key: string) returns (front: string)
    requires AreTrusts(trusts, decode) && text != [] && text[0] == BOM && key in Keys(trusts)
    ensures Installed(text, trusts, decode) == front + Blocks(trusts)
    ensures front != [] && front[0] == BOM && EndsWith(front, "\n\n")
    ensures FirstText(text) == FirstText(front) && HasNoKey(Lines(front), [key], decode)
  {
    hide Removed, Blocks, Append, Separator, IsKeyHeader, Lines, Keys, FirstText, EndsWith;
    var keys := Keys(trusts);
    var plain := Removed(text, keys, decode);
    front := plain + Separator(plain);
    RemovedKeepsMark(text, keys, decode);
    PlainHasNoKey(text, keys, decode);
    SeparatedLines(plain, keys, decode);
    AppendIsBlocks(plain, trusts, decode);
    FirstTextSeparated(plain);
    FewerKeys(Lines(front), keys, key, decode);
  }

  /** The file as it is read after an install holds one block for each of the distinct keys, and a
      second one exactly for a key whose header a second mark hid from an install that wrote. */
  lemma OneBlockPerKeyInFile(file: string, trusts: seq<Trust>, decode: Decoder, key: string)
    requires AreTrusts(trusts, decode) && key in Keys(trusts)
    requires forall i, j :: 0 <= i < j < |trusts| ==> trusts[i].key != trusts[j].key
    ensures CountKey(Lines(FileText(InstalledFile(file, trusts, decode))), key, decode)
         == if MarkHidesKey(file, [key], decode) && Installed(FileText(file), trusts, decode) != FileText(file) then 2 else 1
  {
    hide Installed, IsKeyHeader, Keys, Lines, CountKey, MarkHidesKey, FirstText, AreTrusts, Blocks;
    var text := FileText(file);
    var once := Installed(text, trusts, decode);
    OneBlockPerKey(text, trusts, decode, key);
    InstalledMark(text, trusts, decode);
    HiddenBehindMark(file, [key], decode);
    if once != text && once[0] == BOM {
      CountInMarked(text, trusts, decode, key);
    }
  }

  lemma HiddenBehindMark(file: string, keys: seq<string>, decode: Decoder)
    ensures var text := FileText(file);
      MarkHidesKey(file, keys, decode) <==> text != [] && text[0] == BOM && IsKeyHeader(FirstText(text[1..]), keys, decode)
  {
    hide IsKeyHeader, FirstText;
    if |file| >= 2 { assert file[1..][1..] == file[2..]; }
  }

  lemma CountInMarked(text: string, trusts: seq<Trust>, decode: Decoder, key: string)
    requires AreTrusts(trusts, decode) && key in Keys(trusts) && text != [] && text[0] == BOM
    requires forall i, j :: 0 <= i < j < |trusts| ==> trusts[i].key != trusts[j].key
    ensures var once := Installed(text, trusts, decode);
      once != [] && CountKey(Lines(once[1..]), key, decode) == if IsKeyHeader(FirstText(text[1..]), [key], decode) then 2 else 1
  {
    hide Installed, IsKeyHeader, Keys, Lines, CountKey, FirstText, AreTrusts, Blocks, EndsWith;
    var front := MarkedFrontOf(text, trusts, decode, key);
    assert (front + Blocks(trusts))[1..] == front[1..] + Blocks(trusts);
    TwoLineFeedsBehind(front);
    CountBehindMark(text, front, key, decode);
    CountInBlocks(front[1..], trusts, decode, key);
  }

  lemma TwoLineFeedsBehind(front: string)
    requires EndsWith(front, "\n\n") && front != [] && front[0] == BOM
    ensures EndsWith(front[1..], "\n\n")
  {
    assert front[|front| - 2..] == "\n\n" && |front| > 2;
    assert front[1..][|front| - 3..] == front[|front| - 2..];
  }

  lemma CountInBlocks(front: string, trusts: seq<Trust>, decode: Decoder, key: string)
    requires AreTrusts(trusts, decode) && key in Keys(trusts) && (front == [] || EndsWith(front, "\n\n"))
    requires forall i, j :: 0 <= i < j < |trusts| ==> trusts[i].key != trusts[j].key
    ensures CountKey(Lines(front + Blocks(trusts)), key, decode) == CountKey(Lines(front), key, decode) + 1
  {
    KeysHold(trusts);
    BlocksLines(trusts, Keys(trusts), decode);
    BlankIsClosed(front);
    hide Blocks, IsBlockLine, IsKeyHeader, Keys, Lines, CountKey, EndsWith;
    LinesConcat(front, Blocks(trusts));
    CountConcat(Lines(front), Lines(Blocks(trusts)), key, decode);
    CountOfDistinct(trusts, key);
  }

  // ---- A file in which a mark hides a key ----

  /** Two marks in front of the header of a trust block. */
  function HidingFile(key: string): string {
    [BOM, BOM] + Header(key) + "\n"
  }

  lemma HidingFileHides(key: string, keys: seq<string>, decode: Decoder)
    requires decode(JsonString(key)) == Some(key) && key in keys
    ensures MarkHidesKey(HidingFile(key), keys, decode) && FileText(HidingFile(key)) == [BOM] + Header(key) + "\n"
  {
    HeaderReads(key, decode);
    TrimLineEndTwice(Header(key));
    hide Header, HeaderKey, TrimLineEnd;
    HidingShape(Header(key));
  }

  lemma HidingShape(header: string)
    requires '\n' !in header
    ensures var file := [BOM, BOM] + header + "\n";
      && |file| >= 2 && file[0] == BOM && file[1] == BOM && FirstText(file[2..]) == header
      && FileText(file) == [BOM] + header + "\n"
  {
    var file := [BOM, BOM] + header + "\n";
    hide FindNewline;
    assert file[2..] == header + "\n" && file[1..] == [BOM] + header + "\n";
    assert (header + "\n")[..|header|] == header;
    FindNewlineIs(header + "\n", |header|);
  }

  /** For any trusts there is a file that a second install changes again, and that is read with two
      blocks for a key after the first one. */
  lemma HidingFileChangesAgain(trusts: seq<Trust>, decode: Decoder)
    requires AreTrusts(trusts, decode) && forall i, j :: 0 <= i < j < |trusts| ==> trusts[i].key != trusts[j].key
    ensures var once := InstalledFile(HidingFile(trusts[0].key), trusts, decode);
      && InstalledFile(once, trusts, decode) != once
      && CountKey(Lines(FileText(once)), trusts[0].key, decode) == 2
  {
    hide Installed, IsKeyHeader, Keys, Lines, CountKey, Header, MarkHidesKey, HidingFile, InstalledFile, JsonString, FileText;
    var key := trusts[0].key;
    var file := HidingFile(key);
    FirstTrust(trusts, decode);
    HidingFileHides(key, Keys(trusts), decode);
    HidingFileHides(key, [key], decode);
    HeaderReads(key, decode);
    MarkedInstallGrows(Header(key), trusts, decode);
    InstallFileIsFixed(file, trusts, decode);
    OneBlockPerKeyInFile(file, trusts, decode, key);
  }

  lemma FirstTrust(trusts: seq<Trust>, decode: Decoder)
    requires AreTrusts(trusts, decode)
    ensures var key := trusts[0].key; decode(JsonString(key)) == Some(key) && key in Keys(trusts)
  {
    assert trusts[0] in trusts;
    KeysHold(trusts);
  }

  lemma MarkedInstallGrows(header: string, trusts: seq<Trust>, decode: Decoder)
    requires AreTrusts(trusts, decode) && '\n' !in header
    ensures Installed([BOM] + header + "\n", trusts, decode) != [BOM] + header + "\n"
  {
    hide Removed, Append, IsKeyHeader, Keys, AreTrusts, Blocks, Separator, FindNewline;
    var text := [BOM] + header + "\n";
    var plain := Removed(text, Keys(trusts), decode);
    assert text[..|header| + 1] == [BOM] + header;
    FindNewlineIs(text, |header| + 1);
    RemovedKeepsMark(text, Keys(trusts), decode);
    AppendIsBlocks(plain, trusts, decode);
    assert |plain| >= |FirstText(plain)| == |header| + 1;
    BlocksAreLong(trusts, decode);
  }

  lemma BlocksAreLong(trusts: seq<Trust>, decode: Decoder)
    requires AreTrusts(trusts, decode)
    ensures |Blocks(trusts)| > 1
  {
    hide Header, HashLine;
    assert |Block(trusts[0])| >= 3;
  }
}
