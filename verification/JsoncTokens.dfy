/** The tokens of a text in JSON with comments, read off the text itself, and what the two passes
    make of them. */
module JsoncTokens {
  import opened Text
  import opened Jsonc

  /** What a character is to a reader: the quote that opens a string, a character of a string with
      its closing quote, one of the code outside strings, white space or a line break, or the place
      where a comment begins. Nothing else of a comment is seen but its line breaks. */
  datatype Symbol = Open | Quoted(c: char) | Char(c: char) | Gap | Comment {
    predicate IsSeparator() {
      Gap? || Comment?
    }
  }

  function Symbols(rest: string, mode: Mode): seq<Symbol>
    decreases |rest|
  {
    if rest == [] then []
    else
      var c := rest[0];
      match mode
      case InString(escaped) => [Quoted(c)] + Symbols(rest[1..], AfterStringChar(c, escaped))
      case Code =>
        if c == '"' then [Open] + Symbols(rest[1..], InString(false))
        else if c == '/' && |rest| > 1 && rest[1] == '/' then [Comment] + Symbols(rest[2..], InLine)
        else if c == '/' && |rest| > 1 && rest[1] == '*' then [Comment] + Symbols(rest[2..], InBlock('\0'))
        else [if IsWhitespace(c) then Gap else Char(c)] + Symbols(rest[1..], Code)
      case InLine =>
        if c == '\n' then [Gap] + Symbols(rest[1..], Code) else Symbols(rest[1..], InLine)
      case InBlock(previous) =>
        (if c == '\n' then [Gap] else [])
        + Symbols(rest[1..], if previous == '*' && c == '/' then Code else InBlock(c))
  }

  /** The characters that are tokens of their own: RFC 8259, section 2. */
  predicate IsStructural(c: char) {
    c in {'{', '}', '[', ']', ':', ','}
  }

  predicate IsWordSymbol(a: Symbol) {
    a.Char? && !IsStructural(a.c)
  }

  /** Whether two symbols in a row belong to one token: to a string, or to a word. */
  predicate IsGlued(a: Symbol, b: Symbol) {
    ((a.Open? || a.Quoted?) && b.Quoted?) || (IsWordSymbol(a) && IsWordSymbol(b))
  }

  /** The tokens: the longest runs of glued symbols. */
  function Tokens(symbols: seq<Symbol>): (tokens: seq<seq<Symbol>>)
    ensures symbols != [] && !symbols[0].IsSeparator() ==> tokens != [] && tokens[0] != [] && tokens[0][0] == symbols[0]
    ensures forall t <- tokens :: t != []
  {
    if symbols == [] then []
    else
      var tail := Tokens(symbols[1..]);
      if symbols[0].IsSeparator() then tail
      else if |symbols| > 1 && IsGlued(symbols[0], symbols[1]) then
        assert forall t <- tail[1..] :: t in tail;
        [[symbols[0]] + tail[0]] + tail[1..]
      else [[symbols[0]]] + tail
  }

  function Lex(text: string): seq<seq<Symbol>> {
    Tokens(Symbols(text, Code))
  }

  predicate IsComma(token: seq<Symbol>) {
    token == [Char(',')]
  }

  predicate IsCloserToken(token: seq<Symbol>) {
    token == [Char('}')] || token == [Char(']')]
  }

  /** The tokens without the commas whose next token is a closing brace or bracket. */
  function PrunedTokens(tokens: seq<seq<Symbol>>): seq<seq<Symbol>> {
    if tokens == [] then []
    else if IsComma(tokens[0]) && |tokens| > 1 && IsCloserToken(tokens[1]) then PrunedTokens(tokens[1..])
    else [tokens[0]] + PrunedTokens(tokens[1..])
  }

  /** Between two words stand only comments, at least one, and none of them holds a line break. */
  predicate JoinsAt(symbols: seq<Symbol>, i: int, j: int) {
    && 0 <= i && i + 1 < j < |symbols| && IsWordSymbol(symbols[i]) && IsWordSymbol(symbols[j])
    && forall k :: i < k < j ==> symbols[k].Comment?
  }

  ghost predicate JoinsWords(text: string) {
    var symbols := Symbols(text, Code);
    exists i, j :: JoinsAt(symbols, i, j)
  }

  // ---- The first pass deletes the comments ----

  function Uncommented(symbols: seq<Symbol>): (r: seq<Symbol>)
    ensures forall a <- r :: !a.Comment?
  {
    if symbols == [] then []
    else (if symbols[0].Comment? then [] else [symbols[0]]) + Uncommented(symbols[1..])
  }

  /** The first pass deletes the comments and nothing else that a reader sees. */
  lemma {:induction false} PassDeletesComments(rest: string, mode: Mode)
    ensures Symbols(WithoutComments(rest, mode), Outside(mode)) == Uncommented(Symbols(rest, mode))
    decreases |rest|
  {
    if rest != [] {
      if mode.Code? && BeginsComment(rest) {
        var inner := if rest[1] == '/' then InLine else InBlock('\0');
        PassDeletesComments(rest[2..], inner);
        CommentHead(Symbols(rest[2..], inner));
      } else {
        PassDeletesComments(rest[1..], After(rest[0], mode));
        hide Symbols, WithoutComments, Uncommented;
        CharacterKept(rest, mode);
      }
    }
  }

  lemma CommentHead(tail: seq<Symbol>)
    ensures Uncommented([Comment] + tail) == Uncommented(tail)
  {
    assert ([Comment] + tail)[1..] == tail;
  }

  /** The symbol of a character that does not begin a comment. */
  function SymbolOf(c: char, mode: Mode): seq<Symbol> {
    match mode
    case InString(_) => [Quoted(c)]
    case Code => if c == '"' then [Open] else if IsWhitespace(c) then [Gap] else [Char(c)]
    case _ => if c == '\n' then [Gap] else []
  }

  function After(c: char, mode: Mode): Mode {
    match mode
    case InString(escaped) => AfterStringChar(c, escaped)
    case Code => if c == '"' then InString(false) else Code
    case InLine => if c == '\n' then Code else InLine
    case InBlock(previous) => if previous == '*' && c == '/' then Code else InBlock(c)
  }

  predicate BeginsComment(rest: string) {
    |rest| > 1 && rest[0] == '/' && (rest[1] == '/' || rest[1] == '*')
  }

  lemma SymbolsHead(rest: string, mode: Mode)
    requires rest != [] && !(mode.Code? && BeginsComment(rest))
    ensures Symbols(rest, mode) == SymbolOf(rest[0], mode) + Symbols(rest[1..], After(rest[0], mode))
  {
    hide IsWhitespace;
  }

  lemma OutputHead(rest: string, mode: Mode)
    requires rest != [] && !(mode.Code? && BeginsComment(rest))
    ensures var out := WithoutComments(rest[1..], After(rest[0], mode));
      WithoutComments(rest, mode) == if mode.InLine? || mode.InBlock? then (if rest[0] == '\n' then "\n" + out else out) else [rest[0]] + out
  {
  }

  lemma NoCommentInOutput(rest: string)
    requires rest != [] && !BeginsComment(rest)
    ensures !BeginsComment([rest[0]] + WithoutComments(rest[1..], After(rest[0], Code)))
  {
    if rest[0] == '/' && |rest| > 1 { NoCommentAhead(rest[1..]); }
  }

  function Outside(mode: Mode): Mode {
    if mode.InString? then mode else Code
  }

  /** One character that does not begin a comment. */
  lemma CharacterKept(rest: string, mode: Mode)
    requires rest != [] && !(mode.Code? && BeginsComment(rest))
    requires var next := After(rest[0], mode);
      Symbols(WithoutComments(rest[1..], next), Outside(next)) == Uncommented(Symbols(rest[1..], next))
    ensures Symbols(WithoutComments(rest, mode), Outside(mode)) == Uncommented(Symbols(rest, mode))
  {
    hide Symbols, WithoutComments, IsWhitespace, Uncommented, BeginsComment, SymbolOf, After;
    SymbolsHead(rest, mode);
    OutputHead(rest, mode);
    SymbolOfAny(rest[0], mode);
    SymbolKept(SymbolOf(rest[0], mode), Symbols(rest[1..], After(rest[0], mode)));
    if mode.Code? || mode.InString? {
      if mode.Code? { NoCommentInOutput(rest); }
      Prepended(rest[0], WithoutComments(rest[1..], After(rest[0], mode)), mode);
    } else {
      InsideComment(rest[0], WithoutComments(rest[1..], After(rest[0], mode)), mode);
    }
  }

  lemma SymbolOfAny(c: char, mode: Mode)
    ensures |SymbolOf(c, mode)| <= 1 && forall x <- SymbolOf(c, mode) :: !x.Comment?
    ensures mode.Code? || mode.InString? ==> Outside(mode) == mode && Outside(After(c, mode)) == After(c, mode)
    ensures mode.InLine? || mode.InBlock? ==> Outside(mode) == Code == Outside(After(c, mode))
  {
  }

  lemma Prepended(c: char, out: string, mode: Mode)
    requires !(mode.Code? && BeginsComment([c] + out))
    ensures Symbols([c] + out, mode) == SymbolOf(c, mode) + Symbols(out, After(c, mode))
  {
    hide Symbols, BeginsComment, SymbolOf, After;
    assert ([c] + out)[1..] == out && ([c] + out)[0] == c;
    SymbolsHead([c] + out, mode);
  }

  lemma InsideComment(c: char, out: string, mode: Mode)
    requires mode.InLine? || mode.InBlock?
    ensures Symbols(if c == '\n' then "\n" + out else out, Code) == SymbolOf(c, mode) + Symbols(out, Code)
  {
    LineFeedIsGap();
    hide Symbols, BeginsComment;
    if c == '\n' {
      assert ['\n'] + out == "\n" + out;
      Prepended('\n', out, Code);
    } else {
      assert [] + Symbols(out, Code) == Symbols(out, Code);
    }
  }

  lemma LineFeedIsGap()
    ensures SymbolOf('\n', Code) == [Gap] && After('\n', Code) == Code && !BeginsComment("\n")
    ensures forall out: string :: !BeginsComment("\n" + out)
  {
  }

  lemma SymbolKept(a: seq<Symbol>, tail: seq<Symbol>)
    requires |a| <= 1 && forall x <- a :: !x.Comment?
    ensures Uncommented(a + tail) == a + Uncommented(tail)
  {
    if a == [] {
      assert a + tail == tail;
    } else {
      assert a == [a[0]] && (a + tail)[1..] == tail;
    }
  }

  /** After a character of code that is neither a slash nor an asterisk, the output goes on with it. */
  lemma NoCommentAhead(rest: string)
    requires rest != [] && rest[0] != '/' && rest[0] != '*'
    ensures var out := WithoutComments(rest, Code); out != [] && out[0] == rest[0]
  {
  }

  // ---- The second pass drops commas ----

  predicate IsCloserSymbol(a: Symbol) {
    a == Char('}') || a == Char(']')
  }

  /** Whether the next symbol that is no gap closes an object or an array. */
  predicate IsCloserAhead(symbols: seq<Symbol>) {
    symbols != [] && if symbols[0].Gap? then IsCloserAhead(symbols[1..]) else IsCloserSymbol(symbols[0])
  }

  function DroppedCommas(symbols: seq<Symbol>): seq<Symbol> {
    if symbols == [] then []
    else (if symbols[0] == Char(',') && IsCloserAhead(symbols[1..]) then [] else [symbols[0]]) + DroppedCommas(symbols[1..])
  }

  predicate HasNoComment(symbols: seq<Symbol>) {
    forall a <- symbols :: !a.Comment?
  }

  lemma {:induction false} CloserAheadInText(rest: string)
    requires HasNoComment(Symbols(rest, Code))
    ensures IsCloser(NextSolid(rest)) <==> IsCloserAhead(Symbols(rest, Code))
    decreases rest
  {
    if rest != [] {
      NoCommentBegins(rest, Code);
      SymbolsHead(rest, Code);
      hide Symbols;
      if IsWhitespace(rest[0]) {
        assert rest[0] != '"' && SymbolOf(rest[0], Code) == [Gap];
        CloserAheadInText(rest[1..]);
        assert ([Gap] + Symbols(rest[1..], Code))[1..] == Symbols(rest[1..], Code);
      }
    }
  }

  lemma NoCommentBegins(rest: string, mode: Mode)
    requires rest != [] && (mode.Code? || mode.InString?) && HasNoComment(Symbols(rest, mode))
    ensures !(mode.Code? && BeginsComment(rest)) && HasNoComment(Symbols(rest[1..], After(rest[0], mode)))
  {
    CommentIsSeen(rest);
    hide Symbols, BeginsComment;
    SymbolsHead(rest, mode);
    assert forall a <- Symbols(rest[1..], After(rest[0], mode)) :: a in Symbols(rest, mode);
  }

  lemma CommentIsSeen(rest: string)
    ensures BeginsComment(rest) ==> Comment in Symbols(rest, Code)
  {
  }

  /** Where a comma is dropped, the text goes on with white space or with a closing character. */
  lemma DroppedCommaAhead(rest: string)
    requires IsCloser(NextSolid(rest))
    ensures var out := WithoutTrailingCommas(rest, Code); out != [] && out[0] != '/' && out[0] != '*'
  {
  }

  lemma NoCommentArises(rest: string)
    requires rest != [] && !BeginsComment(rest)
    ensures After(rest[0], Code) == if rest[0] == '"' then InString(false) else Code
    ensures !BeginsComment([rest[0]] + WithoutTrailingCommas(rest[1..], Code))
  {
    if rest[0] == '/' && |rest| > 1 && rest[1] == ',' && IsCloser(NextSolid(rest[1..][1..])) {
      DroppedCommaAhead(rest[1..][1..]);
    }
  }

  /** The second pass drops the commas in front of closing characters and nothing else. */
  lemma {:induction false} PassDropsCommas(rest: string, mode: Mode)
    requires (mode.Code? || mode.InString?) && HasNoComment(Symbols(rest, mode))
    ensures Symbols(WithoutTrailingCommas(rest, mode), mode) == DroppedCommas(Symbols(rest, mode))
    decreases rest
  {
    if rest != [] {
      NoCommentBegins(rest, mode);
      SymbolOfAny(rest[0], mode);
      PassDropsCommas(rest[1..], After(rest[0], mode));
      SymbolsHead(rest, mode);
      CommaOutput(rest, mode);
      if mode.Code? && rest[0] == ',' { CloserAheadInText(rest[1..]); }
      if mode.Code? && rest[0] != '"' { NoCommentArises(rest); }
      hide Symbols, WithoutTrailingCommas, BeginsComment, NextSolid, IsCloser, IsCloserAhead, HasNoComment;
      var out := WithoutTrailingCommas(rest[1..], After(rest[0], mode));
      FirstDropped(rest[0], mode, Symbols(rest[1..], After(rest[0], mode)));
      if !(mode.Code? && rest[0] == ',' && IsCloser(NextSolid(rest[1..]))) {
        Prepended(rest[0], out, mode);
      }
    }
  }

  lemma CommaOutput(rest: string, mode: Mode)
    requires rest != [] && (mode.Code? || mode.InString?)
    ensures After(rest[0], mode).Code? || After(rest[0], mode).InString?
    ensures var out := WithoutTrailingCommas(rest[1..], After(rest[0], mode));
      WithoutTrailingCommas(rest, mode)
      == if mode.Code? && rest[0] == ',' && IsCloser(NextSolid(rest[1..])) then out else [rest[0]] + out
  {
  }

  lemma FirstDropped(c: char, mode: Mode, tail: seq<Symbol>)
    requires mode.Code? || mode.InString?
    ensures DroppedCommas(SymbolOf(c, mode) + tail)
         == (if mode.Code? && c == ',' && IsCloserAhead(tail) then [] else SymbolOf(c, mode)) + DroppedCommas(tail)
  {
    var a := SymbolOf(c, mode);
    assert |a| == 1 && a == [a[0]] && (a + tail)[1..] == tail;
    assert a[0] == Char(',') <==> mode.Code? && c == ',';
    assert [] + DroppedCommas(tail) == DroppedCommas(tail);
  }

  // ---- What deleting symbols does to the tokens ----

  lemma {:induction false} CloserTokenAhead(symbols: seq<Symbol>)
    requires HasNoComment(symbols)
    ensures IsCloserAhead(symbols) <==> Tokens(symbols) != [] && IsCloserToken(Tokens(symbols)[0])
    decreases symbols
  {
    if symbols != [] && symbols[0].Gap? {
      assert forall a <- symbols[1..] :: a in symbols;
      CloserTokenAhead(symbols[1..]);
    } else if symbols != [] {
      assert symbols[0] in symbols && Tokens(symbols)[0][0] == symbols[0];
      assert IsCloserSymbol(symbols[0]) ==> !IsWordSymbol(symbols[0]) && Tokens(symbols)[0] == [symbols[0]];
    }
  }

  lemma {:induction false} CommasPrunedFromTokens(symbols: seq<Symbol>)
    requires HasNoComment(symbols)
    ensures Tokens(DroppedCommas(symbols)) == PrunedTokens(Tokens(symbols))
    decreases symbols
  {
    if symbols != [] {
      var a, rest := symbols[0], symbols[1..];
      assert forall b <- rest :: b in symbols;
      assert a in symbols;
      CommasPrunedFromTokens(rest);
      CloserTokenAhead(rest);
      DroppedHead(rest);
      TokensStep(a, DroppedCommas(rest));
      TokensStep(a, rest);
      assert symbols == [a] + rest;
      hide Tokens;
      PrunedStep(a, rest);
    }
  }

  lemma TokensStep(a: Symbol, rest: seq<Symbol>)
    ensures var tail := Tokens(rest);
      Tokens([a] + rest)
      == if a.IsSeparator() then tail
         else if rest != [] && IsGlued(a, rest[0]) then [[a] + tail[0]] + tail[1..]
         else [[a]] + tail
  {
    assert ([a] + rest)[1..] == rest;
  }

  /** A dropped comma stands in front of a gap or a closing character. */
  lemma DroppedHead(rest: seq<Symbol>)
    ensures rest != [] && !(rest[0] == Char(',') && IsCloserAhead(rest[1..]))
        ==> DroppedCommas(rest) != [] && DroppedCommas(rest)[0] == rest[0]
    ensures rest != [] && rest[0] == Char(',') && IsCloserAhead(rest[1..])
        ==> DroppedCommas(rest) != [] && (DroppedCommas(rest)[0].Gap? || IsCloserSymbol(DroppedCommas(rest)[0]))
    ensures rest == [] ==> DroppedCommas(rest) == []
  {
  }

  lemma PrunedStep(a: Symbol, rest: seq<Symbol>)
    requires !a.Comment? && HasNoComment(rest)
    requires Tokens(DroppedCommas(rest)) == PrunedTokens(Tokens(rest))
    requires IsCloserAhead(rest) <==> Tokens(rest) != [] && IsCloserToken(Tokens(rest)[0])
    ensures Tokens(DroppedCommas([a] + rest)) == PrunedTokens(Tokens([a] + rest))
  {
    hide Tokens, IsCloserAhead, HasNoComment, DroppedCommas, PrunedTokens, IsGlued;
    var dropped, tail := DroppedCommas(rest), Tokens(rest);
    GlueUnderDrop(a, rest);
    if rest != [] { NoCommaGlued(a, rest[0]); }
    DroppedFirst(a, rest);
    TokensStep(a, dropped);
    TokensStep(a, rest);
    if a.Gap? || (a == Char(',') && IsCloserAhead(rest)) {
      PrunedComma(tail);
    } else if rest != [] && IsGlued(a, rest[0]) {
      GluedFirst(a, rest);
      PrunedMerged(a, tail);
    } else {
      PrunedOther(a, tail);
    }
  }

  lemma NoCommaGlued(a: Symbol, b: Symbol)
    ensures IsGlued(a, b) ==> a != Char(',') && b != Char(',') && !a.IsSeparator()
  {
  }

  lemma DroppedFirst(a: Symbol, rest: seq<Symbol>)
    ensures DroppedCommas([a] + rest) == (if a == Char(',') && IsCloserAhead(rest) then [] else [a]) + DroppedCommas(rest)
    ensures [] + DroppedCommas(rest) == DroppedCommas(rest)
  {
    assert ([a] + rest)[1..] == rest;
  }

  /** A symbol is glued to what follows it after the drop exactly if it was before. */
  lemma GlueUnderDrop(a: Symbol, rest: seq<Symbol>)
    ensures var dropped := DroppedCommas(rest);
      (dropped != [] && IsGlued(a, dropped[0])) <==> (rest != [] && IsGlued(a, rest[0]))
  {
    DroppedHead(rest);
    hide DroppedCommas, IsCloserAhead;
  }

  lemma PrunedComma(tail: seq<seq<Symbol>>)
    ensures tail != [] && IsCloserToken(tail[0]) ==> PrunedTokens([[Char(',')]] + tail) == PrunedTokens(tail)
  {
    assert ([[Char(',')]] + tail)[1..] == tail;
  }

  lemma PrunedOther(a: Symbol, tail: seq<seq<Symbol>>)
    requires !(a == Char(',') && tail != [] && IsCloserToken(tail[0]))
    ensures PrunedTokens([[a]] + tail) == [[a]] + PrunedTokens(tail)
  {
    assert ([[a]] + tail)[1..] == tail;
  }

  lemma FirstToken(symbols: seq<Symbol>)
    requires symbols != [] && !symbols[0].IsSeparator()
    ensures Tokens(symbols) != [] && Tokens(symbols)[0] != [] && Tokens(symbols)[0][0] == symbols[0]
  {
  }

  lemma PrunedMerged(a: Symbol, tail: seq<seq<Symbol>>)
    requires tail != [] && tail[0] != [] && tail[0][0] != Char(',')
    ensures PrunedTokens(tail) != [] && PrunedTokens(tail)[0] == tail[0]
    ensures PrunedTokens([[a] + tail[0]] + tail[1..]) == [[a] + PrunedTokens(tail)[0]] + PrunedTokens(tail)[1..]
  {
    var merged := [[a] + tail[0]] + tail[1..];
    assert merged[1..] == tail[1..] && |merged[0]| > 1;
    assert PrunedTokens(tail) == [tail[0]] + PrunedTokens(tail[1..]);
  }

  /** A word, then comments without a line break, then a word: deleting the comments joins them. */
  predicate BeginsJoint(symbols: seq<Symbol>) {
    |symbols| > 1 && symbols[1].Comment? && IsWordSymbol(symbols[0])
    && Uncommented(symbols[1..]) != [] && IsWordSymbol(Uncommented(symbols[1..])[0])
  }

  function Joints(symbols: seq<Symbol>): nat {
    if symbols == [] then 0 else (if BeginsJoint(symbols) then 1 else 0) + Joints(symbols[1..])
  }

  /** A string goes on only after its opening quote. */
  predicate AreStringsOpened(symbols: seq<Symbol>) {
    forall k :: 0 < k < |symbols| && symbols[k].Quoted? ==> symbols[k - 1].Open? || symbols[k - 1].Quoted?
  }

  lemma {:induction false} StringsAreOpened(rest: string, mode: Mode)
    ensures AreStringsOpened(Symbols(rest, mode))
    ensures Symbols(rest, mode) != [] && Symbols(rest, mode)[0].Quoted? ==> mode.InString?
    decreases |rest|
  {
    if rest != [] {
      hide Symbols, AreStringsOpened, SymbolOf;
      if mode.Code? && BeginsComment(rest) {
        var inner := if rest[1] == '/' then InLine else InBlock('\0');
        StringsAreOpened(rest[2..], inner);
        CommentSymbols(rest);
        OpenedBehind([Comment], Symbols(rest[2..], inner));
      } else {
        StringsAreOpened(rest[1..], After(rest[0], mode));
        SymbolsHead(rest, mode);
        OpeningSymbol(rest[0], mode);
        OpenedBehind(SymbolOf(rest[0], mode), Symbols(rest[1..], After(rest[0], mode)));
      }
    }
  }

  lemma CommentSymbols(rest: string)
    requires BeginsComment(rest)
    ensures Symbols(rest, Code) == [Comment] + Symbols(rest[2..], if rest[1] == '/' then InLine else InBlock('\0'))
  {
  }

  lemma OpeningSymbol(c: char, mode: Mode)
    ensures var a := SymbolOf(c, mode);
      && |a| <= 1 && (a != [] && a[0].Quoted? ==> mode.InString?)
      && (After(c, mode).InString? ==> a != [] && (a[0].Open? || a[0].Quoted?))
  {
  }

  lemma OpenedBehind(a: seq<Symbol>, tail: seq<Symbol>)
    requires |a| <= 1 && AreStringsOpened(tail)
    requires tail != [] && tail[0].Quoted? ==> a != [] && (a[0].Open? || a[0].Quoted?)
    ensures AreStringsOpened(a + tail) && (a == [] ==> a + tail == tail)
  {
    var all := a + tail;
    forall k | 0 < k < |all| && all[k].Quoted? ensures all[k - 1].Open? || all[k - 1].Quoted? {
      assert k > |a| ==> all[k] == tail[k - |a|] && all[k - 1] == tail[k - |a| - 1];
    }
  }

  lemma {:induction false} UncommentedHead(symbols: seq<Symbol>) returns (k: nat)
    requires Uncommented(symbols) != []
    ensures k < |symbols| && symbols[k] == Uncommented(symbols)[0] && forall i :: 0 <= i < k ==> symbols[i].Comment?
    decreases symbols
  {
    k := 0;
    if symbols[0].Comment? {
      k := UncommentedHead(symbols[1..]);
      k := k + 1;
    }
  }

  /** How many tokens are words. */
  function Words(tokens: seq<seq<Symbol>>): nat {
    if tokens == [] then 0
    else (if tokens[0] != [] && IsWordSymbol(tokens[0][0]) then 1 else 0) + Words(tokens[1..])
  }

  /** Deleting the comments leaves the tokens as they are, but for the words it joins. */
  lemma {:induction false} UncommentedTokens(symbols: seq<Symbol>)
    requires AreStringsOpened(symbols)
    ensures Joints(symbols) == 0 ==> Tokens(Uncommented(symbols)) == Tokens(symbols)
    ensures Words(Tokens(Uncommented(symbols))) + Joints(symbols) == Words(Tokens(symbols))
    decreases symbols
  {
    if symbols != [] {
      var a, rest := symbols[0], symbols[1..];
      TailOpened(symbols);
      UncommentedTokens(rest);
      TokensStep(a, rest);
      assert symbols == [a] + rest;
      if a.Comment? {
        assert Uncommented(symbols) == Uncommented(rest) by { CommentHead(rest); }
      } else {
        KeptSymbol(symbols);
        TokensStep(a, Uncommented(rest));
        GlueStays(symbols);
        hide Tokens, Uncommented, Joints, AreStringsOpened;
        WordsStep(a, rest, Uncommented(rest));
      }
    }
  }

  lemma TailOpened(symbols: seq<Symbol>)
    requires AreStringsOpened(symbols) && symbols != []
    ensures AreStringsOpened(symbols[1..])
  {
    forall k | 0 < k < |symbols[1..]| && symbols[1..][k].Quoted?
      ensures symbols[1..][k - 1].Open? || symbols[1..][k - 1].Quoted?
    {
      assert symbols[k + 1].Quoted? && symbols[k + 1 - 1] == symbols[1..][k - 1];
    }
  }

  lemma KeptSymbol(symbols: seq<Symbol>)
    requires symbols != [] && !symbols[0].Comment?
    ensures Uncommented(symbols) == [symbols[0]] + Uncommented(symbols[1..])
    ensures Joints(symbols) == (if BeginsJoint(symbols) then 1 else 0) + Joints(symbols[1..])
  {
  }

  /** What stands next to a symbol once comments are gone: the same as before, unless a joint begins. */
  lemma GlueStays(symbols: seq<Symbol>)
    requires AreStringsOpened(symbols) && symbols != []
    ensures var a, rest := symbols[0], symbols[1..];
      (Uncommented(rest) != [] && IsGlued(a, Uncommented(rest)[0]))
      <==> (rest != [] && IsGlued(a, rest[0])) || BeginsJoint(symbols)
    ensures var rest := symbols[1..];
      rest != [] && IsGlued(symbols[0], rest[0]) ==> !BeginsJoint(symbols) && Uncommented(rest) != [] && Uncommented(rest)[0] == rest[0]
  {
    var rest := symbols[1..];
    if Uncommented(rest) != [] {
      var k := UncommentedHead(rest);
      assert symbols[k + 1] == rest[k];
      assert k > 0 ==> rest[0].Comment? && symbols[1] == rest[0] && rest[k - 1].Comment? && symbols[k] == rest[k - 1];
    }
    if rest != [] && !rest[0].Comment? { KeptSymbol(rest); }
  }

  /** The tokens of one more symbol, with and without comments behind it. */
  lemma WordsStep(a: Symbol, rest: seq<Symbol>, plain: seq<Symbol>)
    requires !a.Comment?
    requires var joint := BeginsJoint([a] + rest);
      && ((plain != [] && IsGlued(a, plain[0])) <==> (rest != [] && IsGlued(a, rest[0])) || joint)
      && (rest != [] && IsGlued(a, rest[0]) ==> !joint && plain != [] && plain[0] == rest[0])
      && Words(Tokens(plain)) + Joints(rest) == Words(Tokens(rest))
      && (Joints(rest) == 0 ==> Tokens(plain) == Tokens(rest))
    ensures var joints := (if BeginsJoint([a] + rest) then 1 else 0) + Joints(rest);
      && Words(Tokens([a] + plain)) + joints == Words(Tokens([a] + rest))
      && (joints == 0 ==> Tokens([a] + plain) == Tokens([a] + rest))
  {
    hide Joints, BeginsJoint, Tokens, Words, IsGlued;
    TokensStep(a, rest);
    TokensStep(a, plain);
    WordsOfStep(a, Tokens(rest));
    WordsOfStep(a, Tokens(plain));
    JointIsWord(a, rest);
    if !a.IsSeparator() && rest != [] && IsGlued(a, rest[0]) {
      GluedFirst(a, rest);
      GluedFirst(a, plain);
    } else if !a.IsSeparator() && plain != [] && IsGlued(a, plain[0]) {
      GluedFirst(a, plain);
    }
  }

  lemma GluedFirst(a: Symbol, rest: seq<Symbol>)
    requires rest != [] && IsGlued(a, rest[0])
    ensures var tail := Tokens(rest);
      tail != [] && tail[0] != [] && tail[0][0] == rest[0] && (IsWordSymbol(a) <==> IsWordSymbol(tail[0][0]))
  {
    FirstToken(rest);
    hide Tokens;
  }

  lemma JointIsWord(a: Symbol, rest: seq<Symbol>)
    ensures BeginsJoint([a] + rest) ==> IsWordSymbol(a) && !a.IsSeparator()
  {
  }

  lemma WordsOfStep(a: Symbol, tail: seq<seq<Symbol>>)
    ensures Words([[a]] + tail) == (if IsWordSymbol(a) then 1 else 0) + Words(tail)
    ensures tail != [] && tail[0] != [] && (IsWordSymbol(a) <==> IsWordSymbol(tail[0][0]))
        ==> Words([[a] + tail[0]] + tail[1..]) == Words(tail)
  {
    assert ([[a]] + tail)[1..] == tail;
    if tail != [] { assert ([[a] + tail[0]] + tail[1..])[1..] == tail[1..]; }
  }

  lemma {:induction false} PrunedKeepsWords(tokens: seq<seq<Symbol>>)
    ensures Words(PrunedTokens(tokens)) == Words(tokens)
    decreases tokens
  {
    if tokens != [] {
      PrunedKeepsWords(tokens[1..]);
      var rest := PrunedTokens(tokens[1..]);
      assert ([tokens[0]] + rest)[1..] == rest;
    }
  }

  lemma {:induction false} JointsAreJoins(symbols: seq<Symbol>)
    ensures Joints(symbols) > 0 <==> exists i, j :: JoinsAt(symbols, i, j)
    decreases symbols
  {
    if symbols != [] {
      JointsAreJoins(symbols[1..]);
      if BeginsJoint(symbols) {
        var k := UncommentedHead(symbols[1..]);
        JoinAhead(symbols, k);
      }
      if Joints(symbols[1..]) > 0 {
        var i, j :| JoinsAt(symbols[1..], i, j);
        JoinLater(symbols, i, j);
      }
      if i, j :| JoinsAt(symbols, i, j) {
        if i == 0 { FirstJoins(symbols, j); } else { JoinSooner(symbols, i, j); }
      }
    }
  }

  lemma JoinAhead(symbols: seq<Symbol>, k: nat)
    requires BeginsJoint(symbols) && k < |symbols[1..]| && symbols[1..][k] == Uncommented(symbols[1..])[0]
    requires forall i :: 0 <= i < k ==> symbols[1..][i].Comment?
    ensures JoinsAt(symbols, 0, k + 1)
  {
    forall l | 0 < l < k + 1 ensures symbols[l].Comment? {
      assert symbols[l] == symbols[1..][l - 1];
    }
  }

  lemma JoinLater(symbols: seq<Symbol>, i: int, j: int)
    requires symbols != [] && JoinsAt(symbols[1..], i, j)
    ensures JoinsAt(symbols, i + 1, j + 1)
  {
    forall l | i + 1 < l < j + 1 ensures symbols[l].Comment? {
      assert symbols[l] == symbols[1..][l - 1];
    }
  }

  lemma JoinSooner(symbols: seq<Symbol>, i: int, j: int)
    requires JoinsAt(symbols, i, j) && i > 0
    ensures JoinsAt(symbols[1..], i - 1, j - 1)
  {
  }

  lemma FirstJoins(symbols: seq<Symbol>, j: int)
    requires JoinsAt(symbols, 0, j)
    ensures BeginsJoint(symbols)
  {
    assert symbols[1..] == symbols[1..j] + [symbols[j]] + symbols[j + 1..];
    CommentsGone(symbols[1..j], [symbols[j]] + symbols[j + 1..]);
    assert symbols[1..j] + ([symbols[j]] + symbols[j + 1..]) == symbols[1..];
  }

  lemma {:induction false} CommentsGone(comments: seq<Symbol>, rest: seq<Symbol>)
    requires forall a <- comments :: a.Comment?
    ensures Uncommented(comments + rest) == Uncommented(rest)
    decreases comments
  {
    if comments == [] {
      assert comments + rest == rest;
    } else {
      assert comments[0] in comments && (comments + rest)[1..] == comments[1..] + rest;
      CommentsGone(comments[1..], rest);
    }
  }

  // ---- Both passes ----

  /** On every text, both passes leave its tokens, without exactly the commas whose next token is a
      closing brace or bracket, unless the text has two words with nothing between them but block
      comments without a line break: these and only these become one word. */
  lemma NormalisationKeepsTokens(text: string)
    ensures Lex(WithoutTrailingCommas(WithoutComments(text, Code), Code)) == PrunedTokens(Lex(text)) <==> !JoinsWords(text)
  {
    hide Symbols, WithoutComments, WithoutTrailingCommas, Tokens, DroppedCommas, PrunedTokens, Joints, JoinsAt, Words;
    var symbols := Symbols(text, Code);
    var once := WithoutComments(text, Code);
    PassDeletesComments(text, Code);
    PassDropsCommas(once, Code);
    CommasPrunedFromTokens(Uncommented(symbols));
    StringsAreOpened(text, Code);
    UncommentedTokens(symbols);
    JointsAreJoins(symbols);
    PrunedKeepsWords(Tokens(symbols));
    PrunedKeepsWords(Tokens(Uncommented(symbols)));
  }

  /** There are such texts: the two words here become one. */
  lemma CommentDoesNotSeparate()
    ensures WithoutComments("1/**/2", Code) == "12" && JoinsWords("1/**/2")
    ensures Lex(WithoutTrailingCommas(WithoutComments("1/**/2", Code), Code)) != PrunedTokens(Lex("1/**/2"))
  {
    NormalisationKeepsTokens("1/**/2");
    hide Lex, WithoutTrailingCommas, PrunedTokens;
    BlockCommentErased("", '\0', "2");
    assert "1/**/2"[1..] == "/**/2" && "/**/2"[2..] == "*/2" && "*/2"[1..] == "/2" && "/2"[1..] == "2" && "2"[1..] == "";
    assert "" + "*/" + "2" == "*/2";
    SeparatingSymbols();
    assert JoinsAt(Symbols("1/**/2", Code), 0, 2);
  }

  lemma SeparatingSymbols()
    ensures Symbols("1/**/2", Code) == [Char('1'), Comment, Char('2')]
  {
    assert "1/**/2"[1..] == "/**/2" && "/**/2"[2..] == "*/2" && "*/2"[1..] == "/2" && "/2"[1..] == "2" && "2"[1..] == "";
    assert Symbols("2", Code) == [Char('2')];
    assert Symbols("/2", InBlock('*')) == [Char('2')];
    assert Symbols("*/2", InBlock('\0')) == [Char('2')];
    assert Symbols("/**/2", Code) == [Comment, Char('2')];
  }
}
