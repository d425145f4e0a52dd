/** The two passes that turn JSON with comments and trailing commas into JSON. */
module Jsonc {
  import opened Text

  datatype Mode = Code | InString(escaped: bool) | InLine | InBlock(previous: char)

  function AfterStringChar(c: char, escaped: bool): Mode {
    if escaped then InString(false)
    else if c == '\\' then InString(true)
    else if c == '"' then Code
    else InString(false)
  }

  // ---- Specification of the passes, as functions of the rest of the text ----

  function WithoutComments(rest: string, mode: Mode): string
    decreases |rest|
  {
    if rest == [] then []
    else
      var c := rest[0];
      match mode
      case InString(escaped) => [c] + WithoutComments(rest[1..], AfterStringChar(c, escaped))
      case Code =>
        if c == '"' then [c] + WithoutComments(rest[1..], InString(false))
        else if c == '/' && |rest| > 1 && rest[1] == '/' then WithoutComments(rest[2..], InLine)
        else if c == '/' && |rest| > 1 && rest[1] == '*' then WithoutComments(rest[2..], InBlock('\0'))
        else [c] + WithoutComments(rest[1..], Code)
      case InLine =>
        if c == '\n' then "\n" + WithoutComments(rest[1..], Code) else WithoutComments(rest[1..], InLine)
      case InBlock(previous) =>
        (if c == '\n' then "\n" else "")
        + WithoutComments(rest[1..], if previous == '*' && c == '/' then Code else InBlock(c))
  }

  /** The first character that is not whitespace. */
  function NextSolid(rest: string): Option<char> {
    if rest == [] then None
    else if IsWhitespace(rest[0]) then NextSolid(rest[1..])
    else Some(rest[0])
  }

  predicate IsCloser(c: Option<char>) {
    c == Some('}') || c == Some(']')
  }

  function WithoutTrailingCommas(rest: string, mode: Mode): string
    requires mode.Code? || mode.InString?
    decreases |rest|
  {
    if rest == [] then []
    else
      var c := rest[0];
      match mode
      case InString(escaped) => [c] + WithoutTrailingCommas(rest[1..], AfterStringChar(c, escaped))
      case Code =>
        if c == '"' then [c] + WithoutTrailingCommas(rest[1..], InString(false))
        else if c == ',' && IsCloser(NextSolid(rest[1..])) then WithoutTrailingCommas(rest[1..], Code)
        else [c] + WithoutTrailingCommas(rest[1..], Code)
  }

  // ---- The code ----

  method StripJsonComments(input: string) returns (output: string)
    ensures output == WithoutComments(input, Code)
  {
    output := [];
    var inString := false;
    var escaped := false;
    var index := 0;
    while index < |input|
      invariant 0 <= index <= |input|
      invariant output + WithoutComments(input[index..], if inString then InString(escaped) else Code)
             == WithoutComments(input, Code)
      invariant !inString ==> !escaped
    {
      var character := input[index];
      ghost var rest := input[index..];
      assert rest[1..] == input[index + 1..];
      if inString {
        Moved(output, character, WithoutComments(rest[1..], AfterStringChar(character, escaped)));
        output := output + [character];
        if escaped {
          escaped := false;
        } else if character == '\\' {
          escaped := true;
        } else if character == '"' {
          inString := false;
        }
        index := index + 1;
      } else if character == '"' {
        Moved(output, character, WithoutComments(rest[1..], InString(false)));
        inString := true;
        output := output + [character];
        index := index + 1;
      } else if character == '/' && index + 1 < |input| && input[index + 1] == '/' {
        assert rest[2..] == input[index + 2..];
        output, index := SkipLineComment(input, index + 2, output);
      } else if character == '/' && index + 1 < |input| && input[index + 1] == '*' {
        assert rest[2..] == input[index + 2..];
        output, index := SkipBlockComment(input, index + 2, output);
      } else {
        Moved(output, character, WithoutComments(rest[1..], Code));
        output := output + [character];
        index := index + 1;
      }
    }
  }

  lemma Moved(output: string, c: char, rest: string)
    ensures output + ([c] + rest) == output + [c] + rest
  {
  }

  /** The rest of a line comment; its line break is kept. */
  method SkipLineComment(input: string, start: nat, before: string) returns (output: string, index: nat)
    requires start <= |input|
    ensures start <= index <= |input|
    ensures output + WithoutComments(input[index..], Code) == before + WithoutComments(input[start..], InLine)
  {
    output, index := before, start;
    while index < |input|
      invariant start <= index <= |input|
      invariant output + WithoutComments(input[index..], InLine) == before + WithoutComments(input[start..], InLine)
    {
      var next := input[index];
      assert input[index..][1..] == input[index + 1..];
      index := index + 1;
      if next == '\n' {
        Moved(output, '\n', WithoutComments(input[index..], Code));
        return output + "\n", index;
      }
    }
  }

  /** The rest of a block comment; its line breaks are kept. */
  method SkipBlockComment(input: string, start: nat, before: string) returns (output: string, index: nat)
    requires start <= |input|
    ensures start <= index <= |input|
    ensures output + WithoutComments(input[index..], Code) == before + WithoutComments(input[start..], InBlock('\0'))
  {
    output, index := before, start;
    var previous := '\0';
    while index < |input|
      invariant start <= index <= |input|
      invariant output + WithoutComments(input[index..], InBlock(previous))
             == before + WithoutComments(input[start..], InBlock('\0'))
    {
      var next := input[index];
      assert input[index..][1..] == input[index + 1..];
      index := index + 1;
      if next == '\n' {
        Moved(output, '\n', WithoutComments(input[index..], InBlock('\n')));
        output := output + "\n";
      }
      if previous == '*' && next == '/' {
        return output, index;
      }
      previous := next;
    }
  }

  method FindSolid(characters: string, start: nat) returns (next: Option<char>)
    requires start <= |characters|
    ensures next == NextSolid(characters[start..])
  {
    for i := start to |characters|
      invariant NextSolid(characters[start..]) == NextSolid(characters[i..])
    {
      assert characters[i..][1..] == characters[i + 1..];
      if !IsWhitespace(characters[i]) {
        return Some(characters[i]);
      }
    }
    return None;
  }

  method StripTrailingCommas(input: string) returns (output: string)
    ensures output == WithoutTrailingCommas(input, Code)
  {
    output := [];
    var inString := false;
    var escaped := false;
    for index := 0 to |input|
      invariant output + WithoutTrailingCommas(input[index..], if inString then InString(escaped) else Code)
             == WithoutTrailingCommas(input, Code)
      invariant !inString ==> !escaped
    {
      var character := input[index];
      ghost var rest := input[index..];
      assert rest[1..] == input[index + 1..];
      if inString {
        Moved(output, character, WithoutTrailingCommas(rest[1..], AfterStringChar(character, escaped)));
        output := output + [character];
        if escaped {
          escaped := false;
        } else if character == '\\' {
          escaped := true;
        } else if character == '"' {
          inString := false;
        }
        continue;
      }
      if character == '"' {
        Moved(output, character, WithoutTrailingCommas(rest[1..], InString(false)));
        inString := true;
        output := output + [character];
        continue;
      }
      if character == ',' {
        var next := FindSolid(input, index + 1);
        if IsCloser(next) {
          continue;
        }
      }
      Moved(output, character, WithoutTrailingCommas(rest[1..], Code));
      output := output + [character];
    }
  }

  // ---- Properties of every text ----

  /** Removing comments twice is removing them once, from any lexer state. */
  lemma {:induction false} CommentsGoneForGood(rest: string, mode: Mode)
    ensures var out := WithoutComments(rest, mode);
      WithoutComments(out, if mode.InString? then mode else Code) == out
    decreases |rest|
  {
    if rest != [] {
      var c := rest[0];
      var out := WithoutComments(rest, mode);
      match mode {
        case InString(escaped) =>
          CommentsGoneForGood(rest[1..], AfterStringChar(c, escaped));
          assert out[1..] == WithoutComments(rest[1..], AfterStringChar(c, escaped));
        case Code =>
          if c == '"' {
            CommentsGoneForGood(rest[1..], InString(false));
            assert out[1..] == WithoutComments(rest[1..], InString(false));
          } else if c == '/' && |rest| > 1 && rest[1] == '/' {
            CommentsGoneForGood(rest[2..], InLine);
          } else if c == '/' && |rest| > 1 && rest[1] == '*' {
            CommentsGoneForGood(rest[2..], InBlock('\0'));
          } else {
            CommentsGoneForGood(rest[1..], Code);
            assert out[1..] == WithoutComments(rest[1..], Code);
            assert c == '/' && |out| > 1 ==> out[1] == rest[1];
          }
        case InLine =>
          CommentsGoneForGood(rest[1..], if c == '\n' then Code else InLine);
          assert c == '\n' ==> out[1..] == WithoutComments(rest[1..], Code);
        case InBlock(previous) =>
          var after := if previous == '*' && c == '/' then Code else InBlock(c);
          CommentsGoneForGood(rest[1..], after);
          assert c == '\n' ==> out[1..] == WithoutComments(rest[1..], after);
          assert c != '\n' ==> out == WithoutComments(rest[1..], after);
      }
    }
  }

  function Newlines(s: string): string {
    if s == [] then [] else (if s[0] == '\n' then "\n" else "") + Newlines(s[1..])
  }

  /** Removing comments removes no line break, so line numbers stay what they were. */
  lemma {:induction false} CommentsKeepNewlines(rest: string, mode: Mode)
    ensures |Newlines(WithoutComments(rest, mode))| == |Newlines(rest)|
    decreases |rest|
  {
    if rest != [] {
      var c := rest[0];
      var out := WithoutComments(rest, mode);
      if mode.Code? && c == '/' && |rest| > 1 && (rest[1] == '/' || rest[1] == '*') {
        CommentsKeepNewlines(rest[2..], if rest[1] == '/' then InLine else InBlock('\0'));
        assert rest[1..][1..] == rest[2..];
      } else {
        var after := match mode
          case InString(escaped) => AfterStringChar(c, escaped)
          case Code => if c == '"' then InString(false) else Code
          case InLine => if c == '\n' then Code else InLine
          case InBlock(previous) => if previous == '*' && c == '/' then Code else InBlock(c);
        CommentsKeepNewlines(rest[1..], after);
        if out == [c] + WithoutComments(rest[1..], after) {
          assert out[1..] == WithoutComments(rest[1..], after);
        } else {
          assert out == WithoutComments(rest[1..], after);
        }
      }
    }
  }

  // ---- Texts built from tokens, whitespace and comments ----

  /** A piece of source text. Words are the tokens other than strings and commas. */
  datatype Piece =
    | Str(body: string)
    | Word(text: string)
    | Comma
    | Space(text: string)
    | LineComment(text: string, closed: bool)
    | BlockComment(text: string)

  /** A string body never closes the string before its end and does not end inside an escape. */
  predicate IsBody(body: string, escaped: bool) {
    if body == [] then !escaped
    else AfterStringChar(body[0], escaped).InString? && IsBody(body[1..], AfterStringChar(body[0], escaped).escaped)
  }

  predicate IsWordChar(c: char) {
    !IsWhitespace(c) && c !in {'"', '/', ','}
  }

  predicate IsPiece(p: Piece) {
    match p
    case Str(body) => IsBody(body, false)
    case Word(text) => text != [] && forall c <- text :: IsWordChar(c)
    case Comma => true
    case Space(text) => forall c <- text :: IsWhitespace(c)
    case LineComment(text, _) => '\n' !in text
    case BlockComment(text) => forall i :: 0 <= i < |text| - 1 ==> !(text[i] == '*' && text[i + 1] == '/')
  }

  /** Only the last piece may be a line comment that the end of the text closes. */
  predicate IsSource(ps: seq<Piece>) {
    ps != [] ==> IsPiece(ps[0]) && (ps[0].LineComment? && !ps[0].closed ==> |ps| == 1) && IsSource(ps[1..])
  }

  function Shown(p: Piece): string {
    match p
    case Str(body) => "\"" + body + "\""
    case Word(text) => text
    case Comma => ","
    case Space(text) => text
    case LineComment(text, closed) => "//" + text + (if closed then "\n" else "")
    case BlockComment(text) => "/*" + text + "*/"
  }

  function Render(ps: seq<Piece>): string {
    if ps == [] then [] else Shown(ps[0]) + Render(ps[1..])
  }

  /** Comments become their line breaks. */
  function Erased(p: Piece): Piece {
    match p
    case LineComment(_, closed) => Space(if closed then "\n" else "")
    case BlockComment(text) => Space(Newlines(text))
    case _ => p
  }

  function Erase(ps: seq<Piece>): seq<Piece> {
    if ps == [] then [] else [Erased(ps[0])] + Erase(ps[1..])
  }

  predicate IsToken(p: Piece) {
    p.Str? || p.Word? || p.Comma?
  }

  function Tokens(ps: seq<Piece>): seq<Piece> {
    if ps == [] then [] else (if IsToken(ps[0]) then [ps[0]] else []) + Tokens(ps[1..])
  }

  predicate IsTrailing(comma: Piece, following: seq<Piece>) {
    comma.Comma? && following != [] && following[0].Word? && IsCloser(NextSolid(following[0].text))
  }

  /** A token list without the commas whose next token is a closing brace or bracket. */
  function Pruned(tokens: seq<Piece>): seq<Piece> {
    if tokens == [] then []
    else (if IsTrailing(tokens[0], tokens[1..]) then [] else [tokens[0]]) + Pruned(tokens[1..])
  }

  /** The same commas dropped from a text, everything else kept in place. */
  function PrunedSource(ps: seq<Piece>): seq<Piece> {
    if ps == [] then []
    else (if IsTrailing(ps[0], Tokens(ps[1..])) then [] else [ps[0]]) + PrunedSource(ps[1..])
  }

  lemma {:induction false} PlainKept(text: string, rest: string)
    requires '"' !in text && '/' !in text
    ensures WithoutComments(text + rest, Code) == text + WithoutComments(rest, Code)
  {
    if text == [] {
      assert text + rest == rest;
    } else {
      assert (text + rest)[1..] == text[1..] + rest;
      PlainKept(text[1..], rest);
    }
  }

  lemma {:induction false} StringKept(body: string, escaped: bool, rest: string)
    requires IsBody(body, escaped)
    ensures WithoutComments(body + "\"" + rest, InString(escaped)) == body + "\"" + WithoutComments(rest, Code)
    ensures WithoutTrailingCommas(body + "\"" + rest, InString(escaped)) == body + "\"" + WithoutTrailingCommas(rest, Code)
    decreases body
  {
    var line := body + "\"" + rest;
    if body == [] {
      assert line[1..] == rest;
    } else {
      assert line[1..] == body[1..] + "\"" + rest;
      StringKept(body[1..], AfterStringChar(body[0], escaped).escaped, rest);
    }
  }

  lemma StringPiece(body: string, rest: string)
    requires IsBody(body, false)
    ensures WithoutComments(Shown(Str(body)) + rest, Code) == Shown(Str(body)) + WithoutComments(rest, Code)
    ensures WithoutTrailingCommas(Shown(Str(body)) + rest, Code) == Shown(Str(body)) + WithoutTrailingCommas(rest, Code)
  {
    StringKept(body, false, rest);
    Quoted(body, rest);
    OpenString(body + "\"" + rest);
    Quoted(body, WithoutComments(rest, Code));
    Quoted(body, WithoutTrailingCommas(rest, Code));
    hide WithoutComments, WithoutTrailingCommas, Shown, IsBody;
  }

  lemma OpenString(tail: string)
    ensures WithoutComments("\"" + tail, Code) == "\"" + WithoutComments(tail, InString(false))
    ensures WithoutTrailingCommas("\"" + tail, Code) == "\"" + WithoutTrailingCommas(tail, InString(false))
  {
    assert ("\"" + tail)[1..] == tail;
  }

  lemma OpenComment(tail: string)
    ensures WithoutComments("//" + tail, Code) == WithoutComments(tail, InLine)
    ensures WithoutComments("/*" + tail, Code) == WithoutComments(tail, InBlock('\0'))
  {
    assert ("//" + tail)[2..] == tail && ("/*" + tail)[2..] == tail;
  }

  lemma Quoted(body: string, rest: string)
    ensures "\"" + (body + "\"" + rest) == Shown(Str(body)) + rest
  {
  }

  lemma {:induction false} LineCommentErased(text: string, rest: string)
    requires '\n' !in text
    ensures WithoutComments(text + "\n" + rest, InLine) == "\n" + WithoutComments(rest, Code)
    ensures WithoutComments(text, InLine) == []
    decreases text
  {
    var line := text + "\n" + rest;
    if text == [] {
      assert line[1..] == rest;
    } else {
      assert line[1..] == text[1..] + "\n" + rest;
      LineCommentErased(text[1..], rest);
    }
  }

  lemma {:induction false} BlockCommentErased(text: string, previous: char, rest: string)
    requires IsPiece(BlockComment(text))
    requires previous == '*' && text != [] ==> text[0] != '/'
    ensures WithoutComments(text + "*/" + rest, InBlock(previous)) == Newlines(text) + WithoutComments(rest, Code)
    decreases text
  {
    var line := text + "*/" + rest;
    if text == [] {
      assert line[0] == '*' && line[1..] == "/" + rest;
      assert line[1..][1..] == rest;
    } else {
      assert line[1..] == text[1..] + "*/" + rest;
      assert IsPiece(BlockComment(text[1..])) by {
        forall i | 0 <= i < |text[1..]| - 1 ensures !(text[1..][i] == '*' && text[1..][i + 1] == '/') {
          assert text[1..][i] == text[i + 1] && text[1..][i + 1] == text[i + 1 + 1];
        }
      }
      assert text[0] == '*' && |text| > 1 ==> text[0 + 1] != '/';
      BlockCommentErased(text[1..], text[0], rest);
    }
  }

  lemma PieceErased(p: Piece, rest: string)
    requires IsPiece(p) && (p.LineComment? && !p.closed ==> rest == [])
    ensures WithoutComments(Shown(p) + rest, Code) == Shown(Erased(p)) + WithoutComments(rest, Code)
  {
    var line := Shown(p) + rest;
    match p {
      case Str(body) =>
        StringPiece(body, rest);
      case LineComment(text, closed) =>
        var tail := if closed then text + "\n" + rest else text;
        assert line == "//" + tail;
        OpenComment(tail);
        LineCommentErased(text, rest);
        assert !closed ==> WithoutComments(rest, Code) == [];
        hide WithoutComments;
      case BlockComment(text) =>
        assert line == "/*" + (text + "*/" + rest);
        OpenComment(text + "*/" + rest);
        BlockCommentErased(text, '\0', rest);
        hide WithoutComments;
      case Word(text) => PlainKept(text, rest);
      case Comma => PlainKept(",", rest);
      case Space(text) => PlainKept(text, rest);
    }
  }

  lemma {:induction false} NewlinesAreSpace(text: string)
    ensures forall c <- Newlines(text) :: IsWhitespace(c)
  {
    if text != [] {
      NewlinesAreSpace(text[1..]);
    }
  }

  predicate IsCommentFree(ps: seq<Piece>) {
    forall p <- ps :: IsToken(p) || p.Space?
  }

  lemma {:induction false} SourceErased(ps: seq<Piece>)
    requires IsSource(ps)
    ensures WithoutComments(Render(ps), Code) == Render(Erase(ps))
    ensures IsSource(Erase(ps)) && IsCommentFree(Erase(ps)) && Tokens(Erase(ps)) == Tokens(ps)
  {
    if ps != [] {
      PieceErased(ps[0], Render(ps[1..]));
      SourceErased(ps[1..]);
      if ps[0].BlockComment? {
        NewlinesAreSpace(ps[0].text);
      }
      assert Erase(ps)[1..] == Erase(ps[1..]);
    }
  }

  lemma {:induction false} CommaFreeKept(text: string, rest: string)
    requires '"' !in text && ',' !in text
    ensures WithoutTrailingCommas(text + rest, Code) == text + WithoutTrailingCommas(rest, Code)
  {
    if text == [] {
      assert text + rest == rest;
    } else {
      assert (text + rest)[1..] == text[1..] + rest;
      CommaFreeKept(text[1..], rest);
    }
  }

  lemma {:induction false} SolidAfterSpace(text: string, rest: string)
    requires forall c <- text :: IsWhitespace(c)
    ensures NextSolid(text + rest) == NextSolid(rest)
  {
    if text == [] {
      assert text + rest == rest;
    } else {
      assert (text + rest)[1..] == text[1..] + rest;
      SolidAfterSpace(text[1..], rest);
    }
  }

  /** The next solid character belongs to the next token. */
  lemma {:induction false} CloserIsNextToken(ps: seq<Piece>)
    requires IsSource(ps) && IsCommentFree(ps)
    ensures IsCloser(NextSolid(Render(ps))) <==> IsTrailing(Comma, Tokens(ps))
  {
    if ps != [] {
      var rest := Render(ps[1..]);
      if ps[0].Space? {
        SolidAfterSpace(ps[0].text, rest);
        CloserIsNextToken(ps[1..]);
      } else {
        assert Tokens(ps)[0] == ps[0];
        assert ps[0].Word? ==> ps[0].text[0] in ps[0].text && NextSolid(ps[0].text) == Some(ps[0].text[0]);
        assert Shown(ps[0]) != [] && Render(ps)[0] == Shown(ps[0])[0];
      }
    }
  }

  lemma {:induction false} CommasPruned(ps: seq<Piece>)
    requires IsSource(ps) && IsCommentFree(ps)
    ensures WithoutTrailingCommas(Render(ps), Code) == Render(PrunedSource(ps))
    ensures Tokens(PrunedSource(ps)) == Pruned(Tokens(ps))
  {
    if ps != [] {
      var p := ps[0];
      var rest := Render(ps[1..]);
      CommasPruned(ps[1..]);
      PrunedHead(ps);
      TokensHead(ps);
      CommaStep(p, ps[1..]);
      hide Render, Tokens, Pruned, PrunedSource, WithoutTrailingCommas, IsSource, Shown;
    }
  }

  lemma TokensHead(ps: seq<Piece>)
    requires ps != []
    ensures var tokens := Tokens(ps[1..]);
      if !IsToken(ps[0]) then Tokens(ps) == tokens
      else if IsTrailing(ps[0], tokens) then Pruned(Tokens(ps)) == Pruned(tokens)
      else Pruned(Tokens(ps)) == [ps[0]] + Pruned(tokens)
  {
    if IsToken(ps[0]) {
      assert Tokens(ps)[0] == ps[0] && Tokens(ps)[1..] == Tokens(ps[1..]);
    }
  }

  lemma CommaStep(p: Piece, ps: seq<Piece>)
    requires IsPiece(p) && (IsToken(p) || p.Space?) && IsSource(ps) && IsCommentFree(ps)
    ensures WithoutTrailingCommas(Shown(p) + Render(ps), Code)
         == (if IsTrailing(p, Tokens(ps)) then "" else Shown(p)) + WithoutTrailingCommas(Render(ps), Code)
  {
    var line := Shown(p) + Render(ps);
    hide Tokens;
    match p {
      case Str(body) =>
        StringPiece(body, Render(ps));
      case Word(text) => CommaFreeKept(text, Render(ps));
      case Space(text) => CommaFreeKept(text, Render(ps));
      case Comma =>
        CloserIsNextToken(ps);
        assert line[1..] == Render(ps);
    }
  }

  lemma PrunedHead(ps: seq<Piece>)
    requires ps != []
    ensures var kept := PrunedSource(ps[1..]);
      if IsTrailing(ps[0], Tokens(ps[1..])) then PrunedSource(ps) == kept
      else (Render(PrunedSource(ps)) == Shown(ps[0]) + Render(kept)
        && Tokens(PrunedSource(ps)) == (if IsToken(ps[0]) then [ps[0]] else []) + Tokens(kept))
  {
    if !IsTrailing(ps[0], Tokens(ps[1..])) {
      assert PrunedSource(ps)[1..] == PrunedSource(ps[1..]);
    }
  }

  /** Both passes on a text made of pieces: each comment becomes its line breaks, each comma in
      front of a closing piece goes, and everything else stays in its place. */
  lemma NormalisationKeepsPieces(ps: seq<Piece>) returns (out: seq<Piece>)
    requires IsSource(ps)
    ensures WithoutTrailingCommas(WithoutComments(Render(ps), Code), Code) == Render(out)
    ensures out == PrunedSource(Erase(ps))
    ensures Tokens(out) == Pruned(Tokens(ps))
  {
    SourceErased(ps);
    CommasPruned(Erase(ps));
    out := PrunedSource(Erase(ps));
  }
}
