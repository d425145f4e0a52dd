/** Splitting an argument line for three shells, and quoting one argument for them. */
module AgentArguments {
  import opened Text

  datatype Shell = Cmd | Posix | WindowsPs

  /** What the tokenizers carry along: finished tokens, the current one, and the open quote. */
  datatype Lexer = Lexer(tokens: seq<string>, token: string, started: bool, quote: Option<char>) {
    function Push(c: char): Lexer {
      this.(token := token + [c], started := true)
    }

    function PushToken(): Lexer {
      if started then this.(tokens := tokens + [token], token := [], started := false) else this
    }

    function Finish(): Option<seq<string>> {
      if quote.Some? then None else Some(PushToken().tokens)
    }
  }

  const START := Lexer([], [], false, None)

  // ---- Specification: the tokens of the rest of a line ----

  function PosixTokens(rest: string, s: Lexer): Option<seq<string>>
    decreases |rest|
  {
    if rest == [] then s.Finish()
    else
      var c := rest[0];
      if s.quote.Some? then
        if c == '\\' && s.quote.value == '"' && |rest| > 1 then PosixTokens(rest[2..], s.(token := s.token + [rest[1]]))
        else if c == s.quote.value then PosixTokens(rest[1..], s.(quote := None, started := true))
        else PosixTokens(rest[1..], s.(token := s.token + [c]))
      else if c == '\'' || c == '"' then PosixTokens(rest[1..], s.(quote := Some(c), started := true))
      else if c == '\\' && |rest| > 1 then PosixTokens(rest[2..], s.Push(rest[1]))
      else if IsEcmascriptWhitespace(c) then PosixTokens(rest[1..], s.PushToken())
      else PosixTokens(rest[1..], s.Push(c))
  }

  function EscapeOf(shell: Shell): char {
    if shell.Cmd? then '^' else '`'
  }

  function WindowsTokens(rest: string, shell: Shell, s: Lexer): Option<seq<string>>
    decreases |rest|
  {
    if rest == [] then s.Finish()
    else
      var c := rest[0];
      if c == EscapeOf(shell) && |rest| > 1 then WindowsTokens(rest[2..], shell, s.Push(rest[1]))
      else if s.quote.Some? then
        if c == s.quote.value then
          if shell.WindowsPs? && c == '\'' && |rest| > 1 && rest[1] == '\'' then
            WindowsTokens(rest[2..], shell, s.(token := s.token + "'"))
          else WindowsTokens(rest[1..], shell, s.(quote := None, started := true))
        else WindowsTokens(rest[1..], shell, s.Push(c))
      else if c == '\'' || c == '"' then WindowsTokens(rest[1..], shell, s.(quote := Some(c), started := true))
      else if IsEcmascriptWhitespace(c) then WindowsTokens(rest[1..], shell, s.PushToken())
      else WindowsTokens(rest[1..], shell, s.Push(c))
  }

  function Tokens(rest: string, shell: Shell, s: Lexer): Option<seq<string>> {
    if shell.Posix? then PosixTokens(rest, s) else WindowsTokens(rest, shell, s)
  }

  predicate IsCmdSpecial(c: char) {
    c in {'^', '&', '|', '<', '>', '(', ')', '%', '!', '"'}
  }

  function CmdEscaped(value: string): string {
    if value == [] then []
    else (if IsCmdSpecial(value[0]) then ['^', value[0]] else [value[0]]) + CmdEscaped(value[1..])
  }

  function Quoted(value: string, shell: Shell): string {
    match shell
    case WindowsPs => "'" + Replace(value, '\'', "''") + "'"
    case Cmd => "\"" + CmdEscaped(value) + "\""
    case Posix => "'" + Replace(value, '\'', "'\\''") + "'"
  }

  // ---- The code ----

  method Tokenize(value: string, shell: Shell) returns (r: Option<seq<string>>)
    ensures r == Tokens(value, shell, START)
  {
    if shell == Posix {
      r := TokenizePosix(value);
    } else {
      r := TokenizeWindows(value, shell);
    }
  }

  method TokenizePosix(value: string) returns (r: Option<seq<string>>)
    ensures r == PosixTokens(value, START)
  {
    var tokens: seq<string> := [];
    var token: string := [];
    var started := false;
    var quote: Option<char> := None;
    var index := 0;
    while index < |value|
      invariant 0 <= index <= |value|
      invariant PosixTokens(value, START) == PosixTokens(value[index..], Lexer(tokens, token, started, quote))
    {
      var character := value[index];
      var peek := index + 1 < |value|;
      assert value[index..][1..] == value[index + 1..];
      assert peek ==> value[index..][2..] == value[index + 2..] && value[index..][1] == value[index + 1];
      index := index + 1;
      if quote.Some? {
        if character == '\\' && quote.value == '"' && peek {
          token := token + [value[index]];
          index := index + 1;
        } else if character == quote.value {
          quote := None;
          started := true;
        } else {
          token := token + [character];
        }
      } else if character == '\'' || character == '"' {
        quote := Some(character);
        started := true;
      } else if character == '\\' && peek {
        token := token + [value[index]];
        index := index + 1;
        started := true;
      } else if IsEcmascriptWhitespace(character) {
        if started { tokens, token, started := tokens + [token], [], false; }
      } else {
        token := token + [character];
        started := true;
      }
    }
    if quote.Some? {
      return None;
    }
    if started { tokens, token, started := tokens + [token], [], false; }
    return Some(tokens);
  }

  method TokenizeWindows(value: string, shell: Shell) returns (r: Option<seq<string>>)
    ensures r == WindowsTokens(value, shell, START)
  {
    var tokens: seq<string> := [];
    var token: string := [];
    var started := false;
    var quote: Option<char> := None;
    var index := 0;
    while index < |value|
      invariant 0 <= index <= |value|
      invariant WindowsTokens(value, shell, START) == WindowsTokens(value[index..], shell, Lexer(tokens, token, started, quote))
    {
      var character := value[index];
      var escape := if shell == Cmd then '^' else '`';
      assert value[index..][1..] == value[index + 1..];
      assert index + 1 < |value| ==> value[index..][2..] == value[index + 2..] && value[index..][1] == value[index + 1];
      if character == escape && index + 1 < |value| {
        token := token + [value[index + 1]];
        started := true;
        index := index + 2;
        continue;
      }
      if quote.Some? {
        if character == quote.value {
          if shell == WindowsPs && quote.value == '\'' && index + 1 < |value| && value[index + 1] == '\'' {
            token := token + "'";
            index := index + 2;
            continue;
          }
          quote := None;
        } else {
          token := token + [character];
        }
        started := true;
      } else if character == '\'' || character == '"' {
        quote := Some(character);
        started := true;
      } else if IsEcmascriptWhitespace(character) {
        if started { tokens, token, started := tokens + [token], [], false; }
      } else {
        token := token + [character];
        started := true;
      }
      index := index + 1;
    }
    if quote.Some? {
      return None;
    }
    if started { tokens, token, started := tokens + [token], [], false; }
    return Some(tokens);
  }

  method Quote(value: string, shell: Shell) returns (quoted: string)
    ensures quoted == Quoted(value, shell)
  {
    match shell {
      case WindowsPs => quoted := "'" + Replace(value, '\'', "''") + "'";
      case Posix => quoted := "'" + Replace(value, '\'', "'\\''") + "'";
      case Cmd =>
        quoted := "\"";
        for i := 0 to |value|
          invariant quoted + CmdEscaped(value[i..]) == "\"" + CmdEscaped(value)
        {
          assert value[i..][1..] == value[i + 1..];
          if IsCmdSpecial(value[i]) {
            quoted := quoted + "^";
          }
          quoted := quoted + [value[i]];
        }
        quoted := quoted + "\"";
    }
  }

  // ---- Quoting one word, then tokenizing it ----

  predicate Survives(word: string, shell: Shell) {
    shell.WindowsPs? ==> '`' !in word
  }

  function Escaped(word: string, shell: Shell): string {
    match shell
    case WindowsPs => Replace(word, '\'', "''")
    case Cmd => CmdEscaped(word)
    case Posix => Replace(word, '\'', "'\\''")
  }

  function QuoteMark(shell: Shell): char {
    if shell.Cmd? then '"' else '\''
  }

  /** Inside the quotes, the escaped word is read back character by character up to the closing
      quote; what follows must not open with another quote, which PowerShell would fold in. */
  lemma {:induction false} TokensInsideQuotes(word: string, rest: string, shell: Shell, s: Lexer)
    requires Survives(word, shell) && s.started && s.quote == Some(QuoteMark(shell))
    requires rest != [] ==> rest[0] != '\''
    ensures Tokens(Escaped(word, shell) + [QuoteMark(shell)] + rest, shell, s)
         == Tokens(rest, shell, s.(token := s.token + word, quote := None))
    decreases word
  {
    match shell {
      case Posix => PosixInsideQuotes(word, rest, s);
      case _ => WindowsInsideQuotes(word, rest, shell, s);
    }
  }

  lemma {:induction false} PosixInsideQuotes(word: string, rest: string, s: Lexer)
    requires s.started && s.quote == Some('\'')
    ensures PosixTokens(Escaped(word, Posix) + "'" + rest, s) == PosixTokens(rest, s.(token := s.token + word, quote := None))
    decreases word
  {
    var line := Escaped(word, Posix) + "'" + rest;
    if word == [] {
      assert line[1..] == rest;
      assert s.token + word == s.token;
    } else {
      var tail := Escaped(word[1..], Posix) + "'" + rest;
      var s' := s.(token := s.token + [word[0]]);
      PosixInsideQuotes(word[1..], rest, s');
      assert s.token + word == s'.token + word[1..];
      if word[0] == '\'' {
        assert line == "'\\''" + tail;
        PosixSteppedQuote(tail, s);
      } else {
        assert line == [word[0]] + tail;
        assert line[1..] == tail;
      }
    }
  }

  /** Closing the quote, an escaped quote mark, and opening it again. */
  lemma PosixSteppedQuote(tail: string, s: Lexer)
    requires s.started && s.quote == Some('\'')
    ensures PosixTokens("'\\''" + tail, s) == PosixTokens(tail, s.(token := s.token + "'"))
  {
    var line := "'\\''" + tail;
    var closed := s.(quote := None);
    assert line[1..] == "\\''" + tail;
    assert line[1..][2..] == "'" + tail;
    assert line[1..][2..][1..] == tail;
    assert PosixTokens(line, s) == PosixTokens(line[1..], closed);
    assert PosixTokens(line[1..], closed) == PosixTokens("'" + tail, closed.Push('\''));
  }

  /** What a character does that is neither an escape nor half of a doubled quote. */
  function WindowsStep(c: char, s: Lexer): Lexer {
    if s.quote.Some? then (if c == s.quote.value then s.(quote := None, started := true) else s.Push(c))
    else if c == '\'' || c == '"' then s.(quote := Some(c), started := true)
    else if IsEcmascriptWhitespace(c) then s.PushToken()
    else s.Push(c)
  }

  predicate IsDoubledQuote(c: char, rest: string, shell: Shell, s: Lexer) {
    shell.WindowsPs? && c == '\'' && s.quote == Some(c) && rest != [] && rest[0] == '\''
  }

  lemma WindowsPair(c: char, d: char, rest: string, shell: Shell, s: Lexer)
    requires c == EscapeOf(shell) || IsDoubledQuote(c, [d], shell, s)
    requires s.quote.Some? ==> s.started
    ensures WindowsTokens([c, d] + rest, shell, s) == WindowsTokens(rest, shell, s.Push(d))
  {
    var line := [c, d] + rest;
    assert line[0] == c && line[1] == d && line[2..] == rest;
    assert IsDoubledQuote(c, [d], shell, s) ==> s.(token := s.token + "'") == s.Push(d);
  }

  lemma WindowsSingle(c: char, rest: string, shell: Shell, s: Lexer)
    requires (c != EscapeOf(shell) || rest == []) && !IsDoubledQuote(c, rest, shell, s)
    ensures WindowsTokens([c] + rest, shell, s) == WindowsTokens(rest, shell, WindowsStep(c, s))
  {
    var line := [c] + rest;
    assert line[0] == c && line[1..] == rest;
    assert rest != [] ==> line[1] == rest[0];
  }

  function EscapedChar(c: char, shell: Shell): string
    requires !shell.Posix?
  {
    if shell.WindowsPs? && c == '\'' then "''" else if shell.Cmd? && IsCmdSpecial(c) then ['^', c] else [c]
  }

  lemma Assoc(a: string, b: string, c: string, d: string)
    ensures a + b + c + d == a + (b + c + d)
  {
  }

  lemma EscapedStep(word: string, shell: Shell)
    requires word != [] && !shell.Posix?
    ensures Escaped(word, shell) == EscapedChar(word[0], shell) + Escaped(word[1..], shell)
  {
  }

  lemma {:induction false} WindowsInsideQuotes(word: string, rest: string, shell: Shell, s: Lexer)
    requires !shell.Posix? && Survives(word, shell) && s.started && s.quote == Some(QuoteMark(shell))
    requires rest != [] ==> rest[0] != '\''
    ensures WindowsTokens(Escaped(word, shell) + [QuoteMark(shell)] + rest, shell, s)
         == WindowsTokens(rest, shell, s.(token := s.token + word, quote := None))
    decreases word
  {
    hide WindowsTokens;
    var line := Escaped(word, shell) + [QuoteMark(shell)] + rest;
    if word == [] {
      assert line == [QuoteMark(shell)] + rest;
      WindowsSingle(QuoteMark(shell), rest, shell, s);
      assert s.token + word == s.token;
    } else {
      var c := word[0];
      var tail := Escaped(word[1..], shell) + [QuoteMark(shell)] + rest;
      WindowsInsideQuotes(word[1..], rest, shell, s.Push(c));
      assert s.token + word == s.Push(c).token + word[1..];
      EscapedStep(word, shell);
      assert c in word;
      Assoc(EscapedChar(c, shell), Escaped(word[1..], shell), [QuoteMark(shell)], rest);
      hide Escaped, Survives;
      assert line == EscapedChar(c, shell) + tail;
      if |EscapedChar(c, shell)| == 2 {
        var mark := if shell.Cmd? then '^' else '\'';
        assert EscapedChar(c, shell) == [mark, c];
        WindowsPair(mark, c, tail, shell, s);
      } else {
        WindowsSingle(c, tail, shell, s);
      }
    }
  }

  lemma OpenQuote(tail: string, shell: Shell, s: Lexer)
    requires s.quote.None?
    ensures Tokens([QuoteMark(shell)] + tail, shell, s)
         == Tokens(tail, shell, s.(quote := Some(QuoteMark(shell)), started := true))
  {
    assert ([QuoteMark(shell)] + tail)[1..] == tail;
  }

  lemma TokensOfQuoted(word: string, rest: string, shell: Shell, s: Lexer)
    requires Survives(word, shell) && s.quote.None? && s.token == []
    requires rest != [] ==> rest[0] != '\''
    ensures Tokens(Quoted(word, shell) + rest, shell, s) == Tokens(rest, shell, s.(token := word, started := true))
  {
    hide PosixTokens, WindowsTokens;
    var line := Quoted(word, shell) + rest;
    var tail := Escaped(word, shell) + [QuoteMark(shell)] + rest;
    assert line == [QuoteMark(shell)] + tail;
    OpenQuote(tail, shell, s);
    TokensInsideQuotes(word, rest, shell, s.(quote := Some(QuoteMark(shell)), started := true));
    assert [] + word == word;
  }

  // ---- Lines of quoted words ----

  predicate IsGap(gap: string) {
    forall c <- gap :: IsEcmascriptWhitespace(c)
  }

  /** Whitespace before, between and after the words; only the first and last gap may be empty. */
  predicate AreGaps(gaps: seq<string>, words: seq<string>) {
    && |gaps| == |words| + 1
    && (forall gap <- gaps :: IsGap(gap))
    && (forall i :: 0 < i < |words| ==> gaps[i] != [])
  }

  function QuotedLine(words: seq<string>, gaps: seq<string>, shell: Shell): string
    requires |gaps| == |words| + 1
  {
    if words == [] then gaps[0]
    else gaps[0] + Quoted(words[0], shell) + QuotedLine(words[1..], gaps[1..], shell)
  }

  lemma {:induction false} TokensOfGap(gap: string, rest: string, shell: Shell, s: Lexer)
    requires IsGap(gap) && s.quote.None?
    ensures Tokens(gap + rest, shell, s) == Tokens(rest, shell, if gap == [] then s else s.PushToken())
    decreases gap
  {
    if gap == [] {
      assert gap + rest == rest;
    } else {
      assert gap[0] in gap;
      assert (gap + rest)[1..] == gap[1..] + rest;
      TokensOfGap(gap[1..], rest, shell, s.PushToken());
    }
  }

  lemma TokensOfNothing(shell: Shell, s: Lexer)
    ensures Tokens([], shell, s) == s.Finish()
  {
  }

  lemma {:induction false} TokensOfLine(words: seq<string>, gaps: seq<string>, shell: Shell, s: Lexer)
    requires AreGaps(gaps, words) && s.quote.None? && (s.started || s.token == [])
    requires forall w <- words :: Survives(w, shell)
    requires s.started && words != [] ==> gaps[0] != []
    ensures Tokens(QuotedLine(words, gaps, shell), shell, s) == Some(s.PushToken().tokens + words)
    decreases words
  {
    hide Tokens, Quoted, IsGap;
    if words == [] {
      TokensOfNothing(shell, if gaps[0] == [] then s else s.PushToken());
      TokensOfGap(gaps[0], [], shell, s);
      assert gaps[0] + [] == gaps[0];
      assert words == [] && s.PushToken().PushToken().tokens == s.PushToken().tokens;
      assert s.PushToken().tokens + words == s.PushToken().tokens;
    } else {
      var rest := QuotedLine(words[1..], gaps[1..], shell);
      assert QuotedLine(words, gaps, shell) == gaps[0] + (Quoted(words[0], shell) + rest);
      var s1 := if gaps[0] == [] then s else s.PushToken();
      TokensOfGap(gaps[0], Quoted(words[0], shell) + rest, shell, s);
      if rest != [] {
        LineAfterWord(words[1..], gaps[1..], shell);
      }
      TokensOfQuoted(words[0], rest, shell, s1);
      var s2 := s1.(token := words[0], started := true);
      TokensOfLine(words[1..], gaps[1..], shell, s2);
      assert s.PushToken().tokens + words == s2.PushToken().tokens + words[1..];
    }
  }

  lemma LineAfterWord(words: seq<string>, gaps: seq<string>, shell: Shell)
    requires |gaps| == |words| + 1 && IsGap(gaps[0]) && (words != [] ==> gaps[0] != [])
    requires QuotedLine(words, gaps, shell) != []
    ensures QuotedLine(words, gaps, shell)[0] != '\''
  {
    assert QuotedLine(words, gaps, shell)[0] == gaps[0][0];
    assert gaps[0][0] in gaps[0];
  }

  // ---- Why PowerShell backticks are lost ----

  function Backticks(s: string): nat {
    if s == [] then 0 else (if s[0] == '`' then 1 else 0) + Backticks(s[1..])
  }

  lemma {:induction false} BackticksAppend(s: string, t: string)
    ensures Backticks(s + t) == Backticks(s) + Backticks(t)
  {
    if s == [] {
      assert s + t == t;
    } else {
      BackticksAppend(s[1..], t);
      assert (s + t)[1..] == s[1..] + t;
    }
  }

  lemma BackticksPush(s: string, c: char)
    ensures Backticks(s + [c]) == Backticks(s) + if c == '`' then 1 else 0
  {
    BackticksAppend(s, [c]);
  }

  lemma BackticksOfPair(c: char, d: char, rest: string)
    ensures Backticks([c, d] + rest) == (if c == '`' then 1 else 0) + (if d == '`' then 1 else 0) + Backticks(rest)
  {
    assert ([c, d] + rest)[1..] == [d] + rest;
    assert ([d] + rest)[1..] == rest;
  }

  lemma {:induction false} NoBackticks(s: string)
    ensures Backticks(s) == 0 <==> '`' !in s
  {
    if s != [] {
      NoBackticks(s[1..]);
      assert s == [s[0]] + s[1..];
    }
  }

  function BackticksOfAll(words: seq<string>): nat {
    if words == [] then 0 else BackticksOfAll(words[..|words| - 1]) + Backticks(words[|words| - 1])
  }

  function BackticksOf(s: Lexer): nat {
    BackticksOfAll(s.tokens) + Backticks(s.token)
  }

  lemma BackticksOfPushToken(s: Lexer)
    ensures BackticksOf(s.PushToken()) == BackticksOf(s)
    ensures BackticksOfAll(s.PushToken().tokens) <= BackticksOf(s)
  {
    var pushed := s.tokens + [s.token];
    assert pushed[..|pushed| - 1] == s.tokens;
  }

  lemma BackticksOfStep(c: char, s: Lexer)
    requires c != '`'
    ensures BackticksOf(WindowsStep(c, s)) == BackticksOf(s)
  {
    hide Backticks, BackticksOfAll, IsEcmascriptWhitespace;
    BackticksOfPushToken(s);
    BackticksPush(s.token, c);
  }

  lemma WindowsStepStarts(c: char, s: Lexer)
    requires s.quote.Some? ==> s.started
    ensures WindowsStep(c, s).quote.Some? ==> WindowsStep(c, s).started
  {
  }

  /** Every backtick in a token costs two in the line, because it is consumed inside quotes too. */
  lemma {:induction false} BackticksHalved(rest: string, s: Lexer)
    requires rest != [] ==> rest[|rest| - 1] != '`'
    requires s.quote.Some? ==> s.started
    ensures var r := WindowsTokens(rest, WindowsPs, s);
      r.Some? ==> 2 * BackticksOfAll(r.value) <= 2 * BackticksOf(s) + Backticks(rest)
    decreases |rest|
  {
    BackticksOfPushToken(s);
    if rest != [] {
      var c := rest[0];
      assert rest == [c] + rest[1..];
      if c == '`' || IsDoubledQuote(c, rest[1..], WindowsPs, s) {
        var d := rest[1];
        assert rest == [c, d] + rest[2..];
        WindowsPair(c, d, rest[2..], WindowsPs, s);
        hide WindowsTokens, BackticksOfAll, Backticks;
        BackticksHalved(rest[2..], s.Push(d));
        BackticksPush(s.token, d);
        BackticksOfPair(c, d, rest[2..]);
      } else {
        WindowsSingle(c, rest[1..], WindowsPs, s);
        assert Backticks(rest) == Backticks(rest[1..]);
        WindowsStepStarts(c, s);
        hide WindowsTokens, WindowsStep, BackticksOf, Backticks;
        BackticksHalved(rest[1..], WindowsStep(c, s));
        BackticksOfStep(c, s);
      }
    }
  }

  lemma {:induction false} BackticksOfReplace(s: string)
    ensures Backticks(Replace(s, '\'', "''")) == Backticks(s)
  {
    if s != [] {
      BackticksOfReplace(s[1..]);
      BackticksAppend(if s[0] == '\'' then "''" else [s[0]], Replace(s[1..], '\'', "''"));
    }
  }

  lemma {:induction false} BackticksOfConcat(a: seq<string>, b: seq<string>)
    ensures BackticksOfAll(a + b) == BackticksOfAll(a) + BackticksOfAll(b)
    decreases |b|
  {
    if b == [] {
      assert a + b == a;
    } else {
      assert (a + b)[..|a + b| - 1] == a + b[..|b| - 1];
      BackticksOfConcat(a, b[..|b| - 1]);
    }
  }

  lemma {:induction false} BackticksOfLine(words: seq<string>, gaps: seq<string>)
    requires AreGaps(gaps, words)
    ensures var line := QuotedLine(words, gaps, WindowsPs);
      && Backticks(line) == BackticksOfAll(words)
      && (line != [] ==> line[|line| - 1] != '`')
    decreases words
  {
    assert IsGap(gaps[0]) && '`' !in gaps[0];
    NoBackticks(gaps[0]);
    if words == [] {
      LastOfGap(gaps[0]);
    } else {
      var rest := QuotedLine(words[1..], gaps[1..], WindowsPs);
      BackticksOfLine(words[1..], gaps[1..]);
      BackticksOfReplace(words[0]);
      var quoted := Quoted(words[0], WindowsPs);
      BackticksAppend("'", Replace(words[0], '\'', "''"));
      BackticksAppend("'" + Replace(words[0], '\'', "''"), "'");
      BackticksAppend(gaps[0], quoted);
      BackticksAppend(gaps[0] + quoted, rest);
      assert quoted[|quoted| - 1] == '\'';
      assert words == [words[0]] + words[1..];
      BackticksOfConcat([words[0]], words[1..]);
      assert BackticksOfAll([words[0]][..0]) == 0;
    }
  }

  lemma LastOfGap(gap: string)
    requires IsGap(gap)
    ensures gap != [] ==> gap[|gap| - 1] != '`'
  {
    if gap != [] { assert gap[|gap| - 1] in gap; }
  }

  lemma {:induction false} SomeBacktick(words: seq<string>)
    ensures BackticksOfAll(words) == 0 <==> forall w <- words :: '`' !in w
  {
    if words != [] {
      SomeBacktick(words[..|words| - 1]);
      var last := words[|words| - 1];
      NoBackticks(last);
      assert words == words[..|words| - 1] + [words[|words| - 1]];
    }
  }

  /** Quoting a list of words and tokenizing the line gives the list back: always under Posix and
      Cmd, and under PowerShell exactly when no word contains a backtick. */
  lemma QuoteThenTokenize(words: seq<string>, gaps: seq<string>, shell: Shell)
    requires AreGaps(gaps, words)
    ensures Tokens(QuotedLine(words, gaps, shell), shell, START) == Some(words)
      <==> (shell.WindowsPs? ==> forall w <- words :: '`' !in w)
  {
    if shell.WindowsPs? ==> forall w <- words :: '`' !in w {
      TokensOfLine(words, gaps, shell, START);
      assert START.PushToken().tokens + words == words;
    } else {
      var line := QuotedLine(words, gaps, WindowsPs);
      BackticksOfLine(words, gaps);
      BackticksHalved(line, START);
      SomeBacktick(words);
    }
  }
}
