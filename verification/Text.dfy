/** The string operations of the Rust standard library that the modelled code uses.
    A text is a sequence of Unicode scalar values. */
module Text {

  datatype Option<+T> = None | Some(value: T) {
    predicate IsFailure() {
      None?
    }

    function PropagateFailure<U>(): Option<U>
      requires None?
    {
      None
    }

    function Extract(): T
      requires Some?
    {
      value
    }

    function GetOr(default: T): T {
      if Some? then value else default
    }
  }

  /** Rust's `char::is_whitespace`: the Unicode White_Space property. */
  predicate IsWhitespace(c: char) {
    || '\U{0009}' <= c <= '\U{000d}'
    || c in {'\U{0020}', '\U{0085}', '\U{00a0}', '\U{1680}', '\U{2028}', '\U{2029}', '\U{202f}', '\U{205f}', '\U{3000}'}
    || '\U{2000}' <= c <= '\U{200a}'
  }

  /** The white space of ECMAScript, line terminators included. */
  predicate IsEcmascriptWhitespace(c: char) {
    || '\U{0009}' <= c <= '\U{000d}'
    || c in {'\U{0020}', '\U{00a0}', '\U{1680}', '\U{2028}', '\U{2029}', '\U{202f}', '\U{205f}', '\U{3000}', '\U{feff}'}
    || '\U{2000}' <= c <= '\U{200a}'
  }

  function TrimStart(s: string): string {
    if s != [] && IsWhitespace(s[0]) then TrimStart(s[1..]) else s
  }

  function TrimEnd(s: string): string {
    if s != [] && IsWhitespace(s[|s| - 1]) then TrimEnd(s[..|s| - 1]) else s
  }

  function Trim(s: string): string {
    TrimEnd(TrimStart(s))
  }

  predicate EndsWith(s: string, suffix: string) {
    |suffix| <= |s| && s[|s| - |suffix|..] == suffix
  }

  /** Every occurrence of one character replaced by a text. */
  function Replace(s: string, from: char, to: string): string {
    if s == [] then []
    else (if s[0] == from then to else [s[0]]) + Replace(s[1..], from, to)
  }

  function AsciiLower(c: char): char {
    if 'A' <= c <= 'Z' then c - 'A' + 'a' else c
  }

  function ToAsciiLower(s: string): (r: string)
    ensures |r| == |s| && forall i :: 0 <= i < |s| ==> r[i] == AsciiLower(s[i])
  {
    seq(|s|, i requires 0 <= i < |s| => AsciiLower(s[i]))
  }

  predicate IsAsciiAlphabetic(c: char) {
    'a' <= c <= 'z' || 'A' <= c <= 'Z'
  }

  lemma Assoc(a: string, b: string, c: string)
    ensures a + (b + c) == a + b + c
  {
  }

  lemma {:induction false} ReplaceConcat(s: string, t: string, from: char, to: string)
    ensures Replace(s + t, from, to) == Replace(s, from, to) + Replace(t, from, to)
  {
    if s == [] {
      assert s + t == t;
    } else {
      assert (s + t)[1..] == s[1..] + t;
      ReplaceConcat(s[1..], t, from, to);
      Assoc(if s[0] == from then to else [s[0]], Replace(s[1..], from, to), Replace(t, from, to));
    }
  }

  /** The text after a prefix. */
  function StripPrefix(s: string, prefix: string): Option<string> {
    if prefix <= s then Some(s[|prefix|..]) else None
  }

  /** The texts around the first occurrence of a character. */
  function SplitOnce(s: string, c: char): Option<(string, string)> {
    if s == [] then None
    else if s[0] == c then Some(([], s[1..]))
    else
      var (left, right) :- SplitOnce(s[1..], c);
      Some(([s[0]] + left, right))
  }

  /** The parts between the occurrences of a character; there is always at least one. */
  function Split(s: string, c: char): (parts: seq<string>)
    ensures |parts| >= 1
  {
    if s == [] then [[]]
    else
      var parts := Split(s[1..], c);
      if s[0] == c then [[]] + parts else [[s[0]] + parts[0]] + parts[1..]
  }

  lemma {:induction false} SplitAt(left: string, c: char, right: string)
    requires c !in left
    ensures SplitOnce(left + [c] + right, c) == Some((left, right))
    decreases left
  {
    var s := left + [c] + right;
    if left == [] {
      assert s[1..] == right;
    } else {
      assert s[1..] == left[1..] + [c] + right;
      assert left[0] in left && [left[0]] + left[1..] == left;
      SplitAt(left[1..], c, right);
    }
  }

  lemma {:induction false} SplitOnceParts(s: string, c: char)
    ensures SplitOnce(s, c).None? <==> c !in s
    ensures SplitOnce(s, c).Some? ==>
      var (left, right) := SplitOnce(s, c).value; c !in left && s == left + [c] + right
  {
    if s != [] && s[0] != c { SplitOnceParts(s[1..], c); }
  }

  lemma TrimSolid(s: string)
    requires s != [] && !IsWhitespace(s[0]) && !IsWhitespace(s[|s| - 1])
    ensures Trim(s) == s
  {
  }

  lemma StripPrefixOf(prefix: string, rest: string)
    ensures StripPrefix(prefix + rest, prefix) == Some(rest)
  {
  }

  /** The position of the first line feed, or the length of the text. */
  function FindNewline(s: string): (n: nat)
    ensures n <= |s| && '\n' !in s[..n] && (n < |s| ==> s[n] == '\n')
  {
    if s == [] || s[0] == '\n' then 0
    else
      var n := FindNewline(s[1..]);
      assert s[..n + 1] == [s[0]] + s[1..][..n];
      n + 1
  }

  lemma {:induction false} FindNewlineIs(s: string, n: nat)
    requires n <= |s| && '\n' !in s[..n] && (n < |s| ==> s[n] == '\n')
    ensures FindNewline(s) == n
  {
    if n > 0 {
      assert s[0] in s[..n] && s[..n][1..] == s[1..][..n - 1];
      FindNewlineIs(s[1..], n - 1);
    }
  }
}
