/** Comparing the versions of the application. */
module Versions {
  import opened Text

  // ---- Parsing ----

  /** A version: its three numbers, and the identifiers of its pre-release part, if any. */
  datatype Version = Version(core: seq<nat>, prerelease: seq<string>)

  predicate IsDigit(c: char) {
    '0' <= c <= '9'
  }

  predicate IsNumeric(s: string) {
    s != [] && forall c <- s :: IsDigit(c)
  }

  /** The characters of pre-release and build parts. */
  predicate IsSuffixChar(c: char) {
    IsDigit(c) || IsAsciiAlphabetic(c) || c == '-' || c == '.'
  }

  predicate IsSuffix(s: string) {
    s != [] && forall c <- s :: IsSuffixChar(c)
  }

  /** The number a text of digits denotes. */
  function Decimal(digits: string): nat
    requires forall c <- digits :: IsDigit(c)
  {
    if digits == [] then 0
    else
      var last := digits[|digits| - 1];
      assert IsDigit(last);
      10 * Decimal(digits[..|digits| - 1]) + (last as int - '0' as int)
  }

  function WithoutLeading(s: string): string {
    if s != [] && IsEcmascriptWhitespace(s[0]) then WithoutLeading(s[1..]) else s
  }

  function WithoutTrailing(s: string): string {
    if s != [] && IsEcmascriptWhitespace(s[|s| - 1]) then WithoutTrailing(s[..|s| - 1]) else s
  }

  /** The text without surrounding white space and without the letter in front. */
  function Normalized(value: string): string {
    var trimmed := WithoutTrailing(WithoutLeading(value));
    if trimmed != [] && (trimmed[0] == 'v' || trimmed[0] == 'V') then trimmed[1..] else trimmed
  }

  /** The text before the first occurrence of a character, and the text after it, if it occurs. */
  function Cut(s: string, c: char): (string, Option<string>) {
    match SplitOnce(s, c)
    case None => (s, None)
    case Some((left, right)) => (left, Some(right))
  }

  function ParseNormalized(text: string): Option<Version> {
    var (rest, build) := Cut(text, '+');
    var (core, prerelease) := Cut(rest, '-');
    var numbers := Split(core, '.');
    if |numbers| == 3 && IsNumeric(numbers[0]) && IsNumeric(numbers[1]) && IsNumeric(numbers[2])
       && (prerelease.Some? ==> IsSuffix(prerelease.value)) && (build.Some? ==> IsSuffix(build.value)) then
      Some(Version([Decimal(numbers[0]), Decimal(numbers[1]), Decimal(numbers[2])],
                   if prerelease.Some? then Split(prerelease.value, '.') else []))
    else None
  }

  function Parse(value: string): Option<Version> {
    ParseNormalized(Normalized(value))
  }

  // ---- The grammar ----

  /** The captures of the version pattern. */
  datatype Match = Match(major: string, minor: string, patch: string, prerelease: Option<string>, build: Option<string>)

  predicate IsMatch(m: Match) {
    && IsNumeric(m.major) && IsNumeric(m.minor) && IsNumeric(m.patch)
    && (m.prerelease.Some? ==> IsSuffix(m.prerelease.value)) && (m.build.Some? ==> IsSuffix(m.build.value))
  }

  function Optional(mark: char, part: Option<string>): string {
    if part.Some? then [mark] + part.value else []
  }

  function MatchText(m: Match): string {
    m.major + "." + m.minor + "." + m.patch + Optional('-', m.prerelease) + Optional('+', m.build)
  }

  function VersionOf(m: Match): Version
    requires IsMatch(m)
  {
    Version([Decimal(m.major), Decimal(m.minor), Decimal(m.patch)],
            if m.prerelease.Some? then Split(m.prerelease.value, '.') else [])
  }

  // ---- Comparing ----

  /** A number of the language, as far as its sign matters: the fractions and the precision of a
      finite one do not. */
  datatype Double = Finite(value: int) | Infinite(positive: bool) | NotANumber {
    predicate IsNegative() {
      (Finite? && value < 0) || (Infinite? && !positive)
    }

    predicate IsPositive() {
      (Finite? && value > 0) || (Infinite? && positive)
    }

    /** What the operator `<=` says of this and zero. */
    predicate IsAtMostZero() {
      IsNegative() || this == ZERO
    }

    function Minus(other: Double): Double {
      if NotANumber? || other.NotANumber? then NotANumber
      else if Finite? && other.Finite? then Finite(value - other.value)
      else if Finite? then Infinite(!other.positive)
      else if other.Finite? || positive != other.positive then this
      else NotANumber
    }
  }

  const ZERO := Finite(0)
  const BEFORE := Finite(-1)
  const AFTER := Finite(1)

  /** The doubles that digits can denote. */
  type Natural = d: Double | (d.Finite? && d.value >= 0) || d == Infinite(true) witness ZERO

  /** How the digits of a number are represented: a double is exact only up to a point, and infinite
      beyond another. */
  type Rounding = nat -> Natural

  /** A three-way comparison. */
  type Comparison<!T> = (T, T) -> Double

  ghost predicate IsOrder<T(!new)>(compare: Comparison<T>) {
    && (forall a, b :: compare(a, b).IsNegative() <==> compare(b, a).IsPositive())
    && (forall a, b :: compare(a, b).NotANumber? ==> compare(b, a).NotANumber?)
    && (forall a, b, c :: compare(a, b).IsAtMostZero() && compare(b, c).IsAtMostZero() ==> compare(a, c).IsAtMostZero())
  }

  /** A comparison that always has an answer, as that of a locale. */
  ghost predicate IsCollation(collate: Comparison<string>) {
    IsOrder(collate) && forall a, b :: !collate(a, b).NotANumber?
  }

  /** The numbers of the core are subtracted only when they differ. */
  function CompareNumbers(left: nat, right: nat, round: Rounding): Double {
    if round(left) != round(right) then round(left).Minus(round(right)) else ZERO
  }

  function CompareIdentifiers(left: string, right: string, round: Rounding, collate: Comparison<string>): Double {
    if IsNumeric(left) && IsNumeric(right) then round(Decimal(left)).Minus(round(Decimal(right)))
    else if IsNumeric(left) then BEFORE
    else if IsNumeric(right) then AFTER
    else collate(left, right)
  }

  /** Element by element, a list before its extensions. */
  function Lexicographic<T>(left: seq<T>, right: seq<T>, compare: Comparison<T>): Double
    decreases left
  {
    if left == [] && right == [] then ZERO
    else if left == [] then BEFORE
    else if right == [] then AFTER
    else if compare(left[0], right[0]) != ZERO then compare(left[0], right[0])
    else Lexicographic(left[1..], right[1..], compare)
  }

  function ComparePrereleases(left: seq<string>, right: seq<string>, round: Rounding, collate: Comparison<string>): Double {
    if left == [] && right == [] then ZERO
    else if left == [] then AFTER
    else if right == [] then BEFORE
    else Lexicographic(left, right, (a, b) => CompareIdentifiers(a, b, round, collate))
  }

  function CompareVersions(left: Version, right: Version, round: Rounding, collate: Comparison<string>): Double {
    var core := Lexicographic(left.core, right.core, (a, b) => CompareNumbers(a, b, round));
    if core != ZERO then core else ComparePrereleases(left.prerelease, right.prerelease, round, collate)
  }

  function Compare(left: string, right: string, round: Rounding, collate: Comparison<string>): Double {
    match (Parse(left), Parse(right))
    case (Some(l), Some(r)) => CompareVersions(l, r, round, collate)
    case _ => ZERO
  }

  lemma ThreeNumbers(value: string)
    ensures Parse(value).Some? ==> |Parse(value).value.core| == 3
  {
  }

  // ---- The code ----

  method CompareAppVersions(left: string, right: string, round: Rounding, collate: Comparison<string>)
    returns (result: Double)
    ensures result == Compare(left, right, round, collate)
  {
    hide Parse, CompareIdentifiers;
    var leftVersion, rightVersion := Parse(left), Parse(right);
    if leftVersion.None? || rightVersion.None? {
      return ZERO;
    }
    var l, r := leftVersion.value, rightVersion.value;
    ThreeNumbers(left);
    ThreeNumbers(right);
    ghost var numbers := (a: nat, b: nat) => CompareNumbers(a, b, round);
    for index := 0 to |l.core|
      invariant |l.core| == |r.core| == 3
      invariant Lexicographic(l.core, r.core, numbers) == Lexicographic(l.core[index..], r.core[index..], numbers)
    {
      if round(l.core[index]) != round(r.core[index]) {
        return round(l.core[index]).Minus(round(r.core[index]));
      }
      assert l.core[index..][1..] == l.core[index + 1..] && r.core[index..][1..] == r.core[index + 1..];
    }
    assert CompareVersions(l, r, round, collate) == ComparePrereleases(l.prerelease, r.prerelease, round, collate);
    if l.prerelease == [] && r.prerelease == [] {
      return ZERO;
    }
    if l.prerelease == [] {
      return AFTER;
    }
    if r.prerelease == [] {
      return BEFORE;
    }
    ghost var identifiers := (a: string, b: string) => CompareIdentifiers(a, b, round, collate);
    var longest := if |l.prerelease| >= |r.prerelease| then |l.prerelease| else |r.prerelease|;
    for index := 0 to longest
      invariant index <= |l.prerelease| && index <= |r.prerelease|
      invariant Lexicographic(l.prerelease, r.prerelease, identifiers)
             == Lexicographic(l.prerelease[index..], r.prerelease[index..], identifiers)
    {
      if index == |l.prerelease| {
        return BEFORE;
      }
      if index == |r.prerelease| {
        return AFTER;
      }
      var comparison := CompareIdentifiers(l.prerelease[index], r.prerelease[index], round, collate);
      if comparison != ZERO {
        return comparison;
      }
      assert l.prerelease[index..][1..] == l.prerelease[index + 1..];
      assert r.prerelease[index..][1..] == r.prerelease[index + 1..];
    }
    return ZERO;
  }

  // ---- Parsing and the grammar ----

  lemma CutAt(left: string, mark: char, part: Option<string>)
    requires mark !in left
    ensures Cut(left + Optional(mark, part), mark) == (left, part)
  {
    if part.Some? {
      Assoc(left, [mark], part.value);
      SplitAt(left, mark, part.value);
    } else {
      assert left + [] == left;
      SplitNowhere(left, mark);
    }
  }

  lemma {:induction false} SplitNowhere(s: string, c: char)
    requires c !in s
    ensures SplitOnce(s, c) == None && Split(s, c) == [s]
    decreases s
  {
    if s != [] {
      assert s[0] in s && forall d <- s[1..] :: d in s;
      SplitNowhere(s[1..], c);
      assert [s[0]] + s[1..] == s;
    }
  }

  lemma {:induction false} SplitFirst(left: string, c: char, right: string)
    requires c !in left
    ensures Split(left + [c] + right, c) == [left] + Split(right, c)
    decreases left
  {
    var s := left + [c] + right;
    if left == [] {
      assert s[1..] == right;
    } else {
      assert left[0] in left && forall d <- left[1..] :: d in left;
      assert s[0] == left[0] && s[1..] == left[1..] + [c] + right;
      SplitFirst(left[1..], c, right);
      assert [left[0]] + left[1..] == left;
    }
  }

  lemma {:induction false} CutParts(s: string, c: char)
    ensures var (left, part) := Cut(s, c); s == left + Optional(c, part) && c !in left
    decreases s
  {
    if s != [] && s[0] != c {
      CutParts(s[1..], c);
      var (left, part) := Cut(s[1..], c);
      assert s == [s[0]] + s[1..];
      Assoc([s[0]], left, Optional(c, part));
      assert Cut(s, c).0 == [s[0]] + left;
    }
  }

  lemma SplitInThree(a: string, b: string, d: string, c: char)
    requires c !in a && c !in b && c !in d
    ensures Split(a + [c] + b + [c] + d, c) == [a, b, d]
  {
    SplitNowhere(d, c);
    SplitFirst(b, c, d);
    SplitFirst(a, c, b + [c] + d);
    hide Split;
    assert a + [c] + b + [c] + d == a + [c] + (b + [c] + d);
  }

  /** The parts, joined again. */
  function Join(parts: seq<string>, c: char): string
    requires parts != []
  {
    if |parts| == 1 then parts[0] else parts[0] + [c] + Join(parts[1..], c)
  }

  lemma {:induction false} SplitJoins(s: string, c: char)
    ensures Join(Split(s, c), c) == s && forall part <- Split(s, c) :: c !in part
    decreases s
  {
    if s != [] {
      SplitJoins(s[1..], c);
      var parts := Split(s[1..], c);
      assert s == [s[0]] + s[1..];
      if s[0] == c {
        assert ([[]] + parts)[1..] == parts;
      } else {
        HeadJoins(s[0], parts, c);
        assert parts[0] in parts && forall part <- parts[1..] :: part in parts;
      }
    }
  }

  lemma HeadJoins(d: char, parts: seq<string>, c: char)
    requires parts != []
    ensures Join([[d] + parts[0]] + parts[1..], c) == [d] + Join(parts, c)
  {
    assert ([[d] + parts[0]] + parts[1..])[1..] == parts[1..];
    if |parts| > 1 {
      Assoc([d], parts[0], [c] + Join(parts[1..], c));
      Assoc([d] + parts[0], [c], Join(parts[1..], c));
      Assoc(parts[0], [c], Join(parts[1..], c));
    }
  }

  /** Every text of the grammar is parsed to what its captures say. */
  lemma MatchParses(m: Match)
    requires IsMatch(m)
    ensures ParseNormalized(MatchText(m)) == Some(VersionOf(m))
  {
    var core := m.major + "." + m.minor + "." + m.patch;
    var rest := core + Optional('-', m.prerelease);
    assert '.' !in m.major && '.' !in m.minor && '.' !in m.patch;
    assert '-' !in core && '+' !in core;
    assert '+' !in Optional('-', m.prerelease);
    CutAt(core, '-', m.prerelease);
    CutAt(rest, '+', m.build);
    SplitInThree(m.major, m.minor, m.patch, '.');
    hide Cut, Split, Decimal, Optional;
  }

  /** Only the texts of the grammar are parsed. */
  lemma ParseMatches(text: string) returns (m: Match)
    requires ParseNormalized(text).Some?
    ensures IsMatch(m) && MatchText(m) == text
  {
    var (rest, build) := Cut(text, '+');
    var (core, prerelease) := Cut(rest, '-');
    var numbers := Split(core, '.');
    CutParts(text, '+');
    CutParts(rest, '-');
    SplitJoins(core, '.');
    hide Cut, Split, Decimal, Optional;
    m := Match(numbers[0], numbers[1], numbers[2], prerelease, build);
    ThreeJoined(numbers, '.');
  }

  lemma ThreeJoined(parts: seq<string>, c: char)
    requires |parts| == 3
    ensures Join(parts, c) == parts[0] + [c] + parts[1] + [c] + parts[2]
  {
    assert parts[1..][1..] == [parts[2]];
    assert Join(parts[1..], c) == parts[1] + [c] + parts[2];
    hide Join;
    assert parts[0] + [c] + (parts[1] + [c] + parts[2]) == parts[0] + [c] + parts[1] + [c] + parts[2];
  }

  /** The parser accepts exactly the grammar and reads what it says; so no text has two readings. */
  lemma ParseIsGrammar(text: string, version: Version)
    ensures ParseNormalized(text) == Some(version)
       <==> exists m :: IsMatch(m) && MatchText(m) == text && VersionOf(m) == version
  {
    if ParseNormalized(text) == Some(version) {
      var m := ParseMatches(text);
      MatchParses(m);
      assert IsMatch(m) && MatchText(m) == text && VersionOf(m) == version;
    }
    if m :| IsMatch(m) && MatchText(m) == text && VersionOf(m) == version {
      MatchParses(m);
    }
  }

  // ---- Lexicographic orders ----

  lemma {:induction false} LexicographicOpposite<T(!new)>(left: seq<T>, right: seq<T>, compare: Comparison<T>)
    requires IsOrder(compare)
    ensures Lexicographic(left, right, compare).IsNegative() <==> Lexicographic(right, left, compare).IsPositive()
    ensures Lexicographic(left, right, compare).NotANumber? ==> Lexicographic(right, left, compare).NotANumber?
    decreases left
  {
    if left != [] && right != [] {
      assert compare(left[0], right[0]).IsNegative() <==> compare(right[0], left[0]).IsPositive();
      assert compare(right[0], left[0]).IsNegative() <==> compare(left[0], right[0]).IsPositive();
      assert compare(right[0], left[0]).NotANumber? <==> compare(left[0], right[0]).NotANumber?;
      LexicographicOpposite(left[1..], right[1..], compare);
    }
  }

  lemma {:induction false} LexicographicTransitive<T(!new)>(a: seq<T>, b: seq<T>, c: seq<T>, compare: Comparison<T>)
    requires IsOrder(compare)
    requires Lexicographic(a, b, compare).IsAtMostZero() && Lexicographic(b, c, compare).IsAtMostZero()
    ensures Lexicographic(a, c, compare).IsAtMostZero()
    decreases a
  {
    if a != [] && b != [] && c != [] {
      HeadsTransitive(a[0], b[0], c[0], compare);
      if compare(a[0], c[0]) == ZERO {
        LexicographicTransitive(a[1..], b[1..], c[1..], compare);
      }
    }
  }

  lemma HeadsTransitive<T(!new)>(a: T, b: T, c: T, compare: Comparison<T>)
    requires IsOrder(compare) && compare(a, b).IsAtMostZero() && compare(b, c).IsAtMostZero()
    ensures compare(a, c).IsAtMostZero()
    ensures compare(a, c) == ZERO ==> compare(a, b) == ZERO && compare(b, c) == ZERO
  {
    if compare(a, c) == ZERO {
      assert compare(c, a) == ZERO;
      assert compare(b, a).IsAtMostZero() && compare(c, b).IsAtMostZero();
    }
  }

  /** The first k elements are equal, and there the left list ends or has the lesser element. */
  ghost predicate IsBeforeAt<T>(left: seq<T>, right: seq<T>, k: nat, compare: Comparison<T>) {
    && k <= |left| && k < |right|
    && (forall i :: 0 <= i < k ==> compare(left[i], right[i]) == ZERO)
    && (k < |left| ==> compare(left[k], right[k]).IsNegative())
  }

  lemma {:induction false} LexicographicBefore<T>(left: seq<T>, right: seq<T>, k: nat, compare: Comparison<T>)
    requires IsBeforeAt(left, right, k, compare)
    ensures Lexicographic(left, right, compare).IsNegative()
    decreases k
  {
    if k > 0 {
      LexicographicBefore(left[1..], right[1..], k - 1, compare);
    }
  }

  lemma {:induction false} LexicographicFinds<T>(left: seq<T>, right: seq<T>, compare: Comparison<T>) returns (k: nat)
    requires Lexicographic(left, right, compare).IsNegative()
    ensures IsBeforeAt(left, right, k, compare)
    decreases left
  {
    k := 0;
    if left != [] && compare(left[0], right[0]) == ZERO {
      k := LexicographicFinds(left[1..], right[1..], compare);
      k := k + 1;
      forall i | 0 <= i < k ensures compare(left[i], right[i]) == ZERO {
        if i > 0 { assert left[i] == left[1..][i - 1] && right[i] == right[1..][i - 1]; }
      }
    }
  }

  lemma {:induction false} LexicographicZero<T>(left: seq<T>, right: seq<T>, compare: Comparison<T>)
    ensures Lexicographic(left, right, compare) == ZERO
       <==> |left| == |right| && forall i :: 0 <= i < |left| ==> compare(left[i], right[i]) == ZERO
    decreases left
  {
    if left != [] && right != [] {
      LexicographicZero(left[1..], right[1..], compare);
      assert forall i :: 0 < i < |left| ==> left[i] == left[1..][i - 1];
      assert forall i :: 0 < i < |right| ==> right[i] == right[1..][i - 1];
      if |left| == |right| && forall i :: 0 <= i < |left| - 1 ==> compare(left[1..][i], right[1..][i]) == ZERO {
        forall i | 0 < i < |left| ensures compare(left[i], right[i]) == ZERO {
          assert compare(left[1..][i - 1], right[1..][i - 1]) == ZERO;
        }
      }
    }
  }

  /** The first k elements are equal, and there the answer is not a number. */
  ghost predicate IsUndefinedAt<T>(left: seq<T>, right: seq<T>, k: nat, compare: Comparison<T>) {
    && k < |left| && k < |right|
    && (forall i :: 0 <= i < k ==> compare(left[i], right[i]) == ZERO)
    && compare(left[k], right[k]).NotANumber?
  }

  lemma {:induction false} LexicographicUndefined<T>(left: seq<T>, right: seq<T>, compare: Comparison<T>)
    ensures Lexicographic(left, right, compare).NotANumber? <==> exists k: nat :: IsUndefinedAt(left, right, k, compare)
    decreases left
  {
    if left != [] && right != [] {
      var l, r := left[1..], right[1..];
      if compare(left[0], right[0]) == ZERO {
        LexicographicUndefined(l, r, compare);
        assert IsUndefinedAt(left, right, 0, compare) <==> false;
        forall k: nat ensures IsUndefinedAt(left, right, k + 1, compare) <==> IsUndefinedAt(l, r, k, compare) {
          UndefinedBehind(left, right, k, compare);
        }
        if k: nat :| IsUndefinedAt(left, right, k, compare) {
          assert IsUndefinedAt(l, r, k - 1, compare);
        }
        if k: nat :| IsUndefinedAt(l, r, k, compare) {
          assert IsUndefinedAt(left, right, k + 1, compare);
        }
      } else {
        assert IsUndefinedAt(left, right, 0, compare) <==> compare(left[0], right[0]).NotANumber?;
      }
    }
  }

  lemma UndefinedBehind<T>(left: seq<T>, right: seq<T>, k: nat, compare: Comparison<T>)
    requires left != [] && right != [] && compare(left[0], right[0]) == ZERO
    ensures IsUndefinedAt(left, right, k + 1, compare) <==> IsUndefinedAt(left[1..], right[1..], k, compare)
  {
    if IsUndefinedAt(left[1..], right[1..], k, compare) {
      forall i | 0 <= i < k + 1 ensures compare(left[i], right[i]) == ZERO {
        if i > 0 { assert left[i] == left[1..][i - 1] && right[i] == right[1..][i - 1]; }
      }
    }
  }

  // ---- The sign of a comparison ----

  lemma IdentifiersAreOrdered(round: Rounding, collate: Comparison<string>)
    requires IsOrder(collate)
    ensures IsOrder((a, b) => CompareIdentifiers(a, b, round, collate))
  {
    var identifiers := (a: string, b: string) => CompareIdentifiers(a, b, round, collate);
    forall a, b
      ensures identifiers(a, b).IsNegative() <==> identifiers(b, a).IsPositive()
      ensures identifiers(a, b).NotANumber? ==> identifiers(b, a).NotANumber?
    {
      assert collate(a, b).IsNegative() <==> collate(b, a).IsPositive();
      assert collate(a, b).NotANumber? ==> collate(b, a).NotANumber?;
    }
    forall a, b, c | identifiers(a, b).IsAtMostZero() && identifiers(b, c).IsAtMostZero()
      ensures identifiers(a, c).IsAtMostZero()
    {
      IdentifiersTransitive(a, b, c, round, collate);
    }
    hide CompareIdentifiers;
  }

  lemma IdentifiersTransitive(a: string, b: string, c: string, round: Rounding, collate: Comparison<string>)
    requires IsOrder(collate)
    requires CompareIdentifiers(a, b, round, collate).IsAtMostZero() && CompareIdentifiers(b, c, round, collate).IsAtMostZero()
    ensures CompareIdentifiers(a, c, round, collate).IsAtMostZero()
  {
    hide Decimal;
    if IsNumeric(a) && IsNumeric(b) && IsNumeric(c) {
      DifferencesTransitive(round(Decimal(a)), round(Decimal(b)), round(Decimal(c)));
    }
  }

  lemma DifferencesTransitive(a: Natural, b: Natural, c: Natural)
    ensures a.Minus(b).IsAtMostZero() && b.Minus(c).IsAtMostZero() ==> a.Minus(c).IsAtMostZero()
  {
  }

  lemma NumbersAreOrdered(round: Rounding)
    ensures IsOrder((a, b) => CompareNumbers(a, b, round))
  {
  }

  /** Swapping the versions swaps the sign, and an answer that is not a number stays one. */
  lemma CompareIsAntisymmetric(left: string, right: string, round: Rounding, collate: Comparison<string>)
    requires IsOrder(collate)
    ensures Compare(left, right, round, collate).IsNegative() <==> Compare(right, left, round, collate).IsPositive()
    ensures Compare(left, right, round, collate).NotANumber? <==> Compare(right, left, round, collate).NotANumber?
    ensures Compare(left, right, round, collate) == ZERO <==> Compare(right, left, round, collate) == ZERO
  {
    hide Parse, CompareVersions, IsOrder;
    OppositeVersions(Parse(left), Parse(right), round, collate);
    OppositeVersions(Parse(right), Parse(left), round, collate);
  }

  lemma OppositeVersions(left: Option<Version>, right: Option<Version>, round: Rounding, collate: Comparison<string>)
    requires IsOrder(collate)
    ensures left.Some? && right.Some? ==>
      && (CompareVersions(left.value, right.value, round, collate).IsNegative()
          <==> CompareVersions(right.value, left.value, round, collate).IsPositive())
      && (CompareVersions(left.value, right.value, round, collate).NotANumber?
          ==> CompareVersions(right.value, left.value, round, collate).NotANumber?)
  {
    NumbersAreOrdered(round);
    IdentifiersAreOrdered(round, collate);
    if left.Some? && right.Some? {
      var l, r := left.value, right.value;
      hide CompareNumbers, CompareIdentifiers, Lexicographic, IsOrder;
      var numbers := (a: nat, b: nat) => CompareNumbers(a, b, round);
      var identifiers := (a: string, b: string) => CompareIdentifiers(a, b, round, collate);
      LexicographicOpposite(l.core, r.core, numbers);
      LexicographicOpposite(r.core, l.core, numbers);
      LexicographicOpposite(l.prerelease, r.prerelease, identifiers);
    }
  }

  lemma TransitiveVersions(a: Version, b: Version, c: Version, round: Rounding, collate: Comparison<string>)
    requires IsOrder(collate)
    requires CompareVersions(a, b, round, collate).IsAtMostZero() && CompareVersions(b, c, round, collate).IsAtMostZero()
    ensures CompareVersions(a, c, round, collate).IsAtMostZero()
  {
    NumbersAreOrdered(round);
    IdentifiersAreOrdered(round, collate);
    hide CompareNumbers, CompareIdentifiers, Lexicographic, IsOrder;
    var numbers := (x: nat, y: nat) => CompareNumbers(x, y, round);
    var identifiers := (x: string, y: string) => CompareIdentifiers(x, y, round, collate);
    LexicographicTransitive(a.core, b.core, c.core, numbers);
    if Lexicographic(a.core, c.core, numbers) == ZERO {
      LexicographicSqueezed(a.core, b.core, c.core, numbers);
      if a.prerelease != [] && c.prerelease != [] {
        LexicographicTransitive(a.prerelease, b.prerelease, c.prerelease, identifiers);
      }
    }
  }

  lemma LexicographicSqueezed<T(!new)>(a: seq<T>, b: seq<T>, c: seq<T>, compare: Comparison<T>)
    requires IsOrder(compare)
    requires Lexicographic(a, b, compare).IsAtMostZero() && Lexicographic(b, c, compare).IsAtMostZero()
    requires Lexicographic(a, c, compare) == ZERO
    ensures Lexicographic(a, b, compare) == ZERO && Lexicographic(b, c, compare) == ZERO
  {
    hide Lexicographic, IsOrder;
    LexicographicOpposite(a, b, compare);
    LexicographicOpposite(b, a, compare);
    LexicographicOpposite(b, c, compare);
    LexicographicOpposite(c, b, compare);
    LexicographicOpposite(a, c, compare);
    LexicographicOpposite(c, a, compare);
    LexicographicTransitive(b, c, a, compare);
    LexicographicTransitive(c, a, b, compare);
  }

  /** Whether comparing is transitive among some texts. */
  ghost predicate IsTransitiveOn(texts: set<string>, round: Rounding, collate: Comparison<string>) {
    forall a <- texts, b <- texts, c <- texts ::
      Compare(a, b, round, collate).IsAtMostZero() && Compare(b, c, round, collate).IsAtMostZero() ==> Compare(a, c, round, collate).IsAtMostZero()
  }

  ghost predicate AreAllEqual(texts: set<string>, round: Rounding, collate: Comparison<string>) {
    forall a <- texts, c <- texts :: Compare(a, c, round, collate) == ZERO
  }

  /** Comparing is transitive on texts that are versions. A text that is none equals every other, so
      among such texts it is transitive only if all of them are equal. */
  lemma TransitiveExactlyOnVersions(texts: set<string>, round: Rounding, collate: Comparison<string>)
    requires IsOrder(collate)
    ensures IsTransitiveOn(texts, round, collate)
       <==> (forall text <- texts :: Parse(text).Some?) || AreAllEqual(texts, round, collate)
  {
    hide CompareVersions, IsOrder, Parse;
    if forall text <- texts :: Parse(text).Some? {
      forall a <- texts, b <- texts, c <- texts
        | Compare(a, b, round, collate).IsAtMostZero() && Compare(b, c, round, collate).IsAtMostZero()
        ensures Compare(a, c, round, collate).IsAtMostZero()
      {
        TransitiveVersions(Parse(a).value, Parse(b).value, Parse(c).value, round, collate);
      }
    } else if IsTransitiveOn(texts, round, collate) {
      var odd :| odd in texts && Parse(odd).None?;
      forall a <- texts, c <- texts ensures Compare(a, c, round, collate) == ZERO {
        assert Compare(a, odd, round, collate) == ZERO && Compare(odd, c, round, collate) == ZERO;
        assert Compare(c, odd, round, collate) == ZERO && Compare(odd, a, round, collate) == ZERO;
        CompareIsAntisymmetric(a, c, round, collate);
      }
    }
  }

  // ---- Where the answer is not a number ----

  predicate IsInfinite(part: string, round: Rounding) {
    IsNumeric(part) && round(Decimal(part)).Infinite?
  }

  predicate SameCore(left: seq<nat>, right: seq<nat>, round: Rounding) {
    |left| == |right| && forall i :: 0 <= i < |left| ==> round(left[i]) == round(right[i])
  }

  /** The first k identifiers compare as equal, and the next ones are numbers beyond every double. */
  predicate MeetInfinite(left: seq<string>, right: seq<string>, k: nat, round: Rounding, collate: Comparison<string>) {
    && k < |left| && k < |right|
    && (forall i :: 0 <= i < k ==> CompareIdentifiers(left[i], right[i], round, collate) == ZERO)
    && IsInfinite(left[k], round) && IsInfinite(right[k], round)
  }

  lemma CoresAgree(left: seq<nat>, right: seq<nat>, round: Rounding)
    requires |left| == |right|
    ensures var core := Lexicographic(left, right, (a, b) => CompareNumbers(a, b, round));
      !core.NotANumber? && (core == ZERO <==> SameCore(left, right, round))
  {
    var numbers := (a: nat, b: nat) => CompareNumbers(a, b, round);
    LexicographicUndefined(left, right, numbers);
    LexicographicZero(left, right, numbers);
    hide Lexicographic;
  }

  lemma PrereleasesUndefined(left: seq<string>, right: seq<string>, round: Rounding, collate: Comparison<string>)
    requires IsCollation(collate)
    ensures Lexicographic(left, right, (a, b) => CompareIdentifiers(a, b, round, collate)).NotANumber?
       <==> exists k: nat :: MeetInfinite(left, right, k, round, collate)
  {
    var identifiers := (a: string, b: string) => CompareIdentifiers(a, b, round, collate);
    hide IsOrder, Lexicographic;
    forall k: nat ensures IsUndefinedAt(left, right, k, identifiers) <==> MeetInfinite(left, right, k, round, collate) {
    }
    LexicographicUndefined(left, right, identifiers);
  }

  /** The answer is not a number exactly when two versions with the same core have pre-releases whose
      first difference, or what would be one, is between two numbers beyond every double. */
  lemma NotANumberExactly(left: string, right: string, round: Rounding, collate: Comparison<string>)
    requires IsCollation(collate)
    ensures Compare(left, right, round, collate).NotANumber?
       <==> match (Parse(left), Parse(right))
            case (Some(l), Some(r)) =>
              SameCore(l.core, r.core, round) && exists k: nat :: MeetInfinite(l.prerelease, r.prerelease, k, round, collate)
            case _ => false
  {
    ThreeNumbers(left);
    ThreeNumbers(right);
    hide Parse, IsCollation, Lexicographic, SameCore, CompareIdentifiers, IsInfinite;
    if Parse(left).Some? && Parse(right).Some? {
      var l, r := Parse(left).value, Parse(right).value;
      CoresAgree(l.core, r.core, round);
      PrereleasesUndefined(l.prerelease, r.prerelease, round, collate);
    }
  }

  /** Whether a text is a version with a number beyond every double among its identifiers. */
  predicate HasInfinite(text: string, round: Rounding) {
    Parse(text).Some? && exists part <- Parse(text).value.prerelease :: IsInfinite(part, round)
  }

  /** A text equals itself exactly if it has no such identifier. */
  lemma EqualsItselfExactly(text: string, round: Rounding, collate: Comparison<string>)
    requires IsCollation(collate)
    ensures Compare(text, text, round, collate) == if HasInfinite(text, round) then NotANumber else ZERO
  {
    hide Parse, IsOrder;
    if Parse(text).Some? {
      var v := Parse(text).value;
      CompareIsAntisymmetric(text, text, round, collate);
      CoresAgree(v.core, v.core, round);
      var identifiers := (a: string, b: string) => CompareIdentifiers(a, b, round, collate);
      LexicographicZero(v.prerelease, v.prerelease, identifiers);
      hide Lexicographic;
      forall part <- v.prerelease ensures CompareIdentifiers(part, part, round, collate) == ZERO <==> !IsInfinite(part, round) {
        IdentifierItself(part, round, collate);
      }
      hide CompareIdentifiers, IsInfinite;
    }
  }

  lemma IdentifierItself(part: string, round: Rounding, collate: Comparison<string>)
    requires IsCollation(collate)
    ensures CompareIdentifiers(part, part, round, collate) == ZERO <==> !IsInfinite(part, round)
  {
    assert collate(part, part).IsNegative() <==> collate(part, part).IsPositive();
  }

  ghost predicate IsTotalPreorderOn(texts: set<string>, round: Rounding, collate: Comparison<string>) {
    && IsTransitiveOn(texts, round, collate)
    && forall a <- texts, c <- texts ::
         Compare(a, c, round, collate).IsAtMostZero() || Compare(c, a, round, collate).IsAtMostZero()
  }

  /** Comparing is a total preorder exactly on versions without such an identifier, and on texts that
      are all equal. */
  lemma PreorderExactlyOnVersions(texts: set<string>, round: Rounding, collate: Comparison<string>)
    requires IsCollation(collate)
    ensures IsTotalPreorderOn(texts, round, collate)
       <==> (forall text <- texts :: Parse(text).Some? && !HasInfinite(text, round)) || AreAllEqual(texts, round, collate)
  {
    TransitiveExactlyOnVersions(texts, round, collate);
    hide Compare, IsTransitiveOn, IsOrder, Parse, HasInfinite;
    forall a <- texts, c <- texts
      ensures Compare(a, c, round, collate).IsAtMostZero() || Compare(c, a, round, collate).IsAtMostZero()
         <==> !Compare(a, c, round, collate).NotANumber?
    {
      CompareIsAntisymmetric(a, c, round, collate);
    }
    forall text <- texts ensures HasInfinite(text, round) <==> Compare(text, text, round, collate).NotANumber? {
      EqualsItselfExactly(text, round, collate);
    }
    forall a <- texts, c <- texts ensures Compare(a, c, round, collate).NotANumber? ==> HasInfinite(a, round) {
      InfiniteMeets(a, c, round, collate);
    }
  }

  lemma InfiniteMeets(left: string, right: string, round: Rounding, collate: Comparison<string>)
    requires IsCollation(collate)
    ensures Compare(left, right, round, collate).NotANumber? ==> HasInfinite(left, round) && HasInfinite(right, round)
  {
    NotANumberExactly(left, right, round, collate);
    hide Compare, IsCollation, Parse, IsInfinite;
  }

  // ---- A version that does not equal itself ----

  function Power(base: nat, exponent: nat): (p: nat)
    ensures base > 0 ==> p > 0
  {
    if exponent == 0 then 1 else base * Power(base, exponent - 1)
  }

  /** What IEEE 754 makes of integers that are too large (section 4.3.1): half a unit in the last place
      beyond the largest double they round to infinity. */
  ghost predicate IsBinary64(round: Rounding) {
    forall n: nat :: round(n).Infinite? <==> n >= Power(2, 1024) - Power(2, 970)
  }

  lemma {:induction false} PowerOfSum(base: nat, m: nat, n: nat)
    ensures Power(base, m + n) == Power(base, m) * Power(base, n)
    decreases m
  {
    if m > 0 {
      PowerOfSum(base, m - 1, n);
      ProductAssociates(base, Power(base, m - 1), Power(base, n));
    }
  }

  lemma ProductAssociates(a: nat, b: nat, c: nat)
    ensures a * (b * c) == a * b * c
  {
  }

  lemma {:induction false} PowerOfProduct(base: nat, m: nat, n: nat)
    ensures Power(base, m * n) == Power(Power(base, m), n)
    decreases n
  {
    if n > 0 {
      PowerOfProduct(base, m, n - 1);
      PowerOfSum(base, m, m * (n - 1));
      assert m * n == m + m * (n - 1);
    }
  }

  lemma {:induction false} PowerMonotone(a: nat, b: nat, n: nat)
    requires a <= b
    ensures Power(a, n) <= Power(b, n)
  {
    if n > 0 {
      PowerMonotone(a, b, n - 1);
      var x, y := Power(a, n - 1), Power(b, n - 1);
      ProductsMonotone(a, b, x, y);
    }
  }

  lemma ProductsMonotone(a: nat, b: nat, x: nat, y: nat)
    requires a <= b && x <= y
    ensures a * x <= b * y
  {
    assert a * x <= a * y;
    assert a * y <= b * y;
  }

  /** A power from two others. */
  lemma PowerAgain(base: nat, m: nat, n: nat, a: nat, b: nat)
    requires Power(base, m) == a && Power(base, n) == b
    ensures Power(base, m + n) == a * b
  {
    PowerOfSum(base, m, n);
  }

  lemma PowersOfTwo()
    ensures Power(2, 1) == 2 && Power(2, 54) == 18014398509481984 && Power(2, 93) == 9903520314283042199192993792
  {
    assert Power(2, 1) == 2 && Power(2, 2) == 4;
    hide Power;
    PowerAgain(2, 2, 1, 4, 2);
    PowerAgain(2, 3, 3, 8, 8);
    PowerAgain(2, 6, 6, 64, 64);
    PowerAgain(2, 12, 12, 4096, 4096);
    PowerAgain(2, 24, 3, 16777216, 8);
    PowerAgain(2, 27, 27, 134217728, 134217728);
    PowerAgain(2, 54, 27, 18014398509481984, 134217728);
    PowerAgain(2, 81, 12, 2417851639229258349412352, 4096);
  }

  lemma PowersOfTen()
    ensures Power(10, 1) == 10 && Power(10, 28) == 10000000000000000000000000000
  {
    assert Power(10, 1) == 10 && Power(10, 2) == 100;
    hide Power;
    PowerAgain(10, 2, 1, 100, 10);
    PowerAgain(10, 3, 3, 1000, 1000);
    PowerAgain(10, 6, 1, 1000000, 10);
    PowerAgain(10, 7, 7, 10000000, 10000000);
    PowerAgain(10, 14, 14, 100000000000000, 100000000000000);
  }

  /** 10 ^ 309 is greater than 2 ^ 1024. */
  lemma LongIsLarger()
    ensures Power(10, 309) >= Power(2, 1024)
  {
    PowersOfTwo();
    PowersOfTen();
    hide Power;
    PowerOfProduct(2, 93, 11);
    PowerOfProduct(10, 28, 11);
    PowerMonotone(Power(2, 93), Power(10, 28), 11);
    PowerAgain(2, 1, 1023, 2, Power(2, 1023));
    PowerAgain(10, 1, 308, 10, Power(10, 308));
  }

  /** A number of 310 digits or more is beyond every double. */
  lemma LongIsInfinite(n: nat, round: Rounding)
    requires IsBinary64(round) && n >= 309
    ensures round(Power(10, n)).Infinite?
  {
    LongIsLarger();
    PowerOfSum(10, n - 309, 309);
    ProductsMonotone(1, Power(10, n - 309), Power(10, 309), Power(10, 309));
    hide Power;
  }

  function Zeros(n: nat): string {
    seq(n, _ => '0')
  }

  /** A pre-release identifier of digits: one and zeros. */
  function Huge(n: nat): string {
    "1" + Zeros(n)
  }

  lemma {:induction false} HugeIs(n: nat)
    ensures IsNumeric(Huge(n)) && Decimal(Huge(n)) == Power(10, n)
  {
    if n == 0 {
      assert Huge(0) == "1" && "1"[..0] == "";
    } else {
      HugeIs(n - 1);
      assert Huge(n)[..n] == Huge(n - 1) && Huge(n)[n] == '0';
    }
  }

  /** The text `1.0.0-1` and zeros. */
  function HugeVersion(n: nat): string {
    MatchText(HugeMatch(n))
  }

  function HugeMatch(n: nat): Match {
    Match("1", "0", "0", Some(Huge(n)), None)
  }

  lemma ParseHuge(n: nat)
    ensures Parse(HugeVersion(n)) == Some(Version([1, 0, 0], [Huge(n)]))
  {
    HugeIs(n);
    var m := HugeMatch(n);
    OneAndTwo();
    assert "0"[..0] == "" && Decimal("0") == 0;
    MatchParses(m);
    SplitNowhere(Huge(n), '.');
    HugeIsSolid(n);
    hide ParseNormalized, MatchText, Decimal, Huge;
  }

  lemma HugeIsSolid(n: nat)
    ensures Normalized(HugeVersion(n)) == HugeVersion(n)
  {
    var text := HugeVersion(n);
    assert text[0] == '1' && IsDigit(text[|text| - 1]);
    hide MatchText;
    assert WithoutLeading(text) == text && WithoutTrailing(text) == text;
  }

  /** Two such versions compare as no number; so neither equals itself. */
  lemma HugeIsUnequal(m: nat, n: nat, round: Rounding, collate: Comparison<string>)
    requires IsBinary64(round) && IsCollation(collate) && m >= 309 && n >= 309
    ensures Compare(HugeVersion(m), HugeVersion(n), round, collate) == NotANumber
    ensures Compare(HugeVersion(m), HugeVersion(m), round, collate) == NotANumber
  {
    hide HugeVersion, Huge, Power, Decimal, IsNumeric, Parse, Compare, IsCollation, IsBinary64, CompareIdentifiers;
    ParseHuge(m);
    ParseHuge(n);
    HugeIs(m);
    HugeIs(n);
    LongIsInfinite(m, round);
    LongIsInfinite(n, round);
    assert MeetInfinite([Huge(m)], [Huge(n)], 0, round, collate);
    assert MeetInfinite([Huge(m)], [Huge(m)], 0, round, collate);
    NotANumberExactly(HugeVersion(m), HugeVersion(n), round, collate);
    NotANumberExactly(HugeVersion(m), HugeVersion(m), round, collate);
  }

  /** The text of a release with only a major number. */
  function Release(major: string): string {
    MatchText(Match(major, "0", "0", None, None))
  }

  lemma ParseRelease(major: string)
    requires IsNumeric(major)
    ensures Parse(Release(major)) == Some(Version([Decimal(major), 0, 0], []))
  {
    var m := Match(major, "0", "0", None, None);
    MatchParses(m);
    assert "0"[..0] == "" && Decimal("0") == 0;
    ReleaseIsSolid(major);
    hide ParseNormalized, MatchText, Decimal;
  }

  lemma ReleaseIsSolid(major: string)
    requires IsNumeric(major)
    ensures Normalized(Release(major)) == Release(major)
  {
    var text := Release(major);
    assert text[0] == major[0] && major[0] in major && IsDigit(text[0]);
    assert text[|text| - 1] == '0';
    hide MatchText;
    assert WithoutLeading(text) == text && WithoutTrailing(text) == text;
  }

  lemma EmptyIsNoVersion()
    ensures Parse("") == None
  {
    assert Normalized("") == "" && Split("", '.') == [[]];
  }

  /** With a text that is no version in between, a newer version comes before an older one. */
  lemma NoVersionBreaksOrder(round: Rounding, collate: Comparison<string>)
    requires IsOrder(collate) && IsExact(round)
    ensures !IsTransitiveOn({Release("2"), "", Release("1")}, round, collate)
  {
    hide Parse, IsOrder, Decimal, Release;
    ParseRelease("1");
    ParseRelease("2");
    EmptyIsNoVersion();
    OneAndTwo();
    var two, one := Release("2"), Release("1");
    NewerIsLater([2, 0, 0], [1, 0, 0], round, collate);
    assert Compare(two, one, round, collate).IsPositive() && Compare(two, "", round, collate) == ZERO;
    assert Compare("", one, round, collate) == ZERO;
    hide Compare;
    var texts := {two, "", one};
    assert two in texts && "" in texts && one in texts;
  }

  lemma OneAndTwo()
    ensures IsNumeric("1") && IsNumeric("2") && Decimal("1") == 1 && Decimal("2") == 2
  {
    assert "1"[..0] == "" && "2"[..0] == "";
  }

  lemma NewerIsLater(newer: seq<nat>, older: seq<nat>, round: Rounding, collate: Comparison<string>)
    requires newer != [] && older != [] && older[0] < newer[0] < SAFE && IsExact(round)
    ensures CompareVersions(Version(newer, []), Version(older, []), round, collate).IsPositive()
  {
  }

  // ---- Precedence as Semantic Versioning 2.0.0 defines it in section 11 ----

  /** The numbers below which a double represents every integer. */
  const SAFE := 9007199254740992

  predicate IsSafeIdentifier(s: string) {
    IsNumeric(s) ==> Decimal(s) < SAFE
  }

  predicate IsSafe(version: Version) {
    (forall n <- version.core :: n < SAFE) && (forall part <- version.prerelease :: IsSafeIdentifier(part))
  }

  ghost predicate IsExact(round: Rounding) {
    forall n: nat :: n < SAFE ==> round(n) == Finite(n)
  }

  /** ASCII sort order. */
  ghost predicate AsciiBefore(left: string, right: string) {
    exists k: nat :: AsciiBeforeAt(left, right, k)
  }

  predicate AsciiBeforeAt(left: string, right: string, k: nat) {
    k <= |left| && k < |right| && left[..k] == right[..k] && (k < |left| ==> left[k] < right[k])
  }

  /** Identifiers of digits are compared as numbers and come before all others. */
  ghost predicate IdentifierBefore(left: string, right: string) {
    if IsNumeric(left) && IsNumeric(right) then Decimal(left) < Decimal(right)
    else if IsNumeric(left) || IsNumeric(right) then IsNumeric(left)
    else AsciiBefore(left, right)
  }

  predicate SameIdentifier(left: string, right: string) {
    if IsNumeric(left) && IsNumeric(right) then Decimal(left) == Decimal(right) else left == right
  }

  /** The first difference decides; a longer list of identifiers comes after its beginnings. */
  ghost predicate PrereleaseBeforeAt(left: seq<string>, right: seq<string>, k: nat) {
    && k <= |left| && k < |right|
    && (forall i :: 0 <= i < k ==> SameIdentifier(left[i], right[i]))
    && (k < |left| ==> IdentifierBefore(left[k], right[k]))
  }

  predicate CoreBeforeAt(left: seq<nat>, right: seq<nat>, k: nat) {
    k < |left| && k < |right| && left[k] < right[k] && forall i :: 0 <= i < k ==> left[i] == right[i]
  }

  /** A lesser core comes first, then with the same core a pre-release, then the lesser pre-release. */
  ghost predicate Precedes(left: Version, right: Version) {
    || (exists k: nat :: CoreBeforeAt(left.core, right.core, k))
    || (left.core == right.core && left.prerelease != []
        && (right.prerelease == [] || exists k: nat :: PrereleaseBeforeAt(left.prerelease, right.prerelease, k)))
  }

  ghost predicate SamePrecedence(left: Version, right: Version) {
    && left.core == right.core && |left.prerelease| == |right.prerelease|
    && forall i :: 0 <= i < |left.prerelease| ==> SameIdentifier(left.prerelease[i], right.prerelease[i])
  }

  /** A collation that sorts by ASCII. */
  ghost predicate IsAscii(collate: Comparison<string>) {
    forall a, b :: (collate(a, b).IsNegative() <==> AsciiBefore(a, b)) && (collate(a, b) == ZERO <==> a == b)
  }

  /** A double can be as assumed here. */
  lemma RoundingExists() returns (round: Rounding)
    ensures IsBinary64(round) && IsExact(round)
  {
    PowersOfTwo();
    hide Power;
    PowerAgain(2, 970, 54, Power(2, 970), 18014398509481984);
    var limit := Power(2, 1024) - Power(2, 970);
    assert limit >= SAFE;
    round := (n: nat) => if n >= limit then Infinite(true) else Finite(n);
  }

  lemma IdentifiersRefine(left: string, right: string, round: Rounding, collate: Comparison<string>)
    requires IsAscii(collate) && IsExact(round) && IsSafeIdentifier(left) && IsSafeIdentifier(right)
    ensures CompareIdentifiers(left, right, round, collate).IsNegative() <==> IdentifierBefore(left, right)
    ensures CompareIdentifiers(left, right, round, collate) == ZERO <==> SameIdentifier(left, right)
  {
  }

  lemma PrereleasesRefine(left: seq<string>, right: seq<string>, round: Rounding, collate: Comparison<string>)
    requires IsAscii(collate) && IsExact(round)
    requires (forall part <- left :: IsSafeIdentifier(part)) && (forall part <- right :: IsSafeIdentifier(part))
    ensures var identifiers := (a, b) => CompareIdentifiers(a, b, round, collate);
      && (Lexicographic(left, right, identifiers).IsNegative() <==> exists k: nat :: PrereleaseBeforeAt(left, right, k))
      && (Lexicographic(left, right, identifiers) == ZERO
          <==> |left| == |right| && forall i :: 0 <= i < |left| ==> SameIdentifier(left[i], right[i]))
  {
    var identifiers := (a: string, b: string) => CompareIdentifiers(a, b, round, collate);
    forall i | 0 <= i < |left| && i < |right|
      ensures identifiers(left[i], right[i]).IsNegative() <==> IdentifierBefore(left[i], right[i])
      ensures identifiers(left[i], right[i]) == ZERO <==> SameIdentifier(left[i], right[i])
    {
      IdentifiersRefine(left[i], right[i], round, collate);
    }
    hide CompareIdentifiers, IdentifierBefore, SameIdentifier, Lexicographic, IsAscii, IsExact;
    LexicographicZero(left, right, identifiers);
    forall k: nat ensures PrereleaseBeforeAt(left, right, k) <==> IsBeforeAt(left, right, k, identifiers) {
    }
    if Lexicographic(left, right, identifiers).IsNegative() {
      var k := LexicographicFinds(left, right, identifiers);
      assert PrereleaseBeforeAt(left, right, k);
    }
    if k: nat :| PrereleaseBeforeAt(left, right, k) {
      LexicographicBefore(left, right, k, identifiers);
    }
  }

  lemma SamePrefix<T>(left: seq<T>, right: seq<T>, k: nat)
    requires k <= |left| && k <= |right|
    ensures left[..k] == right[..k] <==> forall i :: 0 <= i < k ==> left[i] == right[i]
  {
    if left[..k] == right[..k] {
      assert forall i :: 0 <= i < k ==> left[i] == left[..k][i] && right[i] == right[..k][i];
    }
  }

  lemma CoresRefine(left: seq<nat>, right: seq<nat>, round: Rounding)
    requires IsExact(round) && |left| == |right| && (forall n <- left :: n < SAFE) && (forall n <- right :: n < SAFE)
    ensures var numbers := (a, b) => CompareNumbers(a, b, round);
      && (Lexicographic(left, right, numbers).IsNegative() <==> exists k: nat :: CoreBeforeAt(left, right, k))
      && (Lexicographic(left, right, numbers) == ZERO <==> left == right)
  {
    var numbers := (a: nat, b: nat) => CompareNumbers(a, b, round);
    forall i | 0 <= i < |left| ensures numbers(left[i], right[i]) == Finite((left[i] as int) - right[i]) {
      assert left[i] in left && right[i] in right;
    }
    hide CompareNumbers, IsExact;
    DifferencesDecide(left, right, numbers);
  }

  lemma DifferencesDecide(left: seq<nat>, right: seq<nat>, numbers: Comparison<nat>)
    requires |left| == |right| && forall i :: 0 <= i < |left| ==> numbers(left[i], right[i]) == Finite((left[i] as int) - right[i])
    ensures Lexicographic(left, right, numbers).IsNegative() <==> exists k: nat :: CoreBeforeAt(left, right, k)
    ensures Lexicographic(left, right, numbers) == ZERO <==> left == right
  {
    hide Lexicographic;
    LexicographicZero(left, right, numbers);
    forall k: nat ensures CoreBeforeAt(left, right, k) <==> IsBeforeAt(left, right, k, numbers) {
    }
    if Lexicographic(left, right, numbers).IsNegative() {
      var k := LexicographicFinds(left, right, numbers);
      assert CoreBeforeAt(left, right, k);
    }
    if k: nat :| CoreBeforeAt(left, right, k) {
      LexicographicBefore(left, right, k, numbers);
    }
  }

  /** With an ASCII collation and numbers that a double represents, the comparison is the
      precedence of Semantic Versioning. */
  lemma CompareIsPrecedence(left: string, right: string, round: Rounding, collate: Comparison<string>)
    requires IsAscii(collate) && IsExact(round)
    requires Parse(left).Some? && Parse(right).Some? && IsSafe(Parse(left).value) && IsSafe(Parse(right).value)
    ensures Compare(left, right, round, collate).IsNegative() <==> Precedes(Parse(left).value, Parse(right).value)
    ensures Compare(left, right, round, collate) == ZERO <==> SamePrecedence(Parse(left).value, Parse(right).value)
  {
    var l, r := Parse(left).value, Parse(right).value;
    assert |l.core| == |r.core|;
    CoresRefine(l.core, r.core, round);
    PrereleasesRefine(l.prerelease, r.prerelease, round, collate);
    hide Parse, Lexicographic, CompareNumbers, CompareIdentifiers, IsAscii, IsExact, CoreBeforeAt;
    assert l.core == r.core ==> !exists k: nat :: CoreBeforeAt(l.core, r.core, k);
  }

  /** Characters compared by their codes, as an ASCII collation does. */
  function AsciiCompare(left: string, right: string): Double {
    Lexicographic(left, right, (a: char, b: char) => Finite(a as int - b as int))
  }

  /** There is such a collation, and it is an order. */
  lemma AsciiCompareIsAscii()
    ensures IsAscii(AsciiCompare) && IsCollation(AsciiCompare)
  {
    var codes := (a: char, b: char) => Finite(a as int - b as int);
    assert IsOrder(codes);
    forall a, b ensures (AsciiCompare(a, b).IsNegative() <==> AsciiBefore(a, b)) && (AsciiCompare(a, b) == ZERO <==> a == b) {
      AsciiPair(a, b);
    }
    forall a, b ensures !AsciiCompare(a, b).NotANumber? {
      LexicographicUndefined(a, b, codes);
    }
    forall a, b ensures AsciiCompare(a, b).IsNegative() <==> AsciiCompare(b, a).IsPositive() {
      LexicographicOpposite(a, b, codes);
    }
    forall a, b, c | AsciiCompare(a, b).IsAtMostZero() && AsciiCompare(b, c).IsAtMostZero() ensures AsciiCompare(a, c).IsAtMostZero() {
      LexicographicTransitive(a, b, c, codes);
    }
  }

  lemma AsciiPair(a: string, b: string)
    ensures AsciiCompare(a, b).IsNegative() <==> AsciiBefore(a, b)
    ensures AsciiCompare(a, b) == ZERO <==> a == b
  {
    var codes := (x: char, y: char) => Finite(x as int - y as int);
    hide Lexicographic;
    LexicographicZero(a, b, codes);
    forall k: nat ensures AsciiBeforeAt(a, b, k) <==> IsBeforeAt(a, b, k, codes) {
      if k <= |a| && k <= |b| { SamePrefix(a, b, k); }
    }
    if AsciiCompare(a, b).IsNegative() {
      var k := LexicographicFinds(a, b, codes);
      assert AsciiBeforeAt(a, b, k);
    }
    if k: nat :| AsciiBeforeAt(a, b, k) {
      LexicographicBefore(a, b, k, codes);
    }
  }
}
