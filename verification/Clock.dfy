/** Timestamps of the trust files: the day number to calendar date conversion
    and the split of a millisecond count into date and time fields. */
module Clock {

  datatype Date = Date(year: int, month: int, day: int)

  // ---- The calendar of RFC 3339 (section 5.7 and appendix C), independent of the code ----

  predicate IsLeap(year: int) {
    year % 4 == 0 && (year % 100 != 0 || year % 400 == 0)
  }

  function DaysInMonth(year: int, month: int): int {
    if month == 2 then (if IsLeap(year) then 29 else 28)
    else if month in {4, 6, 9, 11} then 30
    else 31
  }

  predicate IsDate(d: Date) {
    1 <= d.month <= 12 && 1 <= d.day <= DaysInMonth(d.year, d.month)
  }

  const EPOCH := Date(1970, 1, 1)

  function Successor(d: Date): Date {
    if d.day < DaysInMonth(d.year, d.month) then d.(day := d.day + 1)
    else if d.month < 12 then Date(d.year, d.month + 1, 1)
    else Date(d.year + 1, 1, 1)
  }

  function YearLength(year: int): int {
    if IsLeap(year) then 366 else 365
  }

  /** Days from 1970-01-01 to January 1st of a year, counted one year at a time. */
  ghost function YearStart(year: int): int
    decreases if year < 1970 then 1970 - year else year - 1970
  {
    if year == 1970 then 0
    else if year > 1970 then YearStart(year - 1) + YearLength(year - 1)
    else YearStart(year + 1) - YearLength(year)
  }

  /** Days from January 1st to the first of a month, counted one month at a time. */
  ghost function MonthStart(year: int, month: int): int
    requires 1 <= month <= 12
  {
    if month == 1 then 0 else MonthStart(year, month - 1) + DaysInMonth(year, month - 1)
  }

  ghost function DayNumber(d: Date): int
    requires IsDate(d)
  {
    YearStart(d.year) + MonthStart(d.year, d.month) + d.day - 1
  }

  // ---- The code ----

  function CivilDate(daysSinceEpoch: int): Date {
    var shifted := daysSinceEpoch + 719_468;
    var era := shifted / 146_097;
    var dayOfEra := shifted - era * 146_097;
    var yearOfEra := YearOfEra(dayOfEra);
    var dayOfYear := dayOfEra - (365 * yearOfEra + yearOfEra / 4 - yearOfEra / 100);
    var monthPhase := (5 * dayOfYear + 2) / 153;
    var day := dayOfYear - (153 * monthPhase + 2) / 5 + 1;
    var month := monthPhase + if monthPhase < 10 then 3 else -9;
    Date(yearOfEra + era * 400 + (if month <= 2 then 1 else 0), month, day)
  }

  function YearOfEra(dayOfEra: int): int {
    (dayOfEra - dayOfEra / 1_460 + dayOfEra / 36_524 - dayOfEra / 146_096) / 365
  }

  const I64_MAX := 0x7fff_ffff_ffff_ffff

  datatype Timestamp = Timestamp(date: Date, hour: int, minute: int, second: int, millisecond: int)

  function IsoFields(millis: nat): Timestamp {
    var seconds := if millis / 1_000 <= I64_MAX then millis / 1_000 else I64_MAX;
    var secondsOfDay := seconds % 86_400;
    Timestamp(CivilDate(seconds / 86_400), secondsOfDay / 3_600, secondsOfDay % 3_600 / 60,
              secondsOfDay % 60, millis % 1_000)
  }

  // ---- Years that start on March 1st, counted from 0000-03-01 ----

  function MarchYearStart(y: int): int {
    365 * y + y / 4 - y / 100 + y / 400
  }

  function MarchYearLength(y: int): int {
    YearLength(y + 1)
  }

  lemma MarchYearStartStep(y: int)
    ensures MarchYearStart(y + 1) == MarchYearStart(y) + MarchYearLength(y)
  {
    assert (y + 1) / 4 == y / 4 + if (y + 1) % 4 == 0 then 1 else 0;
    assert (y + 1) / 100 == y / 100 + if (y + 1) % 100 == 0 then 1 else 0;
    assert (y + 1) / 400 == y / 400 + if (y + 1) % 400 == 0 then 1 else 0;
    assert (y + 1) % 400 == 0 ==> (y + 1) % 100 == 0;
    assert (y + 1) % 100 == 0 ==> (y + 1) % 4 == 0;
  }

  /** A day of the era as century, olympiad, year and day of the year. */
  predicate EraSplit(dayOfEra: int, c: int, q: int, r: int, t: int) {
    && 0 <= c < 4 && 0 <= q < 25 && 0 <= r < 4
    && 0 <= t <= 365
    && (t == 365 ==> r == 3 && (q < 24 || c == 3))
    && dayOfEra == 36_524 * c + 1_461 * q + 365 * r + t
  }

  lemma YearOfEraIs(dayOfEra: int, c: int, q: int, r: int, t: int)
    requires EraSplit(dayOfEra, c, q, r, t)
    ensures YearOfEra(dayOfEra) == 100 * c + 4 * q + r
    ensures 0 <= dayOfEra < 146_097
  {
    var inFour := 24 * c + q + 365 * r + t;
    var a := if inFour < 1_460 then 0 else 1;
    assert dayOfEra == 1_460 * (25 * c + q) + inFour;
    assert dayOfEra / 1_460 == 25 * c + q + a;
    var inCentury := 1_461 * q + 365 * r + t;
    var b := if inCentury < 36_524 then 0 else 1;
    assert dayOfEra == 36_524 * c + inCentury;
    assert dayOfEra / 36_524 == c + b;
    var e := if dayOfEra < 146_096 then 0 else 1;
    assert dayOfEra / 146_096 == e;
    assert 0 <= t - a + b - e < 365;
    assert dayOfEra - (25 * c + q + a) + (c + b) - e == 365 * (100 * c + 4 * q + r) + (t - a + b - e);
  }

  /** The digits of a year inside its era. */
  lemma YearSplit(y: int) returns (era: int, c: int, q: int, r: int)
    ensures 0 <= c < 4 && 0 <= q < 25 && 0 <= r < 4
    ensures y == 400 * era + 100 * c + 4 * q + r
    ensures y / 4 == 100 * era + 25 * c + q && y / 100 == 4 * era + c && y / 400 == era
    ensures IsLeap(y + 1) <==> r == 3 && (q < 24 || c == 3)
  {
    era := y / 400;
    c := (y - 400 * era) / 100;
    q := (y - 400 * era - 100 * c) / 4;
    r := y - 400 * era - 100 * c - 4 * q;
    NextByFour(y, 100 * era + 25 * c + q, r);
    NextByHundred(y, 4 * era + c, 4 * q + r);
    NextByFourHundred(y, era, 100 * c + 4 * q + r);
  }

  /** A number is divisible exactly if the one before it has the largest remainder. */
  lemma NextByFour(y: int, quotient: int, remainder: int)
    requires y == 4 * quotient + remainder && 0 <= remainder < 4
    ensures y / 4 == quotient && ((y + 1) % 4 == 0 <==> remainder == 3)
  {
  }

  lemma NextByHundred(y: int, quotient: int, remainder: int)
    requires y == 100 * quotient + remainder && 0 <= remainder < 100
    ensures y / 100 == quotient && ((y + 1) % 100 == 0 <==> remainder == 99)
  {
  }

  lemma NextByFourHundred(y: int, quotient: int, remainder: int)
    requires y == 400 * quotient + remainder && 0 <= remainder < 400
    ensures y / 400 == quotient && ((y + 1) % 400 == 0 <==> remainder == 399)
  {
  }

  function PhaseDate(marchYear: int, mp: int, t: int): Date {
    Date(marchYear + (if mp >= 10 then 1 else 0), mp + (if mp < 10 then 3 else -9), t - (153 * mp + 2) / 5 + 1)
  }

  /** The code's date for day `t` of a March-based year. */
  lemma CivilDateAt(n: int, y: int, t: int)
    requires n + 719_468 == MarchYearStart(y) + t && 0 <= t < MarchYearLength(y)
    ensures CivilDate(n) == PhaseDate(y, (5 * t + 2) / 153, t)
  {
    var yearOfEra := EraOf(n, y, t);
    hide YearOfEra, MarchYearStart, MarchYearLength;
  }

  /** The era, the day in it and the year in it, as the code computes them. */
  lemma EraOf(n: int, y: int, t: int) returns (yearOfEra: int)
    requires n + 719_468 == MarchYearStart(y) + t && 0 <= t < MarchYearLength(y)
    ensures var era := (n + 719_468) / 146_097;
      var dayOfEra := n + 719_468 - era * 146_097;
      && YearOfEra(dayOfEra) == yearOfEra
      && yearOfEra + era * 400 == y
      && dayOfEra - (365 * yearOfEra + yearOfEra / 4 - yearOfEra / 100) == t
  {
    hide YearOfEra;
    var era, c, q, r := YearSplit(y);
    var dayOfEra := 36_524 * c + 1_461 * q + 365 * r + t;
    YearOfEraIs(dayOfEra, c, q, r, t);
    yearOfEra := 100 * c + 4 * q + r;
    assert yearOfEra / 4 == 25 * c + q;
    assert yearOfEra / 100 == c;
    assert n + 719_468 == 146_097 * era + dayOfEra by {
      assert MarchYearStart(y) == 365 * y + (100 * era + 25 * c + q) - (4 * era + c) + era;
    }
    hide MarchYearStart;
    assert (n + 719_468) / 146_097 == era;
  }

  lemma {:induction false} MarchYearOf(n: int) returns (y: int, t: int)
    ensures n + 719_468 == MarchYearStart(y) + t && 0 <= t < MarchYearLength(y)
    decreases if n + 719_468 < 0 then -(n + 719_468) else n + 719_468
  {
    assert MarchYearStart(0) == 0;
    hide MarchYearStart;
    if n + 719_468 == 0 {
      return 0, 0;
    } else if n + 719_468 > 0 {
      y, t := MarchYearOf(n - 1);
      MarchYearStartStep(y);
      if t + 1 < MarchYearLength(y) { t := t + 1; } else { y, t := y + 1, 0; }
    } else {
      y, t := MarchYearOf(n + 1);
      MarchYearStartStep(y - 1);
      if t > 0 { t := t - 1; } else { y, t := y - 1, MarchYearLength(y - 1) - 1; }
    }
  }

  lemma CivilDateStep(n: int)
    ensures IsDate(CivilDate(n)) && CivilDate(n + 1) == Successor(CivilDate(n))
  {
    hide CivilDate, YearOfEra, MarchYearStart;
    var y, t := MarchYearOf(n);
    CivilDateAt(n, y, t);
    var mp := (5 * t + 2) / 153;
    PhaseDateIsDate(y, mp, t);
    if t + 1 < MarchYearLength(y) {
      CivilDateAt(n + 1, y, t + 1);
      PhaseDateStep(y, mp, (5 * (t + 1) + 2) / 153, t);
    } else {
      MarchYearStartStep(y);
      CivilDateAt(n + 1, y + 1, 0);
      assert PhaseDate(y + 1, 0, 0) == Successor(PhaseDate(y, 11, t));
    }
  }

  lemma PhaseDateIsDate(y: int, mp: int, t: int)
    requires 0 <= t <= 365 && (t == 365 ==> IsLeap(y + 1)) && mp == (5 * t + 2) / 153
    ensures IsDate(PhaseDate(y, mp, t))
  {
    PhaseBounds(mp, t);
  }

  lemma PhaseBounds(mp: int, t: int)
    requires 0 <= t <= 365 && mp == (5 * t + 2) / 153
    ensures 0 <= mp < 12 && (153 * mp + 2) / 5 <= t < (153 * (mp + 1) + 2) / 5
    ensures (153 * mp + 2) / 5 == [0, 31, 61, 92, 122, 153, 184, 214, 245, 275, 306, 337][mp]
  {
    assert 153 * mp <= 5 * t + 2 < 153 * (mp + 1);
  }

  lemma PhaseDateStep(y: int, mp: int, mp': int, t: int)
    requires 0 <= t < 365 && (t == 364 ==> IsLeap(y + 1))
    requires mp == (5 * t + 2) / 153 && mp' == (5 * (t + 1) + 2) / 153
    ensures PhaseDate(y, mp', t + 1) == Successor(PhaseDate(y, mp, t))
  {
    PhaseBounds(mp, t);
    PhaseBounds(mp', t + 1);
    hide IsLeap;
  }

  lemma CivilDateOfEpoch()
    ensures CivilDate(0) == EPOCH
  {
    assert 719_468 / 146_097 == 4 && 719_468 - 4 * 146_097 == 135_080;
    assert YearOfEra(135_080) == 369;
  }

  /** Day 0 is the epoch, every day is a valid date, and the next day is its calendar successor. */
  lemma CivilDateIsGregorian(n: int)
    ensures CivilDate(0) == EPOCH
    ensures IsDate(CivilDate(n))
    ensures CivilDate(n + 1) == Successor(CivilDate(n))
  {
    CivilDateOfEpoch();
    hide CivilDate, YearOfEra;
    CivilDateStep(n);
  }

  // ---- The exact inverse ----

  lemma DayNumberOfSuccessor(d: Date)
    requires IsDate(d)
    ensures IsDate(Successor(d)) && DayNumber(Successor(d)) == DayNumber(d) + 1
  {
    YearStartStep(d.year);
    if d.month == 12 {
      MonthStartDecember(d.year);
    }
  }

  lemma YearStartStep(year: int)
    ensures YearStart(year + 1) == YearStart(year) + YearLength(year)
  {
  }

  lemma MonthStartDecember(year: int)
    ensures MonthStart(year, 12) + 31 == YearLength(year)
  {
    assert MonthStart(year, 1) == 0;
    assert MonthStart(year, 2) == 31;
    assert MonthStart(year, 3) == 31 + DaysInMonth(year, 2);
    assert MonthStart(year, 4) == MonthStart(year, 3) + 31;
    assert MonthStart(year, 5) == MonthStart(year, 4) + 30;
    assert MonthStart(year, 6) == MonthStart(year, 3) + 92;
    assert MonthStart(year, 7) == MonthStart(year, 6) + 30;
    assert MonthStart(year, 8) == MonthStart(year, 7) + 31;
    assert MonthStart(year, 9) == MonthStart(year, 6) + 92;
    assert MonthStart(year, 10) == MonthStart(year, 9) + 30;
    assert MonthStart(year, 11) == MonthStart(year, 10) + 31;
    assert MonthStart(year, 12) == MonthStart(year, 9) + 91;
  }

  lemma {:induction false} DayNumberOfCivilDate(n: int)
    ensures IsDate(CivilDate(n)) && DayNumber(CivilDate(n)) == n
    decreases if n < 0 then -n else n
  {
    hide CivilDate, YearOfEra;
    CivilDateIsGregorian(n);
    if n > 0 {
      DayNumberOfCivilDate(n - 1);
      CivilDateIsGregorian(n - 1);
      DayNumberOfSuccessor(CivilDate(n - 1));
    } else if n < 0 {
      DayNumberOfCivilDate(n + 1);
      DayNumberOfSuccessor(CivilDate(n));
    }
  }

  lemma {:induction false} MonthStartMonotone(year: int, month: int, later: int)
    requires 1 <= month < later <= 12
    ensures MonthStart(year, month) + DaysInMonth(year, month) <= MonthStart(year, later)
    decreases later
  {
    if month < later - 1 {
      MonthStartMonotone(year, month, later - 1);
    }
  }

  lemma {:induction false} YearStartMonotone(year: int, later: int)
    requires year < later
    ensures YearStart(year) + YearLength(year) <= YearStart(later)
    decreases later - year
  {
    YearStartStep(later - 1);
    if year < later - 1 {
      YearStartMonotone(year, later - 1);
    }
  }

  lemma DayOfYearBound(d: Date)
    requires IsDate(d)
    ensures YearStart(d.year) <= DayNumber(d) < YearStart(d.year) + YearLength(d.year)
  {
    MonthStartDecember(d.year);
    if d.month < 12 { MonthStartMonotone(d.year, d.month, 12); }
    if d.month > 1 { MonthStartMonotone(d.year, 1, d.month); }
  }

  predicate Earlier(d: Date, e: Date) {
    d.year < e.year || (d.year == e.year && (d.month < e.month || (d.month == e.month && d.day < e.day)))
  }

  lemma DayNumberMonotone(d: Date, e: Date)
    requires IsDate(d) && IsDate(e) && Earlier(d, e)
    ensures DayNumber(d) < DayNumber(e)
  {
    if d.year < e.year {
      DayOfYearBound(d);
      DayOfYearBound(e);
      YearStartMonotone(d.year, e.year);
    } else if d.month < e.month {
      MonthStartMonotone(d.year, d.month, e.month);
    }
  }

  /** Day numbers and calendar dates are in bijection: each conversion undoes the other. */
  lemma CivilDateInverse(d: Date, n: int)
    requires IsDate(d)
    ensures CivilDate(DayNumber(d)) == d
    ensures IsDate(CivilDate(n)) && DayNumber(CivilDate(n)) == n
  {
    DayNumberOfCivilDate(n);
    DayNumberOfCivilDate(DayNumber(d));
    var e := CivilDate(DayNumber(d));
    if Earlier(d, e) {
      DayNumberMonotone(d, e);
    } else if Earlier(e, d) {
      DayNumberMonotone(e, d);
    }
  }

  ghost function MillisOf(t: Timestamp): int
    requires IsDate(t.date)
  {
    (((DayNumber(t.date) * 24 + t.hour) * 60 + t.minute) * 60 + t.second) * 1_000 + t.millisecond
  }

  /** The fields are in range, and they give the millisecond count back exactly when its
      seconds fit the signed 64-bit count the code works with. */
  lemma IsoFieldsExact(millis: nat)
    ensures var t := IsoFields(millis);
      && IsDate(t.date) && 0 <= t.hour < 24 && 0 <= t.minute < 60 && 0 <= t.second < 60 && 0 <= t.millisecond < 1_000
      && (MillisOf(t) == millis <==> millis / 1_000 <= I64_MAX)
  {
    hide CivilDate, YearOfEra;
    var seconds := if millis / 1_000 <= I64_MAX then millis / 1_000 else I64_MAX;
    DayNumberOfCivilDate(seconds / 86_400);
    var s := seconds % 86_400;
    assert seconds == seconds / 86_400 * 86_400 + s;
    assert s == s / 3_600 * 3_600 + s % 3_600;
    assert s % 3_600 == s % 3_600 / 60 * 60 + s % 60;
    assert MillisOf(IsoFields(millis)) == seconds * 1_000 + millis % 1_000;
  }
}
