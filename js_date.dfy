/** `Date.UTC(year, month, 1, 0, 0, 0)` as ECMAScript defines it (proleptic
    Gregorian calendar, days of 86 400 000 ms, no leap seconds), for integer
    arguments. An instant is an integer number of milliseconds since
    1970-01-01T00:00:00Z. */
module JsDate {

  const MsPerDay: int := 86_400_000

  /** `Date.UTC` reads a year argument between 0 and 99 as 1900 + year. */
  function FullYear(year: int): int {
    if 0 <= year <= 99 then 1900 + year else year
  }

  predicate InLeapYear(y: int) {
    y % 4 == 0 && (y % 100 != 0 || y % 400 == 0)
  }

  function DaysInYear(y: int): int {
    if InLeapYear(y) then 366 else 365
  }

  /** ECMAScript's DayFromYear: the day number of 1 January of year `y`
      (Dafny's `/` by a positive constant is the floor the standard asks for). */
  function DayFromYear(y: int): int {
    365 * (y - 1970) + (y - 1969) / 4 - (y - 1901) / 100 + (y - 1601) / 400
  }

  /** Days of month `mn` (0 = January) of year `y`. */
  function DaysInMonth(y: int, mn: int): int
    requires 0 <= mn < 12
  {
    if mn == 1 then (if InLeapYear(y) then 29 else 28)
    else if mn == 3 || mn == 5 || mn == 8 || mn == 10 then 30
    else 31
  }

  /** Days of year `y` before the first of month `mn` (0 = January). */
  function DaysBeforeMonth(y: int, mn: int): int
    requires 0 <= mn < 12
  {
    if mn == 0 then 0 else DaysBeforeMonth(y, mn - 1) + DaysInMonth(y, mn - 1)
  }

  /** The twelve months make up the year. */
  lemma MonthsFillYear(y: int)
    ensures DaysBeforeMonth(y, 11) + DaysInMonth(y, 11) == DaysInYear(y)
  {
    var leap := if InLeapYear(y) then 1 else 0;
    assert DaysBeforeMonth(y, 1) == 31;
    assert DaysBeforeMonth(y, 2) == 59 + leap;
    assert DaysBeforeMonth(y, 3) == 90 + leap;
    assert DaysBeforeMonth(y, 4) == 120 + leap;
    assert DaysBeforeMonth(y, 5) == 151 + leap;
    assert DaysBeforeMonth(y, 6) == 181 + leap;
    assert DaysBeforeMonth(y, 7) == 212 + leap;
    assert DaysBeforeMonth(y, 8) == 243 + leap;
    assert DaysBeforeMonth(y, 9) == 273 + leap;
    assert DaysBeforeMonth(y, 10) == 304 + leap;
    assert DaysBeforeMonth(y, 11) == 334 + leap;
  }

  /** ECMAScript's MakeDay: a month outside 0..11 carries into the year, so
      month 12 of year y is January of year y + 1. */
  function MakeDay(year: int, month: int, date: int): int {
    var ym := year + month / 12;
    var mn := month % 12;
    DayFromYear(ym) + DaysBeforeMonth(ym, mn) + date - 1
  }

  /** `Date.UTC(year, month, 1, 0, 0, 0)`: the first instant of the month. */
  function UtcMonthStart(year: int, month: int): int {
    MakeDay(FullYear(year), month, 1) * MsPerDay
  }

  /** Consecutive years are DaysInYear apart. */
  lemma DayFromYearStep(y: int)
    ensures DayFromYear(y + 1) == DayFromYear(y) + DaysInYear(y)
  {
    QuadrennialStep(y);
    CenturyStep(y);
    QuadricentennialStep(y);
    DivisorsOfLeapRule(y);
    var step := ((y - 1968) / 4 - (y - 1969) / 4) - ((y - 1900) / 100 - (y - 1901) / 100)
                + ((y - 1600) / 400 - (y - 1601) / 400);
    assert DayFromYear(y + 1) - DayFromYear(y) == 365 + step;
    assert step == if InLeapYear(y) then 1 else 0;
  }

  /** Every fourth century is a century, and every century a fourth year. */
  lemma DivisorsOfLeapRule(y: int)
    ensures y % 400 == 0 ==> y % 100 == 0
    ensures y % 100 == 0 ==> y % 4 == 0
  {
    if y % 400 == 0 {
      FourthCenturyIsCentury(y);
    }
    if y % 100 == 0 {
      CenturyIsFourthYear(y);
    }
  }

  lemma FourthCenturyIsCentury(y: int)
    requires y % 400 == 0
    ensures y % 100 == 0
  {
    var k := y / 400;
    assert y == 400 * k;
    assert y == 100 * (4 * k) + 0;
  }

  lemma CenturyIsFourthYear(y: int)
    requires y % 100 == 0
    ensures y % 4 == 0
  {
    var k := y / 100;
    assert y == 100 * k;
    assert y == 4 * (25 * k) + 0;
  }

  /** The leap-day terms of DayFromYear grow by one exactly in the years the
      Gregorian rule names: every fourth year, less centuries, plus every
      fourth century. */
  lemma QuadrennialStep(y: int)
    ensures (y - 1968) / 4 - (y - 1969) / 4 == if y % 4 == 0 then 1 else 0
  {
  }

  lemma CenturyStep(y: int)
    ensures (y - 1900) / 100 - (y - 1901) / 100 == if y % 100 == 0 then 1 else 0
  {
  }

  lemma QuadricentennialStep(y: int)
    ensures (y - 1600) / 400 - (y - 1601) / 400 == if y % 400 == 0 then 1 else 0
  {
  }

  lemma MakeDayWithinYear(year: int, mn: int)
    requires 0 <= mn < 12
    ensures MakeDay(year, mn, 1) == DayFromYear(year) + DaysBeforeMonth(year, mn)
  {
    assert mn / 12 == 0 && mn % 12 == mn;
  }

  /** The month window [Date.UTC(y, m - 1, 1), Date.UTC(y, m, 1)) for a month
      m in 1..12 is exactly that month's days long, so never empty; for
      m = 12 its end is the first instant of the following year. */
  lemma MonthWindowLength(y: int, m: int)
    requires 1 <= m <= 12
    ensures UtcMonthStart(y, m) - UtcMonthStart(y, m - 1)
            == DaysInMonth(FullYear(y), m - 1) * MsPerDay
    ensures UtcMonthStart(y, m) - UtcMonthStart(y, m - 1) >= 28 * MsPerDay
  {
    var fy := FullYear(y);
    MakeDayWithinYear(fy, m - 1);
    if m == 12 {
      DayFromYearStep(fy);
      MonthsFillYear(fy);
      assert MakeDay(fy, 12, 1) == DayFromYear(fy + 1) by {
        assert 12 / 12 == 1 && 12 % 12 == 0;
      }
    } else {
      MakeDayWithinYear(fy, m);
    }
    var len := MakeDay(fy, m, 1) - MakeDay(fy, m - 1, 1);
    assert len == DaysInMonth(fy, m - 1);
    assert UtcMonthStart(y, m) - UtcMonthStart(y, m - 1) == len * MsPerDay;
  }

  /** December rolls over: Date.UTC(y, 12, 1) is Date.UTC(y + 1, 0, 1), for
      every year whose successor is read the same way (all but 99 and -1). */
  lemma DecemberRollsOver(y: int)
    requires y >= 100 || 0 <= y < 99 || y < -1
    ensures UtcMonthStart(y, 12) == UtcMonthStart(y + 1, 0)
  {
    assert FullYear(y + 1) == FullYear(y) + 1;
  }

  /** Month starts increase through the year, so the twelve month windows of
      a year are disjoint and in order. */
  lemma {:induction false} MonthStartsIncrease(y: int, m1: int, m2: int)
    requires 0 <= m1 < m2 <= 12
    ensures UtcMonthStart(y, m1) < UtcMonthStart(y, m2)
    decreases m2 - m1
  {
    MonthWindowLength(y, m2);
    if m1 < m2 - 1 {
      MonthStartsIncrease(y, m1, m2 - 1);
    }
  }

  /** Anchor: the first month of 1970 starts at the epoch. */
  lemma EpochMonthStart()
    ensures UtcMonthStart(1970, 0) == 0
  {
    assert FullYear(1970) == 1970;
    MakeDayWithinYear(1970, 0);
    assert DayFromYear(1970) == 0;
  }

  /** Anchor: the window of January 2026 is
      [2026-01-01T00:00:00Z, 2026-02-01T00:00:00Z). */
  lemma January2026Window()
    ensures UtcMonthStart(2026, 0) == 1_767_225_600_000
    ensures UtcMonthStart(2026, 1) == 1_769_904_000_000
  {
    assert FullYear(2026) == 2026;
    MakeDayWithinYear(2026, 0);
    MakeDayWithinYear(2026, 1);
  }

  /** Anchor: month 12 of 2026 is 2027-01-01T00:00:00Z. */
  lemma December2026WindowEnd()
    ensures UtcMonthStart(2026, 12) == 1_798_761_600_000
  {
    assert MakeDay(2026, 12, 1) == DayFromYear(2027) by {
      assert 12 / 12 == 1 && 12 % 12 == 0;
    }
    assert DayFromYear(2027) == 20_819;
    assert FullYear(2026) == 2026;
  }
}
