/**
 * The day arithmetic of ECMAScript's `Date.UTC(year, month, date)`, which
 * `daysIntoYear` relies on, after the abstract operations of the ECMAScript
 * language specification (ECMA-262) that `Date.UTC` is defined by: msPerDay,
 * DayFromYear, MakeDay and MakeFullYear. Years use the proleptic Gregorian
 * calendar, months are 0-based, and a date overflows into the neighbouring
 * month (date 0 is the last day of the previous month).
 *
 * Dafny's `/` and `%` with a positive divisor are floor division and the
 * non-negative remainder, which is what the standard's "floor" and "modulo" mean.
 */
module Calendar {

  /** Milliseconds in one day (msPerDay). */
  const MsPerDay: int := 86400000

  predicate IsLeapYear(y: int) {
    y % 4 == 0 && (y % 100 != 0 || y % 400 == 0)
  }

  function DaysInYear(y: int): (n: int)
    ensures n == 365 || n == 366
    ensures n == 366 <==> IsLeapYear(y)
  {
    if IsLeapYear(y) then 366 else 365
  }

  /** Length of month `m` (0 = January) of year `y`. */
  function DaysInMonth(y: int, m: int): (n: int)
    requires 0 <= m < 12
    ensures 28 <= n <= 31
    ensures m == 1 ==> (n == 29 <==> IsLeapYear(y))
  {
    if m == 1 then (if IsLeapYear(y) then 29 else 28)
    else if m == 3 || m == 5 || m == 8 || m == 10 then 30
    else 31
  }

  /** The day-within-year thresholds of ECMA-262's MonthFromTime, for a common year. */
  const CommonYearMonthStarts: seq<int> := [0, 31, 59, 90, 120, 151, 181, 212, 243, 273, 304, 334, 365]

  /**
   * Number of days of year `y` before month `m`, as the sum of the lengths of
   * the earlier months. It agrees with the standard's table of thresholds,
   * shifted by one from March on in a leap year.
   */
  function DaysBeforeMonth(y: int, m: int): (n: int)
    requires 0 <= m <= 12
    ensures n == CommonYearMonthStarts[m] + (if m >= 2 && IsLeapYear(y) then 1 else 0)
    decreases m
  {
    if m == 0 then 0 else DaysBeforeMonth(y, m - 1) + DaysInMonth(y, m - 1)
  }

  /** Day number of 1 January of year `y`, counted from 1 January 1970 (ECMA-262's DayFromYear). */
  function DayFromYear(y: int): int {
    365 * (y - 1970) + (y - 1969) / 4 - (y - 1901) / 100 + (y - 1601) / 400
  }

  /**
   * Moving the floor of `a / k` one step further, for the three divisors of
   * the leap-year rule: it grows by one exactly when `k` divides `a + 1`.
   * (Each divisor is spelled out so that the arithmetic stays linear.)
   */
  lemma FloorStep(a: int, k: int)
    requires k == 4 || k == 100 || k == 400
    ensures k == 4 ==> (a + 1) / 4 - a / 4 == if (a + 1) % 4 == 0 then 1 else 0
    ensures k == 100 ==> (a + 1) / 100 - a / 100 == if (a + 1) % 100 == 0 then 1 else 0
    ensures k == 400 ==> (a + 1) / 400 - a / 400 == if (a + 1) % 400 == 0 then 1 else 0
  {
    if k == 4 {
      var q, r := a / 4, a % 4;
      if r == 3 { assert a + 1 == 4 * (q + 1); } else { assert a + 1 == 4 * q + (r + 1); }
    } else if k == 100 {
      var q, r := a / 100, a % 100;
      if r == 99 { assert a + 1 == 100 * (q + 1); } else { assert a + 1 == 100 * q + (r + 1); }
    } else {
      var q, r := a / 400, a % 400;
      if r == 399 { assert a + 1 == 400 * (q + 1); } else { assert a + 1 == 400 * q + (r + 1); }
    }
  }

  /** Adding a multiple of 4, 100 or 400 leaves the remainder by it unchanged. */
  lemma ShiftMod4(a: int, j: int)
    ensures (a + 4 * j) % 4 == a % 4
  {
    var q, r := a / 4, a % 4;
    assert a + 4 * j == 4 * (q + j) + r;
  }

  lemma ShiftMod100(a: int, j: int)
    ensures (a + 100 * j) % 100 == a % 100
  {
    var q, r := a / 100, a % 100;
    assert a + 100 * j == 100 * (q + j) + r;
  }

  lemma ShiftMod400(a: int, j: int)
    ensures (a + 400 * j) % 400 == a % 400
  {
    var q, r := a / 400, a % 400;
    assert a + 400 * j == 400 * (q + j) + r;
  }

  /** Consecutive years start `DaysInYear` days apart. */
  lemma DayFromYearStep(y: int)
    ensures DayFromYear(y + 1) == DayFromYear(y) + DaysInYear(y)
  {
    var d4 := (y - 1968) / 4 - (y - 1969) / 4;
    var d100 := (y - 1900) / 100 - (y - 1901) / 100;
    var d400 := (y - 1600) / 400 - (y - 1601) / 400;
    FloorStep(y - 1969, 4);
    FloorStep(y - 1901, 100);
    FloorStep(y - 1601, 400);
    ShiftMod4(y, -492);
    ShiftMod100(y, -19);
    ShiftMod400(y, -4);
    assert d4 == if y % 4 == 0 then 1 else 0;
    assert d100 == if y % 100 == 0 then 1 else 0;
    assert d400 == if y % 400 == 0 then 1 else 0;
    assert DayFromYear(y + 1) - DayFromYear(y) == 365 + d4 - d100 + d400;
    if y % 400 == 0 {
      var q := y / 400;
      ShiftMod4(0, 100 * q);
      ShiftMod100(0, 4 * q);
      assert d4 == 1 && d100 == 1 && d400 == 1;
    } else if y % 100 == 0 {
      var q := y / 100;
      ShiftMod4(0, 25 * q);
      assert d4 == 1 && d100 == 1 && d400 == 0;
    } else {
      assert d100 == 0 && d400 == 0;
    }
  }

  /**
   * ECMA-262's MakeDay: the day number of date `d` of month `m` of
   * year `y`, where `m` may lie outside 0..11 and moves the year.
   */
  function MakeDay(y: int, m: int, d: int): int {
    var ym := y + m / 12;
    var mn := m % 12;
    DayFromYear(ym) + DaysBeforeMonth(ym, mn) + d - 1
  }

  /** Within months 0 to 11 the year is not moved. */
  lemma MakeDayWithinYear(y: int, m: int, d: int)
    requires 0 <= m < 12
    ensures MakeDay(y, m, d) == DayFromYear(y) + DaysBeforeMonth(y, m) + d - 1
  {
    assert m / 12 == 0 && m % 12 == m;
  }

  /** Every month ends within its year, and the twelve months fill it. */
  lemma MonthWithinYear(y: int, m: int)
    requires 0 <= m < 12
    ensures DaysBeforeMonth(y, m) + DaysInMonth(y, m) == DaysBeforeMonth(y, m + 1) <= DaysInYear(y)
    ensures DaysBeforeMonth(y, 12) == DaysInYear(y)
  {
  }

  /**
   * ECMA-262's MakeFullYear: years 0 to 99 stand for 1900 to 1999. The year
   * it gives is never a two-digit one, and it is a leap year exactly when `y`
   * is, except for year 0 (a leap year) read as 1900 (not one).
   */
  function MakeFullYear(y: int): (r: int)
    ensures !(0 <= r <= 99)
    ensures y != 0 ==> (IsLeapYear(r) <==> IsLeapYear(y))
    ensures y == 0 ==> IsLeapYear(y) && !IsLeapYear(r)
  {
    if 0 <= y <= 99 then
      ShiftMod4(y, 475);
      ShiftMod100(y, 19);
      1900 + y
    else y
  }

  /** Time value of midnight UTC of the given calendar day, with no two-digit-year mapping. */
  function UtcMidnight(y: int, m: int, d: int): (t: int)
    ensures t % MsPerDay == 0
  {
    MakeDay(y, m, d) * MsPerDay
  }

  /** `Date.UTC(y, m, d)`: hours, minutes, seconds and milliseconds default to 0. */
  function DateUtc(y: int, m: int, d: int): (t: int)
    ensures t % MsPerDay == 0
  {
    MakeDay(MakeFullYear(y), m, d) * MsPerDay
  }

  /**
   * From midnight of `Date.UTC(y, 0, 0)` to midnight of `Date.UTC(y, m, d)`:
   * the days of the earlier months of year `y`, plus the date.
   */
  lemma UtcMidnightSinceYearStart(y: int, m: int, d: int)
    requires 0 <= m < 12
    ensures UtcMidnight(y, m, d) - UtcMidnight(y, 0, 0) == (DaysBeforeMonth(y, m) + d) * MsPerDay
  {
    MakeDayWithinYear(y, m, d);
    MakeDayWithinYear(y, 0, 0);
    var a, b := MakeDay(y, 0, 0), MakeDay(y, m, d);
    assert b * MsPerDay - a * MsPerDay == (b - a) * MsPerDay;
  }

  /**
   * The same between two `Date.UTC` values, except that the months counted
   * are those of the year MakeFullYear reads `y` as.
   */
  lemma DateUtcSinceYearStart(y: int, m: int, d: int)
    requires 0 <= m < 12
    ensures DateUtc(y, m, d) - DateUtc(y, 0, 0) == (DaysBeforeMonth(MakeFullYear(y), m) + d) * MsPerDay
  {
    UtcMidnightSinceYearStart(MakeFullYear(y), m, d);
  }

  /** `Date.UTC(y, 0, 0)` is midnight of 31 December of year `y - 1`. */
  lemma DayZeroIsLastDayOfPreviousYear(y: int)
    ensures MakeDay(y, 0, 0) == MakeDay(y - 1, 11, 31)
  {
    DayFromYearStep(y - 1);
  }

  /** Date `d + 1` of a month is the day after date `d`, also past the end of the month. */
  lemma NextDate(y: int, m: int, d: int)
    ensures MakeDay(y, m, d + 1) == MakeDay(y, m, d) + 1
  {
  }

  /** The day after the last date of a month is the first of the following month. */
  lemma MonthOverflow(y: int, m: int)
    requires 0 <= m < 12
    ensures MakeDay(y, m, DaysInMonth(y, m) + 1) == MakeDay(y, m + 1, 1)
  {
    if m == 11 {
      assert DaysBeforeMonth(y, 11) + DaysInMonth(y, 11) == DaysInYear(y);
      DayFromYearStep(y);
    } else {
      assert (m + 1) / 12 == 0 && (m + 1) % 12 == m + 1;
      assert m / 12 == 0 && m % 12 == m;
    }
  }
}
