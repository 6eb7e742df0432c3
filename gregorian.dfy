/**
 The two facts the grid asks the JavaScript `Date` object for: the weekday of a month's first day
 (`new Date(year, month, 1).getDay()`) and its number of days (`new Date(year, month + 1, 0).getDate()`),
 on the proleptic Gregorian calendar.
 */
module Gregorian {

  /**
   The year the `Date` constructor actually uses: it reads a year argument from 0 to 99 as 1900 to
   1999.
   */
  function ConstructorYear(year: int): int
  {
    if 0 <= year <= 99 then 1900 + year else year
  }

  predicate IsLeapYear(y: int)
  {
    y % 4 == 0 && (y % 100 != 0 || y % 400 == 0)
  }

  function YearLength(y: int): int
  {
    if IsLeapYear(y) then 366 else 365
  }

  /** The number of days of month `month` (0 = January) of year `y`. */
  function MonthLength(y: int, month: int): int
    requires 0 <= month <= 11
  {
    if month == 1 then (if IsLeapYear(y) then 29 else 28)
    else if month == 3 || month == 5 || month == 8 || month == 10 then 30
    else 31
  }

  /** Days from January 1 of year `y` to the first of `month`: a common year's table, plus February 29. */
  function DaysBeforeMonth(y: int, month: int): int
    requires 0 <= month <= 11
  {
    [0, 31, 59, 90, 120, 151, 181, 212, 243, 273, 304, 334][month] + (if month >= 2 && IsLeapYear(y) then 1 else 0)
  }

  /** Each month starts where the previous one ends, and December ends where the year does. */
  lemma MonthsAreContiguous(y: int, month: int)
    requires 0 <= month <= 11
    ensures month < 11 ==> DaysBeforeMonth(y, month + 1) == DaysBeforeMonth(y, month) + MonthLength(y, month)
    ensures month == 11 ==> DaysBeforeMonth(y, month) + MonthLength(y, month) == YearLength(y)
  {
  }

  /**
   A day count for January 1 of year `y`: 365 days a year plus one per leap year before it
   (the divisions floor, which is what Dafny's division does for a positive divisor).
   */
  function YearStart(y: int): int
  {
    365 * y + (y + 3) / 4 - (y + 99) / 100 + (y + 399) / 400
  }

  /** A day count for the first of `month` of year `y`. */
  function DayNumber(y: int, month: int): int
    requires 0 <= month <= 11
  {
    YearStart(y) + DaysBeforeMonth(y, month)
  }

  /** The weekday of the first of `month` of `year`, 0 = Sunday, as `getDay` reports it. */
  function FirstDayOfMonth(year: int, month: int): (w: int)
    requires 0 <= month <= 11
    ensures 0 <= w <= 6
  {
    (DayNumber(ConstructorYear(year), month) + 6) % 7
  }

  /** The number of days of `month` of `year`, as `getDate` of day 0 of the following month reports it. */
  function DaysInMonth(year: int, month: int): (n: int)
    ensures 28 <= n <= 31
    requires 0 <= month <= 11
  {
    MonthLength(ConstructorYear(year), month)
  }

  /** Consecutive years start 365 days apart, or 366 after a leap year. */
  lemma YearStartStep(y: int)
    ensures YearStart(y + 1) == YearStart(y) + YearLength(y)
  {
    LeapCountStep(y, 4);
    LeapCountStep(y, 100);
    LeapCountStep(y, 400);
    CenturiesAreLeapCandidates(y);
  }

  /** A multiple of 400 is a multiple of 100, and a multiple of 100 is a multiple of 4. */
  lemma CenturiesAreLeapCandidates(y: int)
    ensures y % 400 == 0 ==> y % 100 == 0
    ensures y % 100 == 0 ==> y % 4 == 0
  {
    if y % 400 == 0 {
      var t := 4 * (y / 400) - y / 100;
      assert y % 100 == 100 * t;
    }
    if y % 100 == 0 {
      var t := 25 * (y / 100) - y / 4;
      assert y % 4 == 4 * t;
    }
  }

  /** The count of multiples of k below y + 1 exceeds that below y by one exactly when y is one. */
  lemma LeapCountStep(y: int, k: int)
    requires k == 4 || k == 100 || k == 400
    ensures (y + k) / k - (y + k - 1) / k == if y % k == 0 then 1 else 0
  {
    var q, r := y / k, y % k;
    assert y == k * q + r && 0 <= r < k;
    assert (y + k) / k == q + 1 by {
      assert y + k == k * (q + 1) + r;
    }
    if r == 0 {
      assert y + k - 1 == k * q + (k - 1);
    } else {
      assert y + k - 1 == k * (q + 1) + (r - 1);
    }
  }

  /**
   The first of the following month falls `DaysInMonth` days after the first of this one, so its
   weekday is this month's first weekday advanced by the month's length; this holds everywhere
   except where the constructor's reading of years 0 to 99 makes the year jump (from December of
   year -1 to January of year 0, and from December of year 99 to January of year 100).
   */
  lemma NextMonthWeekday(year: int, month: int)
    requires 0 <= month <= 11
    requires !(month == 11 && (year == -1 || year == 99))
    ensures var next := if month == 11 then FirstDayOfMonth(year + 1, 0) else FirstDayOfMonth(year, month + 1);
      next == (FirstDayOfMonth(year, month) + DaysInMonth(year, month)) % 7
  {
    var y := ConstructorYear(year);
    var length := MonthLength(y, month);
    if month == 11 {
      assert ConstructorYear(year + 1) == y + 1;
      YearStartStep(y);
      MonthsAreContiguous(y, 11);
      assert DayNumber(y + 1, 0) == DayNumber(y, 11) + length;
    } else {
      MonthsAreContiguous(y, month);
      assert DayNumber(y, month + 1) == DayNumber(y, month) + length;
    }
    ShiftMod7(DayNumber(y, month) + 6, length);
  }

  lemma ShiftMod7(a: int, b: int)
    ensures (a + b) % 7 == (a % 7 + b) % 7
  {
    assert a == 7 * (a / 7) + a % 7;
    assert a + b == 7 * (a / 7) + (a % 7 + b);
  }

  /** April 2025 starts on a Tuesday and has 30 days. */
  lemma April2025()
    ensures FirstDayOfMonth(2025, 3) == 2 && DaysInMonth(2025, 3) == 30
  {
  }

  /**
   Year 99 is read as 1999: its December starts on a Wednesday, while the month after it, January
   of year 100, starts on a Friday rather than the Saturday that follows December 1999.
   */
  lemma TwoDigitYearJump()
    ensures FirstDayOfMonth(99, 11) == 3 && DaysInMonth(99, 11) == 31
    ensures FirstDayOfMonth(100, 0) == 5
    ensures FirstDayOfMonth(100, 0) != (FirstDayOfMonth(99, 11) + DaysInMonth(99, 11)) % 7
  {
  }

}
