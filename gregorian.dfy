/**
 * The proleptic Gregorian calendar as Python's `datetime` counts it:
 * day numbers from 0001-01-01 (day 1, a Monday), weekdays numbered
 * Monday = 0 .. Sunday = 6, and the length of every month derived from
 * the day count.
 */
module Gregorian {

  /** The range of years `datetime` accepts. */
  const MinYear := 1
  const MaxYear := 9999

  /** Python's `weekday()` numbering. */
  const Monday := 0
  const Sunday := 6

  datatype Date = Date(year: int, month: int, day: int)

  /** The Gregorian leap-year rule. */
  predicate IsLeap(year: int) {
    (year % 4 == 0 && year % 100 != 0) || year % 400 == 0
  }

  /** A (year, month) pair that `datetime(year, month, 1)` accepts. */
  predicate ValidMonth(year: int, month: int) {
    MinYear <= year <= MaxYear && 1 <= month <= 12
  }

  /** Days in the months before `month` of a common year. */
  function CommonDaysBeforeMonth(month: int): int
    requires 1 <= month <= 12
  {
    [0, 31, 59, 90, 120, 151, 181, 212, 243, 273, 304, 334][month - 1]
  }

  /** Days in the months before `month` of `year`. */
  function DaysBeforeMonth(year: int, month: int): int
    requires 1 <= month <= 12
  {
    CommonDaysBeforeMonth(month) + if month > 2 && IsLeap(year) then 1 else 0
  }

  /** Days in the years before `year`, counting from year 1. */
  function DaysBeforeYear(year: int): int
    requires year >= 1
  {
    var y := year - 1;
    y * 365 + y / 4 - y / 100 + y / 400
  }

  /** `date.toordinal()`: 0001-01-01 is day 1. */
  function Ordinal(year: int, month: int, day: int): int
    requires year >= 1 && 1 <= month <= 12
  {
    DaysBeforeYear(year) + DaysBeforeMonth(year, month) + day
  }

  /** `date.weekday()`: Monday is 0 and Sunday is 6. */
  function Weekday(year: int, month: int, day: int): (w: int)
    requires year >= 1 && 1 <= month <= 12
    ensures 0 <= w < 7
    ensures w == (Ordinal(year, month, day) - 1) % 7
  {
    var o := Ordinal(year, month, day);
    AddMod7(o - 1, 7);
    (o + 6) % 7
  }

  /** The day count starts at 0001-01-01, a Monday. */
  lemma FirstDayMonday(d: Date)
    requires d.year == MinYear && d.month == 1 && d.day == 1
    ensures Ordinal(d.year, d.month, d.day) == 1
    ensures Weekday(d.year, d.month, d.day) == Monday
  {
    assert DaysBeforeYear(d.year) == 0;
    assert CommonDaysBeforeMonth(d.month) == 0;
    assert DaysBeforeMonth(d.year, d.month) == 0;
  }

  /** The month after (year, month), across a year boundary for December. */
  function NextMonth(year: int, month: int): (next: (int, int))
    requires 1 <= month <= 12
    ensures 1 <= next.1 <= 12
    ensures next.0 * 12 + next.1 == year * 12 + month + 1
  {
    if month == 12 then (year + 1, 1) else (year, month + 1)
  }

  /**
   * The number of days in a month: the distance on the day count from
   * its first day to the first day of the following month.
   */
  function DaysInMonth(year: int, month: int): int
    requires year >= 1 && 1 <= month <= 12
  {
    var next := NextMonth(year, month);
    Ordinal(next.0, next.1, 1) - Ordinal(year, month, 1)
  }

  /** Adding to a number adds to its remainder modulo 7. */
  lemma AddMod7(a: int, b: int)
    ensures (a + b) % 7 == (a % 7 + b) % 7
  {
    var q, r := a / 7, a % 7;
    assert a + b == 7 * q + (r + b);
    assert (a + b) / 7 == q + (r + b) / 7;
  }

  /** `(d // k) - ((d - 1) // k)` is 1 exactly when k divides d. */
  lemma DivisionStep(d: int, k: int)
    requires k == 4 || k == 100 || k == 400
    ensures d / k - (d - 1) / k == if d % k == 0 then 1 else 0
  {
  }

  /** A year has 366 days when it is a leap year and 365 otherwise. */
  lemma {:induction false} YearLength(year: int)
    requires year >= 1
    ensures DaysBeforeYear(year + 1) - DaysBeforeYear(year) == if IsLeap(year) then 366 else 365
  {
    var y := year - 1;
    assert DaysBeforeYear(year + 1) - DaysBeforeYear(year)
        == 365 + (year / 4 - y / 4) - (year / 100 - y / 100) + (year / 400 - y / 400);
    DivisionStep(year, 4);
    DivisionStep(year, 100);
    DivisionStep(year, 400);
    Divisors(year);
  }

  /** Every multiple of 400 is a multiple of 100, and every multiple of 100 one of 4. */
  lemma Divisors(n: int)
    ensures n % 400 == 0 ==> n % 100 == 0
    ensures n % 100 == 0 ==> n % 4 == 0
  {
    if n % 400 == 0 {
      var k := n / 400;
      assert n == 400 * k;
      assert n / 100 == 4 * k;
    }
    if n % 100 == 0 {
      var k := n / 100;
      assert n == 100 * k;
      assert n / 4 == 25 * k;
    }
  }

  /**
   * The day count gives every month the length of the usual rule: 29 days
   * in February of a leap year and 28 in any other, 30 in April, June,
   * September and November, 31 in the rest.
   */
  lemma MonthLengthRule(year: int, month: int)
    requires year >= 1 && 1 <= month <= 12
    ensures month == 2 ==> (DaysInMonth(year, month) == 29 <==> IsLeap(year))
    ensures month == 2 ==> (DaysInMonth(year, month) == 28 <==> !IsLeap(year))
    ensures month in {4, 6, 9, 11} ==> DaysInMonth(year, month) == 30
    ensures month in {1, 3, 5, 7, 8, 10, 12} ==> DaysInMonth(year, month) == 31
    ensures 28 <= DaysInMonth(year, month) <= 31
  {
    if month == 12 {
      YearLength(year);
    }
  }

  /**
   * The last day of the month, chosen by the chain of cases that sets
   * `end_date`: 28 by default, then February by the leap-year rule, the
   * 30-day months, and 31 for every other month.
   */
  method EndDay(year: int, month: int) returns (endDay: int)
    requires year >= 1 && 1 <= month <= 12
    ensures endDay == DaysInMonth(year, month)
    ensures 28 <= endDay <= 31
  {
    endDay := 28;
    if month == 2 {
      if (year % 4 == 0 && year % 100 != 0) || year % 400 == 0 {
        endDay := 29;
      } else {
        endDay := 28;
      }
    } else if month in [4, 6, 9, 11] {
      endDay := 30;
    } else {
      endDay := 31;
    }
    MonthLengthRule(year, month);
  }

  /**
   * The 1st of the following month falls on the weekday a month's length
   * after this month's 1st, also from December into January.
   */
  lemma FirstOfNextMonth(year: int, month: int)
    requires year >= 1 && 1 <= month <= 12
    ensures var next := NextMonth(year, month);
      Weekday(next.0, next.1, 1) == (Weekday(year, month, 1) + DaysInMonth(year, month)) % 7
  {
    AddMod7(Ordinal(year, month, 1) + 6, DaysInMonth(year, month));
  }
}
