/**
 * The calendar dates the habit calendar works with: the proleptic Gregorian
 * dates chrono's NaiveDate represents, written as (year, month, day), a day number
 * counting days from 0001-01-01, the day before and after a date, the weekday,
 * and the chronological order.
 */
module Dates {

  datatype Ymd = Ymd(year: int, month: int, day: int)

  /** Gregorian leap years: divisible by 4, except centuries not divisible by 400. */
  predicate IsLeapYear(y: int)
  {
    y % 4 == 0 && (y % 100 != 0 || y % 400 == 0)
  }

  function DaysInMonth(y: int, m: int): (n: int)
    requires 1 <= m <= 12
    ensures 28 <= n <= 31
    ensures n == 29 <==> m == 2 && IsLeapYear(y)
  {
    if m == 2 then (if IsLeapYear(y) then 29 else 28)
    else if m == 4 || m == 6 || m == 9 || m == 11 then 30
    else 31
  }

  predicate IsValid(d: Ymd)
  {
    1 <= d.month <= 12 && 1 <= d.day <= DaysInMonth(d.year, d.month)
  }

  /** A date that exists in the calendar, as every NaiveDate does. */
  type Date = d: Ymd | IsValid(d) witness Ymd(1, 1, 1)

  /** Number of days in the years before `y`, counted from 0001-01-01. */
  function DaysBeforeYear(y: int): int
  {
    365 * (y - 1) + (y - 1) / 4 - (y - 1) / 100 + (y - 1) / 400
  }

  /** Number of days in the months of year `y` before month `m`. */
  function DaysBeforeMonth(y: int, m: int): int
    requires 1 <= m <= 12
  {
    var common := [0, 31, 59, 90, 120, 151, 181, 212, 243, 273, 304, 334][m - 1];
    if m > 2 && IsLeapYear(y) then common + 1 else common
  }

  /** Days since 0001-01-01 (day 0). */
  function DayNumber(d: Date): int
  {
    DaysBeforeYear(d.year) + DaysBeforeMonth(d.year, d.month) + d.day - 1
  }

  /** Every date falls inside its own year. */
  lemma DayNumberInYear(d: Date)
    ensures DaysBeforeYear(d.year) <= DayNumber(d) < DaysBeforeYear(d.year + 1)
  {
    MonthEndsInYear(d.year, d.month);
  }

  /** Weekday counted from Monday = 0; 0001-01-01 was a Monday. */
  function Weekday(d: Date): (w: int)
    ensures 0 <= w < 7
  {
    DayNumber(d) % 7
  }

  /** chrono's `weekday().number_from_monday()`: Monday is 1, Sunday is 7. */
  function NumberFromMonday(d: Date): (n: int)
    ensures 1 <= n <= 7
    ensures n == 1 <==> Weekday(d) == 0
  {
    Weekday(d) + 1
  }

  /** `date + Duration::days(1)`: the next day number. */
  function Succ(d: Date): (r: Date)
    ensures DayNumber(r) == DayNumber(d) + 1
  {
    if d.day < DaysInMonth(d.year, d.month) then Ymd(d.year, d.month, d.day + 1)
    else if d.month < 12 then
      MonthFollowsMonth(d.year, d.month);
      Ymd(d.year, d.month + 1, 1)
    else
      MonthsFillYear(d.year);
      Ymd(d.year + 1, 1, 1)
  }

  /** `date - Duration::days(1)`: the previous day number. */
  function Pred(d: Date): (r: Date)
    ensures DayNumber(r) == DayNumber(d) - 1
  {
    if d.day > 1 then Ymd(d.year, d.month, d.day - 1)
    else if d.month > 1 then
      MonthFollowsMonth(d.year, d.month - 1);
      Ymd(d.year, d.month - 1, DaysInMonth(d.year, d.month - 1))
    else
      MonthsFillYear(d.year - 1);
      Ymd(d.year - 1, 12, 31)
  }

  /**
   * Chronological order, as chrono compares NaiveDate values: by year, then
   * month, then day, which is the order of the day numbers.
   */
  predicate Less(a: Date, b: Date): (r: bool)
    ensures r <==> DayNumber(a) < DayNumber(b)
  {
    LexBeforeIsEarlier(a, b);
    LexBeforeIsEarlier(b, a);
    a.year < b.year
    || (a.year == b.year && a.month < b.month)
    || (a.year == b.year && a.month == b.month && a.day < b.day)
  }

  /** A date that comes first by year, month and day has the smaller day number. */
  lemma LexBeforeIsEarlier(a: Date, b: Date)
    ensures a.year < b.year
      || (a.year == b.year && a.month < b.month)
      || (a.year == b.year && a.month == b.month && a.day < b.day)
      ==> DayNumber(a) < DayNumber(b)
  {
    if a.year < b.year {
      DayNumberInYear(a);
      DayNumberInYear(b);
      DaysBeforeYearMonotone(a.year + 1, b.year);
    } else if a.year == b.year && a.month < b.month {
      MonthsInOrder(a.year, a.month, b.month);
    }
  }

  /** Later years start later. */
  lemma DaysBeforeYearMonotone(a: int, b: int)
    requires a <= b
    ensures DaysBeforeYear(a) <= DaysBeforeYear(b)
  {
    var x, y := a - 1, b - 1;
    assert x / 4 <= y / 4 && x / 400 <= y / 400;
    assert y / 100 - x / 100 <= (y - x) / 100 + 1;
  }

  /** Each month ends no later than the year does. */
  lemma MonthEndsInYear(y: int, m: int)
    requires 1 <= m <= 12
    ensures DaysBeforeMonth(y, m) + DaysInMonth(y, m) <= DaysBeforeYear(y + 1) - DaysBeforeYear(y)
  {
    MonthsFillYear(y);
    if m < 12 {
      MonthsInOrder(y, m, 12);
    }
  }

  /** An earlier month of the year ends before a later one starts. */
  lemma {:induction false} MonthsInOrder(y: int, m1: int, m2: int)
    requires 1 <= m1 < m2 <= 12
    ensures DaysBeforeMonth(y, m1) + DaysInMonth(y, m1) <= DaysBeforeMonth(y, m2)
    decreases m2 - m1
  {
    MonthFollowsMonth(y, m1);
    if m1 + 1 < m2 {
      MonthsInOrder(y, m1 + 1, m2);
    }
  }

  /** A year has 366 days exactly when it is a leap year. */
  lemma YearLength(y: int)
    ensures DaysBeforeYear(y + 1) - DaysBeforeYear(y) == if IsLeapYear(y) then 366 else 365
  {
    DivStep4(y);
    DivStep100(y);
    DivStep400(y);
  }

  // Leap days before a year go up by one exactly at the years the rule names.

  lemma DivStep4(y: int)
    ensures y / 4 - (y - 1) / 4 == if y % 4 == 0 then 1 else 0
  {
  }

  lemma DivStep100(y: int)
    ensures y / 100 - (y - 1) / 100 == if y % 100 == 0 then 1 else 0
  {
  }

  lemma DivStep400(y: int)
    ensures y / 400 - (y - 1) / 400 == if y % 400 == 0 then 1 else 0
  {
  }

  /** Each month starts where the month before it ends. */
  lemma MonthFollowsMonth(y: int, m: int)
    requires 1 <= m < 12
    ensures DaysBeforeMonth(y, m + 1) == DaysBeforeMonth(y, m) + DaysInMonth(y, m)
  {
  }

  /** The twelve months of a year add up to the year's length. */
  lemma MonthsFillYear(y: int)
    ensures DaysBeforeMonth(y, 12) + DaysInMonth(y, 12) == DaysBeforeYear(y + 1) - DaysBeforeYear(y)
  {
    YearLength(y);
  }

  /** Pred and Succ undo each other. */
  lemma PredSuccInverse(d: Date)
    ensures Pred(Succ(d)) == d
    ensures Succ(Pred(d)) == d
  {
  }

  /** One day back is one weekday back, wrapping from Monday to Sunday. */
  lemma WeekdayOfPred(d: Date)
    ensures Weekday(Pred(d)) == if Weekday(d) == 0 then 6 else Weekday(d) - 1
  {
    StepBackMod7(DayNumber(d));
  }

  lemma StepBackMod7(n: int)
    ensures (n - 1) % 7 == if n % 7 == 0 then 6 else n % 7 - 1
  {
  }

  /**
   * The anchor of the weekday count: 0001-01-01 (the proleptic Gregorian
   * day 0) and 2024-01-01 are Mondays, and 2026-10-18 is a Sunday.
   */
  lemma KnownWeekdays()
    ensures Weekday(Ymd(1, 1, 1)) == 0
    ensures Weekday(Ymd(2024, 1, 1)) == 0
    ensures Weekday(Ymd(2026, 10, 18)) == 6
  {
  }
}
