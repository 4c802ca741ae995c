/** Calendar dates of the proleptic Gregorian calendar and the day arithmetic
    that the age calculator performs through the host's native date type. */
module Calendar {

  /** A calendar date; months are 1-based (the host's month index plus one). */
  datatype Date = Date(year: int, month: int, day: int)

  /** The Gregorian leap-year rule. */
  predicate IsLeapYear(y: int) {
    y % 4 == 0 && (y % 100 != 0 || y % 400 == 0)
  }

  function DaysInMonth(y: int, m: int): (n: int)
    requires 1 <= m <= 12
    ensures 28 <= n <= 31
    ensures m == 2 ==> (n == 29 <==> IsLeapYear(y))
    ensures m != 2 ==> (n == 30 <==> m in {4, 6, 9, 11})
  {
    if m == 2 then (if IsLeapYear(y) then 29 else 28)
    else if m == 4 || m == 6 || m == 9 || m == 11 then 30
    else 31
  }

  /** A real calendar date: month 1..12 and day 1..length of that month. */
  predicate ValidDate(d: Date) {
    1 <= d.month <= 12 && 1 <= d.day <= DaysInMonth(d.year, d.month)
  }

  /** Chronological order on dates: a is strictly earlier than b. */
  predicate Precedes(a: Date, b: Date) {
    a.year < b.year ||
    (a.year == b.year && (a.month < b.month || (a.month == b.month && a.day < b.day)))
  }

  function DaysInYear(y: int): int {
    if IsLeapYear(y) then 366 else 365
  }

  /** Days from 0001-01-01 to the first of January of year y (negative before year 1). */
  function DaysBeforeYear(y: int): int {
    var p := y - 1;
    365 * p + p / 4 - p / 100 + p / 400
  }

  /** Days in year y before the first of month m; m == 13 gives the whole year. */
  function DaysBeforeMonth(y: int, m: int): int
    requires 1 <= m <= 13
  {
    (match m
     case 1 => 0
     case 2 => 31
     case 3 => 59
     case 4 => 90
     case 5 => 120
     case 6 => 151
     case 7 => 181
     case 8 => 212
     case 9 => 243
     case 10 => 273
     case 11 => 304
     case 12 => 334
     case _ => 365)
    + (if m > 2 && IsLeapYear(y) then 1 else 0)
  }

  /** Whole days from 0001-01-01 to d. It stands in for the millisecond
      timestamp divided by the length of a day. */
  function DayNumber(d: Date): int
    requires 1 <= d.month <= 12
  {
    DaysBeforeYear(d.year) + DaysBeforeMonth(d.year, d.month) + d.day - 1
  }

  /** The length of the month before month m of year y; January looks back
      to December of year y - 1. */
  function DaysInPreviousMonth(y: int, m: int): (n: int)
    requires 1 <= m <= 12
    ensures 28 <= n <= 31
  {
    if m == 1 then DaysInMonth(y - 1, 12) else DaysInMonth(y, m - 1)
  }

  /** The date that the host's date constructor builds from a year, a 1-based
      month and a day that may be 0 (the last day of the month before) or pass
      the end of the month (carried into the next month). The year is taken as
      given: the host's reading of years 0..99 as 1900..1999 is not modelled. */
  function MakeDate(y: int, m: int, d: int): (r: Date)
    requires 1 <= m <= 12 && 0 <= d <= 31
    ensures ValidDate(r)
    ensures DayNumber(r) == DayNumber(Date(y, m, 1)) + d - 1
    ensures 1 <= d <= DaysInMonth(y, m) ==> r == Date(y, m, d)
  {
    if d == 0 then
      if m == 1 then
        DaysBeforeYearStep(y - 1);
        Date(y - 1, 12, 31)
      else
        Date(y, m - 1, DaysInMonth(y, m - 1))
    else if d <= DaysInMonth(y, m) then
      Date(y, m, d)
    else if m < 12 then
      Date(y, m + 1, d - DaysInMonth(y, m))
    else
      DaysBeforeYearStep(y);
      Date(y + 1, 1, d - DaysInMonth(y, m))
  }

  /** The year after y starts exactly DaysInYear(y) days after y does. */
  lemma DaysBeforeYearStep(y: int)
    ensures DaysBeforeYear(y + 1) == DaysBeforeYear(y) + DaysInYear(y)
  {
    var p := y - 1;
    DivStep(p, 4);
    DivStep(p, 100);
    DivStep(p, 400);
    if y % 400 == 0 {
      assert y == 100 * (4 * (y / 400));
      assert y % 100 == 0;
    }
    if y % 100 == 0 {
      assert y == 4 * (25 * (y / 100));
      assert y % 4 == 0;
    }
  }

  /** How floor division by k changes when the dividend grows by one. */
  lemma DivStep(p: int, k: int)
    requires k == 4 || k == 100 || k == 400
    ensures (p + 1) / k == p / k + (if (p + 1) % k == 0 then 1 else 0)
  {
  }

  /** Every day of year a comes before the first day of any later year b. */
  lemma {:induction false} DaysBeforeYearGrows(a: int, b: int)
    requires a < b
    ensures DaysBeforeYear(a) + DaysInYear(a) <= DaysBeforeYear(b)
    decreases b - a
  {
    DaysBeforeYearStep(a);
    if a + 1 < b {
      DaysBeforeYearGrows(a + 1, b);
    }
  }

  /** Chronological order implies a smaller day number. */
  lemma PrecedesDayNumber(a: Date, b: Date)
    requires ValidDate(a) && ValidDate(b)
    requires Precedes(a, b)
    ensures DayNumber(a) < DayNumber(b)
  {
    if a.year < b.year {
      DaysBeforeYearGrows(a.year, b.year);
    }
  }

  /** Day numbers order valid dates exactly as the calendar does, and two valid
      dates share a day number only when they are the same date. */
  lemma DayNumberOrder(a: Date, b: Date)
    requires ValidDate(a) && ValidDate(b)
    ensures DayNumber(a) < DayNumber(b) <==> Precedes(a, b)
    ensures DayNumber(a) == DayNumber(b) <==> a == b
  {
    if Precedes(a, b) {
      PrecedesDayNumber(a, b);
    } else if Precedes(b, a) {
      PrecedesDayNumber(b, a);
    } else {
      assert a == b;
    }
  }

  /** A valid date lies within its own year: between the first of January and
      the last day of that year. */
  lemma DayOfYearBounds(d: Date)
    requires ValidDate(d)
    ensures DaysBeforeYear(d.year) <= DayNumber(d) < DaysBeforeYear(d.year) + DaysInYear(d.year)
  {
  }
}
