/**
 * Proleptic Gregorian calendar dates as Python's datetime.date keeps them:
 * years 1 to 9999, the usual month lengths, and the day number ("ordinal")
 * that makes 0001-01-01 day 1.
 */
module Calendar {
  import opened Results

  datatype Date = Date(year: int, month: int, day: int)

  const MIN_YEAR := 1
  const MAX_YEAR := 9999
  /** DayNumber(Date(9999, 12, 31)), the last day a date can hold. */
  const MAX_ORDINAL := 3652059

  predicate IsLeapYear(y: int) {
    y % 4 == 0 && (y % 100 != 0 || y % 400 == 0)
  }

  function DaysInYear(y: int): int {
    if IsLeapYear(y) then 366 else 365
  }

  function DaysInMonth(y: int, m: int): (n: int)
    requires 1 <= m <= 12
    ensures 28 <= n <= 31
    ensures n == 29 <==> m == 2 && IsLeapYear(y)
  {
    if m == 2 then (if IsLeapYear(y) then 29 else 28)
    else if m == 4 || m == 6 || m == 9 || m == 11 then 30
    else 31
  }

  /** A date the `date` constructor accepts. */
  predicate IsValid(d: Date) {
    MIN_YEAR <= d.year <= MAX_YEAR && 1 <= d.month <= 12 && 1 <= d.day <= DaysInMonth(d.year, d.month)
  }

  /** Python's tuple comparison of (year, month, day), which is how dates compare. */
  predicate DateLess(a: Date, b: Date) {
    a.year < b.year || (a.year == b.year && (a.month < b.month || (a.month == b.month && a.day < b.day)))
  }

  predicate DateLessEq(a: Date, b: Date) {
    DateLess(a, b) || a == b
  }

  /** Days in the years 1 .. y-1. */
  function DaysBeforeYear(y: int): int
    requires y >= 1
  {
    var p := y - 1;
    p * 365 + p / 4 - p / 100 + p / 400
  }

  /** Days in the months 1 .. m-1 of year y. */
  function DaysBeforeMonth(y: int, m: int): int
    requires 1 <= m <= 12
  {
    [0, 31, 59, 90, 120, 151, 181, 212, 243, 273, 304, 334][m - 1] + (if m > 2 && IsLeapYear(y) then 1 else 0)
  }

  /** The ordinal of a date: 0001-01-01 is day 1. */
  function DayNumber(d: Date): int
    requires IsValid(d)
  {
    DaysBeforeYear(d.year) + DaysBeforeMonth(d.year, d.month) + d.day
  }

  lemma YearStep(y: int)
    requires y >= 1
    ensures DaysBeforeYear(y + 1) == DaysBeforeYear(y) + DaysInYear(y)
  {
    var p := y - 1;
    assert y / 4 == p / 4 + (if y % 4 == 0 then 1 else 0);
    assert y / 100 == p / 100 + (if y % 100 == 0 then 1 else 0);
    assert y / 400 == p / 400 + (if y % 400 == 0 then 1 else 0);
  }

  lemma MonthStep(y: int, m: int)
    requires 1 <= m < 12
    ensures DaysBeforeMonth(y, m + 1) == DaysBeforeMonth(y, m) + DaysInMonth(y, m)
  {
  }

  lemma LastMonth(y: int)
    ensures DaysBeforeMonth(y, 12) + DaysInMonth(y, 12) == DaysInYear(y)
  {
  }

  /** Every day of a year gets a number between the year's first and last. */
  lemma {:induction false} DayNumberInYear(d: Date)
    requires IsValid(d)
    ensures DaysBeforeYear(d.year) < DayNumber(d) <= DaysBeforeYear(d.year) + DaysInYear(d.year)
  {
    MonthEnd(d.year, d.month);
  }

  lemma {:induction false} MonthEnd(y: int, m: int)
    requires 1 <= m <= 12
    ensures DaysBeforeMonth(y, m) + DaysInMonth(y, m) <= DaysInYear(y)
    decreases 12 - m
  {
    if m == 12 {
      LastMonth(y);
    } else {
      MonthStep(y, m);
      MonthEnd(y, m + 1);
    }
  }

  lemma {:induction false} MonthsOrdered(y: int, m1: int, m2: int)
    requires 1 <= m1 < m2 <= 12
    ensures DaysBeforeMonth(y, m1) + DaysInMonth(y, m1) <= DaysBeforeMonth(y, m2)
    decreases m2 - m1
  {
    MonthStep(y, m1);
    if m1 + 1 < m2 {
      MonthsOrdered(y, m1 + 1, m2);
    }
  }

  lemma {:induction false} YearsOrdered(y1: int, y2: int)
    requires 1 <= y1 < y2
    ensures DaysBeforeYear(y1) + DaysInYear(y1) <= DaysBeforeYear(y2)
    decreases y2 - y1
  {
    YearStep(y1);
    if y1 + 1 < y2 {
      YearsOrdered(y1 + 1, y2);
      YearStep(y1 + 1);
    }
  }

  /** An earlier date (in Python's comparison) has a smaller day number. */
  lemma {:induction false} EarlierHasSmallerNumber(a: Date, b: Date)
    requires IsValid(a) && IsValid(b) && DateLess(a, b)
    ensures DayNumber(a) < DayNumber(b)
  {
    if a.year < b.year {
      DayNumberInYear(a);
      DayNumberInYear(b);
      YearsOrdered(a.year, b.year);
    } else if a.month < b.month {
      MonthsOrdered(a.year, a.month, b.month);
    }
  }

  /**
   * Comparing dates the way Python does agrees with comparing their day
   * numbers, so the day number can stand in for every date comparison.
   */
  lemma DayNumberOrder(a: Date, b: Date)
    requires IsValid(a) && IsValid(b)
    ensures DateLess(a, b) <==> DayNumber(a) < DayNumber(b)
    ensures a == b <==> DayNumber(a) == DayNumber(b)
    ensures DateLessEq(a, b) <==> DayNumber(a) <= DayNumber(b)
  {
    if DateLess(a, b) {
      EarlierHasSmallerNumber(a, b);
    } else if DateLess(b, a) {
      EarlierHasSmallerNumber(b, a);
    }
  }

  /** The last representable date has number MAX_ORDINAL, and no valid date goes past it. */
  lemma MaxOrdinalBound(d: Date)
    requires IsValid(d)
    ensures DayNumber(Date(MAX_YEAR, 12, 31)) == MAX_ORDINAL
    ensures DayNumber(d) <= MAX_ORDINAL
    ensures DayNumber(d) == MAX_ORDINAL <==> d == Date(MAX_YEAR, 12, 31)
  {
    var last := Date(MAX_YEAR, 12, 31);
    assert DaysBeforeYear(MAX_YEAR) == 3651694;
    DayNumberOrder(d, last);
  }

  /** The day after d, or None past 9999-12-31 (where `date + timedelta` overflows). */
  function NextDay(d: Date): (r: Option<Date>)
    requires IsValid(d)
    ensures r.Some? <==> d != Date(MAX_YEAR, 12, 31)
    ensures r.Some? ==> IsValid(r.value) && DayNumber(r.value) == DayNumber(d) + 1
  {
    if d.day < DaysInMonth(d.year, d.month) then
      Some(Date(d.year, d.month, d.day + 1))
    else if d.month < 12 then
      MonthStep(d.year, d.month);
      Some(Date(d.year, d.month + 1, 1))
    else if d.year < MAX_YEAR then
      LastMonth(d.year);
      YearStep(d.year);
      Some(Date(d.year + 1, 1, 1))
    else
      None
  }

  /**
   * `d + timedelta(days=n)`: the date n days later, or None (OverflowError)
   * when that would be after 9999-12-31.
   */
  function AddDays(d: Date, n: nat): (r: Option<Date>)
    requires IsValid(d)
    ensures r.Some? <==> DayNumber(d) + n <= MAX_ORDINAL
    ensures r.Some? ==> IsValid(r.value) && DayNumber(r.value) == DayNumber(d) + n
    decreases n
  {
    MaxOrdinalBound(d);
    if n == 0 then Some(d)
    else
      match NextDay(d)
      case None => None
      case Some(e) => AddDays(e, n - 1)
  }
}
