/**
 * Calendar arithmetic on naive date-times in the proleptic Gregorian
 * calendar: the month-length table and leap-year rule used by `add_months`,
 * the month addition itself, and the whole-day subtraction that
 * `random_in_past_months` performs with `now - timedelta(days=...)`.
 *
 * Whole-day subtraction is specified by the day number (ordinal) of a date,
 * 0001-01-01 being day 1, which is how the date-time library defines it.
 */
module Calendar {

  const MinYear := 1
  const MaxYear := 9999

  /** A naive date-time; fields as in the source's `datetime.datetime`. */
  datatype DateTime = DateTime(year: int, month: int, day: int,
                               hour: int, minute: int, second: int, microsecond: int)
  {
    /** The range checks the date-time constructor enforces. */
    predicate Valid() {
      && MinYear <= year <= MaxYear
      && 1 <= month <= 12
      && 1 <= day <= DaysInMonth(year, month)
      && 0 <= hour < 24 && 0 <= minute < 60 && 0 <= second < 60
      && 0 <= microsecond < 1000000
    }
  }

  function Min(a: int, b: int): int { if a <= b then a else b }

  /** Gregorian leap-year rule. */
  predicate IsLeapYear(year: int)
    ensures year % 4 != 0 ==> !IsLeapYear(year)
    ensures year % 4 == 0 && year % 100 != 0 ==> IsLeapYear(year)
    ensures year % 100 == 0 && year % 400 != 0 ==> !IsLeapYear(year)
    ensures year % 400 == 0 ==> IsLeapYear(year)
  {
    year % 4 == 0 && (year % 100 != 0 || year % 400 == 0)
  }

  /** The month-length table, indexed by `month - 1`. */
  function MonthLengths(year: int): (t: seq<int>)
    ensures |t| == 12
  {
    [31, if IsLeapYear(year) then 29 else 28, 31, 30, 31, 30, 31, 31, 30, 31, 30, 31]
  }

  function DaysInMonth(year: int, month: int): (n: int)
    requires 1 <= month <= 12
    ensures 28 <= n <= 31
    ensures n < 30 <==> month == 2
    ensures month == 2 ==> (n == 29 <==> IsLeapYear(year))
    ensures n == 30 <==> month == 4 || month == 6 || month == 9 || month == 11
  {
    MonthLengths(year)[month - 1]
  }

  function YearLength(year: int): int {
    if IsLeapYear(year) then 366 else 365
  }

  /** True when `a` comes strictly before `b`, field by field from the year down. */
  predicate Before(a: DateTime, b: DateTime) {
    if a.year != b.year then a.year < b.year
    else if a.month != b.month then a.month < b.month
    else if a.day != b.day then a.day < b.day
    else if a.hour != b.hour then a.hour < b.hour
    else if a.minute != b.minute then a.minute < b.minute
    else if a.second != b.second then a.second < b.second
    else a.microsecond < b.microsecond
  }

  predicate SameTimeOfDay(a: DateTime, b: DateTime) {
    a.hour == b.hour && a.minute == b.minute && a.second == b.second && a.microsecond == b.microsecond
  }

  /** Number of whole months since year 0, month 1. */
  function MonthIndex(d: DateTime): int {
    d.year * 12 + (d.month - 1)
  }

  // ---------------------------------------------------------------------
  // add_months
  // ---------------------------------------------------------------------

  /** The month indexes whose year the date-time constructor accepts. */
  predicate MonthIndexInRange(k: int) {
    MinYear * 12 <= k <= MaxYear * 12 + 11
  }

  /**
   * Adds `months` calendar months: the month overflow is carried into the
   * year by floor division, and the day is clamped to the length of the
   * target month. The time of day is kept.
   */
  function AddMonths(d: DateTime, months: int): (r: DateTime)
    requires d.Valid()
    requires MonthIndexInRange(MonthIndex(d) + months)
    ensures r.Valid()
    ensures MonthIndex(r) == MonthIndex(d) + months
    ensures r.day <= d.day && r.day <= DaysInMonth(r.year, r.month)
    ensures r.day == d.day || r.day == DaysInMonth(r.year, r.month)
    ensures SameTimeOfDay(r, d)
  {
    var month0 := d.month - 1 + months;
    var year := d.year + month0 / 12;
    var month := month0 % 12 + 1;
    var day := Min(d.day, MonthLengths(year)[month - 1]);
    DateTime(year, month, day, d.hour, d.minute, d.second, d.microsecond)
  }

  /** A valid date-time is determined by its month index, day and time of day. */
  lemma MonthIndexDetermines(a: DateTime, b: DateTime)
    requires 1 <= a.month <= 12 && 1 <= b.month <= 12
    requires MonthIndex(a) == MonthIndex(b)
    ensures a.year == b.year && a.month == b.month
  {
  }

  /** A smaller month index means an earlier date-time. */
  lemma MonthIndexOrder(a: DateTime, b: DateTime)
    requires 1 <= a.month <= 12 && 1 <= b.month <= 12
    requires MonthIndex(a) < MonthIndex(b)
    ensures Before(a, b)
  {
  }

  /**
   * The result of AddMonths is the only valid date-time with the shifted
   * month index, the clamped day and the original time of day.
   */
  lemma AddMonthsUnique(d: DateTime, months: int, e: DateTime)
    requires d.Valid() && MonthIndexInRange(MonthIndex(d) + months)
    requires e.Valid() && MonthIndex(e) == MonthIndex(d) + months
    requires e.day == Min(d.day, DaysInMonth(e.year, e.month))
    requires SameTimeOfDay(e, d)
    ensures e == AddMonths(d, months)
  {
    var r := AddMonths(d, months);
    MonthIndexDetermines(e, r);
  }

  /** A day that exists in the target month is kept. */
  lemma AddMonthsKeepsDay(d: DateTime, months: int)
    requires d.Valid() && MonthIndexInRange(MonthIndex(d) + months)
    ensures var r := AddMonths(d, months);
            d.day <= DaysInMonth(r.year, r.month) ==> r.day == d.day
  {
  }

  /** A day past the end of the target month becomes that month's last day. */
  lemma AddMonthsClampsToMonthEnd(d: DateTime, months: int)
    requires d.Valid() && MonthIndexInRange(MonthIndex(d) + months)
    ensures var r := AddMonths(d, months);
            d.day > DaysInMonth(r.year, r.month) ==> r.day == DaysInMonth(r.year, r.month)
  {
  }

  /** Adding zero months changes nothing. */
  lemma AddMonthsZero(d: DateTime)
    requires d.Valid()
    ensures AddMonths(d, 0) == d
  {
    var r := AddMonths(d, 0);
    MonthIndexDetermines(r, d);
  }

  /** Adding at least one month gives a strictly later date-time. */
  lemma AddMonthsIncreases(d: DateTime, months: int)
    requires d.Valid() && MonthIndexInRange(MonthIndex(d) + months)
    requires months >= 1
    ensures Before(d, AddMonths(d, months))
  {
    MonthIndexOrder(d, AddMonths(d, months));
  }

  /** Month ends are clamped by the leap-year rule: January 31 plus one month. */
  lemma AddMonthsExamples()
    ensures AddMonths(DateTime(2024, 1, 31, 0, 0, 0, 0), 1) == DateTime(2024, 2, 29, 0, 0, 0, 0)
    ensures AddMonths(DateTime(2023, 1, 31, 0, 0, 0, 0), 1) == DateTime(2023, 2, 28, 0, 0, 0, 0)
    ensures AddMonths(DateTime(2023, 11, 30, 12, 30, 15, 500), 3) == DateTime(2024, 2, 29, 12, 30, 15, 500)
    ensures AddMonths(DateTime(2024, 5, 15, 0, 0, 0, 0), -5) == DateTime(2023, 12, 15, 0, 0, 0, 0)
  {
  }

  /** Century years are leap years only when divisible by 400. */
  lemma LeapYearExamples()
    ensures !IsLeapYear(1900) && IsLeapYear(2000) && IsLeapYear(2024) && !IsLeapYear(2023)
    ensures DaysInMonth(1900, 2) == 28 && DaysInMonth(2000, 2) == 29
  {
  }

  /** The leap-year pattern repeats every 400 years. */
  lemma LeapYearPeriod(year: int)
    ensures IsLeapYear(year + 400) == IsLeapYear(year)
  {
    assert (year + 400) % 4 == year % 4;
    assert (year + 400) % 100 == year % 100;
    assert (year + 400) % 400 == year % 400;
  }

  /** The days before month `m + 1` are those before `m` plus the length of `m`. */
  lemma DaysBeforeMonthStep(year: int, m: int)
    requires 1 <= m < 12
    ensures DaysBeforeMonth(year, m + 1) == DaysBeforeMonth(year, m) + DaysInMonth(year, m)
  {
  }

  /** Summing the twelve month lengths of the table gives the year length. */
  lemma {:induction false} MonthLengthsSum(year: int)
    ensures SumOfMonthLengths(year, 12) == YearLength(year)
  {
    SumOfMonthLengthsIsDaysBefore(year, 12);
  }

  /** The total length of months `1..m` of `year`. */
  function SumOfMonthLengths(year: int, m: int): int
    requires 0 <= m <= 12
  {
    if m == 0 then 0 else SumOfMonthLengths(year, m - 1) + DaysInMonth(year, m)
  }

  lemma {:induction false} SumOfMonthLengthsIsDaysBefore(year: int, m: int)
    requires 1 <= m <= 12
    ensures SumOfMonthLengths(year, m) == DaysBeforeMonth(year, m) + DaysInMonth(year, m)
  {
    if m > 1 {
      SumOfMonthLengthsIsDaysBefore(year, m - 1);
      DaysBeforeMonthStep(year, m - 1);
    }
  }

  // ---------------------------------------------------------------------
  // Day numbers and whole-day subtraction
  // ---------------------------------------------------------------------

  /** Days in the years before `year` (0001-01-01 starts day 1). */
  function DaysBeforeYear(year: int): int
    requires year >= 1
  {
    var p := year - 1;
    p * 365 + p / 4 - p / 100 + p / 400
  }

  /** Days in the months of `year` before `month`. */
  function DaysBeforeMonth(year: int, month: int): int
    requires 1 <= month <= 12
  {
    [0, 31, 59, 90, 120, 151, 181, 212, 243, 273, 304, 334][month - 1]
      + (if month > 2 && IsLeapYear(year) then 1 else 0)
  }

  /** The ordinal of the calendar day of `d`; 0001-01-01 is day 1. */
  function DayNumber(d: DateTime): int
    requires d.year >= 1 && 1 <= d.month <= 12
  {
    DaysBeforeYear(d.year) + DaysBeforeMonth(d.year, d.month) + d.day
  }

  /** Consecutive years are YearLength apart in day numbers. */
  lemma DaysBeforeYearStep(year: int)
    requires year >= 1
    ensures DaysBeforeYear(year + 1) == DaysBeforeYear(year) + YearLength(year)
  {
    MultiplesStep4(year);
    MultiplesStep100(year);
    MultiplesStep400(year);
  }

  /** Passing `year` adds one to the count of multiples of 4 exactly when `year` is one. */
  lemma MultiplesStep4(year: int)
    ensures year / 4 - (year - 1) / 4 == if year % 4 == 0 then 1 else 0
  {
  }

  lemma MultiplesStep100(year: int)
    ensures year / 100 - (year - 1) / 100 == if year % 100 == 0 then 1 else 0
  {
  }

  lemma MultiplesStep400(year: int)
    ensures year / 400 - (year - 1) / 400 == if year % 400 == 0 then 1 else 0
  {
  }

  lemma {:induction false} DaysBeforeYearMonotone(y1: int, y2: int)
    requires 1 <= y1 < y2
    ensures DaysBeforeYear(y1) + YearLength(y1) <= DaysBeforeYear(y2)
    decreases y2 - y1
  {
    DaysBeforeYearStep(y1);
    if y1 + 1 < y2 {
      DaysBeforeYearMonotone(y1 + 1, y2);
    }
  }

  lemma DaysBeforeMonthMonotone(year: int, m1: int, m2: int)
    requires 1 <= m1 < m2 <= 12
    ensures DaysBeforeMonth(year, m1) + DaysInMonth(year, m1) <= DaysBeforeMonth(year, m2)
  {
  }

  /** The day number of a date lies within the day numbers of its year. */
  lemma DayOfYearBounds(d: DateTime)
    requires d.Valid()
    ensures DaysBeforeYear(d.year) < DayNumber(d) <= DaysBeforeYear(d.year) + YearLength(d.year)
  {
    if d.month < 12 {
      DaysBeforeMonthMonotone(d.year, d.month, 12);
    }
    MonthLengthsSum(d.year);
  }

  /** Predicate on the date part only: `a`'s calendar day precedes `b`'s. */
  predicate DayBefore(a: DateTime, b: DateTime) {
    if a.year != b.year then a.year < b.year
    else if a.month != b.month then a.month < b.month
    else a.day < b.day
  }

  /** Day numbers increase strictly with the calendar day. */
  lemma DayNumberMonotone(a: DateTime, b: DateTime)
    requires a.Valid() && b.Valid()
    requires DayBefore(a, b)
    ensures DayNumber(a) < DayNumber(b)
  {
    if a.year < b.year {
      DayOfYearBounds(a);
      DayOfYearBounds(b);
      DaysBeforeYearMonotone(a.year, b.year);
    } else if a.month < b.month {
      DaysBeforeMonthMonotone(a.year, a.month, b.month);
    }
  }

  /** Two valid dates with the same day number are the same calendar day. */
  lemma DayNumberInjective(a: DateTime, b: DateTime)
    requires a.Valid() && b.Valid()
    requires DayNumber(a) == DayNumber(b)
    ensures a.year == b.year && a.month == b.month && a.day == b.day
  {
    if DayBefore(a, b) {
      DayNumberMonotone(a, b);
    } else if DayBefore(b, a) {
      DayNumberMonotone(b, a);
    }
  }

  lemma NotBeforeYear(a: DateTime, b: DateTime)
    requires !Before(b, a)
    ensures a.year <= b.year
  {
  }

  lemma BeforeTransitive(a: DateTime, b: DateTime, c: DateTime)
    requires Before(a, b) && Before(b, c)
    ensures Before(a, c)
  {
  }

  /** The calendar day before `d`, at the same time of day. */
  function PrevDay(d: DateTime): (r: DateTime)
    requires d.Valid() && DayNumber(d) > 1
    ensures r.Valid()
    ensures DayNumber(r) == DayNumber(d) - 1
    ensures SameTimeOfDay(r, d)
    ensures Before(r, d)
  {
    if d.day > 1 then
      d.(day := d.day - 1)
    else if d.month > 1 then
      d.(month := d.month - 1, day := DaysInMonth(d.year, d.month - 1))
    else
      DaysBeforeYearStep(d.year - 1);
      d.(year := d.year - 1, month := 12, day := 31)
  }

  /**
   * `d` minus `n` whole days, as `d - timedelta(days=n)` computes it: the
   * day number drops by exactly `n` and the time of day is kept. The
   * requires clause excludes results before 0001-01-01, which the
   * date-time library rejects.
   */
  function SubtractDays(d: DateTime, n: nat): (r: DateTime)
    requires d.Valid() && n < DayNumber(d)
    ensures r.Valid()
    ensures DayNumber(r) == DayNumber(d) - n
    ensures SameTimeOfDay(r, d)
    ensures n == 0 ==> r == d
    ensures n > 0 ==> Before(r, d)
    decreases n
  {
    if n == 0 then d
    else if n == 1 then PrevDay(d)
    else
      var p := PrevDay(d);
      var r := SubtractDays(p, n - 1);
      BeforeTransitive(r, p, d);
      r
  }

  /**
   * SubtractDays gives the only valid date-time with the lowered day number
   * and the same time of day.
   */
  lemma SubtractDaysUnique(d: DateTime, n: nat, e: DateTime)
    requires d.Valid() && n < DayNumber(d)
    requires e.Valid() && DayNumber(e) == DayNumber(d) - n && SameTimeOfDay(e, d)
    ensures e == SubtractDays(d, n)
  {
    DayNumberInjective(e, SubtractDays(d, n));
  }

  /** From year 2 on, at least 365 whole days can be subtracted. */
  lemma DayNumberFromYearTwo(d: DateTime)
    requires d.Valid() && d.year >= 2
    ensures DayNumber(d) > 365
  {
    DaysBeforeYearMonotone(1, d.year);
  }
}
