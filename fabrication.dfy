/**
 * The fabricated scan attributes. The random draws and the current time are
 * parameters; each draw's range is a precondition.
 */
module Fabrication {
  import opened Calendar

  /** Days subtracted: whole 30-day "months" plus extra days. */
  function PastDayOffset(monthsBack: int, daysBack: int): int {
    monthsBack * 30 + daysBack
  }

  lemma PastDayOffsetBounds(months: int, monthsBack: int, daysBack: int)
    requires 0 <= monthsBack <= months && 0 <= daysBack <= 29
    ensures 0 <= PastDayOffset(monthsBack, daysBack) <= months * 30 + 29
  {
  }

  /**
   * A date-time `monthsBack * 30 + daysBack` whole days before `now`, for
   * draws `monthsBack` in [0, months] and `daysBack` in [0, 29]. It is never
   * after `now` and keeps its time of day.
   */
  function RandomInPastMonths(now: DateTime, months: int, monthsBack: int, daysBack: int): (r: DateTime)
    requires now.Valid()
    requires 0 <= monthsBack <= months && 0 <= daysBack <= 29
    requires PastDayOffset(monthsBack, daysBack) < DayNumber(now)
    ensures r.Valid() && SameTimeOfDay(r, now)
    ensures 0 <= DayNumber(now) - DayNumber(r) <= months * 30 + 29
    ensures DayNumber(now) - DayNumber(r) == monthsBack * 30 + daysBack
    ensures !Before(now, r)
  {
    var days := PastDayOffset(monthsBack, daysBack);
    SubtractDays(now, days)
  }

  /** Expiry: 12 months plus a draw `extraMonths` in [0, 12] after manufacture. */
  function ExpiryDate(mfg: DateTime, extraMonths: int): (r: DateTime)
    requires mfg.Valid() && 0 <= extraMonths <= 12
    requires MonthIndexInRange(MonthIndex(mfg) + 12 + extraMonths)
    ensures r.Valid()
    ensures Before(mfg, r)
    ensures 12 <= MonthIndex(r) - MonthIndex(mfg) <= 24
    ensures MonthIndex(r) - MonthIndex(mfg) == 12 + extraMonths
    ensures r.day == Min(mfg.day, DaysInMonth(r.year, r.month))
    ensures SameTimeOfDay(r, mfg)
  {
    AddMonthsIncreases(mfg, 12 + extraMonths);
    AddMonths(mfg, 12 + extraMonths)
  }

  /** What every manufacture/expiry pair satisfies. */
  predicate DatesWellFormed(mfg: DateTime, exp: DateTime) {
    && mfg.Valid() && exp.Valid()
    && Before(mfg, exp)
    && 12 <= MonthIndex(exp) - MonthIndex(mfg) <= 24
  }

  /**
   * The manufacture date `RandomInPastMonths(now, 9, ...)` and the expiry
   * date `12 + extraMonths` months after it, for a clock in years 2 to
   * MaxYear - 2 (where neither step leaves the date-time range).
   */
  function FabricateDates(now: DateTime, monthsBack: int, daysBack: int, extraMonths: int): (dates: (DateTime, DateTime))
    requires now.Valid() && 2 <= now.year <= MaxYear - 2
    requires 0 <= monthsBack <= 9 && 0 <= daysBack <= 29 && 0 <= extraMonths <= 12
    ensures DatesWellFormed(dates.0, dates.1)
    ensures !Before(now, dates.0) && SameTimeOfDay(dates.0, now)
    ensures DayNumber(now) - DayNumber(dates.0) == monthsBack * 30 + daysBack
    ensures MonthIndex(dates.1) - MonthIndex(dates.0) == 12 + extraMonths
    ensures MonthIndexInRange(MonthIndex(dates.0) + 12 + extraMonths)
    ensures dates.1 == AddMonths(dates.0, 12 + extraMonths)
    ensures dates.1.day == Min(dates.0.day, DaysInMonth(dates.1.year, dates.1.month))
    ensures SameTimeOfDay(dates.1, now)
  {
    DayNumberFromYearTwo(now);
    var mfg := RandomInPastMonths(now, 9, monthsBack, daysBack);
    NotBeforeYear(mfg, now);
    (mfg, ExpiryDate(mfg, extraMonths))
  }

  predicate RatingInRange(rating: int) {
    50 <= rating <= 95
  }
}
