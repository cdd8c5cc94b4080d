/**
 * java.time.Period.between(start, end), which the view-model, the
 * notification worker and the age column use: whole months first, then the
 * days left over, with the months split into years and months by truncating
 * division.
 */
module Periods {
  import opened Calendar

  datatype Period = Period(years: int, months: int, days: int)

  function Min(a: int, b: int): int {
    if a <= b then a else b
  }

  /** Java's `/` on longs: truncates toward zero. */
  function TruncDiv(a: int, b: int): int
    requires b > 0
  {
    if a >= 0 then a / b else -((-a) / b)
  }

  /** Java's `%` on longs: takes the sign of the dividend. */
  function TruncMod(a: int, b: int): int
    requires b > 0
  {
    if a >= 0 then a % b else -((-a) % b)
  }

  /** LocalDate.plusMonths: move the year-month, keeping the day unless the new month is shorter. */
  function PlusMonthsToDate(d: LocalDate, n: int): (r: LocalDate)
    ensures YearMonthOf(r) == PlusMonths(YearMonthOf(d), n)
    ensures r.day == Min(d.day, LengthOfMonth(YearMonthOf(r)))
  {
    var ym := PlusMonths(YearMonthOf(d), n);
    Date(ym.year, ym.month, Min(d.day, DaysInMonth(ym.year, ym.month)))
  }

  function OfMonthsAndDays(totalMonths: int, days: int): Period {
    Period(TruncDiv(totalMonths, 12), TruncMod(totalMonths, 12), days)
  }

  /** LocalDate.until(end), which Period.between(start, end) calls. */
  function Between(start: LocalDate, end: LocalDate): Period {
    var totalMonths := ProlepticMonth(YearMonthOf(end)) - ProlepticMonth(YearMonthOf(start));
    var days := end.day - start.day;
    if totalMonths > 0 && days < 0 then
      var anchor := PlusMonthsToDate(start, totalMonths - 1);
      OfMonthsAndDays(totalMonths - 1, EpochDay(end) - EpochDay(anchor))
    else if totalMonths < 0 && days > 0 then
      OfMonthsAndDays(totalMonths + 1, days - LengthOfMonth(YearMonthOf(end)))
    else
      OfMonthsAndDays(totalMonths, days)
  }

  /** ChronoUnit.DAYS.between(start, end). */
  function TotalDays(start: LocalDate, end: LocalDate): int {
    EpochDay(end) - EpochDay(start)
  }

  /** Adding a whole number of months never lands before the start date. */
  lemma PlusMonthsNotBefore(d: LocalDate, n: nat)
    ensures EpochDay(d) <= EpochDay(PlusMonthsToDate(d, n))
  {
    var r := PlusMonthsToDate(d, n);
    if n > 0 {
      MonthStartGap(YearMonthOf(d), YearMonthOf(r));
    }
  }

  lemma SplitMonths(totalMonths: int, days: int)
    requires totalMonths >= 0
    ensures var p := OfMonthsAndDays(totalMonths, days);
      p.years >= 0 && 0 <= p.months < 12 && 12 * p.years + p.months == totalMonths && p.days == days
  {
  }

  /** Months from the start's month to the end's month. */
  function MonthsApart(start: LocalDate, end: LocalDate): int {
    ProlepticMonth(YearMonthOf(end)) - ProlepticMonth(YearMonthOf(start))
  }

  lemma MonthsApartNonNegative(start: LocalDate, end: LocalDate)
    requires OnOrBefore(start, end)
    ensures MonthsApart(start, end) >= 0
    ensures MonthsApart(start, end) == 0 ==> start.day <= end.day
  {
  }

  /** The case where the end's day-of-month is smaller: one month fewer, and the days counted from there. */
  lemma {:induction false} BorrowedMonth(start: LocalDate, end: LocalDate)
    requires MonthsApart(start, end) > 0 && end.day < start.day
    ensures var anchor := PlusMonthsToDate(start, MonthsApart(start, end) - 1);
      && 1 <= EpochDay(end) - EpochDay(anchor) <= 30
      && EpochDay(end) <= EpochDay(PlusMonthsToDate(start, MonthsApart(start, end)))
  {
    var tm := MonthsApart(start, end);
    var e := YearMonthOf(end);
    var anchor := PlusMonthsToDate(start, tm - 1);
    var c := YearMonthOf(anchor);
    ProlepticMonthInjective(PlusMonths(c, 1), e);
    MonthStartStep(c);
    assert EpochDay(end) - EpochDay(anchor) == LengthOfMonth(c) - anchor.day + end.day;
    var over := PlusMonthsToDate(start, tm);
    ProlepticMonthInjective(YearMonthOf(over), e);
    assert over.day >= end.day;
  }

  /** The case where the end's day-of-month is not smaller: the months land on the start's day. */
  lemma {:induction false} WholeMonths(start: LocalDate, end: LocalDate)
    requires MonthsApart(start, end) >= 0 && start.day <= end.day
    ensures EpochDay(PlusMonthsToDate(start, MonthsApart(start, end))) + end.day - start.day == EpochDay(end)
    ensures EpochDay(end) < EpochDay(PlusMonthsToDate(start, MonthsApart(start, end) + 1))
  {
    var tm := MonthsApart(start, end);
    var e := YearMonthOf(end);
    var landing := PlusMonthsToDate(start, tm);
    ProlepticMonthInjective(YearMonthOf(landing), e);
    var over := PlusMonthsToDate(start, tm + 1);
    ProlepticMonthInjective(YearMonthOf(over), PlusMonths(e, 1));
    MonthStartStep(e);
  }

  /**
   * Period.between on ordered dates: the whole months added to the start
   * fall on or before the end, the days field is what remains, one more month
   * would not fall before the end, and so the days field is at most 30.  (One
   * more month can land exactly on the end when the start's day is clamped:
   * from January 31 to February 28 of a common year is 0 months and 28 days.)
   */
  lemma {:induction false} BetweenForward(start: LocalDate, end: LocalDate)
    requires OnOrBefore(start, end)
    ensures var p := Between(start, end);
      && p.years >= 0 && 0 <= p.months < 12 && 0 <= p.days <= 30
      && EpochDay(PlusMonthsToDate(start, 12 * p.years + p.months)) + p.days == EpochDay(end)
      && EpochDay(end) <= EpochDay(PlusMonthsToDate(start, 12 * p.years + p.months + 1))
  {
    var tm := MonthsApart(start, end);
    MonthsApartNonNegative(start, end);
    if tm > 0 && end.day < start.day {
      var anchor := PlusMonthsToDate(start, tm - 1);
      var p := OfMonthsAndDays(tm - 1, EpochDay(end) - EpochDay(anchor));
      assert Between(start, end) == p;
      SplitMonths(tm - 1, EpochDay(end) - EpochDay(anchor));
      BorrowedMonth(start, end);
      assert 12 * p.years + p.months + 1 == tm;
      assert EpochDay(end) <= EpochDay(PlusMonthsToDate(start, 12 * p.years + p.months + 1));
    } else {
      var p := OfMonthsAndDays(tm, end.day - start.day);
      assert Between(start, end) == p;
      SplitMonths(tm, end.day - start.day);
      WholeMonths(start, end);
      assert 12 * p.years + p.months == tm;
      assert EpochDay(end) <= EpochDay(PlusMonthsToDate(start, 12 * p.years + p.months + 1));
    }
  }

  /**
   * Where the two day counts agree: when fewer than 28 days separate the
   * dates, Period.between has no months or years and its days field is the
   * total day count.
   */
  lemma {:induction false} BetweenShortSpan(start: LocalDate, end: LocalDate)
    requires OnOrBefore(start, end)
    requires TotalDays(start, end) < 28
    ensures Between(start, end) == Period(0, 0, TotalDays(start, end))
  {
    var p := Between(start, end);
    var k := 12 * p.years + p.months;
    assert p.years >= 0 && 0 <= p.months < 12 && p.days >= 0 && EpochDay(PlusMonthsToDate(start, k)) + p.days == EpochDay(end) by {
      BetweenForward(start, end);
    }
    assert k == 0 by {
      if k > 0 {
        PlusMonthsAtLeast28(start, k);
      }
    }
    assert PlusMonthsToDate(start, 0) == start by {
      ProlepticMonthInjective(PlusMonths(YearMonthOf(start), 0), YearMonthOf(start));
    }
    assert p.years == 0 && p.months == 0 && p.days == TotalDays(start, end);
  }

  /** A month or more later is at least 28 days later, even when the day is clamped. */
  lemma PlusMonthsAtLeast28(d: LocalDate, n: int)
    requires n >= 1
    ensures EpochDay(PlusMonthsToDate(d, n)) >= EpochDay(d) + 28
  {
    var r := PlusMonthsToDate(d, n);
    MonthStartGap(YearMonthOf(d), YearMonthOf(r));
  }

  /**
   * The years field of Period.between(birth, today) counts completed years:
   * the difference of the years, less one while this year's anniversary
   * (month, day) has not been reached.
   */
  lemma {:induction false} BetweenYearsCompleted(birth: LocalDate, today: LocalDate)
    requires OnOrBefore(birth, today)
    ensures Between(birth, today).years
      == today.year - birth.year
         - (if today.month < birth.month || (today.month == birth.month && today.day < birth.day) then 1 else 0)
  {
  }
}
