/**
 * The proleptic Gregorian calendar as java.time computes it: leap years,
 * month lengths, epoch days, the day of the week, year-months and their
 * month arithmetic.  Every other module works on these values.
 */
module Calendar {

  /** Gregorian rule: divisible by 4, except centuries not divisible by 400. */
  predicate IsLeap(y: int) {
    y % 4 == 0 && (y % 100 != 0 || y % 400 == 0)
  }

  function YearLength(y: int): int {
    if IsLeap(y) then 366 else 365
  }

  function DaysInMonth(y: int, m: int): (n: int)
    requires 1 <= m <= 12
    ensures 28 <= n <= 31
    ensures n == 29 <==> m == 2 && IsLeap(y)
  {
    if m == 2 then (if IsLeap(y) then 29 else 28)
    else if m == 4 || m == 6 || m == 9 || m == 11 then 30
    else 31
  }

  /** A calendar date (year, month-of-year, day-of-month). */
  datatype Date = Date(year: int, month: int, day: int) {
    predicate Valid() {
      1 <= month <= 12 && 1 <= day <= DaysInMonth(year, month)
    }
  }

  /** java.time.LocalDate: only valid dates can be constructed. */
  type LocalDate = d: Date | d.Valid() witness Date(1970, 1, 1)

  /** LocalDate.compareTo: year first, then month, then day. */
  predicate Before(a: Date, b: Date) {
    a.year < b.year || (a.year == b.year && (a.month < b.month || (a.month == b.month && a.day < b.day)))
  }

  predicate OnOrBefore(a: Date, b: Date) {
    Before(a, b) || a == b
  }

  lemma BeforeTrichotomy(a: Date, b: Date)
    ensures Before(a, b) || a == b || Before(b, a)
    ensures !(Before(a, b) && Before(b, a))
    ensures !Before(a, a)
  {
  }

  // ---------------------------------------------------------------------
  // Year-months

  datatype YearMonth = YearMonth(year: int, month: int)

  /** java.time.YearMonth: the month is always 1..12. */
  type ValidYearMonth = ym: YearMonth | 1 <= ym.month <= 12 witness YearMonth(1970, 1)

  function YearMonthOf(d: LocalDate): ValidYearMonth {
    YearMonth(d.year, d.month)
  }

  function LengthOfMonth(ym: ValidYearMonth): int {
    DaysInMonth(ym.year, ym.month)
  }

  /** Months since January of year 0 (java's getProlepticMonth). */
  function ProlepticMonth(ym: ValidYearMonth): int {
    ym.year * 12 + ym.month - 1
  }

  /** Inverse of ProlepticMonth, with floor division and floor modulus. */
  function FromProlepticMonth(pm: int): (ym: ValidYearMonth)
    ensures ProlepticMonth(ym) == pm
  {
    YearMonth(pm / 12, pm % 12 + 1)
  }

  lemma ProlepticMonthInjective(a: ValidYearMonth, b: ValidYearMonth)
    requires ProlepticMonth(a) == ProlepticMonth(b)
    ensures a == b
  {
  }

  /** YearMonth.plusMonths (minusMonths(n) is plusMonths(-n)). */
  function PlusMonths(ym: ValidYearMonth, n: int): (r: ValidYearMonth)
    ensures ProlepticMonth(r) == ProlepticMonth(ym) + n
  {
    FromProlepticMonth(ProlepticMonth(ym) + n)
  }

  /** Stepping one month forward wraps December into January of the next year. */
  lemma NextMonthWraps(ym: ValidYearMonth)
    ensures PlusMonths(ym, 1) == (if ym.month == 12 then YearMonth(ym.year + 1, 1) else YearMonth(ym.year, ym.month + 1))
  {
    var r := if ym.month == 12 then YearMonth(ym.year + 1, 1) else YearMonth(ym.year, ym.month + 1);
    assert ProlepticMonth(r) == ProlepticMonth(ym) + 1;
    ProlepticMonthInjective(PlusMonths(ym, 1), r);
  }

  /** Stepping one month back wraps January into December of the previous year. */
  lemma PreviousMonthWraps(ym: ValidYearMonth)
    ensures PlusMonths(ym, -1) == (if ym.month == 1 then YearMonth(ym.year - 1, 12) else YearMonth(ym.year, ym.month - 1))
  {
    var r := if ym.month == 1 then YearMonth(ym.year - 1, 12) else YearMonth(ym.year, ym.month - 1);
    assert ProlepticMonth(r) == ProlepticMonth(ym) - 1;
    ProlepticMonthInjective(PlusMonths(ym, -1), r);
  }

  /** Going back a month and then forward a month (or the reverse) returns to the same month. */
  lemma PreviousThenNext(ym: ValidYearMonth)
    ensures PlusMonths(PlusMonths(ym, -1), 1) == ym
    ensures PlusMonths(PlusMonths(ym, 1), -1) == ym
  {
    ProlepticMonthInjective(PlusMonths(PlusMonths(ym, -1), 1), ym);
    ProlepticMonthInjective(PlusMonths(PlusMonths(ym, 1), -1), ym);
  }

  // ---------------------------------------------------------------------
  // Epoch days

  /**
   * Epoch day of January 1 of year y, counted year by year away from 1970.
   * JavaYearStart below is the closed form java.time uses;
   * YearStartIsJavaFormula shows the two agree.
   */
  function YearStart(y: int): int
    decreases if y < 1970 then 1970 - y else y - 1970
  {
    if y == 1970 then 0
    else if y > 1970 then YearStart(y - 1) + YearLength(y - 1)
    else YearStart(y + 1) - YearLength(y)
  }

  /** Epoch day of the first day of a month. */
  function MonthStart(ym: ValidYearMonth): int {
    YearStart(ym.year) + DaysBeforeMonth(ym.year, ym.month)
  }

  /** LocalDate.toEpochDay: days since 1970-01-01. */
  function EpochDay(d: LocalDate): int {
    MonthStart(YearMonthOf(d)) + d.day - 1
  }

  /** ISO day of the week, Monday = 1 .. Sunday = 7 (java's floorMod(epochDay + 3, 7) + 1). */
  function DayOfWeek(d: LocalDate): (w: int)
    ensures 1 <= w <= 7
  {
    (EpochDay(d) + 3) % 7 + 1
  }

  /** Days of year y before the first of month m. */
  function DaysBeforeMonth(y: int, m: int): int
    requires 1 <= m <= 12
  {
    var common :=
      match m
      case 1 => 0
      case 2 => 31
      case 3 => 59
      case 4 => 90
      case 5 => 120
      case 6 => 151
      case 7 => 181
      case 8 => 212
      case 9 => 243
      case 10 => 273
      case 11 => 304
      case _ => 334;
    if m > 2 && IsLeap(y) then common + 1 else common
  }

  /** The months of a year are laid end to end and fill the year exactly. */
  lemma MonthEnd(y: int, m: int)
    requires 1 <= m <= 12
    ensures DaysBeforeMonth(y, m) + DaysInMonth(y, m) == if m < 12 then DaysBeforeMonth(y, m + 1) else YearLength(y)
  {
  }

  /** Position of a date in its year, January 1 being 1. */
  function DayOfYear(d: LocalDate): (n: int)
    ensures 1 <= n <= YearLength(d.year)
  {
    MonthEnd(d.year, d.month);
    DaysBeforeMonth(d.year, d.month) + d.day
  }

  /** The month that follows begins right after the last day of this one. */
  lemma MonthStartStep(ym: ValidYearMonth)
    ensures MonthStart(PlusMonths(ym, 1)) == MonthStart(ym) + LengthOfMonth(ym)
  {
    NextMonthWraps(ym);
    MonthEnd(ym.year, ym.month);
    if ym.month == 12 {
      YearStartStep(ym.year);
    }
  }

  /** A month ends no later than any later month begins. */
  lemma {:induction false} MonthStartGap(a: ValidYearMonth, b: ValidYearMonth)
    requires ProlepticMonth(a) < ProlepticMonth(b)
    ensures MonthStart(a) + LengthOfMonth(a) <= MonthStart(b)
    decreases ProlepticMonth(b) - ProlepticMonth(a)
  {
    var next := PlusMonths(a, 1);
    MonthStartStep(a);
    if ProlepticMonth(next) < ProlepticMonth(b) {
      MonthStartGap(next, b);
    } else {
      ProlepticMonthInjective(next, b);
    }
  }

  /** A year's epoch days begin right after the previous year's end. */
  lemma YearStartStep(y: int)
    ensures YearStart(y + 1) == YearStart(y) + YearLength(y)
  {
  }

  /** A date's epoch day is its year's start plus its position in the year. */
  lemma EpochDayByYear(d: LocalDate)
    ensures EpochDay(d) == YearStart(d.year) + DayOfYear(d) - 1
  {
  }

  /** Epoch days order dates exactly as LocalDate.compareTo does. */
  lemma EpochDayOrder(a: LocalDate, b: LocalDate)
    ensures Before(a, b) <==> EpochDay(a) < EpochDay(b)
    ensures a == b <==> EpochDay(a) == EpochDay(b)
  {
    forall x: LocalDate, y: LocalDate | Before(x, y)
      ensures EpochDay(x) < EpochDay(y)
    {
      if ProlepticMonth(YearMonthOf(x)) < ProlepticMonth(YearMonthOf(y)) {
        MonthStartGap(YearMonthOf(x), YearMonthOf(y));
      }
    }
    BeforeTrichotomy(a, b);
  }

  // ---------------------------------------------------------------------
  // The closed form java.time uses

  /** Days from 0000-01-01 to 1970-01-01. */
  const DaysFrom0000To1970: int := 719528

  /**
   * Days from 0000-01-01 to January 1 of year y; `/` is floor division, so
   * each quotient counts the multiples of 4, 100 and 400 in [0, y), also for
   * negative years (where java's code negates and truncates to the same value).
   */
  function DaysBeforeYear(y: int): int {
    365 * y + (y + 3) / 4 - (y + 99) / 100 + (y + 399) / 400
  }

  lemma DaysBeforeYearStep(y: int)
    ensures DaysBeforeYear(y + 1) == DaysBeforeYear(y) + YearLength(y)
  {
    assert (y + 4) / 4 == (y + 3) / 4 + (if y % 4 == 0 then 1 else 0);
    assert (y + 100) / 100 == (y + 99) / 100 + (if y % 100 == 0 then 1 else 0);
    assert (y + 400) / 400 == (y + 399) / 400 + (if y % 400 == 0 then 1 else 0);
  }

  /**
   * The year-by-year count and java's closed form give the same epoch days,
   * so EpochDay is LocalDate.toEpochDay: DaysBeforeYear(y) + DaysBeforeMonth(y, m)
   * + day - 1 - DaysFrom0000To1970.
   */
  lemma {:induction false} YearStartIsJavaFormula(y: int)
    ensures YearStart(y) == DaysBeforeYear(y) - DaysFrom0000To1970
    decreases if y < 1970 then 1970 - y else y - 1970
  {
    if y > 1970 {
      YearStartIsJavaFormula(y - 1);
      DaysBeforeYearStep(y - 1);
    } else if y < 1970 {
      YearStartIsJavaFormula(y + 1);
      DaysBeforeYearStep(y);
    }
  }

  /** The month table is java's ((367 * m - 362) / 12), less 2 days after February (1 in leap years). */
  lemma DaysBeforeMonthIsJavaFormula(y: int, m: int)
    requires 1 <= m <= 12
    ensures DaysBeforeMonth(y, m) == (367 * m - 362) / 12 - (if m <= 2 then 0 else if IsLeap(y) then 1 else 2)
  {
  }

  /** Epoch day 0 is Thursday 1970-01-01. */
  lemma EpochOrigin()
    ensures EpochDay(Date(1970, 1, 1)) == 0
    ensures DayOfWeek(Date(1970, 1, 1)) == 4
  {
  }
}
