/**
 * The recurring-birthday date engine: projecting a month/day onto a year,
 * the next occurrence on or after today, the two day counts the app uses
 * (total days, and the days field of Period.between), isToday, and age.
 * "today" is always a parameter; nothing here reads a clock.
 */
module Occurrence {
  import opened Wrappers
  import opened Calendar
  import opened Periods

  /** A stored birthday: identity, name, month and day, optional birth year, category. */
  datatype Birthday = Birthday(id: int, name: string, month: int, day: int, birthYear: Option<int>, category: string)

  /** MonthDay validity: the day exists in that month of a leap year, so February 29 is allowed. */
  predicate ValidMonthDay(month: int, day: int) {
    1 <= month <= 12 && 1 <= day <= DaysInMonth(2000, month)
  }

  /** Records always hold a valid month/day (java.time.MonthDay cannot hold any other). */
  type BirthdayRecord = b: Birthday | ValidMonthDay(b.month, b.day) witness Birthday(0, "", 1, 1, None, "")

  /**
   * The occurrence of a month/day in a year: what MonthDay.atYear and
   * LocalDate.withYear do.  Both keep the day unless the month is shorter,
   * in which case they take its last day, so February 29 becomes February
   * 28 in a common year and neither throws for a valid month/day.
   */
  function Project(month: int, day: int, year: int): (r: LocalDate)
    requires ValidMonthDay(month, day)
    ensures r == Date(year, month, Min(day, DaysInMonth(year, month)))
  {
    if month == 2 && day == 29 && !IsLeap(year) then Date(year, 2, 28) else Date(year, month, day)
  }

  /** The projection keeps month and day, except February 29 in a common year, which becomes February 28. */
  lemma ProjectKeepsMonthDay(month: int, day: int, year: int)
    requires ValidMonthDay(month, day)
    ensures Project(month, day, year).year == year && Project(month, day, year).month == month
    ensures Project(month, day, year).day == day <==> !(month == 2 && day == 29 && !IsLeap(year))
    ensures month == 2 && day == 29 && !IsLeap(year) ==> Project(month, day, year).day == 28
  {
  }

  /** This year's occurrence if it is on or after today, otherwise next year's. */
  function NextOccurrence(b: BirthdayRecord, today: LocalDate): (r: LocalDate)
    ensures OnOrBefore(today, r)
    ensures r.year == today.year || r.year == today.year + 1
    ensures r == Project(b.month, b.day, r.year)
  {
    var thisYear := Project(b.month, b.day, today.year);
    if OnOrBefore(today, thisYear) then thisYear
    else Project(b.month, b.day, today.year + 1)
  }

  /** No occurrence on or after today comes before the one NextOccurrence picks. */
  lemma NextOccurrenceIsEarliest(b: BirthdayRecord, today: LocalDate, year: int)
    requires OnOrBefore(today, Project(b.month, b.day, year))
    ensures OnOrBefore(NextOccurrence(b, today), Project(b.month, b.day, year))
  {
  }

  /** Consecutive years are never both leap years. */
  lemma NoConsecutiveLeapYears(y: int)
    ensures !(IsLeap(y) && IsLeap(y + 1))
  {
  }

  /**
   * Moving an occurrence one year later moves it exactly one year length later,
   * up to the one day a leap day can shift it, and never past 366 days.
   */
  lemma {:induction false} ProjectionShift(month: int, day: int, y: int)
    requires ValidMonthDay(month, day)
    ensures DayOfYear(Project(month, day, y + 1)) + YearLength(y) <= DayOfYear(Project(month, day, y)) + 366
  {
    NoConsecutiveLeapYears(y);
  }

  /** ChronoUnit.DAYS.between(today, next occurrence): the total day count. */
  function TotalDaysUntil(b: BirthdayRecord, today: LocalDate): (n: int)
    ensures 0 <= n <= 365
    ensures n == 0 <==> NextOccurrence(b, today) == today
  {
    var next := NextOccurrence(b, today);
    TotalDaysUntilBound(b, today);
    EpochDayOrder(today, next);
    TotalDays(today, next)
  }

  lemma {:induction false} TotalDaysUntilBound(b: BirthdayRecord, today: LocalDate)
    ensures 0 <= TotalDays(today, NextOccurrence(b, today)) <= 365
  {
    var next := NextOccurrence(b, today);
    var thisYear := Project(b.month, b.day, today.year);
    EpochDayOrder(today, next);
    EpochDayByYear(today);
    EpochDayByYear(next);
    if next != thisYear {
      EpochDayByYear(thisYear);
      EpochDayOrder(thisYear, today);
      YearStartStep(today.year);
      ProjectionShift(b.month, b.day, today.year);
    }
  }

  /** The days field of Period.between(today, next occurrence): what is left after whole months. */
  function PeriodDaysUntil(b: BirthdayRecord, today: LocalDate): (n: int)
    ensures 0 <= n <= 30
  {
    var next := NextOccurrence(b, today);
    BetweenForward(today, next);
    Between(today, next).days
  }

  /** Below 28 total days the two counts agree. */
  lemma DayCountsAgreeWithinFourWeeks(b: BirthdayRecord, today: LocalDate)
    requires TotalDaysUntil(b, today) < 28
    ensures PeriodDaysUntil(b, today) == TotalDaysUntil(b, today)
  {
    BetweenShortSpan(today, NextOccurrence(b, today));
  }

  /** BirthdayViewModel.isToday: month and day-of-month equal today's; the year is ignored. */
  predicate IsToday(b: BirthdayRecord, today: LocalDate) {
    b.month == today.month && b.day == today.day
  }

  /**
   * isToday implies a zero day count; the converse holds except for a
   * February 29 birthday on February 28 of a common year, where the count is
   * zero but isToday is false.
   */
  lemma IsTodayVersusZeroDays(b: BirthdayRecord, today: LocalDate)
    ensures IsToday(b, today) ==> TotalDaysUntil(b, today) == 0
    ensures TotalDaysUntil(b, today) == 0 <==>
      IsToday(b, today) || (b.month == 2 && b.day == 29 && today.month == 2 && today.day == 28 && !IsLeap(today.year))
  {
    var thisYear := Project(b.month, b.day, today.year);
    if IsToday(b, today) {
      assert thisYear == today;
    }
    if b.month == 2 && b.day == 29 && today.month == 2 && today.day == 28 && !IsLeap(today.year) {
      assert thisYear == today;
    }
  }

  datatype DateError = InvalidDate

  /**
   * Age as the list row shows it: absent without a birth year, otherwise the
   * years field of Period.between(birthDate, today).  A birth year in which
   * the month/day does not exist (February 29 of a common year) cannot form
   * a birthDate.
   */
  function CurrentAge(b: BirthdayRecord, today: LocalDate): (r: Result<Option<int>, DateError>)
    ensures b.birthYear.None? ==> r == Success(None)
    ensures r.Failure? <==> b.birthYear.Some? && !Date(b.birthYear.value, b.month, b.day).Valid()
    ensures b.birthYear.Some? && Date(b.birthYear.value, b.month, b.day).Valid()
            && OnOrBefore(Date(b.birthYear.value, b.month, b.day), today) ==>
      r == Success(Some(today.year - b.birthYear.value
                        - (if today.month < b.month || (today.month == b.month && today.day < b.day) then 1 else 0)))
      && r.value.value >= 0
  {
    match b.birthYear
    case None => Success(None)
    case Some(y) =>
      var birth := Date(y, b.month, b.day);
      if birth.Valid() then Success(Some(Between(birth, today).years))
      else Failure(InvalidDate)
  }
}
