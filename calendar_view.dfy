/**
 * The calendar screen's logic: the displayed month and its navigation, the
 * leading blank cells of the month grid, the list of the month's days, the
 * birthdays of a cell and its dot colour, and the month's birthday list.
 */
module CalendarView {
  import opened Wrappers
  import opened Calendar
  import opened Seqs
  import opened Occurrence
  import opened ViewModel
  import opened Sorting

  /** The screen's mutable state: the displayed month. */
  class CalendarState {
    var currentMonth: ValidYearMonth

    /** The screen opens on the current month, which the caller passes in. */
    constructor (now: ValidYearMonth)
      ensures currentMonth == now
    {
      currentMonth := now;
    }

    /** The back arrow: minusMonths(1), from January to December of the year before. */
    method ShowPrevious()
      modifies this
      ensures currentMonth == PlusMonths(old(currentMonth), -1)
      ensures currentMonth == (if old(currentMonth).month == 1 then YearMonth(old(currentMonth).year - 1, 12)
                               else YearMonth(old(currentMonth).year, old(currentMonth).month - 1))
    {
      PreviousMonthWraps(currentMonth);
      currentMonth := PlusMonths(currentMonth, -1);
    }

    /** The forward arrow: plusMonths(1), from December to January of the year after. */
    method ShowNext()
      modifies this
      ensures currentMonth == PlusMonths(old(currentMonth), 1)
      ensures currentMonth == (if old(currentMonth).month == 12 then YearMonth(old(currentMonth).year + 1, 1)
                               else YearMonth(old(currentMonth).year, old(currentMonth).month + 1))
    {
      NextMonthWraps(currentMonth);
      currentMonth := PlusMonths(currentMonth, 1);
    }
  }

  // ---------------------------------------------------------------------
  // The grid

  function FirstOfMonth(ym: ValidYearMonth): LocalDate {
    Date(ym.year, ym.month, 1)
  }

  /**
   * firstDayOfWeek: the ISO day of week of the 1st (Monday 1 .. Sunday 7)
   * modulo 7, i.e. the number of blank cells before day 1 in a grid whose
   * weeks start on Sunday.
   */
  function LeadingBlanks(ym: ValidYearMonth): (n: int)
    ensures 0 <= n <= 6
    ensures n == 0 <==> DayOfWeek(FirstOfMonth(ym)) == 7
  {
    DayOfWeek(FirstOfMonth(ym)) % 7
  }

  /** days: every date of the month, from the 1st to lengthOfMonth, in order. */
  function MonthDays(ym: ValidYearMonth): (days: seq<LocalDate>)
    ensures |days| == LengthOfMonth(ym)
    ensures forall i :: 0 <= i < |days| ==> days[i] == Date(ym.year, ym.month, i + 1)
  {
    seq(LengthOfMonth(ym), (i: int) requires 0 <= i < LengthOfMonth(ym) => DayOfMonth(ym, i + 1))
  }

  /** The date of day k of the displayed month (atDay). */
  function DayOfMonth(ym: ValidYearMonth, k: int): (d: LocalDate)
    requires 1 <= k <= LengthOfMonth(ym)
    ensures d.year == ym.year && d.month == ym.month && d.day == k
  {
    Date(ym.year, ym.month, k)
  }

  /**
   * The month's day list has 28 to 31 entries, 29 exactly for February of
   * a leap year; it holds each date of the month once, in increasing order.
   */
  lemma MonthDaysComplete(ym: ValidYearMonth)
    ensures 28 <= |MonthDays(ym)| <= 31
    ensures |MonthDays(ym)| == 29 <==> ym.month == 2 && IsLeap(ym.year)
    ensures forall d: LocalDate :: d.year == ym.year && d.month == ym.month ==> MonthDays(ym)[d.day - 1] == d
    ensures forall i, j :: 0 <= i < j < |MonthDays(ym)| ==> Before(MonthDays(ym)[i], MonthDays(ym)[j])
  {
  }

  /** Adding whole weeks does not change a remainder modulo 7. */
  lemma ModSevenOfShift(x: int, q: int, r: int)
    requires x == 7 * q + r
    ensures x % 7 == r % 7
  {
  }

  /** Day k of a month whose 1st has epoch day e sits in column (blanks + k - 1) % 7 of its weekday. */
  lemma WeekdayColumn(e: int, k: int)
    ensures (((e + 3) % 7 + 1) % 7 + k - 1) % 7 == (((e + k - 1) + 3) % 7 + 1) % 7
  {
    var q, w := (e + 3) / 7, (e + 3) % 7;
    ModSevenOfShift(e + k + 2, q, w + k - 1);
    var t := (w + k - 1) % 7;
    ModSevenOfShift(w + k, (w + k - 1) / 7, t + 1);
    if w == 6 {
      ModSevenOfShift(k + 6, 1, k - 1);
    }
  }

  /**
   * After the blank cells, the cell of day k of the month is the
   * (blanks + k - 1)-th of the grid, so it falls in the column of its own
   * weekday (Sunday = column 0).
   */
  lemma GridColumnIsWeekday(ym: ValidYearMonth, k: int)
    requires 1 <= k <= LengthOfMonth(ym)
    ensures (LeadingBlanks(ym) + k - 1) % 7 == DayOfWeek(DayOfMonth(ym, k)) % 7
  {
    var e := EpochDay(FirstOfMonth(ym));
    assert EpochDay(DayOfMonth(ym, k)) == e + k - 1;
    WeekdayColumn(e, k);
  }

  // ---------------------------------------------------------------------
  // Birthdays on the calendar

  /** dayBirthdays: the birthdays whose month and day of month are the cell's. */
  function DayBirthdays(birthdays: seq<BirthdayRecord>, date: LocalDate): (r: seq<BirthdayRecord>)
    ensures forall i :: 0 <= i < |r| ==> r[i] in birthdays && r[i].month == date.month && r[i].day == date.day
    ensures forall i :: 0 <= i < |birthdays| && birthdays[i].month == date.month && birthdays[i].day == date.day
                        ==> birthdays[i] in r
  {
    Filter(birthdays, (b: BirthdayRecord) => b.month == date.month && b.day == date.day)
  }

  datatype DotColour = GreenDot | OrangeDot | PrimaryDot

  /** `any { who?.id == it.id }`: some birthday of the cell has the id of `who`, which is not null. */
  predicate HoldsId(dayBirthdays: seq<BirthdayRecord>, who: Option<BirthdayRecord>) {
    who.Some? && exists i :: 0 <= i < |dayBirthdays| && dayBirthdays[i].id == who.value.id
  }

  /**
   * A cell's dot: none without birthdays; green when one of them is
   * today's birthday, otherwise orange when one is the next upcoming one,
   * otherwise the primary colour.
   */
  function CellDot(dayBirthdays: seq<BirthdayRecord>, todayBirthday: Option<BirthdayRecord>, nextUpcoming: Option<BirthdayRecord>)
    : (r: Option<DotColour>)
    ensures r.None? <==> dayBirthdays == []
    ensures r == Some(GreenDot) <==> HoldsId(dayBirthdays, todayBirthday)
    ensures r == Some(OrangeDot) <==> !HoldsId(dayBirthdays, todayBirthday) && HoldsId(dayBirthdays, nextUpcoming)
    ensures r == Some(PrimaryDot) <==>
      dayBirthdays != [] && !HoldsId(dayBirthdays, todayBirthday) && !HoldsId(dayBirthdays, nextUpcoming)
  {
    if dayBirthdays == [] then None
    else if HoldsId(dayBirthdays, todayBirthday) then Some(GreenDot)
    else if HoldsId(dayBirthdays, nextUpcoming) then Some(OrangeDot)
    else Some(PrimaryDot)
  }

  /** todayBirthday on the calendar: the first birthday, in list order, falling on today's month and day. */
  function CalendarTodayBirthday(birthdays: seq<BirthdayRecord>, today: LocalDate): Option<BirthdayRecord> {
    FirstMatch(birthdays, (b: BirthdayRecord) => IsToday(b, today))
  }

  /**
   * Today's cell shows a green dot exactly when some birthday falls on
   * today's month and day, whatever the next upcoming birthday is.
   */
  lemma TodayCellIsGreen(birthdays: seq<BirthdayRecord>, today: LocalDate, nextUpcoming: Option<BirthdayRecord>)
    ensures CellDot(DayBirthdays(birthdays, today), CalendarTodayBirthday(birthdays, today), nextUpcoming) == Some(GreenDot)
        <==> exists i :: 0 <= i < |birthdays| && IsToday(birthdays[i], today)
  {
    var t := CalendarTodayBirthday(birthdays, today);
    var cell := DayBirthdays(birthdays, today);
    if t.Some? {
      var k :| 0 <= k < |birthdays| && birthdays[k] == t.value && IsToday(birthdays[k], today);
      assert birthdays[k] in cell;
      var j :| 0 <= j < |cell| && cell[j] == birthdays[k];
      assert cell[j].id == t.value.id;
    }
  }

  /** The month list's items: green for a birthday today, else orange for the next upcoming one, else plain. */
  datatype ItemColour = TodayItem | UpcomingItem | PlainItem

  function ItemColourOf(b: BirthdayRecord, today: LocalDate, nextUpcoming: Option<BirthdayRecord>): (c: ItemColour)
    ensures c == TodayItem <==> IsToday(b, today)
    ensures c == UpcomingItem <==> !IsToday(b, today) && nextUpcoming.Some? && nextUpcoming.value.id == b.id
  {
    if IsToday(b, today) then TodayItem
    else if nextUpcoming.Some? && nextUpcoming.value.id == b.id then UpcomingItem
    else PlainItem
  }

  /** `filter { it.birthDate.month == currentMonth.month }`: the birthdays of the month, in list order. */
  function InMonth(birthdays: seq<BirthdayRecord>, ym: ValidYearMonth): seq<BirthdayRecord> {
    Filter(birthdays, (b: BirthdayRecord) => b.month == ym.month)
  }

  /**
   * The birthdays of the displayed month, sorted by day of month: a
   * rearrangement of the month's birthdays in which birthdays on the same
   * day keep their list order.
   */
  function MonthList(birthdays: seq<BirthdayRecord>, ym: ValidYearMonth): (r: seq<BirthdayRecord>)
    ensures forall i :: 0 <= i < |r| ==> r[i] in birthdays && r[i].month == ym.month
    ensures forall i :: 0 <= i < |birthdays| && birthdays[i].month == ym.month ==> birthdays[i] in r
    ensures forall i, j :: 0 <= i < j < |r| ==> r[i].day <= r[j].day
  {
    var inMonth := InMonth(birthdays, ym);
    var r := SortByKey(inMonth, KeyFn(ByDayOfMonth));
    SortByKeySameElements(inMonth, KeyFn(ByDayOfMonth));
    SortByKeySorted(inMonth, KeyFn(ByDayOfMonth));
    assert forall i :: 0 <= i < |r| ==> r[i] in birthdays && r[i].month == ym.month by {
      forall i | 0 <= i < |r|
        ensures r[i] in birthdays && r[i].month == ym.month
      {
        assert r[i] in inMonth;
        var k :| 0 <= k < |inMonth| && inMonth[k] == r[i];
      }
    }
    assert forall i, j :: 0 <= i < j < |r| ==> KeyLe(DayKey(r[i].day), DayKey(r[j].day)) by {
      forall i, j | 0 <= i < j < |r|
        ensures KeyLe(DayKey(r[i].day), DayKey(r[j].day))
      {
        assert KeyLe(KeyFn(ByDayOfMonth)(r[i]), KeyFn(ByDayOfMonth)(r[j]));
      }
    }
    r
  }

  /**
   * The month list is a rearrangement of the month's birthdays, with no
   * element dropped or repeated, in which the birthdays on any one day keep
   * their list order (sortedBy is stable).
   */
  lemma MonthListRearrangesStably(birthdays: seq<BirthdayRecord>, ym: ValidYearMonth)
    ensures multiset(MonthList(birthdays, ym)) == multiset(InMonth(birthdays, ym))
    ensures forall k :: WithKey(MonthList(birthdays, ym), KeyFn(ByDayOfMonth), k)
                        == WithKey(InMonth(birthdays, ym), KeyFn(ByDayOfMonth), k)
  {
    var inMonth := InMonth(birthdays, ym);
    assert MonthList(birthdays, ym) == SortByKey(inMonth, KeyFn(ByDayOfMonth));
    SortByKeyPermutes(inMonth, KeyFn(ByDayOfMonth));
    forall k
      ensures WithKey(MonthList(birthdays, ym), KeyFn(ByDayOfMonth), k) == WithKey(inMonth, KeyFn(ByDayOfMonth), k)
    {
      SortByKeyStable(inMonth, KeyFn(ByDayOfMonth), k);
    }
  }

  /** The section under the grid shows when some day of the month matches some birthday's month and day. */
  predicate ShowMonthSection(birthdays: seq<BirthdayRecord>, ym: ValidYearMonth) {
    var days := MonthDays(ym);
    exists i, j :: 0 <= i < |days| && 0 <= j < |birthdays|
      && birthdays[j].month == days[i].month && birthdays[j].day == days[i].day
  }

  /**
   * The section shows exactly when a birthday of the month has a day that
   * exists this year, and then the month list is not empty.  A February 29
   * birthday in a common-year February is in the month list, but the
   * section that would show the list stays hidden.
   */
  lemma MonthSectionShown(birthdays: seq<BirthdayRecord>, ym: ValidYearMonth)
    ensures ShowMonthSection(birthdays, ym)
        <==> exists j :: 0 <= j < |birthdays| && birthdays[j].month == ym.month && birthdays[j].day <= LengthOfMonth(ym)
    ensures ShowMonthSection(birthdays, ym) ==> MonthList(birthdays, ym) != []
  {
    var days := MonthDays(ym);
    if exists j :: 0 <= j < |birthdays| && birthdays[j].month == ym.month && birthdays[j].day <= LengthOfMonth(ym) {
      var j :| 0 <= j < |birthdays| && birthdays[j].month == ym.month && birthdays[j].day <= LengthOfMonth(ym);
      var i := birthdays[j].day - 1;
      assert days[i] == Date(ym.year, ym.month, i + 1);
      assert birthdays[j] in MonthList(birthdays, ym);
    }
  }

  lemma LeapDayHiddenInCommonFebruary(b: BirthdayRecord, ym: ValidYearMonth)
    requires b.month == 2 && b.day == 29
    requires ym.month == 2 && !IsLeap(ym.year)
    ensures MonthList([b], ym) == [b]
    ensures !ShowMonthSection([b], ym)
  {
    var r := MonthList([b], ym);
    assert b in r;
    assert |r| <= 1 by {
      var inMonth := Filter([b], (x: BirthdayRecord) => x.month == ym.month);
      SortByKeyPermutes(inMonth, KeyFn(ByDayOfMonth));
      assert |multiset(r)| == |multiset(inMonth)|;
    }
    MonthSectionShown([b], ym);
  }
}
