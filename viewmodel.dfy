/**
 * BirthdayViewModel: the sort-option state and the choice of the next
 * upcoming birthday.  getNextUpcomingBirthday reads the clock; here today
 * is a parameter.
 */
module ViewModel {
  import opened Wrappers
  import opened Calendar
  import opened Seqs
  import opened Periods
  import opened Occurrence

  /** The list orderings offered by the list screen. */
  datatype SortOption = DATE | NAME | CATEGORY

  /** The view model's mutable state: the selected sort option. */
  class BirthdayViewModel {
    var sortOption: SortOption

    constructor ()
      ensures sortOption == DATE
    {
      sortOption := DATE;
    }

    method SetSortOption(option: SortOption)
      modifies this
      ensures sortOption == option
    {
      sortOption := option;
    }
  }

  /** The filter in getNextUpcomingBirthday: the chosen occurrence is on or after today. */
  predicate Upcoming(b: BirthdayRecord, today: LocalDate) {
    OnOrBefore(today, NextOccurrence(b, today))
  }

  /**
   * getNextUpcomingBirthday: among the birthdays whose occurrence is not in
   * the past (all of them), the first with the least days field of
   * Period.between(today, occurrence).  Null exactly for an empty list.
   */
  function NextUpcomingBirthday(birthdays: seq<BirthdayRecord>, today: LocalDate): (r: Option<BirthdayRecord>)
    ensures r.None? <==> birthdays == []
    ensures r.Some? ==>
      exists i :: 0 <= i < |birthdays| && birthdays[i] == r.value
        && (forall j :: 0 <= j < |birthdays| ==> PeriodDaysUntil(birthdays[i], today) <= PeriodDaysUntil(birthdays[j], today))
        && (forall j :: 0 <= j < i ==> PeriodDaysUntil(birthdays[i], today) < PeriodDaysUntil(birthdays[j], today))
  {
    FilterKeepsAll(birthdays, b => Upcoming(b, today));
    MinByOrNull(Filter(birthdays, b => Upcoming(b, today)), b => PeriodDaysUntil(b, today))
  }

  /**
   * Nearest upcoming birthday by the total number of days: the first
   * birthday whose next occurrence is the earliest.
   */
  function NearestUpcoming(birthdays: seq<BirthdayRecord>, today: LocalDate): (r: Option<BirthdayRecord>)
  {
    MinByOrNull(birthdays, b => TotalDaysUntil(b, today))
  }

  /** The nearest birthday's next occurrence is no later than any other's, and it is the first such. */
  lemma NearestUpcomingIsEarliest(birthdays: seq<BirthdayRecord>, today: LocalDate)
    ensures NearestUpcoming(birthdays, today).None? <==> birthdays == []
    ensures NearestUpcoming(birthdays, today).Some? ==>
      exists i :: 0 <= i < |birthdays| && birthdays[i] == NearestUpcoming(birthdays, today).value
        && (forall j :: 0 <= j < |birthdays| ==>
              OnOrBefore(NextOccurrence(birthdays[i], today), NextOccurrence(birthdays[j], today)))
        && (forall j :: 0 <= j < i ==>
              Before(NextOccurrence(birthdays[i], today), NextOccurrence(birthdays[j], today)))
  {
    if birthdays != [] {
      var i := FirstMinIndex(birthdays, b => TotalDaysUntil(b, today));
      assert NearestUpcoming(birthdays, today).value == birthdays[i];
      forall j | 0 <= j < |birthdays|
        ensures OnOrBefore(NextOccurrence(birthdays[i], today), NextOccurrence(birthdays[j], today))
        ensures j < i ==> Before(NextOccurrence(birthdays[i], today), NextOccurrence(birthdays[j], today))
      {
        EpochDayOrder(NextOccurrence(birthdays[i], today), NextOccurrence(birthdays[j], today));
      }
    }
  }

  /** When every birthday is less than four weeks away, the view model's choice is the nearest one. */
  lemma NextUpcomingIsNearestWithinFourWeeks(birthdays: seq<BirthdayRecord>, today: LocalDate)
    requires forall i :: 0 <= i < |birthdays| ==> TotalDaysUntil(birthdays[i], today) < 28
    ensures NextUpcomingBirthday(birthdays, today) == NearestUpcoming(birthdays, today)
  {
    FilterKeepsAll(birthdays, b => Upcoming(b, today));
    forall i | 0 <= i < |birthdays|
      ensures PeriodDaysUntil(birthdays[i], today) == TotalDaysUntil(birthdays[i], today)
    {
      DayCountsAgreeWithinFourWeeks(birthdays[i], today);
    }
    MinByOrNullSameKeys(birthdays, b => PeriodDaysUntil(b, today), b => TotalDaysUntil(b, today));
  }

  /** A birthday whose key is strictly below every other's is the one chosen. */
  lemma UniqueLeastKeyChosen(birthdays: seq<BirthdayRecord>, today: LocalDate, k: int)
    requires 0 <= k < |birthdays|
    requires forall j :: 0 <= j < |birthdays| && j != k ==> PeriodDaysUntil(birthdays[k], today) < PeriodDaysUntil(birthdays[j], today)
    ensures NextUpcomingBirthday(birthdays, today) == Some(birthdays[k])
  {
    var r := NextUpcomingBirthday(birthdays, today);
    var i :| 0 <= i < |birthdays| && birthdays[i] == r.value
      && forall j :: 0 <= j < |birthdays| ==> PeriodDaysUntil(birthdays[i], today) <= PeriodDaysUntil(birthdays[j], today);
    assert PeriodDaysUntil(birthdays[i], today) <= PeriodDaysUntil(birthdays[k], today);
  }

  /**
   * Birthdays ten days ahead, five days ahead and one day past, seen on
   * June 12 of any year: the one five days ahead is chosen.
   */
  lemma NearestOfThreeExample(alice: BirthdayRecord, bob: BirthdayRecord, charlie: BirthdayRecord, today: LocalDate)
    requires today.month == 6 && today.day == 12
    requires alice.month == 6 && alice.day == 22
    requires bob.month == 6 && bob.day == 17
    requires charlie.month == 6 && charlie.day == 11
    ensures NextUpcomingBirthday([alice, bob, charlie], today) == Some(bob)
  {
    var s := [alice, bob, charlie];
    forall j | 0 <= j < |s| && j != 1
      ensures PeriodDaysUntil(s[1], today) < PeriodDaysUntil(s[j], today)
    {
      assert PeriodDaysUntil(bob, today) == 5 by {
        assert NextOccurrence(bob, today) == Date(today.year, 6, 17);
        DayCountsAgreeWithinFourWeeks(bob, today);
      }
      if j == 0 {
        assert NextOccurrence(alice, today) == Date(today.year, 6, 22);
        DayCountsAgreeWithinFourWeeks(alice, today);
      } else {
        DayBeforeKey(charlie, today);
      }
    }
    UniqueLeastKeyChosen(s, today, 1);
  }

  /** A June 11 birthday seen on June 12 is 11 months and 30 days away. */
  lemma DayBeforeKey(b: BirthdayRecord, today: LocalDate)
    requires b.month == 6 && b.day == 11
    requires today.month == 6 && today.day == 12
    ensures PeriodDaysUntil(b, today) == 30
  {
    var occurrence := Date(today.year + 1, 6, 11);
    var anchor := Date(today.year + 1, 5, 12);
    assert NextOccurrence(b, today) == occurrence;
    assert PlusMonthsToDate(today, 11) == anchor;
    assert EpochDay(occurrence) - EpochDay(anchor) == 30;
    assert Between(today, occurrence) == Period(0, 11, 30);
  }

  /**
   * A birthday exactly one month away has key 0, so on June 12 the view
   * model picks July 12 over June 17, five days ahead.  The nearest by
   * total days is June 17.
   */
  lemma NextUpcomingPrefersMonthAway(soon: BirthdayRecord, monthAway: BirthdayRecord, today: LocalDate)
    requires soon.month == 6 && soon.day == 17
    requires monthAway.month == 7 && monthAway.day == 12
    requires today.month == 6 && today.day == 12
    ensures NextUpcomingBirthday([soon, monthAway], today) == Some(monthAway)
    ensures NearestUpcoming([soon, monthAway], today) == Some(soon)
  {
    var s := [soon, monthAway];
    assert s[0] == soon && s[1] == monthAway;
    assert PeriodDaysUntil(monthAway, today) == 0 && TotalDaysUntil(monthAway, today) == 30 by {
      var occurrence := Date(today.year, 7, 12);
      assert NextOccurrence(monthAway, today) == occurrence;
      assert Between(today, occurrence) == Period(0, 1, 0);
    }
    assert PeriodDaysUntil(soon, today) == 5 && TotalDaysUntil(soon, today) == 5 by {
      assert NextOccurrence(soon, today) == Date(today.year, 6, 17);
      DayCountsAgreeWithinFourWeeks(soon, today);
    }
    UniqueLeastKeyChosen(s, today, 1);
    assert FirstMinIndex(s, b => TotalDaysUntil(b, today)) == 0;
  }
}
