/**
 * BirthdayNotificationHelper.getBirthdaysToNotify: one pass over the
 * birthdays that collects, in order, each birthday due for a reminder
 * together with its total day count.
 */
module NotificationHelper {
  import opened Calendar
  import opened Seqs
  import opened Occurrence

  /** The reminder rule: on the day itself, or exactly a week before, each behind its own setting. */
  predicate IsDue(daysUntil: int, notificationDayOf: bool, notificationWeekBefore: bool) {
    (daysUntil == 0 && notificationDayOf) || (daysUntil == 7 && notificationWeekBefore)
  }

  /** The helper's decision for one birthday: the rule applied to its total day count. */
  predicate DueOn(b: BirthdayRecord, notificationDayOf: bool, notificationWeekBefore: bool, today: LocalDate) {
    IsDue(TotalDaysUntil(b, today), notificationDayOf, notificationWeekBefore)
  }

  /**
   * The helper's rule in calendar terms: due on the day of the occurrence
   * itself, or exactly seven days before it.
   */
  lemma DueOnMeansOccurrenceInWindow(b: BirthdayRecord, notificationDayOf: bool, notificationWeekBefore: bool, today: LocalDate)
    ensures DueOn(b, notificationDayOf, notificationWeekBefore, today) <==>
      (notificationDayOf && NextOccurrence(b, today) == today)
      || (notificationWeekBefore && EpochDay(NextOccurrence(b, today)) == EpochDay(today) + 7)
  {
  }

  /** What the scan has collected after seeing the birthdays in `bs`. */
  function Selected(bs: seq<BirthdayRecord>, notificationDayOf: bool, notificationWeekBefore: bool, today: LocalDate)
    : seq<(BirthdayRecord, int)>
  {
    if bs == [] then []
    else
      var prior := Selected(bs[..|bs| - 1], notificationDayOf, notificationWeekBefore, today);
      var b := bs[|bs| - 1];
      var daysUntil := TotalDaysUntil(b, today);
      if IsDue(daysUntil, notificationDayOf, notificationWeekBefore) then prior + [(b, daysUntil)] else prior
  }

  method GetBirthdaysToNotify(birthdays: seq<BirthdayRecord>, notificationDayOf: bool, notificationWeekBefore: bool, today: LocalDate)
    returns (result: seq<(BirthdayRecord, int)>)
    ensures result == Selected(birthdays, notificationDayOf, notificationWeekBefore, today)
    ensures forall k :: 0 <= k < |result| ==> result[k].1 == 0 || result[k].1 == 7
  {
    result := [];
    for i := 0 to |birthdays|
      invariant result == Selected(birthdays[..i], notificationDayOf, notificationWeekBefore, today)
      invariant forall k :: 0 <= k < |result| ==> result[k].1 == 0 || result[k].1 == 7
    {
      var birthday := birthdays[i];
      var thisYear := Project(birthday.month, birthday.day, today.year);
      var nextYear := Project(birthday.month, birthday.day, today.year + 1);
      var upcoming := if OnOrBefore(today, thisYear) then thisYear else nextYear;
      var daysUntil := EpochDay(upcoming) - EpochDay(today);
      assert birthdays[..i + 1][..i] == birthdays[..i];
      if (daysUntil == 0 && notificationDayOf) || (daysUntil == 7 && notificationWeekBefore) {
        result := result + [(birthday, daysUntil)];
      }
    }
    assert birthdays[..|birthdays|] == birthdays;
  }

  /** The birthdays of the pairs. */
  function Firsts(pairs: seq<(BirthdayRecord, int)>): (r: seq<BirthdayRecord>)
    ensures |r| == |pairs|
    ensures forall k :: 0 <= k < |pairs| ==> r[k] == pairs[k].0
  {
    if pairs == [] then [] else Firsts(pairs[..|pairs| - 1]) + [pairs[|pairs| - 1].0]
  }

  lemma FirstsSnoc(pairs: seq<(BirthdayRecord, int)>, p: (BirthdayRecord, int))
    ensures Firsts(pairs + [p]) == Firsts(pairs) + [p.0]
  {
    assert (pairs + [p])[..|pairs|] == pairs;
  }

  /** The collected birthdays are exactly the due ones, in input order, so each input contributes at most one pair. */
  lemma {:induction false} SelectedIsFilter(bs: seq<BirthdayRecord>, dayOf: bool, weekBefore: bool, today: LocalDate)
    ensures Firsts(Selected(bs, dayOf, weekBefore, today)) == Filter(bs, b => DueOn(b, dayOf, weekBefore, today))
  {
    if bs != [] {
      var init, last := bs[..|bs| - 1], bs[|bs| - 1];
      var p := b => DueOn(b, dayOf, weekBefore, today);
      var prior := Selected(init, dayOf, weekBefore, today);
      var tail := if p(last) then [last] else [];
      assert Firsts(Selected(bs, dayOf, weekBefore, today)) == Firsts(prior) + tail by {
        if p(last) {
          FirstsSnoc(prior, (last, TotalDaysUntil(last, today)));
        }
      }
      assert Filter(bs, p) == Filter(init, p) + tail by {
        assert bs == init + [last];
        FilterSnoc(init, last, p);
      }
      SelectedIsFilter(init, dayOf, weekBefore, today);
    }
  }

  /** Each collected birthday is paired with its total day count, which satisfies the reminder rule. */
  lemma {:induction false} SelectedPairs(bs: seq<BirthdayRecord>, dayOf: bool, weekBefore: bool, today: LocalDate)
    ensures forall p :: p in Selected(bs, dayOf, weekBefore, today) ==>
      p.1 == TotalDaysUntil(p.0, today) && IsDue(p.1, dayOf, weekBefore)
  {
    if bs != [] {
      SelectedPairs(bs[..|bs| - 1], dayOf, weekBefore, today);
    }
  }

  /** A birthday is reported iff it is due, and then with its total day count, which is 0 or 7. */
  lemma SelectedMembership(bs: seq<BirthdayRecord>, dayOf: bool, weekBefore: bool, today: LocalDate, b: BirthdayRecord)
    ensures (exists k :: 0 <= k < |Selected(bs, dayOf, weekBefore, today)| && Selected(bs, dayOf, weekBefore, today)[k].0 == b)
      <==> b in bs && DueOn(b, dayOf, weekBefore, today)
    ensures forall n :: (b, n) in Selected(bs, dayOf, weekBefore, today) ==> n == TotalDaysUntil(b, today) && (n == 0 || n == 7)
  {
    var r := Selected(bs, dayOf, weekBefore, today);
    SelectedIsFilter(bs, dayOf, weekBefore, today);
    SelectedPairs(bs, dayOf, weekBefore, today);
    var f := Filter(bs, b => DueOn(b, dayOf, weekBefore, today));
    if b in bs && DueOn(b, dayOf, weekBefore, today) {
      var i :| 0 <= i < |bs| && bs[i] == b;
      assert b in f;
      var k :| 0 <= k < |f| && f[k] == b;
      assert Firsts(r)[k] == b;
    }
  }

  /** With both settings off nothing is reported. */
  lemma {:induction false} NothingWhenDisabled(bs: seq<BirthdayRecord>, today: LocalDate)
    ensures Selected(bs, false, false, today) == []
  {
    if bs != [] {
      NothingWhenDisabled(bs[..|bs| - 1], today);
    }
  }

  /** A February 29 birthday checked on February 28 of a common year is due on the day. */
  lemma LeapDayBirthdayOnFebruary28(b: BirthdayRecord, today: LocalDate)
    requires b.month == 2 && b.day == 29
    requires today.month == 2 && today.day == 28 && !IsLeap(today.year)
    ensures TotalDaysUntil(b, today) == 0
    ensures Selected([b], true, false, today) == [(b, 0)]
  {
    assert Project(2, 29, today.year) == today;
  }

  /** Example: on June 8 a June 15 birthday is 7 days away and due only with the week-before setting. */
  lemma WeekBeforeExample(b: BirthdayRecord, today: LocalDate)
    requires b.month == 6 && b.day == 15
    requires today.month == 6 && today.day == 8
    ensures TotalDaysUntil(b, today) == 7
    ensures Selected([b], false, true, today) == [(b, 7)]
    ensures Selected([b], false, false, today) == []
  {
    assert NextOccurrence(b, today) == Date(today.year, 6, 15);
  }
}
