/**
 * BirthdayNotificationWorker: the daily scan that posts a reminder per due
 * birthday, the reminder's title and ids, and the worker's result.  The
 * scan counts days with the days field of Period.between, unlike the
 * notification helper, which counts total days.
 */
module NotificationScheduler {
  import opened Wrappers
  import opened Calendar
  import opened Periods
  import opened Occurrence
  import opened NotificationHelper
  import opened Seqs

  /** The worker's per-birthday decision: the helper's rule applied to Period.between(today, upcoming).days. */
  predicate ShouldNotify(b: BirthdayRecord, notificationDayOf: bool, notificationWeekBefore: bool, today: LocalDate) {
    IsDue(PeriodDaysUntil(b, today), notificationDayOf, notificationWeekBefore)
  }

  // ---------------------------------------------------------------------
  // Decimal rendering of the day count in the title

  function DigitChar(d: int): char
    requires 0 <= d < 10
  {
    "0123456789"[d]
  }

  function DigitValue(c: char): int {
    if '0' <= c <= '9' then c as int - '0' as int else 0
  }

  /** Decimal digits of a natural number, most significant first, no leading zeros. */
  function NatToString(n: nat): (s: string)
    ensures |s| >= 1
    ensures forall i :: 0 <= i < |s| ==> '0' <= s[i] <= '9'
    ensures |s| > 1 ==> s[0] != '0'
  {
    if n < 10 then [DigitChar(n)] else NatToString(n / 10) + [DigitChar(n % 10)]
  }

  /** Value of a string of decimal digits. */
  function DecimalValue(s: string): int {
    if s == [] then 0 else 10 * DecimalValue(s[..|s| - 1]) + DigitValue(s[|s| - 1])
  }

  lemma DigitRoundTrip(d: int)
    requires 0 <= d < 10
    ensures DigitValue(DigitChar(d)) == d
  {
  }

  lemma {:induction false} DecimalRoundTrip(n: nat)
    ensures DecimalValue(NatToString(n)) == n
  {
    var s := NatToString(n);
    if n < 10 {
      DigitRoundTrip(n);
      assert s[..0] == [];
    } else {
      DecimalRoundTrip(n / 10);
      DigitRoundTrip(n % 10);
      assert s[..|s| - 1] == NatToString(n / 10);
      assert s[|s| - 1] == DigitChar(n % 10);
    }
  }

  /** Kotlin's Int.toString: a minus sign before the digits of a negative number. */
  function IntToString(n: int): (s: string)
    ensures |s| >= 1 && (s[0] == '-' <==> n < 0)
  {
    if n < 0 then "-" + NatToString(-n) else NatToString(n)
  }

  lemma NatToStringInjective(a: nat, b: nat)
    requires NatToString(a) == NatToString(b)
    ensures a == b
  {
    DecimalRoundTrip(a);
    DecimalRoundTrip(b);
  }

  lemma IntToStringInjective(a: int, b: int)
    requires IntToString(a) == IntToString(b)
    ensures a == b
  {
    var s, t := IntToString(a), IntToString(b);
    if a < 0 && b < 0 {
      assert NatToString(-a) == s[1..];
      assert NatToString(-b) == t[1..];
      NatToStringInjective(-a, -b);
    } else if a >= 0 && b >= 0 {
      NatToStringInjective(a, b);
    }
  }

  /** The reminder's title (showNotification's `when`). */
  function Title(name: string, daysUntil: int): string {
    if daysUntil == 0 then name + "'s birthday is today!"
    else if daysUntil == 1 then name + "'s birthday is tomorrow!"
    else name + "'s birthday is in " + IntToString(daysUntil) + " days!"
  }

  /** Different day counts give different titles, so the title tells the count. */
  lemma TitleDeterminesDays(name: string, a: int, b: int)
    requires Title(name, a) == Title(name, b)
    ensures a == b
  {
    var k := |name| + 15;
    var ta, tb := Title(name, a), Title(name, b);
    if a == 0 || a == 1 || b == 0 || b == 1 {
      assert ta[k] == tb[k] && ta[k + 2] == tb[k + 2];
    } else {
      var da, db := IntToString(a), IntToString(b);
      assert |da| == |db|;
      assert da == ta[k + 3..|ta| - 6] && db == tb[k + 3..|tb| - 6];
      IntToStringInjective(a, b);
    }
  }

  // ---------------------------------------------------------------------
  // Posting

  /** Kotlin's Long.toInt: the low 32 bits as a two's-complement Int. */
  function ToInt32(x: int): (r: int)
    ensures -0x8000_0000 <= r < 0x8000_0000
    ensures (x - r) % 0x1_0000_0000 == 0
    ensures -0x8000_0000 <= x < 0x8000_0000 ==> r == x
  {
    var low := x % 0x1_0000_0000;
    if low >= 0x8000_0000 then low - 0x1_0000_0000 else low
  }

  const ReminderText: string := "Don't forget to wish them a happy birthday!"

  /** A posted reminder: the id given to notify, the PendingIntent request code, the title and the text. */
  datatype Notification = Notification(notificationId: int, requestCode: int, title: string, text: string)

  function NotificationFor(b: BirthdayRecord, daysUntil: int): (n: Notification)
    ensures n.notificationId == n.requestCode == ToInt32(b.id)
    ensures n.title == Title(b.name, daysUntil) && n.text == ReminderText
  {
    Notification(ToInt32(b.id), ToInt32(b.id), Title(b.name, daysUntil), ReminderText)
  }

  /** The reminders the scan has posted after seeing the birthdays in `bs`. */
  function Posted(bs: seq<BirthdayRecord>, notificationDayOf: bool, notificationWeekBefore: bool, today: LocalDate)
    : seq<Notification>
  {
    if bs == [] then []
    else
      var prior := Posted(bs[..|bs| - 1], notificationDayOf, notificationWeekBefore, today);
      var b := bs[|bs| - 1];
      if ShouldNotify(b, notificationDayOf, notificationWeekBefore, today)
      then prior + [NotificationFor(b, PeriodDaysUntil(b, today))]
      else prior
  }

  /** checkAndNotifyBirthdays once the settings and the records have been read. */
  method CheckAndNotifyBirthdays(allBirthdays: seq<BirthdayRecord>, notificationDayOf: bool, notificationWeekBefore: bool, today: LocalDate)
    returns (posted: seq<Notification>)
    ensures posted == Posted(allBirthdays, notificationDayOf, notificationWeekBefore, today)
    ensures |posted| <= |allBirthdays|
  {
    posted := [];
    for i := 0 to |allBirthdays|
      invariant posted == Posted(allBirthdays[..i], notificationDayOf, notificationWeekBefore, today)
      invariant |posted| <= i
    {
      var birthday := allBirthdays[i];
      var thisYear := Project(birthday.month, birthday.day, today.year);
      var nextYear := Project(birthday.month, birthday.day, today.year + 1);
      var upcoming := if OnOrBefore(today, thisYear) then thisYear else nextYear;
      assert upcoming == NextOccurrence(birthday, today);
      var daysUntil := Between(today, upcoming).days;
      assert daysUntil == PeriodDaysUntil(birthday, today);
      assert allBirthdays[..i + 1][..i] == allBirthdays[..i];
      if (daysUntil == 0 && notificationDayOf) || (daysUntil == 7 && notificationWeekBefore) {
        posted := posted + [NotificationFor(birthday, daysUntil)];
      }
    }
    assert allBirthdays[..|allBirthdays|] == allBirthdays;
  }

  /** n is a reminder for b: both ids are b's id as an Int, and the title says "today" or "in 7 days". */
  predicate ReminderFor(n: Notification, b: BirthdayRecord) {
    n.notificationId == ToInt32(b.id) && n.requestCode == ToInt32(b.id)
    && (n.title == b.name + "'s birthday is today!" || n.title == b.name + "'s birthday is in 7 days!")
  }

  lemma ScanTitle(b: BirthdayRecord, dayOf: bool, weekBefore: bool, today: LocalDate)
    requires ShouldNotify(b, dayOf, weekBefore, today)
    ensures ReminderFor(NotificationFor(b, PeriodDaysUntil(b, today)), b)
  {
    if PeriodDaysUntil(b, today) == 7 {
      assert IntToString(7) == "7";
      assert b.name + "'s birthday is in " + "7" + " days!" == b.name + "'s birthday is in 7 days!";
    }
  }

  /**
   * Every posted reminder belongs to a scanned birthday, carries its id (as
   * an Int) as both ids, and says "today" or "in 7 days": the "tomorrow"
   * wording is never used by the scan.
   */
  lemma {:induction false} PostedTitles(bs: seq<BirthdayRecord>, dayOf: bool, weekBefore: bool, today: LocalDate)
    ensures forall n :: n in Posted(bs, dayOf, weekBefore, today) ==> exists b :: b in bs && ReminderFor(n, b)
  {
    if bs != [] {
      var init := bs[..|bs| - 1];
      var last := bs[|bs| - 1];
      PostedTitles(init, dayOf, weekBefore, today);
      forall n | n in Posted(bs, dayOf, weekBefore, today)
        ensures exists b :: b in bs && ReminderFor(n, b)
      {
        if n in Posted(init, dayOf, weekBefore, today) {
          var b :| b in init && ReminderFor(n, b);
          assert b in bs;
        } else {
          ScanTitle(last, dayOf, weekBefore, today);
          assert n == NotificationFor(last, PeriodDaysUntil(last, today));
        }
      }
    }
  }

  /** The reminder each birthday of `bs` would get, position by position. */
  function RemindersFor(bs: seq<BirthdayRecord>, today: LocalDate): (r: seq<Notification>)
    ensures |r| == |bs|
    ensures forall i :: 0 <= i < |bs| ==> r[i] == NotificationFor(bs[i], PeriodDaysUntil(bs[i], today))
  {
    seq(|bs|, i requires 0 <= i < |bs| => NotificationFor(bs[i], PeriodDaysUntil(bs[i], today)))
  }

  lemma RemindersForSnoc(bs: seq<BirthdayRecord>, b: BirthdayRecord, today: LocalDate)
    ensures RemindersFor(bs + [b], today) == RemindersFor(bs, today) + [NotificationFor(b, PeriodDaysUntil(b, today))]
  {
  }

  /** The scan posts, in input order, the reminder of each birthday the worker's rule picks. */
  lemma {:induction false} PostedIsFilterThenNotify(bs: seq<BirthdayRecord>, dayOf: bool, weekBefore: bool, today: LocalDate)
    ensures Posted(bs, dayOf, weekBefore, today)
      == RemindersFor(Filter(bs, (b: BirthdayRecord) => ShouldNotify(b, dayOf, weekBefore, today)), today)
  {
    var p := (b: BirthdayRecord) => ShouldNotify(b, dayOf, weekBefore, today);
    if bs != [] {
      var init := bs[..|bs| - 1];
      var last := bs[|bs| - 1];
      assert bs == init + [last];
      PostedIsFilterThenNotify(init, dayOf, weekBefore, today);
      FilterSnoc(init, last, p);
      var f := Filter(init, p);
      if p(last) {
        RemindersForSnoc(f, last, today);
      }
    }
  }

  /**
   * A notification is posted exactly when it is the reminder of a scanned
   * birthday whose Period days field is 0 with day-of reminders on, or 7
   * with week-before reminders on.
   */
  lemma PostedMembership(bs: seq<BirthdayRecord>, dayOf: bool, weekBefore: bool, today: LocalDate, n: Notification)
    ensures n in Posted(bs, dayOf, weekBefore, today) <==>
      exists b :: b in bs && ShouldNotify(b, dayOf, weekBefore, today) && n == NotificationFor(b, PeriodDaysUntil(b, today))
  {
    var p := (b: BirthdayRecord) => ShouldNotify(b, dayOf, weekBefore, today);
    var f := Filter(bs, p);
    PostedIsFilterThenNotify(bs, dayOf, weekBefore, today);
    var r := RemindersFor(f, today);
    if n in r {
      var k :| 0 <= k < |r| && r[k] == n;
      assert f[k] in bs && p(f[k]);
    }
    if exists b :: b in bs && ShouldNotify(b, dayOf, weekBefore, today) && n == NotificationFor(b, PeriodDaysUntil(b, today)) {
      var b :| b in bs && ShouldNotify(b, dayOf, weekBefore, today) && n == NotificationFor(b, PeriodDaysUntil(b, today));
      var i :| 0 <= i < |bs| && bs[i] == b;
      assert p(bs[i]);
      assert b in f;
      var k :| 0 <= k < |f| && f[k] == b;
      assert r[k] == n;
    }
  }

  /** Within four weeks of the occurrence the worker decides exactly as the helper does. */
  lemma WorkerAgreesWithHelperWithinFourWeeks(b: BirthdayRecord, dayOf: bool, weekBefore: bool, today: LocalDate)
    requires TotalDaysUntil(b, today) < 28
    ensures ShouldNotify(b, dayOf, weekBefore, today) <==> DueOn(b, dayOf, weekBefore, today)
  {
    DayCountsAgreeWithinFourWeeks(b, today);
  }

  /**
   * A birthday exactly one month away (July 12 seen on June 12) has a days
   * field of 0, so the worker posts "birthday is today!" thirty days early,
   * while the helper, counting 30 days, reports nothing.
   */
  lemma MonthAwayPostedAsToday(b: BirthdayRecord, today: LocalDate)
    requires b.month == 7 && b.day == 12
    requires today.month == 6 && today.day == 12
    ensures PeriodDaysUntil(b, today) == 0
    ensures TotalDaysUntil(b, today) == 30
    ensures Posted([b], true, false, today) == [NotificationFor(b, 0)]
    ensures Selected([b], true, false, today) == []
  {
    var occurrence := Date(today.year, 7, 12);
    assert NextOccurrence(b, today) == occurrence;
    assert Between(today, occurrence) == Period(0, 1, 0);
  }

  // ---------------------------------------------------------------------
  // doWork

  datatype WorkResult = WorkSuccess | WorkRetry

  /** A failed read of the settings or of the records (an exception thrown into doWork). */
  datatype ReadError = ReadError

  /**
   * doWork: read both settings and the records, then scan.  Any failed read
   * ends the work with retry before anything is posted; otherwise the scan
   * runs to the end and the work succeeds.
   */
  function DoWork(notificationDayOf: Result<bool, ReadError>, notificationWeekBefore: Result<bool, ReadError>,
                  allBirthdays: Result<seq<BirthdayRecord>, ReadError>, today: LocalDate)
    : (r: (WorkResult, seq<Notification>))
    ensures r.0 == WorkSuccess <==> notificationDayOf.Success? && notificationWeekBefore.Success? && allBirthdays.Success?
    ensures r.0 == WorkRetry ==> r.1 == []
    ensures r.0 == WorkSuccess ==> r.1 == Posted(allBirthdays.value, notificationDayOf.value, notificationWeekBefore.value, today)
  {
    if notificationDayOf.Failure? || notificationWeekBefore.Failure? || allBirthdays.Failure? then (WorkRetry, [])
    else (WorkSuccess, Posted(allBirthdays.value, notificationDayOf.value, notificationWeekBefore.value, today))
  }
}
