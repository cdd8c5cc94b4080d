/**
 * The list screen's logic: the name search, the three orderings with their
 * stable sort and the descending reversal, the pick of today's birthday,
 * and the row highlight.  today is a parameter.
 */
module ListView {
  import opened Wrappers
  import opened Calendar
  import opened Seqs
  import opened Occurrence
  import opened ViewModel
  import opened Sorting

  // ---------------------------------------------------------------------
  // Search

  /**
   * Kotlin's Char.isWhitespace: Java whitespace (tab to carriage return,
   * the four separators U+001C..U+001F, and Unicode space separators other
   * than the non-breaking ones) together with Java space characters (which
   * add the non-breaking spaces).
   */
  predicate IsWhitespace(c: char) {
    var n := c as int;
    (0x09 <= n <= 0x0D) || (0x1C <= n <= 0x20) || n == 0xA0 || n == 0x1680
    || (0x2000 <= n <= 0x200A) || n == 0x2028 || n == 0x2029 || n == 0x202F
    || n == 0x205F || n == 0x3000
  }

  /** String.isBlank: empty or whitespace only. */
  predicate IsBlank(s: string) {
    forall i :: 0 <= i < |s| ==> IsWhitespace(s[i])
  }

  function ToUpperAscii(c: char): (u: char)
    ensures 'a' <= c <= 'z' ==> u as int == c as int - 32
    ensures !('a' <= c <= 'z') ==> u == c
  {
    if 'a' <= c <= 'z' then (c as int - 32) as char else c
  }

  /** Char.equals(other, ignoreCase = true), with case mapping for the ASCII letters. */
  predicate CharsEqualIgnoreCase(a: char, b: char) {
    ToUpperAscii(a) == ToUpperAscii(b)
  }

  /** The query matches the text at position i, ignoring case. */
  predicate RegionMatches(text: string, i: int, query: string)
    requires 0 <= i && i + |query| <= |text|
  {
    forall k :: 0 <= k < |query| ==> CharsEqualIgnoreCase(text[i + k], query[k])
  }

  /** CharSequence.contains(query, ignoreCase = true): a scan of every start position. */
  function ContainsIgnoreCase(text: string, query: string): (r: bool)
    ensures r <==> exists i :: 0 <= i && i + |query| <= |text| && RegionMatches(text, i, query)
    decreases |text|
  {
    if |query| > |text| then false
    else if RegionMatches(text, 0, query) then true
    else
      var rest := ContainsIgnoreCase(text[1..], query);
      assert forall i :: 0 < i && i + |query| <= |text| ==>
        (RegionMatches(text, i, query) <==> RegionMatches(text[1..], i - 1, query));
      assert rest ==> exists i :: 0 < i && i + |query| <= |text| && RegionMatches(text, i, query) by {
        if rest {
          var j :| 0 <= j && j + |query| <= |text[1..]| && RegionMatches(text[1..], j, query);
          assert RegionMatches(text, j + 1, query);
        }
      }
      rest
  }

  /** Changing the case of ASCII letters in the query does not change the search. */
  lemma ContainsIgnoresQueryCase(text: string, query: string, upper: string)
    requires |upper| == |query|
    requires forall k :: 0 <= k < |query| ==> upper[k] == ToUpperAscii(query[k])
    ensures ContainsIgnoreCase(text, upper) == ContainsIgnoreCase(text, query)
  {
    forall i | 0 <= i && i + |query| <= |text|
      ensures RegionMatches(text, i, upper) == RegionMatches(text, i, query)
    {
      forall k | 0 <= k < |query|
        ensures ToUpperAscii(upper[k]) == ToUpperAscii(query[k])
      {
      }
    }
  }

  /** Every name contains itself, so searching for a full name finds that birthday. */
  lemma NameContainsItself(name: string)
    ensures ContainsIgnoreCase(name, name)
  {
    assert RegionMatches(name, 0, name);
  }

  /**
   * The search filter: a blank query keeps the list as it is; otherwise the
   * result keeps exactly the birthdays whose name contains the query,
   * ignoring case, in their list order (the order Filter keeps, by
   * FilterSnoc and FilterAppend).
   */
  function SearchFilter(birthdays: seq<BirthdayRecord>, query: string): (r: seq<BirthdayRecord>)
    ensures IsBlank(query) ==> r == birthdays
    ensures !IsBlank(query) ==>
      (forall i :: 0 <= i < |r| ==> r[i] in birthdays && ContainsIgnoreCase(r[i].name, query))
      && (forall i :: 0 <= i < |birthdays| && ContainsIgnoreCase(birthdays[i].name, query) ==> birthdays[i] in r)
    ensures !IsBlank(query) ==> r == Filter(birthdays, (b: BirthdayRecord) => ContainsIgnoreCase(b.name, query))
    ensures multiset(r) <= multiset(birthdays)
  {
    if IsBlank(query) then birthdays
    else Filter(birthdays, (b: BirthdayRecord) => ContainsIgnoreCase(b.name, query))
  }

  // ---------------------------------------------------------------------
  // Ordering

  /** The key the chosen sort option orders by. */
  function SpecFor(option: SortOption, today: LocalDate): (spec: KeySpec)
    ensures option == DATE <==> spec == ByNextOccurrence(today)
    ensures option == NAME <==> spec == ByName
    ensures option == CATEGORY <==> spec == ByCategory
  {
    match option
    case DATE => ByNextOccurrence(today)
    case NAME => ByName
    case CATEGORY => ByCategory
  }

  /** The list as shown: sorted by the option's key, reversed when the order is descending. */
  function SortedBirthdays(filtered: seq<BirthdayRecord>, option: SortOption, ascending: bool, today: LocalDate)
    : (r: seq<BirthdayRecord>)
    ensures multiset(r) == multiset(filtered)
  {
    var sorted := SortByKey(filtered, KeyFn(SpecFor(option, today)));
    SortByKeyPermutes(filtered, KeyFn(SpecFor(option, today)));
    if ascending then sorted else Reverse(sorted)
  }

  /** Ascending: keys never decrease, and birthdays with equal keys keep their input order. */
  lemma AscendingOrder(filtered: seq<BirthdayRecord>, option: SortOption, today: LocalDate)
    ensures SortedBy(SortedBirthdays(filtered, option, true, today), KeyFn(SpecFor(option, today)))
    ensures forall k :: WithKey(SortedBirthdays(filtered, option, true, today), KeyFn(SpecFor(option, today)), k)
                        == WithKey(filtered, KeyFn(SpecFor(option, today)), k)
  {
    var key := KeyFn(SpecFor(option, today));
    SortByKeySorted(filtered, key);
    forall k
      ensures WithKey(SortByKey(filtered, key), key, k) == WithKey(filtered, key, k)
    {
      SortByKeyStable(filtered, key, k);
    }
  }

  /** Descending: exactly the ascending list backwards, so keys never increase. */
  lemma DescendingOrder(filtered: seq<BirthdayRecord>, option: SortOption, today: LocalDate)
    ensures SortedBirthdays(filtered, option, false, today) == Reverse(SortedBirthdays(filtered, option, true, today))
    ensures var r := SortedBirthdays(filtered, option, false, today);
      forall i, j :: 0 <= i < j < |r| ==> KeyLe(KeyOf(r[j], SpecFor(option, today)), KeyOf(r[i], SpecFor(option, today)))
  {
    var key := KeyFn(SpecFor(option, today));
    SortByKeySorted(filtered, key);
    ReverseSortedDescending(SortByKey(filtered, key), key);
  }

  /** Under DATE, in either direction, every shown birthday's key is on or after today's epoch day. */
  lemma DateKeysNotBeforeToday(filtered: seq<BirthdayRecord>, ascending: bool, today: LocalDate)
    ensures var r := SortedBirthdays(filtered, DATE, ascending, today);
      forall i :: 0 <= i < |r| ==> KeyOf(r[i], ByNextOccurrence(today)).epochDay >= EpochDay(today)
  {
    var r := SortedBirthdays(filtered, DATE, ascending, today);
    forall i | 0 <= i < |r|
      ensures KeyOf(r[i], ByNextOccurrence(today)).epochDay >= EpochDay(today)
    {
      DateKeyNotBeforeToday(r[i], today);
    }
  }

  /**
   * Under DATE the list follows the calendar: ascending, each birthday's
   * next occurrence is on or before those of the birthdays after it;
   * descending, on or after them.
   */
  lemma DateSortFollowsNextOccurrence(filtered: seq<BirthdayRecord>, ascending: bool, today: LocalDate)
    ensures var r := SortedBirthdays(filtered, DATE, ascending, today);
      forall i, j :: 0 <= i < j < |r| ==>
        if ascending then OnOrBefore(NextOccurrence(r[i], today), NextOccurrence(r[j], today))
        else OnOrBefore(NextOccurrence(r[j], today), NextOccurrence(r[i], today))
  {
    var r := SortedBirthdays(filtered, DATE, ascending, today);
    var spec := ByNextOccurrence(today);
    if ascending {
      AscendingOrder(filtered, DATE, today);
    } else {
      DescendingOrder(filtered, DATE, today);
    }
    forall i, j | 0 <= i < j < |r|
      ensures if ascending then OnOrBefore(NextOccurrence(r[i], today), NextOccurrence(r[j], today))
              else OnOrBefore(NextOccurrence(r[j], today), NextOccurrence(r[i], today))
    {
      var a, b := NextOccurrence(r[i], today), NextOccurrence(r[j], today);
      assert KeyOf(r[i], spec) == DayKey(EpochDay(a)) && KeyOf(r[j], spec) == DayKey(EpochDay(b));
      if ascending {
        assert KeyLe(KeyFn(spec)(r[i]), KeyFn(spec)(r[j]));
      } else {
        assert KeyLe(KeyOf(r[j], spec), KeyOf(r[i], spec));
      }
      EpochDayOrder(a, b);
    }
  }

  // ---------------------------------------------------------------------
  // Highlights and rows

  /** todayBirthday: the first shown birthday whose month and day are today's. */
  function TodayBirthday(sorted: seq<BirthdayRecord>, today: LocalDate): (r: Option<BirthdayRecord>)
    ensures r.None? <==> forall i :: 0 <= i < |sorted| ==> !IsToday(sorted[i], today)
    ensures r.Some? ==>
      exists i :: 0 <= i < |sorted| && sorted[i] == r.value && IsToday(sorted[i], today)
        && forall j :: 0 <= j < i ==> !IsToday(sorted[j], today)
  {
    FirstMatch(sorted, b => IsToday(b, today))
  }

  datatype RowColour = TodayGreen | UpcomingOrange | Surface

  /** A row's background: today's birthday first, then the next upcoming one, otherwise the surface colour. */
  function RowHighlight(b: BirthdayRecord, todayBirthday: Option<BirthdayRecord>, nextUpcoming: Option<BirthdayRecord>)
    : (c: RowColour)
    ensures c == TodayGreen <==> todayBirthday.Some? && todayBirthday.value.id == b.id
    ensures c == UpcomingOrange <==>
      !(todayBirthday.Some? && todayBirthday.value.id == b.id) && nextUpcoming.Some? && nextUpcoming.value.id == b.id
  {
    if todayBirthday.Some? && todayBirthday.value.id == b.id then TodayGreen
    else if nextUpcoming.Some? && nextUpcoming.value.id == b.id then UpcomingOrange
    else Surface
  }

  predicate UniqueIds(s: seq<BirthdayRecord>) {
    forall i, j :: 0 <= i < j < |s| ==> s[i].id != s[j].id
  }

  /** The colour of row i of the screen. */
  function RowColourAt(sorted: seq<BirthdayRecord>, today: LocalDate, i: int): RowColour
    requires 0 <= i < |sorted|
  {
    RowHighlight(sorted[i], TodayBirthday(sorted, today), NextUpcomingBirthday(sorted, today))
  }

  /**
   * With distinct ids, at most one row is green and it is a birthday today;
   * at most one row is orange; and the green row is there exactly when some
   * shown birthday is today.
   */
  lemma RowHighlights(sorted: seq<BirthdayRecord>, today: LocalDate)
    requires UniqueIds(sorted)
    ensures forall i, j :: 0 <= i < j < |sorted| ==>
      !(RowColourAt(sorted, today, i) == TodayGreen && RowColourAt(sorted, today, j) == TodayGreen)
    ensures forall i, j :: 0 <= i < j < |sorted| ==>
      !(RowColourAt(sorted, today, i) == UpcomingOrange && RowColourAt(sorted, today, j) == UpcomingOrange)
    ensures forall i :: 0 <= i < |sorted| && RowColourAt(sorted, today, i) == TodayGreen ==> IsToday(sorted[i], today)
    ensures (exists i :: 0 <= i < |sorted| && RowColourAt(sorted, today, i) == TodayGreen)
        <==> (exists i :: 0 <= i < |sorted| && IsToday(sorted[i], today))
  {
    var t := TodayBirthday(sorted, today);
    var n := NextUpcomingBirthday(sorted, today);
    if t.Some? {
      var k :| 0 <= k < |sorted| && sorted[k] == t.value && IsToday(sorted[k], today);
      assert RowColourAt(sorted, today, k) == TodayGreen;
      forall i | 0 <= i < |sorted| && RowColourAt(sorted, today, i) == TodayGreen
        ensures i == k
      {
      }
    }
    if n.Some? {
      var k :| 0 <= k < |sorted| && sorted[k] == n.value;
      forall i | 0 <= i < |sorted| && RowColourAt(sorted, today, i) == UpcomingOrange
        ensures i == k
      {
      }
    }
  }
}
