/**
 * The stable sort the screens use (Kotlin's sortedBy / sortedWith, which
 * keep equal elements in their input order) and the orders it sorts by.
 */
module Sorting {
  import opened Calendar
  import opened Occurrence
  import opened Seqs

  /**
   * String.compareTo, lexicographic by character: a proper prefix comes
   * first, otherwise the first differing character decides.
   */
  predicate TextLe(a: string, b: string) {
    if a == [] then true
    else if b == [] then false
    else if a[0] != b[0] then a[0] < b[0]
    else TextLe(a[1..], b[1..])
  }

  lemma {:induction false} TextLeTotal(a: string, b: string)
    ensures TextLe(a, b) || TextLe(b, a)
  {
    if a != [] && b != [] && a[0] == b[0] {
      TextLeTotal(a[1..], b[1..]);
    }
  }

  lemma {:induction false} TextLeAntisymmetric(a: string, b: string)
    requires TextLe(a, b) && TextLe(b, a)
    ensures a == b
  {
    if a != [] && b != [] {
      TextLeAntisymmetric(a[1..], b[1..]);
      assert a == [a[0]] + a[1..] && b == [b[0]] + b[1..];
    }
  }

  lemma {:induction false} TextLeTransitive(a: string, b: string, c: string)
    requires TextLe(a, b) && TextLe(b, c)
    ensures TextLe(a, c)
  {
    if a != [] && b != [] && c != [] && a[0] == b[0] && b[0] == c[0] {
      TextLeTransitive(a[1..], b[1..], c[1..]);
    }
  }

  /** A sort key: an epoch day or a day of the month, or a text. */
  datatype SortKey = DayKey(epochDay: int) | TextKey(text: string)

  predicate KeyLe(a: SortKey, b: SortKey) {
    match (a, b)
    case (DayKey(x), DayKey(y)) => x <= y
    case (TextKey(x), TextKey(y)) => TextLe(x, y)
    case (DayKey(_), TextKey(_)) => true
    case (TextKey(_), DayKey(_)) => false
  }

  lemma KeyLeReflexive(a: SortKey)
    ensures KeyLe(a, a)
  {
    if a.TextKey? {
      TextLeTotal(a.text, a.text);
    }
  }

  /** KeyLe is a total order on keys. */
  lemma KeyLeTotalOrder(a: SortKey, b: SortKey, c: SortKey)
    ensures KeyLe(a, a)
    ensures KeyLe(a, b) || KeyLe(b, a)
    ensures KeyLe(a, b) && KeyLe(b, a) ==> a == b
    ensures KeyLe(a, b) && KeyLe(b, c) ==> KeyLe(a, c)
  {
    if a.TextKey? && b.TextKey? {
      TextLeTotal(a.text, b.text);
      if KeyLe(a, b) && KeyLe(b, a) {
        TextLeAntisymmetric(a.text, b.text);
      }
      TextLeTotal(a.text, a.text);
      if c.TextKey? && KeyLe(a, b) && KeyLe(b, c) {
        TextLeTransitive(a.text, b.text, c.text);
      }
    } else if a.TextKey? {
      TextLeTotal(a.text, a.text);
    }
  }

  /**
   * What a list is ordered by: the epoch day of the next occurrence on or
   * after today (compareBy { upcoming.toEpochDay() }), the name, the
   * category, or the day of the month.
   */
  datatype KeySpec = ByNextOccurrence(today: LocalDate) | ByName | ByCategory | ByDayOfMonth

  function KeyOf(b: BirthdayRecord, spec: KeySpec): (k: SortKey)
    ensures spec.ByNextOccurrence? ==> k == DayKey(EpochDay(NextOccurrence(b, spec.today)))
    ensures spec == ByName ==> k == TextKey(b.name)
    ensures spec == ByCategory ==> k == TextKey(b.category)
    ensures spec == ByDayOfMonth ==> k == DayKey(b.day)
  {
    match spec
    case ByNextOccurrence(today) => DayKey(EpochDay(NextOccurrence(b, today)))
    case ByName => TextKey(b.name)
    case ByCategory => TextKey(b.category)
    case ByDayOfMonth => DayKey(b.day)
  }

  /** The key as a function, for the generic sort. */
  function KeyFn(spec: KeySpec): BirthdayRecord -> SortKey
  {
    (b: BirthdayRecord) => KeyOf(b, spec)
  }

  /** The date key is never before today: the next occurrence is on or after today. */
  lemma DateKeyNotBeforeToday(b: BirthdayRecord, today: LocalDate)
    ensures KeyOf(b, ByNextOccurrence(today)).epochDay >= EpochDay(today)
  {
    EpochDayOrder(today, NextOccurrence(b, today));
  }

  predicate SortedBy<T>(s: seq<T>, key: T -> SortKey) {
    forall i, j :: 0 <= i < j < |s| ==> KeyLe(key(s[i]), key(s[j]))
  }

  /** Insert x before the first element whose key is not smaller than its own. */
  function Insert<T>(x: T, s: seq<T>, key: T -> SortKey): seq<T>
  {
    if s == [] || KeyLe(key(x), key(s[0])) then [x] + s
    else [s[0]] + Insert(x, s[1..], key)
  }

  /**
   * sortedBy / sortedWith(compareBy): a stable sort.  Each element goes in
   * front of the already sorted later elements with an equal or larger key.
   */
  function SortByKey<T>(s: seq<T>, key: T -> SortKey): seq<T>
  {
    if s == [] then [] else Insert(s[0], SortByKey(s[1..], key), key)
  }

  lemma {:induction false} InsertPermutes<T>(x: T, s: seq<T>, key: T -> SortKey)
    ensures multiset(Insert(x, s, key)) == multiset(s) + multiset{x}
  {
    if s != [] && !KeyLe(key(x), key(s[0])) {
      InsertPermutes(x, s[1..], key);
      assert s == [s[0]] + s[1..];
    }
  }

  /** The sort rearranges its input: the result is a permutation. */
  lemma {:induction false} SortByKeyPermutes<T>(s: seq<T>, key: T -> SortKey)
    ensures multiset(SortByKey(s, key)) == multiset(s)
  {
    if s != [] {
      SortByKeyPermutes(s[1..], key);
      InsertPermutes(s[0], SortByKey(s[1..], key), key);
      assert s == [s[0]] + s[1..];
    }
  }

  /** Sorting keeps exactly the elements it was given. */
  lemma SortByKeySameElements<T>(s: seq<T>, key: T -> SortKey)
    ensures forall x :: x in SortByKey(s, key) <==> x in s
  {
    SortByKeyPermutes(s, key);
    forall x
      ensures x in SortByKey(s, key) <==> x in s
    {
      assert x in SortByKey(s, key) <==> x in multiset(SortByKey(s, key));
      assert x in s <==> x in multiset(s);
    }
  }

  /** Every key in s is at least lo. */
  predicate AllAtLeast<T>(s: seq<T>, key: T -> SortKey, lo: SortKey) {
    forall i :: 0 <= i < |s| ==> KeyLe(lo, key(s[i]))
  }

  lemma {:induction false} InsertAtLeast<T>(x: T, s: seq<T>, key: T -> SortKey, lo: SortKey)
    requires AllAtLeast(s, key, lo) && KeyLe(lo, key(x))
    ensures AllAtLeast(Insert(x, s, key), key, lo)
  {
    if s != [] && !KeyLe(key(x), key(s[0])) {
      InsertAtLeast(x, s[1..], key, lo);
    }
  }

  lemma {:induction false} InsertSorted<T>(x: T, s: seq<T>, key: T -> SortKey)
    requires SortedBy(s, key)
    ensures SortedBy(Insert(x, s, key), key)
  {
    var kx := key(x);
    if s == [] {
    } else if KeyLe(kx, key(s[0])) {
      var r := [x] + s;
      forall i, j | 0 <= i < j < |r|
        ensures KeyLe(key(r[i]), key(r[j]))
      {
        if i == 0 && j > 1 {
          KeyLeTotalOrder(kx, key(s[0]), key(s[j - 1]));
        }
      }
    } else {
      var lo := key(s[0]);
      var tail := Insert(x, s[1..], key);
      InsertSorted(x, s[1..], key);
      KeyLeTotalOrder(kx, lo, kx);
      assert AllAtLeast(s[1..], key, lo) by {
        forall i | 0 <= i < |s[1..]|
          ensures KeyLe(lo, key(s[1..][i]))
        {
          assert s[1..][i] == s[i + 1];
        }
      }
      InsertAtLeast(x, s[1..], key, lo);
    }
  }

  lemma {:induction false} SortByKeySorted<T>(s: seq<T>, key: T -> SortKey)
    ensures SortedBy(SortByKey(s, key), key)
  {
    if s != [] {
      SortByKeySorted(s[1..], key);
      InsertSorted(s[0], SortByKey(s[1..], key), key);
    }
  }

  /** The birthdays of s whose key is k, in their order in s. */
  function WithKey<T>(s: seq<T>, key: T -> SortKey, k: SortKey): (r: seq<T>)
    ensures forall i :: 0 <= i < |r| ==> key(r[i]) == k
    ensures |r| <= |s|
  {
    if s == [] then []
    else (if key(s[0]) == k then [s[0]] else []) + WithKey(s[1..], key, k)
  }

  lemma {:induction false} InsertWithKey<T>(x: T, s: seq<T>, key: T -> SortKey, k: SortKey)
    ensures WithKey(Insert(x, s, key), key, k)
         == (if key(x) == k then [x] else []) + WithKey(s, key, k)
  {
    var kx := key(x);
    if s == [] || KeyLe(kx, key(s[0])) {
      assert ([x] + s)[1..] == s;
    } else {
      var tail := Insert(x, s[1..], key);
      InsertWithKey(x, s[1..], key, k);
      var ks := key(s[0]);
      assert ks != kx by {
        KeyLeReflexive(kx);
      }
      var a := if ks == k then [s[0]] else [];
      var b := if kx == k then [x] else [];
      assert WithKey([s[0]] + tail, key, k) == a + WithKey(tail, key, k) by {
        assert ([s[0]] + tail)[1..] == tail;
      }
      assert WithKey(s, key, k) == a + WithKey(s[1..], key, k);
      assert a == [] || b == [];
      assert a + (b + WithKey(s[1..], key, k)) == b + (a + WithKey(s[1..], key, k));
    }
  }

  /** Stability: the birthdays with any one key keep their relative order. */
  lemma {:induction false} SortByKeyStable<T>(s: seq<T>, key: T -> SortKey, k: SortKey)
    ensures WithKey(SortByKey(s, key), key, k) == WithKey(s, key, k)
  {
    if s != [] {
      SortByKeyStable(s[1..], key, k);
      InsertWithKey(s[0], SortByKey(s[1..], key), key, k);
    }
  }

  /** A sorted list read backwards (List.reversed) has keys that never increase. */
  lemma ReverseSortedDescending<T>(s: seq<T>, key: T -> SortKey)
    requires SortedBy(s, key)
    ensures var r := Reverse(s);
      forall i, j :: 0 <= i < j < |r| ==> KeyLe(key(r[j]), key(r[i]))
  {
    var r := Reverse(s);
    forall i, j | 0 <= i < j < |r|
      ensures KeyLe(key(r[j]), key(r[i]))
    {
      assert r[i] == s[|s| - 1 - i] && r[j] == s[|s| - 1 - j];
    }
  }
}
