/**
 * The Kotlin collection operations the screens and the view-model use:
 * filter, reversed, firstOrNull and minByOrNull.
 */
module Seqs {
  import opened Wrappers

  /** Iterable.filter: the elements satisfying p, in their original order. */
  function Filter<T>(s: seq<T>, p: T -> bool): (r: seq<T>)
    ensures |r| <= |s|
    ensures forall i :: 0 <= i < |r| ==> r[i] in s && p(r[i])
    ensures forall i :: 0 <= i < |s| && p(s[i]) ==> s[i] in r
    ensures multiset(r) <= multiset(s)
  {
    if s == [] then []
    else
      assert s == [s[0]] + s[1..];
      if p(s[0]) then [s[0]] + Filter(s[1..], p) else Filter(s[1..], p)
  }

  /** Filtering a sequence extended at the end extends the filtered sequence at the end. */
  lemma {:induction false} FilterSnoc<T>(s: seq<T>, x: T, p: T -> bool)
    ensures Filter(s + [x], p) == Filter(s, p) + (if p(x) then [x] else [])
  {
    if s != [] {
      assert (s + [x])[1..] == s[1..] + [x];
      FilterSnoc(s[1..], x, p);
    }
  }

  /** Filtering distributes over concatenation. */
  lemma {:induction false} FilterAppend<T>(s: seq<T>, t: seq<T>, p: T -> bool)
    ensures Filter(s + t, p) == Filter(s, p) + Filter(t, p)
  {
    if s == [] {
      assert s + t == t;
    } else {
      assert (s + t)[1..] == s[1..] + t;
      FilterAppend(s[1..], t, p);
    }
  }

  /** A filter that every element passes changes nothing. */
  lemma {:induction false} FilterKeepsAll<T>(s: seq<T>, p: T -> bool)
    requires forall i :: 0 <= i < |s| ==> p(s[i])
    ensures Filter(s, p) == s
  {
    if s != [] {
      FilterKeepsAll(s[1..], p);
    }
  }

  /** List.reversed. */
  function Reverse<T>(s: seq<T>): (r: seq<T>)
    ensures |r| == |s|
    ensures forall i :: 0 <= i < |s| ==> r[i] == s[|s| - 1 - i]
    ensures multiset(r) == multiset(s)
  {
    if s == [] then []
    else
      assert s == [s[0]] + s[1..];
      Reverse(s[1..]) + [s[0]]
  }

  lemma {:induction false} ReverseAppend<T>(s: seq<T>, t: seq<T>)
    ensures Reverse(s + t) == Reverse(t) + Reverse(s)
  {
    assert |Reverse(s + t)| == |Reverse(t) + Reverse(s)|;
    forall i | 0 <= i < |s| + |t|
      ensures Reverse(s + t)[i] == (Reverse(t) + Reverse(s))[i]
    {
      if i < |t| {
        assert Reverse(s + t)[i] == (s + t)[|s| + |t| - 1 - i] == t[|t| - 1 - i];
      } else {
        assert Reverse(s + t)[i] == (s + t)[|s| + |t| - 1 - i] == s[|s| - 1 - (i - |t|)];
      }
    }
  }

  /** Filtering and reversing commute. */
  lemma {:induction false} FilterReverse<T>(s: seq<T>, p: T -> bool)
    ensures Filter(Reverse(s), p) == Reverse(Filter(s, p))
  {
    if s != [] {
      FilterReverse(s[1..], p);
      FilterAppend(Reverse(s[1..]), [s[0]], p);
      assert s == [s[0]] + s[1..];
      ReverseAppend([s[0]], Filter(s[1..], p));
      assert Filter([s[0]], p) == if p(s[0]) then [s[0]] else [];
    }
  }

  /** Iterable.firstOrNull(predicate): the first element satisfying p, if any. */
  function FirstMatch<T(==)>(s: seq<T>, p: T -> bool): (r: Option<T>)
    ensures r.None? <==> forall i :: 0 <= i < |s| ==> !p(s[i])
    ensures r.Some? ==> exists i :: 0 <= i < |s| && s[i] == r.value && p(s[i]) && forall j :: 0 <= j < i ==> !p(s[j])
  {
    if s == [] then None
    else if p(s[0]) then Some(s[0])
    else
      var r := FirstMatch(s[1..], p);
      if r.Some? then
        var i :| 0 <= i < |s[1..]| && s[1..][i] == r.value && p(s[1..][i]) && forall j :: 0 <= j < i ==> !p(s[1..][j]);
        assert s[i + 1] == r.value && forall j :: 0 <= j < i + 1 ==> !p(s[j]);
        r
      else r
  }

  /**
   * Index that Iterable.minByOrNull settles on: it scans left to right and
   * replaces the current minimum only by a strictly smaller key, so the
   * first of several equal minima wins.
   */
  function FirstMinIndex<T>(s: seq<T>, key: T -> int): (i: nat)
    requires |s| > 0
    ensures i < |s|
    ensures forall j :: 0 <= j < |s| ==> key(s[i]) <= key(s[j])
    ensures forall j :: 0 <= j < i ==> key(s[i]) < key(s[j])
  {
    if |s| == 1 then 0
    else
      var k := FirstMinIndex(s[..|s| - 1], key);
      assert s[..|s| - 1][k] == s[k];
      if key(s[k]) > key(s[|s| - 1]) then |s| - 1 else k
  }

  /** Iterable.minByOrNull: null for an empty list, otherwise the first element of least key. */
  function MinByOrNull<T>(s: seq<T>, key: T -> int): (r: Option<T>)
    ensures r.None? <==> s == []
    ensures r.Some? ==> exists i :: 0 <= i < |s| && s[i] == r.value
                          && (forall j :: 0 <= j < |s| ==> key(s[i]) <= key(s[j]))
                          && (forall j :: 0 <= j < i ==> key(s[i]) < key(s[j]))
  {
    if s == [] then None else Some(s[FirstMinIndex(s, key)])
  }

  /** minByOrNull depends only on the keys of the elements: equal keys, equal choice. */
  lemma MinByOrNullSameKeys<T>(s: seq<T>, key1: T -> int, key2: T -> int)
    requires forall i :: 0 <= i < |s| ==> key1(s[i]) == key2(s[i])
    ensures MinByOrNull(s, key1) == MinByOrNull(s, key2)
  {
    if s != [] {
      var i1, i2 := FirstMinIndex(s, key1), FirstMinIndex(s, key2);
      assert key1(s[i1]) == key2(s[i1]) && key1(s[i2]) == key2(s[i2]);
      assert i1 == i2;
    }
  }
}
