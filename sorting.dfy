/**
 * The stable sort by an integer key that `java.util.Collections.sort` performs
 * when SUDA2 orders items by ascending support
 * (SUDA2IndexedItemSet.getItemList, SUDA2ItemRegistry.getSortedItemList).
 * A stable sort's output is determined by its input and the keys, so an
 * insertion sort describes it exactly.
 */
module Sorting {

  ghost predicate SortedBy<T>(s: seq<T>, key: T -> int)
  {
    forall i, j :: 0 <= i < j < |s| ==> key(s[i]) <= key(s[j])
  }

  /** The elements of `s` whose key is `k`, in their order in `s`. */
  function WithKey<T>(s: seq<T>, key: T -> int, k: int): seq<T>
  {
    if s == [] then []
    else (if key(s[0]) == k then [s[0]] else []) + WithKey(s[1..], key, k)
  }

  /** Inserts `x` in front of the first element whose key is not smaller. */
  function Insert<T>(x: T, s: seq<T>, key: T -> int): (r: seq<T>)
    ensures multiset(r) == multiset(s) + multiset{x}
  {
    if s == [] || key(x) <= key(s[0]) then
      [x] + s
    else
      assert s == [s[0]] + s[1..];
      [s[0]] + Insert(x, s[1..], key)
  }

  /** Insertion into a sorted sequence keeps it sorted. */
  lemma {:induction false} InsertSorted<T>(x: T, s: seq<T>, key: T -> int)
    requires SortedBy(s, key)
    ensures SortedBy(Insert(x, s, key), key)
  {
    if s != [] && key(x) > key(s[0]) {
      var tail := Insert(x, s[1..], key);
      InsertSorted(x, s[1..], key);
      forall j | 0 <= j < |tail| ensures key(s[0]) <= key(tail[j]) {
        InsertFrom(x, s[1..], key, tail[j]);
        if tail[j] != x {
          var m :| 0 <= m < |s[1..]| && s[1..][m] == tail[j];
          assert s[1..][m] == s[m + 1];
        }
      }
    }
  }

  lemma InsertFrom<T>(x: T, s: seq<T>, key: T -> int, y: T)
    requires y in Insert(x, s, key)
    ensures y == x || y in s
  {
    assert y in multiset(Insert(x, s, key));
  }

  /** Insertion places `x` behind nothing of its own key: the sort is stable. */
  lemma {:induction false} InsertWithKey<T>(x: T, s: seq<T>, key: T -> int, k: int)
    ensures WithKey(Insert(x, s, key), key, k) ==
      if key(x) == k then [x] + WithKey(s, key, k) else WithKey(s, key, k)
  {
    var r := Insert(x, s, key);
    if s == [] || key(x) <= key(s[0]) {
      assert r[1..] == s;
    } else {
      InsertWithKey(x, s[1..], key, k);
      assert r[1..] == Insert(x, s[1..], key);
      assert s == [s[0]] + s[1..];
    }
  }

  function SortBy<T>(s: seq<T>, key: T -> int): (r: seq<T>)
    ensures multiset(r) == multiset(s)
    ensures SortedBy(r, key)
  {
    if s == [] then []
    else
      assert s == [s[0]] + s[1..];
      var sorted := SortBy(s[1..], key);
      InsertSorted(s[0], sorted, key);
      Insert(s[0], sorted, key)
  }

  /** Elements with equal keys keep their relative order. */
  lemma {:induction false} SortByStable<T>(s: seq<T>, key: T -> int, k: int)
    ensures WithKey(SortBy(s, key), key, k) == WithKey(s, key, k)
  {
    if s != [] {
      SortByStable(s[1..], key, k);
      InsertWithKey(s[0], SortBy(s[1..], key), key, k);
    }
  }

  /** Sorting keeps exactly the elements of its input. */
  lemma SortByMembers<T>(s: seq<T>, key: T -> int)
    ensures |SortBy(s, key)| == |s|
    ensures forall x :: x in SortBy(s, key) <==> x in s
  {
    var r := SortBy(s, key);
    assert |r| == |multiset(r)| == |multiset(s)| == |s|;
    forall x ensures x in r <==> x in s {
      assert x in r <==> x in multiset(r);
      assert x in s <==> x in multiset(s);
    }
  }
}
