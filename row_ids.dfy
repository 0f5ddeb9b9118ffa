/**
 * Vocabulary shared by every representation of a set of row ids
 * (src/main/de/linearbits/suda2/SUDA2IntSet*.java): the elements stored in a
 * sequence of slots, counting the stored elements that another set holds,
 * the bounds `min()`/`max()` promise, and the "special row" test of
 * `containsSpecialRow`.
 */
module RowIds {
  import opened Rows
  import opened Uniques

  /** A row id: 1-based, and a Java `int`. */
  predicate RowId(x: int)
  {
    0 < x <= IntMax
  }

  /** The values stored in a sequence of slots. */
  function Elements(s: seq<int>): (e: set<int>)
    ensures forall x :: x in e <==> x in s
  {
    set x | x in s
  }

  /** No value is stored in two slots: there are as many values as slots. */
  predicate Unrepeated(s: seq<int>)
  {
    |Elements(s)| == |s|
  }

  lemma {:induction false} ElementsCard(s: seq<int>)
    ensures |Elements(s)| <= |s|
  {
    if s != [] {
      ElementsCard(s[1..]);
      assert Elements(s) == Elements(s[1..]) + {s[0]};
    }
  }

  /** Without repeats, the first value is not stored again, and the rest has no repeats. */
  lemma {:induction false} UnrepeatedTail(s: seq<int>)
    requires Unrepeated(s) && s != []
    ensures s[0] !in s[1..] && Unrepeated(s[1..])
  {
    var t := s[1..];
    ElementsCard(t);
    assert Elements(s) == Elements(t) + {s[0]};
    assert s[0] !in Elements(t);
  }

  /** Without repeats, no other slot holds the value of slot `k`. */
  lemma {:induction false} UnrepeatedAt(s: seq<int>, k: int)
    requires Unrepeated(s) && 0 <= k < |s|
    ensures s[k] !in s[..k] && s[k] !in s[k + 1..]
  {
    UnrepeatedTail(s);
    if k > 0 {
      UnrepeatedAt(s[1..], k - 1);
      assert s[..k] == [s[0]] + s[1..][..k - 1];
      assert s[k + 1..] == s[1..][k..];
    }
  }

  /** The next row of a duplicate-free list of rows is not among the ones before it. */
  lemma NextRow(s: seq<int>, i: int)
    requires Unrepeated(s) && 0 <= i < |s| && forall k :: 0 <= k < |s| ==> RowId(s[k])
    ensures RowId(s[i]) && s[i] !in Elements(s[..i])
    ensures s[..i + 1] == s[..i] + [s[i]] && Elements(s[..i + 1]) == Elements(s[..i]) + {s[i]}
  {
    UnrepeatedAt(s, i);
    ElementsPrefix(s, i);
  }

  lemma ElementsPrefix(s: seq<int>, i: int)
    requires 0 <= i < |s|
    ensures s[..i + 1] == s[..i] + [s[i]] && Elements(s[..i + 1]) == Elements(s[..i]) + {s[i]}
  {
    assert s[..i + 1] == s[..i] + [s[i]];
  }

  /** The suffix from slot `k` is slot `k` followed by the suffix from slot `k + 1`. */
  lemma SuffixStep(s: seq<int>, k: int)
    requires 0 <= k < |s|
    ensures s[k..] == [s[k]] + s[k + 1..] && s[k..][0] == s[k] && s[k..][1..] == s[k + 1..]
    ensures Elements(s[k..]) == Elements(s[k + 1..]) + {s[k]}
  {
    assert s[k..] == [s[k]] + s[k + 1..];
  }

  /** Appending a value not yet stored keeps a sequence free of repeats. */
  lemma Appended(s: seq<int>, v: int)
    requires Unrepeated(s) && v !in s
    ensures Unrepeated(s + [v]) && Elements(s + [v]) == Elements(s) + {v}
  {
    assert Elements(s + [v]) == Elements(s) + {v};
  }

  /** Joining two sequences without repeats and without common values keeps them free of repeats. */
  lemma Joined(a: seq<int>, b: seq<int>)
    requires Unrepeated(a) && Unrepeated(b) && Elements(a) * Elements(b) == {}
    ensures Unrepeated(a + b) && Elements(a + b) == Elements(a) + Elements(b)
  {
    assert Elements(a + b) == Elements(a) + Elements(b);
  }

  /** The number of slots of `s` whose value `other` holds. */
  function CountIn(s: seq<int>, other: set<int>): nat
  {
    if s == [] then 0 else (if s[0] in other then 1 else 0) + CountIn(s[1..], other)
  }

  /** Counting from slot `k`: slot `k`, then the slots after it. */
  lemma CountInStep(s: seq<int>, k: int, other: set<int>)
    requires 0 <= k < |s|
    ensures CountIn(s[k..], other) == (if s[k] in other then 1 else 0) + CountIn(s[k + 1..], other)
  {
    assert s[k..][1..] == s[k + 1..];
  }

  /**
   * The values of `s` that `other` holds, from the last slot to the first:
   * what a scan from the back that keeps each value `other` contains collects.
   */
  function KeptFrom(s: seq<int>, other: set<int>): seq<int>
  {
    if s == [] then [] else KeptFrom(s[1..], other) + (if s[0] in other then [s[0]] else [])
  }

  /** Keeping from slot `k`: what the slots after it keep, then slot `k` if `other` holds it. */
  lemma KeptFromStep(s: seq<int>, k: int, other: set<int>)
    requires 0 <= k < |s|
    ensures KeptFrom(s[k..], other) == KeptFrom(s[k + 1..], other) + (if s[k] in other then [s[k]] else [])
  {
    assert s[k..][1..] == s[k + 1..];
  }

  /** The kept values are the common elements, without repeats when `s` has none. */
  lemma {:induction false} KeptFromElements(s: seq<int>, other: set<int>)
    requires Unrepeated(s)
    ensures Unrepeated(KeptFrom(s, other)) && Elements(KeptFrom(s, other)) == Elements(s) * other
    ensures |KeptFrom(s, other)| <= |s|
  {
    if s != [] {
      var t := s[1..];
      UnrepeatedTail(s);
      KeptFromElements(t, other);
      var k := KeptFrom(t, other);
      assert Elements(s) == Elements(t) + {s[0]};
      if s[0] in other {
        assert s[0] !in Elements(k);
        Appended(k, s[0]);
        assert Elements(k + [s[0]]) == Elements(k) + {s[0]};
      } else {
        assert KeptFrom(s, other) == k;
      }
    }
  }

  /** Without repeats, the last value is not stored earlier, and the rest has no repeats. */
  lemma {:induction false} UnrepeatedInit(s: seq<int>)
    requires Unrepeated(s) && s != []
    ensures s[|s| - 1] !in s[..|s| - 1] && Unrepeated(s[..|s| - 1])
  {
    var n := |s| - 1;
    UnrepeatedAt(s, n);
    ElementsPrefix(s, n);
    assert s[..n + 1] == s;
    assert s[n] !in Elements(s[..n]);
  }

  /**
   * The values of `s` that `other` holds, from the first slot to the last:
   * what a scan from the front that keeps each value `other` contains collects.
   */
  function Filtered(s: seq<int>, other: set<int>): (r: seq<int>)
    ensures |r| <= |s|
  {
    if s == [] then []
    else Filtered(s[..|s| - 1], other) + (if s[|s| - 1] in other then [s[|s| - 1]] else [])
  }

  /** Keeping up to slot `i`: what the slots before it keep, then slot `i` if `other` holds it. */
  lemma FilteredStep(s: seq<int>, i: int, other: set<int>)
    requires 0 <= i < |s|
    ensures Filtered(s[..i + 1], other) == Filtered(s[..i], other) + (if s[i] in other then [s[i]] else [])
  {
    assert s[..i + 1][..i] == s[..i];
  }

  /** No value that `other` holds is stored in two slots of `s`: none is stored before its slot. */
  ghost predicate DistinctIn(s: seq<int>, other: set<int>)
  {
    forall j :: 0 <= j < |s| && s[j] in other ==> s[j] !in s[..j]
  }

  /** A sequence without repeats stores no value twice, whatever `other` is. */
  lemma UnrepeatedDistinct(s: seq<int>, other: set<int>)
    requires Unrepeated(s)
    ensures DistinctIn(s, other)
  {
    forall j | 0 <= j < |s| && s[j] in other
      ensures s[j] !in s[..j]
    {
      UnrepeatedAt(s, j);
    }
  }

  /** Dropping the last slot keeps `DistinctIn`, and the last value is new when `other` holds it. */
  lemma DistinctInInit(s: seq<int>, other: set<int>)
    requires DistinctIn(s, other) && s != []
    ensures DistinctIn(s[..|s| - 1], other)
    ensures s[|s| - 1] in other ==> s[|s| - 1] !in s[..|s| - 1]
  {
    var p := s[..|s| - 1];
    forall j | 0 <= j < |p| && p[j] in other
      ensures p[j] !in p[..j]
    {
      assert p[j] == s[j] && p[..j] == s[..j];
    }
  }

  /** The values kept from the front are the common elements, each kept once. */
  lemma {:induction false} FilteredElements(s: seq<int>, other: set<int>)
    requires DistinctIn(s, other)
    ensures Unrepeated(Filtered(s, other)) && Elements(Filtered(s, other)) == Elements(s) * other
  {
    if s != [] {
      var n := |s| - 1;
      var p := s[..n];
      DistinctInInit(s, other);
      FilteredElements(p, other);
      var k := Filtered(p, other);
      ElementsPrefix(s, n);
      assert s[..n + 1] == s;
      CommonStep(Elements(p), s[n], other);
      if s[n] in other {
        assert s[n] !in Elements(k);
        Appended(k, s[n]);
      } else {
        assert Filtered(s, other) == k;
      }
    }
  }

  /** One more stored value: the common elements gain it exactly when `other` holds it. */
  lemma CommonStep(e: set<int>, x: int, other: set<int>)
    ensures (e + {x}) * other == if x in other then e * other + {x} else e * other
  {
  }

  /** Without repeats, counting the slots counts the common elements. */
  lemma {:induction false} CountInCard(s: seq<int>, other: set<int>)
    requires Unrepeated(s)
    ensures CountIn(s, other) == |Elements(s) * other|
  {
    if s != [] {
      var t := s[1..];
      UnrepeatedTail(s);
      CountInCard(t, other);
      assert Elements(s) == Elements(t) + {s[0]};
      if s[0] in other {
        assert Elements(s) * other == Elements(t) * other + {s[0]};
      } else {
        assert Elements(s) * other == Elements(t) * other;
      }
    }
  }

  /** Every element lies in `[lo, hi]`: what `min()` and `max()` promise. */
  ghost predicate Bounded(e: set<int>, lo: int, hi: int)
  {
    forall x :: x in e ==> lo <= x <= hi
  }

  /**
   * `min` and `max` are the least and the greatest element, and
   * `Integer.MAX_VALUE` and `Integer.MIN_VALUE` for no element.
   */
  ghost predicate Extremes(e: set<int>, lo: int, hi: int)
  {
    && Bounded(e, lo, hi)
    && (e == {} ==> lo == IntMax && hi == IntMin)
    && (e != {} ==> lo in e && hi in e)
  }

  /** The range check of `intersectWith`: sets whose bounds are apart share nothing. */
  lemma Apart(a: set<int>, loA: int, hiA: int, b: set<int>, loB: int, hiB: int)
    requires Bounded(a, loA, hiA) && Bounded(b, loB, hiB)
    requires hiA < loB || hiB < loA
    ensures a * b == {}
  {
    forall x | x in a ensures x !in b {
      assert loA <= x <= hiA;
    }
  }

  /** A set holding two elements of another does not share exactly one with it. */
  lemma TwoShared(a: set<int>, b: set<int>, x: int, y: int)
    requires x in a * b && y in a * b && x != y
    ensures |a * b| != 1
  {
    SubsetCard({x, y}, a * b);
  }

  /**
   * `containsSpecialRow(items, referenceItem, row)`: the record holds every
   * item but not the reference item.
   */
  predicate Special(row: Row, items: seq<ItemKey>, ref: ItemKey)
  {
    (forall i :: 0 <= i < |items| ==> Holds(row, items[i])) && !Holds(row, ref)
  }

  /** Some row id of `e` names a special record. */
  ghost predicate SpecialIn(data: Table, e: set<int>, items: seq<ItemKey>, ref: ItemKey)
  {
    exists r :: r in e && 1 <= r <= |data| && Special(data[r - 1], items, ref)
  }

  /** One more row id: a special record among the others, or the one it names. */
  lemma SpecialAdd(data: Table, e: set<int>, x: int, items: seq<ItemKey>, ref: ItemKey)
    ensures SpecialIn(data, e + {x}, items, ref) <==>
      (1 <= x <= |data| && Special(data[x - 1], items, ref)) || SpecialIn(data, e, items, ref)
  {
  }

  /** Every element of `e` names a record of the table. */
  ghost predicate Names(data: Table, e: set<int>)
  {
    forall r :: r in e ==> 1 <= r <= |data|
  }

  /** The private `containsSpecialRow(items, referenceItem, row)` of every set. */
  method SpecialRow(items: seq<ItemKey>, ref: ItemKey, row: Row) returns (special: bool)
    ensures special <==> Special(row, items, ref)
  {
    var i := 0;
    while i < |items|
      invariant 0 <= i <= |items|
      invariant forall j :: 0 <= j < i ==> Holds(row, items[j])
    {
      if !Holds(row, items[i]) {
        return false;
      }
      i := i + 1;
    }
    if Holds(row, ref) {
      return false;
    }
    return true;
  }

  /** Java's `x - y` for `int`s whose difference is above `-2^32`: wrapped at most once. */
  lemma WrapNear(x: int)
    requires IntMin - IntMax <= x <= IntMax
    ensures Wrap32(x) == if x < IntMin then x + Two32 else x
  {
    if x < IntMin {
      WrapShift(x, 1);
    }
  }
}
