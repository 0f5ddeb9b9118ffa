/**
 * The item lists the two item maps hand out
 * (`SUDA2IndexedItemSet.getItemList`, `SUDA2ItemRegistry.getSortedItemList`):
 * the items of the used slots, in slot order, then stably sorted by
 * ascending support with `Collections.sort`.
 */
module ItemLists {
  import opened Sorting
  import opened ItemObjects

  /** The items of the used slots of a `SUDA2Item[]`, in slot order. */
  function Present(values: seq<Item?>): (items: seq<Item>)
    ensures |items| <= |values|
  {
    if values == [] then []
    else (if values[0] != null then [values[0]] else []) + Present(values[1..])
  }

  /** The present items are exactly the non-null entries. */
  lemma {:induction false} PresentMembers(values: seq<Item?>)
    ensures forall it: Item :: it in Present(values) <==> it in values
  {
    if values != [] {
      PresentMembers(values[1..]);
      assert values == [values[0]] + values[1..];
    }
  }

  /** One more slot at the end adds its item, if any, at the end. */
  lemma {:induction false} PresentSnoc(values: seq<Item?>, i: int)
    requires 0 <= i < |values|
    ensures Present(values[..i + 1]) == Present(values[..i]) + (if values[i] != null then [values[i]] else [])
  {
    if i > 0 {
      PresentSnoc(values[1..], i - 1);
      assert values[1..][..i] == values[..i + 1][1..];
      assert values[1..][..i - 1] == values[..i][1..];
    }
  }

  /** The collecting loop of both list methods: the non-null entries of the array, in order. */
  method Collect(values: array<Item?>) returns (list: seq<Item>)
    ensures list == Present(values[..])
  {
    list := [];
    var i := 0;
    while i < values.Length
      invariant 0 <= i <= values.Length
      invariant list == Present(values[..i])
    {
      PresentSnoc(values[..], i);
      assert values[..][..i + 1] == values[..i + 1] && values[..][..i] == values[..i];
      if values[i] != null {
        list := list + [values[i]];
      }
      i := i + 1;
    }
    assert values[..values.Length] == values[..];
  }

  /** The item of a used slot is present. */
  lemma {:induction false} PresentHas(values: seq<Item?>, i: int)
    requires 0 <= i < |values| && values[i] != null
    ensures values[i] in multiset(Present(values))
  {
    if i > 0 {
      PresentHas(values[1..], i - 1);
    }
  }

  /** No item in an array of nulls. */
  lemma {:induction false} PresentEmpty(values: seq<Item?>)
    requires forall i :: 0 <= i < |values| ==> values[i] == null
    ensures Present(values) == []
  {
    if values != [] {
      PresentEmpty(values[1..]);
    }
  }

  /** Storing an item in a free slot adds it to the present items. */
  lemma {:induction false} PresentSet(values: seq<Item?>, i: int, item: Item)
    requires 0 <= i < |values| && values[i] == null
    ensures multiset(Present(values[i := item])) == multiset(Present(values)) + multiset{item}
  {
    if i > 0 {
      PresentSet(values[1..], i - 1, item);
      assert values[i := item][1..] == values[1..][i - 1 := item];
    } else {
      assert values[i := item][1..] == values[1..];
    }
  }

  /** No element occurs twice. */
  ghost predicate NoDuplicates<T>(s: seq<T>)
  {
    forall i, j :: 0 <= i < j < |s| ==> s[i] != s[j]
  }

  /** Slots that hold different items give a list without repeats. */
  lemma {:induction false} PresentNoDuplicates(values: seq<Item?>)
    requires forall i, j :: 0 <= i < j < |values| && values[i] != null ==> values[i] != values[j]
    ensures NoDuplicates(Present(values))
  {
    if values != [] {
      PresentNoDuplicates(values[1..]);
      PresentMembers(values[1..]);
      if values[0] != null {
        forall k | 0 <= k < |values| - 1 ensures values[1..][k] != values[0] {
          assert values[1..][k] == values[k + 1];
        }
        assert values[0] !in values[1..];
        var rest := Present(values[1..]);
        assert Present(values) == [values[0]] + rest;
        forall k | 0 <= k < |rest| ensures rest[k] != values[0] {
          assert rest[k] in rest;
        }
      }
    }
  }

  /** In a sequence without repeats every element occurs once. */
  lemma {:induction false} NoDuplicatesCount<T>(s: seq<T>, x: T)
    requires NoDuplicates(s)
    ensures multiset(s)[x] <= 1
  {
    if s != [] {
      assert s == [s[0]] + s[1..];
      NoDuplicatesCount(s[1..], x);
      if s[0] == x {
        assert x !in s[1..];
      }
    }
  }

  /** A permutation of a sequence without repeats has none either. */
  lemma PermutedNoDuplicates<T>(a: seq<T>, b: seq<T>)
    requires multiset(a) == multiset(b) && NoDuplicates(a)
    ensures NoDuplicates(b)
  {
    forall i, j | 0 <= i < j < |b| ensures b[i] != b[j] {
      if b[i] == b[j] {
        assert b == b[..j] + b[j..];
        assert b[i] in multiset(b[..j]) && b[j] in multiset(b[j..]);
        assert multiset(b)[b[i]] >= 2;
        NoDuplicatesCount(a, b[i]);
      }
    }
  }

  /** A permutation has the same elements and the same length. */
  lemma PermutedMembers<T>(a: seq<T>, b: seq<T>)
    requires multiset(a) == multiset(b)
    ensures |a| == |b| && forall x :: x in a <==> x in b
  {
    assert |a| == |multiset(a)| == |multiset(b)| == |b|;
    forall x ensures x in a <==> x in b {
      assert x in a <==> x in multiset(a);
      assert x in b <==> x in multiset(b);
    }
  }

  // ------------------------------------------------------ sort by support

  /** Items paired with their supports. */
  function Zip(items: seq<Item>, supports: seq<int>): (z: seq<(Item, int)>)
    requires |items| == |supports|
    ensures |z| == |items| && forall i :: 0 <= i < |z| ==> z[i] == (items[i], supports[i])
  {
    seq(|items|, i requires 0 <= i < |items| => (items[i], supports[i]))
  }

  /** The items of the pairs. */
  function Firsts(z: seq<(Item, int)>): (items: seq<Item>)
    ensures |items| == |z| && forall i :: 0 <= i < |z| ==> items[i] == z[i].0
  {
    seq(|z|, i requires 0 <= i < |z| => z[i].0)
  }

  /** The comparator's key: the support stored with an item. */
  function Second(p: (Item, int)): int
  {
    p.1
  }

  /** Inserting a pair adds its item to the items. */
  lemma {:induction false} FirstsInsert(x: (Item, int), s: seq<(Item, int)>)
    ensures multiset(Firsts(Insert(x, s, Second))) == multiset(Firsts(s)) + multiset{x.0}
  {
    var r := Insert(x, s, Second);
    if s == [] || Second(x) <= Second(s[0]) {
      assert Firsts(r) == [x.0] + Firsts(s);
    } else {
      FirstsInsert(x, s[1..]);
      assert Firsts(r) == [s[0].0] + Firsts(Insert(x, s[1..], Second));
      assert Firsts(s) == [s[0].0] + Firsts(s[1..]);
    }
  }

  /** Sorting the pairs permutes their items. */
  lemma {:induction false} FirstsSortBy(z: seq<(Item, int)>)
    ensures multiset(Firsts(SortBy(z, Second))) == multiset(Firsts(z))
  {
    if z != [] {
      var rest := SortBy(z[1..], Second);
      assert SortBy(z, Second) == Insert(z[0], rest, Second);
      FirstsSortBy(z[1..]);
      FirstsInsert(z[0], rest);
      FirstsCons(z);
    }
  }

  /** The items of a non-empty sequence of pairs: the first pair's item and the rest's. */
  lemma FirstsCons(z: seq<(Item, int)>)
    requires z != []
    ensures multiset(Firsts(z)) == multiset(Firsts(z[1..])) + multiset{z[0].0}
  {
    assert Firsts(z) == [z[0].0] + Firsts(z[1..]);
  }

  /** Pairs that hold their item's support, sorted, give items sorted by support. */
  lemma SortedSupports(z: seq<(Item, int)>)
    requires forall k :: 0 <= k < |z| ==> z[k].1 == z[k].0.Value().Support()
    ensures var sorted := Firsts(SortBy(z, Second));
      forall i, j :: 0 <= i < j < |sorted| ==> sorted[i].Value().Support() <= sorted[j].Value().Support()
  {
    var ordered := SortBy(z, Second);
    var sorted := Firsts(ordered);
    SortByMembers(z, Second);
    forall i, j | 0 <= i < j < |sorted|
      ensures sorted[i].Value().Support() <= sorted[j].Value().Support()
    {
      var p, q := ordered[i], ordered[j];
      assert p in z && q in z;
      assert Second(p) <= Second(q);
      assert p.1 == p.0.Value().Support();
    }
  }

  /**
   * `Collections.sort` with the comparator on `getSupport()`: the items
   * ordered by ascending support, items of equal support kept in their
   * order. `supports` are the supports the comparator reads.
   */
  method SortBySupport(items: seq<Item>) returns (sorted: seq<Item>, ghost supports: seq<int>)
    requires forall it :: it in items ==> it.Valid()
    ensures |supports| == |items| && forall i :: 0 <= i < |items| ==> supports[i] == items[i].Value().Support()
    ensures sorted == Firsts(SortBy(Zip(items, supports), Second))
    ensures multiset(sorted) == multiset(items)
    ensures forall i, j :: 0 <= i < j < |sorted| ==> sorted[i].Value().Support() <= sorted[j].Value().Support()
  {
    var pairs := WithSupports(items);
    supports := seq(|items|, k requires 0 <= k < |items| => pairs[k].1);
    assert pairs == Zip(items, supports);
    sorted := Firsts(SortBy(pairs, Second));
    FirstsSortBy(pairs);
    assert Firsts(pairs) == items;
    SortedSupports(pairs);
  }

  /** Each item paired with its support, as the comparator reads it. */
  method WithSupports(items: seq<Item>) returns (pairs: seq<(Item, int)>)
    requires forall it :: it in items ==> it.Valid()
    ensures |pairs| == |items|
    ensures forall k :: 0 <= k < |items| ==> pairs[k] == (items[k], items[k].Value().Support())
  {
    pairs := [];
    var i := 0;
    while i < |items|
      invariant 0 <= i <= |items| && |pairs| == i
      invariant forall k :: 0 <= k < i ==> pairs[k] == (items[k], items[k].Value().Support())
    {
      pairs := pairs + [(items[i], items[i].GetSupport())];
      i := i + 1;
    }
  }
}
