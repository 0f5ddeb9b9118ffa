/**
 * The exhaustive search the tests compare SUDA2 with
 * (src/test/de/linearbits/suda2/ExhaustiveSearch.java): count, for every
 * non-empty set of items of a record, how many records hold it; keep the sets
 * held by exactly one record; then drop every kept set that strictly contains
 * another kept set.
 *
 * Java's `HashSet`s and `HashMap` become Dafny sets and maps; where the Java
 * code iterates over a hash set, the model takes the elements in an arbitrary
 * order (`:|`), and every result below holds whatever that order is.
 */
module Exhaustive {
  import opened Rows
  import opened Uniques
  import opened InitialState

  // ------------------------------------------------------------ power set

  /**
   * `powerSet`: the empty set on its own for no elements; otherwise every
   * subset of the rest, with and without the head.
   */
  function PowerSet<T>(list: seq<T>): set<set<T>>
    decreases |list|
  {
    if list == [] then {{}}
    else
      var rest := PowerSet(list[1..]);
      (set s | s in rest :: s + {list[0]}) + rest
  }

  /** The power set holds exactly the subsets of the listed elements. */
  lemma {:induction false} PowerSetExact<T>(list: seq<T>)
    ensures forall x :: x in PowerSet(list) <==> forall e :: e in x ==> e in list
    decreases |list|
  {
    if list == [] {
      forall x | forall e :: e in x ==> e in list ensures x in PowerSet(list) {
        assert x == {};
      }
    } else {
      var head, tail := list[0], list[1..];
      var rest := PowerSet(tail);
      PowerSetExact(tail);
      forall x ensures x in PowerSet(list) <==> forall e :: e in x ==> e in list {
        if forall e :: e in x ==> e in list {
          var y := x - {head};
          forall e | e in y ensures e in tail {
            var k :| 0 <= k < |list| && list[k] == e;
            assert tail[k - 1] == e;
          }
          assert y in rest;
          if head in x {
            assert x == y + {head};
          } else {
            assert x == y;
          }
        }
        if x in PowerSet(list) {
          if x !in rest {
            var s :| s in rest && x == s + {head};
            forall e | e in x ensures e in list {
              if e != head {
                assert e in tail;
              }
            }
          } else {
            forall e | e in x ensures e in list {
              assert e in tail;
            }
          }
        }
      }
    }
  }

  // ------------------------------------------------------------- counting

  /** Non-empty, within the first `columns` columns and held by exactly one record. */
  ghost predicate UniqueSet(data: Table, columns: int, keys: set<ItemKey>)
  {
    keys != {} && InColumns(keys, columns) && Unique(data, AllRows(data), keys)
  }

  /** A unique set none of whose proper subsets is unique. */
  ghost predicate MinimalUnique(data: Table, columns: int, keys: set<ItemKey>)
  {
    UniqueSet(data, columns, keys) && forall sub :: sub < keys ==> !UniqueSet(data, columns, sub)
  }

  /**
   * `counts` after the first `n` records: every non-empty set of items of
   * the first `columns` columns held by one of them, with the number of
   * those records that hold it.
   */
  ghost predicate Counted(data: Table, columns: int, n: int, counts: map<set<ItemKey>, int>)
  {
    && (forall x :: x in counts <==> x != {} && InColumns(x, columns) && Support(data, Ids(n), x) != {})
    && (forall x :: x in counts ==> counts[x] == |Support(data, Ids(n), x)|)
  }

  /**
   * `counts` part way through record `n`: the sets of its items not
   * `pending` any more have been counted for it too.
   */
  ghost predicate CountedPart(data: Table, columns: int, n: int, pending: set<set<ItemKey>>,
                              counts: map<set<ItemKey>, int>)
    requires 0 <= n < |data|
  {
    && (forall x :: x in counts <==>
          x != {} && InColumns(x, columns) && (Support(data, Ids(n), x) != {} || Done(data[n], x, pending)))
    && (forall x :: x in counts ==>
          counts[x] == |Support(data, Ids(n), x)| + if Done(data[n], x, pending) then 1 else 0)
  }

  /** The record holds `x`, and `x` has been counted for it. */
  predicate Done(row: Row, x: set<ItemKey>, pending: set<set<ItemKey>>)
  {
    HoldsAll(row, x) && x !in pending
  }

  /** Record `n + 1` adds itself to the support of the sets it holds, and to no other. */
  lemma SupportNext(data: Table, n: int, x: set<ItemKey>)
    requires 0 <= n < |data|
    ensures Support(data, Ids(n + 1), x) == Support(data, Ids(n), x) + if HoldsAll(data[n], x) then {n + 1} else {}
    ensures |Support(data, Ids(n + 1), x)| == |Support(data, Ids(n), x)| + if HoldsAll(data[n], x) then 1 else 0
  {
    var before, after := Support(data, Ids(n), x), Support(data, Ids(n + 1), x);
    assert n + 1 !in before;
    if HoldsAll(data[n], x) {
      assert after == before + {n + 1};
    } else {
      assert after == before;
    }
  }

  /** The sets of items `powerSet` yields for a record are those it holds within the columns. */
  lemma RowPowerSet(row: Row, columns: int, items: seq<ItemKey>)
    requires columns <= |row|
    requires forall k :: k in items <==> 0 <= k.column < columns && row[k.column] == k.value
    ensures forall x :: x in PowerSet(items) <==> InColumns(x, columns) && HoldsAll(row, x)
  {
    PowerSetExact(items);
    forall x | InColumns(x, columns) && HoldsAll(row, x) ensures forall e :: e in x ==> e in items {
      forall e | e in x ensures e in items {
        assert Holds(row, e);
      }
    }
  }

  /** Before the sets of record `n` are counted, none of them is done. */
  lemma CountRowStart(data: Table, columns: int, n: int, pending: set<set<ItemKey>>, counts: map<set<ItemKey>, int>)
    requires 0 <= n < |data|
    requires forall x :: x in pending <==> InColumns(x, columns) && HoldsAll(data[n], x)
    requires Counted(data, columns, n, counts)
    ensures CountedPart(data, columns, n, pending, counts)
  {
    forall x | InColumns(x, columns) ensures !Done(data[n], x, pending) {
    }
  }

  /** Counting one more set of the record's items. */
  lemma CountOne(data: Table, columns: int, n: int, pending: set<set<ItemKey>>, counts: map<set<ItemKey>, int>,
                 x: set<ItemKey>)
    requires 0 <= n < |data|
    requires x in pending && InColumns(x, columns) && HoldsAll(data[n], x)
    requires CountedPart(data, columns, n, pending, counts)
    ensures x != {} ==>
      CountedPart(data, columns, n, pending - {x}, counts[x := if x in counts then counts[x] + 1 else 1])
    ensures x == {} ==> CountedPart(data, columns, n, pending - {x}, counts)
  {
    var pending' := pending - {x};
    assert Done(data[n], x, pending');
    forall y | y != x ensures Done(data[n], y, pending') == Done(data[n], y, pending) {
    }
  }

  /** The last set of the record counted, `counts` is up to date for one record more. */
  lemma CountRowEnd(data: Table, columns: int, n: int, counts: map<set<ItemKey>, int>)
    requires 0 <= n < |data|
    requires CountedPart(data, columns, n, {}, counts)
    ensures Counted(data, columns, n + 1, counts)
  {
    forall x ensures Support(data, Ids(n + 1), x) != {} <==> Support(data, Ids(n), x) != {} || HoldsAll(data[n], x)
      ensures |Support(data, Ids(n + 1), x)| == |Support(data, Ids(n), x)| + if Done(data[n], x, {}) then 1 else 0
    {
      SupportNext(data, n, x);
    }
  }

  // ------------------------------------------------------------ filtering

  /** Every unique set contains a minimal one. */
  lemma {:induction false} MinimalBelow(data: Table, columns: int, keys: set<ItemKey>) returns (m: set<ItemKey>)
    requires UniqueSet(data, columns, keys)
    ensures m <= keys && MinimalUnique(data, columns, m)
    decreases |keys|
  {
    if MinimalUnique(data, columns, keys) {
      m := keys;
    } else {
      var sub :| sub < keys && UniqueSet(data, columns, sub);
      SubsetCard(sub, keys);
      m := MinimalBelow(data, columns, sub);
    }
  }

  /** What the filters keep: `result` lies between the minimal and all unique sets. */
  ghost predicate Between(data: Table, columns: int, result: set<set<ItemKey>>)
  {
    && (forall x :: x in result ==> UniqueSet(data, columns, x))
    && (forall x :: MinimalUnique(data, columns, x) ==> x in result)
  }

  /** A strict superset of a unique set is not minimal, so removing it keeps `Between`. */
  lemma DropSuperset(data: Table, columns: int, result: set<set<ItemKey>>, pivot: set<ItemKey>,
                     current: set<ItemKey>)
    requires Between(data, columns, result) && UniqueSet(data, columns, pivot) && pivot < current
    ensures Between(data, columns, result - {current})
  {
  }

  /** Once no kept set strictly contains a kept set, only minimal ones are left. */
  lemma PassDone(data: Table, columns: int, list: set<set<ItemKey>>, result: set<set<ItemKey>>)
    requires Between(data, columns, list) && Between(data, columns, result)
    requires forall p, x :: p in list && x in result ==> !(p < x)
    ensures forall x :: x in result <==> MinimalUnique(data, columns, x)
  {
    forall x | x in result ensures MinimalUnique(data, columns, x) {
      forall sub | sub < x ensures !UniqueSet(data, columns, sub) {
        NothingUniqueBelow(data, columns, list, x, sub);
      }
    }
  }

  /** Below a set that contains no minimal unique set there is no unique set. */
  lemma NothingUniqueBelow(data: Table, columns: int, list: set<set<ItemKey>>, x: set<ItemKey>, sub: set<ItemKey>)
    requires forall m :: MinimalUnique(data, columns, m) ==> m in list
    requires forall p :: p in list ==> !(p < x)
    requires sub < x
    ensures !UniqueSet(data, columns, sub)
  {
    if UniqueSet(data, columns, sub) {
      var m := MinimalBelow(data, columns, sub);
      assert false;
    }
  }

  /** Visiting `current` keeps it exactly when it does not strictly contain `pivot`. */
  lemma Visit(start: set<set<ItemKey>>, kept: set<set<ItemKey>>, iter: set<set<ItemKey>>, pivot: set<ItemKey>,
              current: set<ItemKey>, result: set<set<ItemKey>>)
    requires current in iter
    requires forall x :: x in kept <==> x in start && (x in iter || !(pivot < x))
    requires result == if current != pivot && pivot <= current then kept - {current} else kept
    ensures forall x :: x in result <==> x in start && (x in iter - {current} || !(pivot < x))
  {
    forall x ensures x in result <==> x in start && (x in iter - {current} || !(pivot < x)) {
      if x == current {
        assert (current != pivot && pivot <= current) <==> pivot < current;
      }
    }
  }

  /** The minimal unique sets within the columns are the MSUs of the whole table there. */
  lemma MinimalUniqueIsMsu(data: Table, columns: int, keys: set<ItemKey>)
    ensures MinimalUnique(data, columns, keys) <==> Msu(data, AllRows(data), keys) && InColumns(keys, columns)
  {
    if Msu(data, AllRows(data), keys) && InColumns(keys, columns) {
      forall sub | sub < keys ensures !UniqueSet(data, columns, sub) {
        if sub != {} {
          assert !Unique(data, AllRows(data), sub);
        }
      }
    }
    if MinimalUnique(data, columns, keys) {
      forall sub | sub < keys && sub != {} ensures !Unique(data, AllRows(data), sub) {
        assert InColumns(sub, columns);
        assert !UniqueSet(data, columns, sub);
      }
    }
  }

  // --------------------------------------------------------------- search

  /** The items of a record in the first `columns` columns, column by column. */
  method RowItems(row: Row, columns: int) returns (items: seq<ItemKey>)
    requires 0 <= columns <= |row|
    ensures forall k :: k in items <==> 0 <= k.column < columns && row[k.column] == k.value
  {
    items := [];
    for column := 0 to columns
      invariant forall k :: k in items <==> 0 <= k.column < column && row[k.column] == k.value
    {
      items := items + [ItemKey(column, row[column])];
    }
  }

  /**
   * `getMSUStatistics`: the MSUs of the table within the columns of its first
   * record, found by brute force (the registration of each with a
   * `SUDA2Statistics` is not modelled; the set is returned).
   */
  method GetMsuStatistics(data: Table) returns (result: set<set<ItemKey>>)
    requires |data| > 0
    requires forall i :: 0 <= i < |data| ==> |data[0]| <= |data[i]|
    ensures forall keys :: keys in result <==> Msu(data, AllRows(data), keys) && InColumns(keys, |data[0]|)
  {
    var columns := |data[0]|;
    var counts: map<set<ItemKey>, int> := map[];
    for n := 0 to |data|
      invariant Counted(data, columns, n, counts)
    {
      var items := RowItems(data[n], columns);
      var pending := PowerSet(items);
      RowPowerSet(data[n], columns, items);
      CountRowStart(data, columns, n, pending, counts);
      while pending != {}
        invariant forall x :: x in pending ==> InColumns(x, columns) && HoldsAll(data[n], x)
        invariant CountedPart(data, columns, n, pending, counts)
        decreases pending
      {
        var set1 :| set1 in pending;
        CountOne(data, columns, n, pending, counts, set1);
        pending := pending - {set1};
        if set1 != {} {
          counts := counts[set1 := if set1 in counts then counts[set1] + 1 else 1];
        }
      }
      CountRowEnd(data, columns, n, counts);
    }
    assert Ids(|data|) == AllRows(data);

    result := FilterUnique(data, columns, counts);
    result := RemoveSupersets(data, columns, result);
    forall keys ensures keys in result <==> Msu(data, AllRows(data), keys) && InColumns(keys, columns) {
      MinimalUniqueIsMsu(data, columns, keys);
    }
  }

  /** The first filter: the counted sets that occur in only one record. */
  method FilterUnique(data: Table, columns: int, counts: map<set<ItemKey>, int>) returns (result: set<set<ItemKey>>)
    requires Counted(data, columns, |data|, counts) && Ids(|data|) == AllRows(data)
    ensures forall x :: x in result <==> UniqueSet(data, columns, x)
  {
    result := counts.Keys;
    var pending := result;
    while pending != {}
      invariant forall x :: x in result <==> x in counts && (x in pending || counts[x] <= 1)
      decreases pending
    {
      var current :| current in pending;
      pending := pending - {current};
      if counts[current] > 1 {
        result := result - {current};
      }
    }
  }

  /**
   * The fixed-point loop: each pass drops, for every set of the previous
   * pass, the kept sets that strictly contain it, until a pass drops nothing.
   */
  method RemoveSupersets(data: Table, columns: int, unique: set<set<ItemKey>>) returns (result: set<set<ItemKey>>)
    requires forall x :: x in unique <==> UniqueSet(data, columns, x)
    ensures forall x :: x in result <==> MinimalUnique(data, columns, x)
  {
    result := unique;
    var list := result;
    var size := |list|;
    var previous := 0;
    ghost var passed := false;
    while size != previous
      invariant Between(data, columns, result) && list == result && size == |result|
      invariant !passed ==> previous == 0
      invariant passed ==> forall x :: x in result <==> MinimalUnique(data, columns, x)
      decreases size + if size != previous then 1 else 0
    {
      ghost var before := result;
      result := Pass(data, columns, list, result);
      SubsetCard(result, before);
      PassDone(data, columns, list, result);
      previous := size;
      size := |result|;
      list := result;
      passed := true;
    }
    if !passed {
      assert result == {};
    }
  }

  /** One pass of the fixed-point loop over the pivots of `list`. */
  method Pass(data: Table, columns: int, list: set<set<ItemKey>>, start: set<set<ItemKey>>)
    returns (result: set<set<ItemKey>>)
    requires Between(data, columns, list) && Between(data, columns, start)
    ensures Between(data, columns, result) && result <= start
    ensures forall p, x :: p in list && x in result ==> !(p < x)
  {
    result := start;
    var pivots := list;
    while pivots != {}
      invariant Between(data, columns, result) && result <= start
      invariant forall p :: p in pivots ==> p in list
      invariant forall p, x :: p in list && p !in pivots && x in result ==> !(p < x)
      decreases pivots
    {
      var pivot :| pivot in pivots;
      pivots := pivots - {pivot};
      result := DropAbove(data, columns, pivot, result);
    }
  }

  /** The inner iterator loop: drops every kept set other than `pivot` that contains all of it. */
  method DropAbove(data: Table, columns: int, pivot: set<ItemKey>, start: set<set<ItemKey>>)
    returns (result: set<set<ItemKey>>)
    requires Between(data, columns, start) && UniqueSet(data, columns, pivot)
    ensures Between(data, columns, result)
    ensures forall x :: x in result <==> x in start && !(pivot < x)
  {
    result := start;
    var iter := start;
    while iter != {}
      invariant Between(data, columns, result)
      invariant forall x :: x in iter ==> x in start
      invariant forall x :: x in result <==> x in start && (x in iter || !(pivot < x))
      decreases iter
    {
      var current :| current in iter;
      ghost var kept := result;
      if current != pivot && pivot <= current {
        DropSuperset(data, columns, result, pivot, current);
        result := result - {current};
      }
      Visit(start, kept, iter, pivot, current, result);
      iter := iter - {current};
    }
  }
}
