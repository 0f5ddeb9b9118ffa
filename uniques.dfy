/**
 * What SUDA2 searches for. A set of items is a *sample unique* of a universe
 * of records when exactly one record holds all of them, and a *minimal sample
 * unique* (MSU) when, in addition, no non-empty proper subset is a sample
 * unique. These are the definitions the exhaustive test oracle computes
 * (src/test/de/linearbits/suda2/ExhaustiveSearch.java) and the facts the
 * search's pruning and its special-row test rely on.
 */
module Uniques {
  import opened Rows

  predicate Unique(data: Table, u: set<int>, keys: set<ItemKey>)
  {
    |Support(data, u, keys)| == 1
  }

  ghost predicate Msu(data: Table, u: set<int>, keys: set<ItemKey>)
  {
    && keys != {}
    && Unique(data, u, keys)
    && forall sub :: sub < keys && sub != {} ==> !Unique(data, u, sub)
  }

  /**
   * A record of the universe that holds every item of `keys` but not `ref`:
   * the witness that `keys` is not unique outside the rows of `ref`.
   */
  predicate HasSpecialRow(data: Table, u: set<int>, keys: set<ItemKey>, ref: ItemKey)
  {
    exists r :: r in Support(data, u, keys) && !Holds(data[r - 1], ref)
  }

  // ---------------------------------------------------------------- sets

  lemma SubsetCard<T>(a: set<T>, b: set<T>)
    requires a <= b
    ensures |a| <= |b|
    ensures a < b ==> |a| < |b|
  {
    assert b == a + (b - a);
    if a < b {
      var x :| x in b && x !in a;
      assert x in b - a;
    }
  }

  lemma ElementOutside<T>(a: set<T>, b: set<T>) returns (x: T)
    requires |b| < |a|
    ensures x in a && x !in b
  {
    if a <= b {
      SubsetCard(a, b);
      assert false;
    }
    x :| x in a && x !in b;
  }

  // ----------------------------------------------------- support algebra

  lemma SupportAntitone(data: Table, u: set<int>, a: set<ItemKey>, b: set<ItemKey>)
    requires a <= b
    ensures Support(data, u, b) <= Support(data, u, a)
  {
  }

  /** Restricting to the rows of one item is the same as requiring it. */
  lemma SupportWith(data: Table, u: set<int>, keys: set<ItemKey>, k: ItemKey)
    ensures Support(data, u, keys + {k}) == Support(data, Support(data, u, {k}), keys)
  {
    var lhs, rhs := Support(data, u, keys + {k}), Support(data, Support(data, u, {k}), keys);
    forall r | r in lhs ensures r in rhs {
      assert HoldsAll(data[r - 1], {k});
    }
    forall r | r in rhs ensures r in lhs {
      assert Holds(data[r - 1], k);
    }
  }

  /** Every record of a universe of row ids holds the empty set of items. */
  lemma SupportOfNothing(data: Table, u: set<int>)
    requires RowIdsOf(data, u)
    ensures Support(data, u, {}) == u
  {
  }

  // ------------------------------------------------------------- minimality

  /** A unique set is minimal iff removing any one item makes it non-unique. */
  lemma {:induction false} MsuBySingleRemoval(data: Table, u: set<int>, keys: set<ItemKey>)
    requires keys != {} && Unique(data, u, keys)
    ensures Msu(data, u, keys) <==>
      forall z :: z in keys && keys - {z} != {} ==> |Support(data, u, keys - {z})| >= 2
  {
    if Msu(data, u, keys) {
      forall z | z in keys && keys - {z} != {} ensures |Support(data, u, keys - {z})| >= 2 {
        assert keys - {z} < keys;
        SupportAntitone(data, u, keys - {z}, keys);
        SubsetCard(Support(data, u, keys), Support(data, u, keys - {z}));
      }
    }
    if forall z :: z in keys && keys - {z} != {} ==> |Support(data, u, keys - {z})| >= 2 {
      forall sub | sub < keys && sub != {} ensures !Unique(data, u, sub) {
        SubsetCard(sub, keys);
        var z := ElementOutside(keys, sub);
        assert sub <= keys - {z};
        SupportAntitone(data, u, sub, keys - {z});
        SubsetCard(Support(data, u, keys - {z}), Support(data, u, sub));
      }
    }
  }

  /** A single item is an MSU exactly when one record holds it. */
  lemma MsuSingleton(data: Table, u: set<int>, k: ItemKey)
    ensures Msu(data, u, {k}) <==> |Support(data, u, {k})| == 1
  {
  }

  /**
   * Removing one item `y` from an MSU of two or more items leaves a set that
   * some record holds without holding `y`.
   */
  lemma {:induction false} MissingOne(data: Table, u: set<int>, keys: set<ItemKey>, y: ItemKey)
    returns (r: int)
    requires Msu(data, u, keys) && y in keys && |keys| >= 2
    ensures r in Support(data, u, keys - {y}) && !Holds(data[r - 1], y)
  {
    var sub := keys - {y};
    assert |sub| == |keys| - 1;
    assert sub < keys && sub != {};
    SupportAntitone(data, u, sub, keys);
    SubsetCard(Support(data, u, keys), Support(data, u, sub));
    r := ElementOutside(Support(data, u, sub), Support(data, u, keys));
    assert keys == sub + {y};
  }

  /** One more witness row: it holds every item but `y`, the earlier ones miss some other item. */
  lemma WitnessAdd(data: Table, u: set<int>, x: ItemKey, ys: set<ItemKey>, y: ItemKey, rest: set<int>, r: int)
    requires y in ys
    requires |rest| == |ys - {y}| && rest <= Support(data, u, {x})
    requires forall q :: q in rest ==> !HoldsAll(data[q - 1], ys - {y})
    requires r in Support(data, u, {x}) && r in Support(data, u, ys - {y}) && !Holds(data[r - 1], y)
    ensures |rest + {r}| == |ys| && rest + {r} <= Support(data, u, {x})
    ensures forall q :: q in rest + {r} ==> !HoldsAll(data[q - 1], ys)
  {
    assert r !in rest;
    assert |ys - {y}| == |ys| - 1;
    forall q | q in rest
      ensures !HoldsAll(data[q - 1], ys)
    {
      assert !HoldsAll(data[q - 1], ys - {y});
    }
  }

  /**
   * Rows that hold all items of an MSU but one, each missing a different item
   * of `ys`: they exist because removing that item leaves a non-unique set.
   */
  lemma {:induction false} WitnessRows(data: Table, u: set<int>, keys: set<ItemKey>, x: ItemKey, ys: set<ItemKey>)
    returns (rows: set<int>)
    requires Msu(data, u, keys) && x in keys && ys <= keys - {x}
    ensures |rows| == |ys|
    ensures rows <= Support(data, u, {x})
    ensures forall r :: r in rows ==> !HoldsAll(data[r - 1], ys)
    decreases |ys|
  {
    if ys == {} {
      rows := {};
    } else {
      var y :| y in ys;
      var rest := WitnessRows(data, u, keys, x, ys - {y});
      assert |keys| >= 2 by {
        assert {x, y} <= keys;
        SubsetCard({x, y}, keys);
      }
      var r := MissingOne(data, u, keys, y);
      SupportAntitone(data, u, {x}, keys - {y});
      SupportAntitone(data, u, ys - {y}, keys - {y});
      rows := rest + {r};
      WitnessAdd(data, u, x, ys, y, rest, r);
    }
  }

  /**
   * Every item of an MSU of size k is held by at least k records: the unique
   * record, and for each other item a record that misses only that item.
   * This is the bound behind the search's third pruning limit.
   */
  lemma {:induction false} MsuItemSupport(data: Table, u: set<int>, keys: set<ItemKey>, x: ItemKey)
    requires Msu(data, u, keys) && x in keys
    ensures |Support(data, u, {x})| >= |keys|
  {
    var rows := WitnessRows(data, u, keys, x, keys - {x});
    var w :| w in Support(data, u, keys);
    SupportAntitone(data, u, {x}, keys);
    assert HoldsAll(data[w - 1], keys - {x});
    SubsetCard(rows + {w}, Support(data, u, {x}));
  }

  /** No item of an MSU of two or more items is held by every record. */
  lemma {:induction false} MsuItemNotEverywhere(data: Table, u: set<int>, keys: set<ItemKey>, x: ItemKey)
    requires Msu(data, u, keys) && x in keys && |keys| >= 2
    ensures |Support(data, u, {x})| < |u|
  {
    var r := MissingOne(data, u, keys, x);
    assert r in u && r !in Support(data, u, {x});
    SubsetCard(Support(data, u, {x}), u);
  }

  /**
   * The step that the search's recursion takes back up: an MSU of the rows of
   * `ref`, extended by `ref`, is an MSU of the whole universe, provided some
   * record outside the rows of `ref` holds it and `ref` and its items are
   * each held by more than one record.
   */
  lemma {:induction false} LiftMsu(data: Table, u: set<int>, keys: set<ItemKey>, ref: ItemKey)
    requires Msu(data, Support(data, u, {ref}), keys)
    requires ref !in keys
    requires |Support(data, u, {ref})| >= 2
    requires HasSpecialRow(data, u, keys, ref)
    ensures Msu(data, u, keys + {ref})
  {
    var full := keys + {ref};
    var inner := Support(data, u, {ref});
    SupportWith(data, u, keys, ref);
    MsuBySingleRemoval(data, inner, keys);
    forall z | z in full && full - {z} != {} ensures |Support(data, u, full - {z})| >= 2 {
      if z == ref {
        assert full - {z} == keys;
        var w :| w in Support(data, inner, keys);
        var r :| r in Support(data, u, keys) && !Holds(data[r - 1], ref);
        assert w != r;
        assert w in Support(data, u, keys);
        SubsetCard({w, r}, Support(data, u, keys));
      } else {
        var rest := keys - {z};
        assert full - {z} == rest + {ref};
        SupportWith(data, u, rest, ref);
        if rest == {} {
          assert Support(data, u, full - {z}) == inner by {
            assert full - {z} == {ref};
          }
        }
      }
    }
    MsuBySingleRemoval(data, u, full);
  }

  /**
   * A one-item MSU of the rows of `ref` whose item is held by two or more
   * records of the universe always has a special row.
   */
  lemma {:induction false} SingletonSpecialRow(data: Table, u: set<int>, k: ItemKey, ref: ItemKey)
    requires Msu(data, Support(data, u, {ref}), {k})
    requires |Support(data, u, {k})| >= 2
    ensures HasSpecialRow(data, u, {k}, ref)
  {
    var inner := Support(data, u, {ref});
    SupportWith(data, u, {k}, ref);
    assert Support(data, inner, {k}) <= Support(data, u, {k});
    var r := ElementOutside(Support(data, u, {k}), Support(data, inner, {k}));
    assert !Holds(data[r - 1], ref);
  }

  /**
   * The step the search takes down: removing any item `ref` from an MSU of two
   * or more items leaves an MSU of the rows of `ref`, which has a special
   * row and is smaller than the support of `ref`.
   */
  lemma {:induction false} DropMsu(data: Table, u: set<int>, keys: set<ItemKey>, ref: ItemKey)
    requires Msu(data, u, keys) && ref in keys && |keys| >= 2
    ensures Msu(data, Support(data, u, {ref}), keys - {ref})
    ensures HasSpecialRow(data, u, keys - {ref}, ref)
    ensures |keys - {ref}| < |Support(data, u, {ref})|
  {
    var rest := keys - {ref};
    var inner := Support(data, u, {ref});
    assert keys == rest + {ref};
    SupportWith(data, u, rest, ref);
    assert |rest| == |keys| - 1;
    forall sub | sub < rest && sub != {} ensures !Unique(data, inner, sub) {
      SupportWith(data, u, sub, ref);
      assert sub + {ref} < keys;
    }
    var r := MissingOne(data, u, keys, ref);
    MsuItemSupport(data, u, keys, ref);
  }

  /**
   * The special-row test is exact: an MSU of the rows of `ref` extends to an
   * MSU of the universe iff some record outside those rows holds it.
   */
  lemma {:induction false} LiftIff(data: Table, u: set<int>, keys: set<ItemKey>, ref: ItemKey)
    requires Msu(data, Support(data, u, {ref}), keys)
    requires ref !in keys
    requires |Support(data, u, {ref})| >= 2
    ensures HasSpecialRow(data, u, keys, ref) <==> Msu(data, u, keys + {ref})
  {
    if HasSpecialRow(data, u, keys, ref) {
      LiftMsu(data, u, keys, ref);
    }
    if Msu(data, u, keys + {ref}) {
      assert keys + {ref} - {ref} == keys;
      SubsetCard(keys, keys + {ref});
      DropMsu(data, u, keys + {ref}, ref);
    }
  }
}
