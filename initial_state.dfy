/**
 * What `getInitialState` (src/main/de/linearbits/suda2/SUDA2.java) collects:
 * one item per (column, value) pair of the records it does not skip, with
 * the 1-based ids of the records that hold it. The item catalogue is kept
 * here as a map from key to row ids plus the order in which keys were first
 * met; `SUDA2IndexedItemSet` itself is modelled in the IndexedItemSets module.
 */
module InitialState {
  import opened Rows
  import opened Items
  import opened Sorting
  import opened SearchSteps
  import opened Uniques

  /**
   * A Java `int[][]` as the search reads it: `int` entries, and at least
   * `columns` entries in every record that `canBeIgnored` does not skip.
   */
  predicate Readable(data: Table, columns: int, ignore: seq<bool>)
  {
    && IntTable(data)
    && 0 <= columns <= IntMax
    && |ignore| == |data|
    && forall i :: 0 <= i < |data| && !ignore[i] ==> columns <= |data[i]|
  }

  /** The ids of the records that `canBeIgnored` does not skip. */
  function Kept(ignore: seq<bool>): (u: set<int>)
    ensures forall r :: r in u <==> 1 <= r <= |ignore| && !ignore[r - 1]
  {
    set r | 1 <= r <= |ignore| && KeptId(ignore, r)
  }

  predicate KeptId(ignore: seq<bool>, r: int)
  {
    1 <= r <= |ignore| && !ignore[r - 1]
  }

  /** At most one id per record is kept. */
  lemma {:induction false} KeptCard(ignore: seq<bool>)
    ensures |Kept(ignore)| <= |ignore|
    decreases |ignore|
  {
    if ignore != [] {
      var n := |ignore| - 1;
      KeptCard(ignore[..n]);
      assert Kept(ignore) <= Kept(ignore[..n]) + {n + 1};
      SubsetCard(Kept(ignore), Kept(ignore[..n]) + {n + 1});
    }
  }

  /** Every item lies in one of the first `columns` columns. */
  predicate InColumns(keys: set<ItemKey>, columns: int)
  {
    forall k :: k in keys ==> 0 <= k.column < columns
  }

  /** Positions of `getInitialState`'s two loops: record `n`, column `c`. */
  predicate At(data: Table, ignore: seq<bool>, columns: int, n: int, c: int)
  {
    && Readable(data, columns, ignore)
    && 0 <= n <= |data| && 0 <= c <= columns
    && (c > 0 ==> n < |data| && !ignore[n])
  }

  /**
   * Record id `r` has been added to the item `k` once the records before
   * position `n` and the columns before `c` of record `n` have been visited.
   */
  ghost predicate Visited(data: Table, ignore: seq<bool>, columns: int, n: int, c: int, k: ItemKey, r: int)
  {
    && 1 <= r <= n + 1 && r <= |data| && KeptId(ignore, r)
    && 0 <= k.column < (if r <= n then columns else c) && Holds(data[r - 1], k)
  }

  /** After the last record an item holds exactly its supporting kept records. */
  lemma VisitedAll(data: Table, ignore: seq<bool>, columns: int, k: ItemKey, r: int)
    requires Readable(data, columns, ignore)
    ensures Visited(data, ignore, columns, |data|, 0, k, r) <==>
      0 <= k.column < columns && r in Support(data, Kept(ignore), {k})
  {
    if 1 <= r <= |data| {
      assert HoldsAll(data[r - 1], {k}) <==> Holds(data[r - 1], k) by {
        assert k in {k};
      }
    }
  }

  /** No key is listed twice. */
  predicate NoRepeats(order: seq<ItemKey>)
  {
    forall p, q :: 0 <= p < q < |order| ==> order[p] != order[q]
  }

  /**
   * The catalogue after visiting the records before `n` and the columns
   * before `c` of record `n`: `rowsOf` maps each key met to the ids added to
   * its item, and `order` lists those keys once each, in the order met.
   */
  ghost predicate Collected(data: Table, ignore: seq<bool>, columns: int, n: int, c: int,
                            rowsOf: map<ItemKey, set<int>>, order: seq<ItemKey>)
  {
    && (forall k :: k in order <==> k in rowsOf)
    && NoRepeats(order)
    && (forall k :: k in rowsOf ==> rowsOf[k] != {})
    && (forall k, r :: k in rowsOf ==> (r in rowsOf[k] <==> Visited(data, ignore, columns, n, c, k, r)))
    && (forall k, r :: Visited(data, ignore, columns, n, c, k, r) ==> k in rowsOf)
  }

  lemma CollectStart(data: Table, ignore: seq<bool>, columns: int)
    ensures Collected(data, ignore, columns, 0, 0, map[], [])
  {
  }

  /** `getOrCreateItem(column, value).addRow(n + 1)` keeps the catalogue up to date. */
  lemma CollectColumn(data: Table, ignore: seq<bool>, columns: int, n: int, c: int,
                      rowsOf: map<ItemKey, set<int>>, order: seq<ItemKey>,
                      rowsOf': map<ItemKey, set<int>>, order': seq<ItemKey>)
    requires Readable(data, columns, ignore)
    requires 0 <= n < |data| && !ignore[n] && 0 <= c < columns
    requires Collected(data, ignore, columns, n, c, rowsOf, order)
    requires ItemKey(c, data[n][c]) in rowsOf ==>
      rowsOf' == rowsOf[ItemKey(c, data[n][c]) := rowsOf[ItemKey(c, data[n][c])] + {n + 1}] && order' == order
    requires ItemKey(c, data[n][c]) !in rowsOf ==>
      rowsOf' == rowsOf[ItemKey(c, data[n][c]) := {n + 1}] && order' == order + [ItemKey(c, data[n][c])]
    ensures Collected(data, ignore, columns, n, c + 1, rowsOf', order')
  {
    var key := ItemKey(c, data[n][c]);
    var c1 := c + 1;
    forall k, r | Visited(data, ignore, columns, n, c1, k, r) ensures k in rowsOf' {
      if !(k == key && r == n + 1) {
        assert Visited(data, ignore, columns, n, c, k, r);
      }
    }
    forall k, r | k in rowsOf' ensures r in rowsOf'[k] <==> Visited(data, ignore, columns, n, c + 1, k, r) {
      assert Visited(data, ignore, columns, n, c + 1, k, r) <==>
        Visited(data, ignore, columns, n, c, k, r) || (k == key && r == n + 1);
      if k == key && key !in rowsOf {
        assert !Visited(data, ignore, columns, n, c, k, r);
      }
    }
    if key !in rowsOf {
      forall p, q | 0 <= p < q < |order'| ensures order'[p] != order'[q] {
        if q == |order| {
          assert order'[p] in order;
        }
      }
    }
  }

  /** Moving on to the next record (`index++`) keeps the catalogue up to date. */
  lemma CollectRow(data: Table, ignore: seq<bool>, columns: int, n: int,
                   rowsOf: map<ItemKey, set<int>>, order: seq<ItemKey>)
    requires Readable(data, columns, ignore)
    requires 0 <= n < |data|
    requires Collected(data, ignore, columns, n, if ignore[n] then 0 else columns, rowsOf, order)
    ensures Collected(data, ignore, columns, n + 1, 0, rowsOf, order)
  {
    var n1, c0 := n + 1, if ignore[n] then 0 else columns;
    forall k, r | Visited(data, ignore, columns, n1, 0, k, r) ensures k in rowsOf {
      assert Visited(data, ignore, columns, n, c0, k, r);
    }
    forall k, r | k in rowsOf ensures r in rowsOf[k] <==> Visited(data, ignore, columns, n1, 0, k, r) {
      assert Visited(data, ignore, columns, n1, 0, k, r) <==> Visited(data, ignore, columns, n, c0, k, r);
    }
  }

  /** `getItemList` before its sort: the collected items in the order their keys were first met. */
  function ItemList(order: seq<ItemKey>, rowsOf: map<ItemKey, set<int>>): (items: seq<ItemValue>)
    requires forall k :: k in order ==> k in rowsOf && IsInt32(k.column) && IsInt32(k.value)
    ensures |items| == |order|
    ensures forall j :: 0 <= j < |order| ==> items[j].Key() == order[j] && items[j].rows == rowsOf[order[j]]
    ensures forall it :: it in items ==> it.Shaped()
  {
    seq(|order|, j requires 0 <= j < |order| =>
      ItemValue(order[j].column, order[j].value, GetId(order[j].column, order[j].value), rowsOf[order[j]]))
  }

  /** Items listed under keys that do not repeat have distinct keys. */
  lemma {:induction false} ItemListDistinct(order: seq<ItemKey>, rowsOf: map<ItemKey, set<int>>)
    requires forall k :: k in order ==> k in rowsOf && IsInt32(k.column) && IsInt32(k.value)
    requires NoRepeats(order)
    ensures DistinctKeys(ItemList(order, rowsOf))
    decreases |order|
  {
    var items := ItemList(order, rowsOf);
    if order != [] {
      var m := |order| - 1;
      ItemListDistinct(order[..m], rowsOf);
      var front := ItemList(order[..m], rowsOf);
      assert items == front + [items[m]];
      KeysOfConcat(front, [items[m]]);
      KeysOfSingle(items[m]);
    }
  }

  lemma Member(s: set<int>) returns (r: int)
    requires s != {}
    ensures r in s
  {
    r := ElementOutside(s, {});
  }

  /** The keys met are items of records, so they fit Java `int`s. */
  lemma VisitedKeys(data: Table, ignore: seq<bool>, columns: int, k: ItemKey, r: int)
    requires Readable(data, columns, ignore)
    requires Visited(data, ignore, columns, |data|, 0, k, r)
    ensures IsInt32(k.column) && IsInt32(k.value)
  {
    assert data[r - 1][k.column] == k.value;
  }

  /** The keys of the collected items are exactly the keys of the map. */
  lemma ItemListKeys(order: seq<ItemKey>, rowsOf: map<ItemKey, set<int>>)
    requires forall k :: k in order ==> k in rowsOf && IsInt32(k.column) && IsInt32(k.value)
    requires forall k :: k in rowsOf ==> k in order
    ensures forall k :: k in KeysOf(ItemList(order, rowsOf)) <==> k in rowsOf
  {
    var items := ItemList(order, rowsOf);
    forall k | k in rowsOf ensures k in KeysOf(items) {
      var j :| 0 <= j < |order| && order[j] == k;
      assert items[j] in items;
    }
  }

  /**
   * The collected items form a list of the kept records: each carries its
   * support, no key repeats, and every item of the first `columns` columns
   * held by a kept record is present.
   */
  lemma ItemListOk(data: Table, ignore: seq<bool>, columns: int, order: seq<ItemKey>, rowsOf: map<ItemKey, set<int>>)
    requires Readable(data, columns, ignore)
    requires Collected(data, ignore, columns, |data|, 0, rowsOf, order)
    ensures forall k :: k in order ==> IsInt32(k.column) && IsInt32(k.value)
    ensures ListOk(data, Kept(ignore), ItemList(order, rowsOf))
    ensures forall k :: k in KeysOf(ItemList(order, rowsOf)) <==>
      0 <= k.column < columns && Support(data, Kept(ignore), {k}) != {}
  {
    forall k | k in order ensures IsInt32(k.column) && IsInt32(k.value) {
      var r := Member(rowsOf[k]);
      VisitedKeys(data, ignore, columns, k, r);
    }
    var items := ItemList(order, rowsOf);
    ItemListKeys(order, rowsOf);
    ItemListDistinct(order, rowsOf);
    forall k ensures k in rowsOf <==> 0 <= k.column < columns && Support(data, Kept(ignore), {k}) != {} {
      if k in rowsOf {
        var r := Member(rowsOf[k]);
        VisitedAll(data, ignore, columns, k, r);
      }
      if 0 <= k.column < columns && Support(data, Kept(ignore), {k}) != {} {
        var r :| r in Support(data, Kept(ignore), {k});
        VisitedAll(data, ignore, columns, k, r);
      }
    }
    forall it | it in items ensures it.rows == Support(data, Kept(ignore), {it.Key()}) {
      forall r ensures r in it.rows <==> r in Support(data, Kept(ignore), {it.Key()}) {
        VisitedAll(data, ignore, columns, it.Key(), r);
      }
    }
  }
}
