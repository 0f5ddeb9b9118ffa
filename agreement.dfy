/**
 * What the tests check by running both searches on one table
 * (src/test/de/linearbits/test/Test2.java): with no record skipped and no
 * bound on the key length below the column count, SUDA2 reports exactly the
 * MSUs the exhaustive search finds, each once. This holds for the engine of
 * `Search`, which reads the row sets' own support and rows where `isMSU`
 * and `suda2` name the never-written fields of the base `SUDA2IntSet`; as
 * written, no MSU of three or more items would be reported
 * (`SearchSteps.MissedMsu`).
 */
module Agreement {
  import opened Rows
  import opened Uniques
  import opened Results
  import opened InitialState
  import opened Search
  import opened Exhaustive

  /** The items of the first `n` columns of a record. */
  function ItemsUpTo(row: Row, n: nat): (items: set<ItemKey>)
    requires n <= |row|
    ensures |items| <= n
    ensures forall k :: k in items <==> 0 <= k.column < n && row[k.column] == k.value
  {
    if n == 0 then {} else ItemsUpTo(row, n - 1) + {ItemKey(n - 1, row[n - 1])}
  }

  /** An MSU over the first `columns` columns has at most `columns` items. */
  lemma MsuSize(data: Table, u: set<int>, keys: set<ItemKey>, columns: nat)
    requires forall i :: 0 <= i < |data| ==> columns <= |data[i]|
    requires Msu(data, u, keys) && InColumns(keys, columns)
    ensures |keys| <= columns
  {
    var w :| w in Support(data, u, keys);
    var row := data[w - 1];
    assert keys <= ItemsUpTo(row, columns) by {
      forall k | k in keys ensures k in ItemsUpTo(row, columns) {
        assert Holds(row, k);
      }
    }
    SubsetCard(keys, ItemsUpTo(row, columns));
  }

  /**
   * With every record kept and room for keys of every length, the keys
   * `getKeys` promises are the keys the exhaustive search promises.
   */
  lemma EngineMatchesOracle(data: Table, ignore: seq<bool>, maxK: int)
    requires |data| > 0 && Readable(data, |data[0]|, ignore)
    requires forall i :: 0 <= i < |ignore| ==> !ignore[i]
    requires maxK >= |data[0]|
    ensures forall keys ::
      (Msu(data, Kept(ignore), keys) && InColumns(keys, |data[0]|) && |keys| <= Cap(maxK)) <==>
      (Msu(data, AllRows(data), keys) && InColumns(keys, |data[0]|))
  {
    assert Kept(ignore) == AllRows(data);
    forall keys | Msu(data, AllRows(data), keys) && InColumns(keys, |data[0]|)
      ensures |keys| <= Cap(maxK)
    {
      MsuSize(data, AllRows(data), keys, |data[0]|);
    }
  }

  /**
   * `new SUDA2(data).getKeyStatistics(0)` next to
   * `new ExhaustiveSearch(data).getMSUStatistics()`: on every table whose
   * records all have the first record's columns, the keys reported by the
   * first are the keys returned by the second, and `registerKey` is called
   * once per key.
   */
  method CompareWithOracle(data: Table) returns (reported: set<set<ItemKey>>, expected: set<set<ItemKey>>, calls: int)
    requires |data| > 0 && IntTable(data) && |data[0]| <= IntMax
    requires forall i :: 0 <= i < |data| ==> |data[0]| <= |data[i]|
    ensures reported == expected
    ensures calls == |expected|
  {
    var engine := new Suda2(data);
    var ignore := seq(|data|, _ => false);
    var stats, interrupted := engine.GetKeyStatistics(0, ignore);
    reported := RegKeySets(stats.registrations);
    calls := |stats.registrations|;
    expected := GetMsuStatistics(data);
    if engine.IsEmpty() {
      assert expected == {};
    } else {
      EngineMatchesOracle(data, ignore, engine.MaxK(0));
    }
  }
}
