/**
 * The list-building steps of the search (src/main/de/linearbits/suda2/SUDA2.java):
 * `getMSUs(list, numRecords)`, `getItems(list, reference, fromIndex)`,
 * `getMSUs(list, reference, fromIndex)` and `isMSU`. Each builds a fresh list
 * and is a function of its arguments. Items are taken by value (see
 * `Items.ItemValue`); a list is `SUDA2ItemList`, a candidate `SUDA2ItemSet`.
 */
module SearchSteps {
  import opened Rows
  import opened Uniques
  import opened Items
  import opened Sorting

  // ------------------------------------------------------------------ keys

  function KeysOf(c: seq<ItemValue>): (keys: set<ItemKey>)
    ensures forall it :: it in c ==> it.Key() in keys
  {
    set it | it in c :: it.Key()
  }

  /** No two items of the list have the same key. */
  ghost predicate DistinctKeys(c: seq<ItemValue>)
  {
    |KeysOf(c)| == |c|
  }

  lemma KeysOfConcat(a: seq<ItemValue>, b: seq<ItemValue>)
    ensures KeysOf(a + b) == KeysOf(a) + KeysOf(b)
  {
    forall k | k in KeysOf(a + b) ensures k in KeysOf(a) + KeysOf(b) {
      var it :| it in a + b && it.Key() == k;
    }
  }

  lemma {:induction false} KeysOfCard(c: seq<ItemValue>)
    ensures |KeysOf(c)| <= |c|
  {
    if c != [] {
      KeysOfCard(c[1..]);
      KeysOfConcat([c[0]], c[1..]);
      assert c == [c[0]] + c[1..];
      assert KeysOf([c[0]]) == {c[0].Key()};
    }
  }

  lemma KeysOfSingle(it: ItemValue)
    ensures KeysOf([it]) == {it.Key()}
  {
  }

  /** A concatenation has distinct keys iff both parts do and they share none. */
  lemma DistinctSplit(a: seq<ItemValue>, b: seq<ItemValue>)
    ensures DistinctKeys(a + b) <==> DistinctKeys(a) && DistinctKeys(b) && KeysOf(a) !! KeysOf(b)
  {
    KeysOfConcat(a, b);
    KeysOfCard(a);
    KeysOfCard(b);
  }

  /** The item at position i is the only one with its key. */
  lemma DistinctAt(c: seq<ItemValue>, i: int)
    requires DistinctKeys(c) && 0 <= i < |c|
    ensures c[i].Key() !in KeysOf(c[i + 1..])
    ensures c[i].Key() !in KeysOf(c[..i])
  {
    assert c == c[..i] + [c[i]] + c[i + 1..];
    DistinctSplit(c[..i] + [c[i]], c[i + 1..]);
    DistinctSplit(c[..i], [c[i]]);
    assert KeysOf([c[i]]) == {c[i].Key()};
  }

  /** Keys are determined by the multiset of items, so reordering keeps them. */
  lemma KeysOfPermutation(a: seq<ItemValue>, b: seq<ItemValue>)
    requires multiset(a) == multiset(b)
    ensures KeysOf(a) == KeysOf(b)
    ensures DistinctKeys(a) <==> DistinctKeys(b)
  {
    forall it ensures it in a <==> it in b {
      assert it in a <==> it in multiset(a);
      assert it in b <==> it in multiset(b);
    }
    assert |a| == |multiset(a)| == |multiset(b)| == |b|;
  }

  // ----------------------------------------------------------- item lists

  /** An item of a list over the universe `u` of row ids. */
  ghost predicate ItemOk(data: Table, u: set<int>, it: ItemValue)
  {
    && it.Shaped()
    && it.rows == Support(data, u, {it.Key()})
    && it.rows != {}
  }

  /**
   * A `SUDA2ItemList` of the universe `u`: each item carries the rows of `u`
   * that hold it, none is held by no row, and no key occurs twice.
   */
  ghost predicate ListOk(data: Table, u: set<int>, list: seq<ItemValue>)
  {
    && (forall it :: it in list ==> ItemOk(data, u, it))
    && DistinctKeys(list)
  }

  /** `SUDA2Item.getSupport`, the sort key of `getItemList`. */
  function SupportOf(it: ItemValue): int
  {
    |it.rows|
  }

  // ------------------------------------------------ getMSUs(list, numRecords)

  /** The items of `list` held by one row, each as a one-item set, in list order. */
  function OneRowItems(list: seq<ItemValue>): seq<seq<ItemValue>>
  {
    if list == [] then [] else (if |list[0].rows| == 1 then [[list[0]]] else []) + OneRowItems(list[1..])
  }

  /** The items of `list` held by more than one row and not by all `numRecords`, in list order. */
  function Retained(list: seq<ItemValue>, numRecords: int): seq<ItemValue>
  {
    if list == [] then []
    else (if |list[0].rows| != 1 && |list[0].rows| != numRecords then [list[0]] else []) + Retained(list[1..], numRecords)
  }

  lemma {:induction false} OneRowItemsSnoc(list: seq<ItemValue>, it: ItemValue)
    ensures OneRowItems(list + [it]) == OneRowItems(list) + (if |it.rows| == 1 then [[it]] else [])
  {
    if list != [] {
      assert (list + [it])[1..] == list[1..] + [it];
      OneRowItemsSnoc(list[1..], it);
    }
  }

  lemma {:induction false} RetainedSnoc(list: seq<ItemValue>, it: ItemValue, numRecords: int)
    ensures Retained(list + [it], numRecords) ==
      Retained(list, numRecords) + (if |it.rows| != 1 && |it.rows| != numRecords then [it] else [])
  {
    if list != [] {
      assert (list + [it])[1..] == list[1..] + [it];
      RetainedSnoc(list[1..], it, numRecords);
    }
  }

  /** The keys of each item set, in order. */
  function KeyList(cs: seq<seq<ItemValue>>): (ks: seq<set<ItemKey>>)
    ensures |ks| == |cs|
    ensures forall k :: 0 <= k < |cs| ==> ks[k] == KeysOf(cs[k])
  {
    seq(|cs|, k requires 0 <= k < |cs| => KeysOf(cs[k]))
  }

  /** No key set occurs twice. */
  ghost predicate DistinctSets(ks: seq<set<ItemKey>>)
  {
    forall i, j :: 0 <= i < j < |ks| ==> ks[i] != ks[j]
  }

  /** Each set of `OneRowItems` is one item of the list. */
  lemma {:induction false} OneRowItemsIn(list: seq<ItemValue>)
    ensures forall c :: c in OneRowItems(list) ==> |c| == 1 && c[0] in list
  {
    if list != [] {
      OneRowItemsIn(list[1..]);
    }
  }

  /** The one-item sets of a list without repeated keys have distinct keys. */
  lemma {:induction false} OneRowItemsDistinct(list: seq<ItemValue>)
    requires DistinctKeys(list)
    ensures DistinctSets(KeyList(OneRowItems(list)))
  {
    if list != [] {
      assert list == [list[0]] + list[1..];
      DistinctSplit([list[0]], list[1..]);
      KeysOfSingle(list[0]);
      OneRowItemsDistinct(list[1..]);
      var tail: seq<seq<ItemValue>> := OneRowItems(list[1..]);
      if |list[0].rows| == 1 {
        OneRowItemsIn(list[1..]);
        forall k: int | 0 <= k < |tail| ensures |tail[k]| == 1 && tail[k][0].Key() != list[0].Key() {
          assert tail[k] in tail;
        }
        ConsDistinct(list[0], tail);
      }
    }
  }

  /** A one-item set of a key found in none of the later one-item sets keeps the key sets distinct. */
  lemma ConsDistinct(x: ItemValue, tail: seq<seq<ItemValue>>)
    requires DistinctSets(KeyList(tail))
    requires forall k :: 0 <= k < |tail| ==> |tail[k]| == 1 && tail[k][0].Key() != x.Key()
    ensures DistinctSets(KeyList([[x]] + tail))
  {
    var ks := KeyList([[x]] + tail);
    KeysOfSingle(x);
    forall k | 0 <= k < |ks| ensures ks[k] == ([{x.Key()}] + KeyList(tail))[k] {
      if k > 0 {
        assert ([[x]] + tail)[k] == tail[k - 1];
      }
    }
    assert ks == [{x.Key()}] + KeyList(tail);
    forall j | 0 <= j < |tail| ensures KeyList(tail)[j] != {x.Key()} {
      assert tail[j] == [tail[j][0]];
      KeysOfSingle(tail[j][0]);
    }
  }

  /**
   * `getMSUs(list, numRecords)`: the items with support 1 become 1-MSUs,
   * the items held by `numRecords` records are dropped, and the rest is the
   * new list, in the same order.
   */
  function Partition(list: seq<ItemValue>, numRecords: int): (p: (seq<seq<ItemValue>>, seq<ItemValue>))
    ensures forall c :: c in p.0 <==> exists it :: it in list && |it.rows| == 1 && c == [it]
    ensures forall it :: it in p.1 <==> it in list && |it.rows| != 1 && |it.rows| != numRecords
    ensures DistinctKeys(list) ==> DistinctKeys(p.1)
    ensures p.0 == OneRowItems(list) && p.1 == Retained(list, numRecords)
    decreases |list|
  {
    if list == [] then ([], [])
    else
      var init := list[..|list| - 1];
      var last := list[|list| - 1];
      assert list == init + [last];
      var p := Partition(init, numRecords);
      DistinctSplit(init, [last]);
      OneRowItemsSnoc(init, last);
      RetainedSnoc(init, last, numRecords);
      if |last.rows| == 1 then (p.0 + [[last]], p.1)
      else if |last.rows| != numRecords then
        KeptDistinct(init, p.1, last);
        (p.0, p.1 + [last])
      else p
  }

  /** Appending an item to both a list and a sub-list of it keeps the sub-list free of repeated keys. */
  lemma KeptDistinct(list: seq<ItemValue>, kept: seq<ItemValue>, it: ItemValue)
    requires forall x :: x in kept ==> x in list
    requires DistinctKeys(list) ==> DistinctKeys(kept)
    ensures DistinctKeys(list + [it]) ==> DistinctKeys(kept + [it])
  {
    if DistinctKeys(list + [it]) {
      DistinctSplit(list, [it]);
      DistinctSplit(kept, [it]);
      assert KeysOf([it]) == {it.Key()};
      assert KeysOf(kept) <= KeysOf(list) by {
        forall k | k in KeysOf(kept) ensures k in KeysOf(list) {
          var x :| x in kept && x.Key() == k;
        }
      }
    }
  }

  // ---------------------------------------- getItems(list, reference, from)

  /** `SUDA2Item.getProjection` on a non-empty intersection. */
  function Project(it: ItemValue, rows: set<int>): (p: ItemValue)
    ensures p.Key() == it.Key() && p.id == it.id
  {
    it.(rows := it.rows * rows)
  }

  /**
   * The projections onto the rows of `ref` of the items from position `from`
   * on, those that are not empty, in list order.
   */
  function Projections(list: seq<ItemValue>, ref: ItemValue, from: nat): (items: seq<ItemValue>)
    requires from <= |list|
    ensures forall p :: p in items <==>
      exists j :: from <= j < |list| && list[j].rows * ref.rows != {} && p == Project(list[j], ref.rows)
    decreases |list| - from
  {
    if from == |list| then []
    else if list[from].rows * ref.rows != {} then [Project(list[from], ref.rows)] + Projections(list, ref, from + 1)
    else Projections(list, ref, from + 1)
  }

  /** Projection keeps keys, so it keeps them distinct. */
  lemma {:induction false} ProjectionsKeys(list: seq<ItemValue>, ref: ItemValue, from: nat)
    requires from <= |list|
    ensures KeysOf(Projections(list, ref, from)) <= KeysOf(list[from..])
    ensures DistinctKeys(list[from..]) ==> DistinctKeys(Projections(list, ref, from))
    decreases |list| - from
  {
    if from < |list| {
      var x := list[from];
      var rest := Projections(list, ref, from + 1);
      ProjectionsKeys(list, ref, from + 1);
      assert list[from..] == [x] + list[from + 1..];
      KeysOfConcat([x], list[from + 1..]);
      KeysOfSingle(x);
      DistinctSplit([x], list[from + 1..]);
      if x.rows * ref.rows != {} {
        var p := Project(x, ref.rows);
        assert Projections(list, ref, from) == [p] + rest;
        KeysOfSingle(p);
        DistinctSplit([p], rest);
        KeysOfConcat([p], rest);
      }
    }
  }

  /**
   * `getItems(list, reference, from).getItemList()`: the projected items in
   * ascending order of support (ties keep their order).
   */
  function SubList(list: seq<ItemValue>, ref: ItemValue, from: nat): seq<ItemValue>
    requires from <= |list|
  {
    SortBy(Projections(list, ref, from), SupportOf)
  }

  /** Intersecting with the reference item's rows is restricting the universe to them. */
  lemma ProjectRows(data: Table, u: set<int>, it: ItemValue, ref: ItemValue)
    requires ItemOk(data, u, it) && ItemOk(data, u, ref)
    ensures it.rows * ref.rows == Support(data, ref.rows, {it.Key()})
  {
    forall r ensures r in it.rows * ref.rows <==> r in Support(data, ref.rows, {it.Key()}) {
      if r in ref.rows {
        assert HoldsAll(data[r - 1], {ref.Key()});
      }
    }
  }

  /** A projected item is an item of the rows of the reference item. */
  lemma ProjectOk(data: Table, u: set<int>, it: ItemValue, ref: ItemValue)
    requires ItemOk(data, u, it) && ItemOk(data, u, ref) && it.rows * ref.rows != {}
    ensures ItemOk(data, ref.rows, Project(it, ref.rows))
  {
    ProjectRows(data, u, it, ref);
  }

  /**
   * The list the recursion descends into is a list of the universe "rows of
   * the reference item", holding every later item that shares a row with it.
   */
  lemma SubListOk(data: Table, u: set<int>, list: seq<ItemValue>, i: int)
    requires ListOk(data, u, list) && 0 <= i < |list|
    ensures ListOk(data, list[i].rows, SubList(list, list[i], i + 1))
    ensures KeysOf(SubList(list, list[i], i + 1)) <= KeysOf(list[i + 1..])
    ensures forall j :: i < j < |list| && list[j].rows * list[i].rows != {} ==>
      list[j].Key() in KeysOf(SubList(list, list[i], i + 1))
  {
    SubListItems(data, u, list, i);
    SubListKeys(data, u, list, i);
    SubListCovers(list, i);
  }

  lemma SubListKeys(data: Table, u: set<int>, list: seq<ItemValue>, i: int)
    requires ListOk(data, u, list) && 0 <= i < |list|
    ensures KeysOf(SubList(list, list[i], i + 1)) <= KeysOf(list[i + 1..])
    ensures DistinctKeys(SubList(list, list[i], i + 1))
  {
    SuffixDistinct(list, i + 1);
    ProjectionsKeys(list, list[i], i + 1);
    var proj := Projections(list, list[i], i + 1);
    var sub := SubList(list, list[i], i + 1);
    assert multiset(sub) == multiset(proj);
    KeysOfPermutation(proj, sub);
  }

  lemma SuffixDistinct(list: seq<ItemValue>, from: nat)
    requires DistinctKeys(list) && from <= |list|
    ensures DistinctKeys(list[from..])
  {
    assert list == list[..from] + list[from..];
    DistinctSplit(list[..from], list[from..]);
  }

  lemma SubListItems(data: Table, u: set<int>, list: seq<ItemValue>, i: int)
    requires ListOk(data, u, list) && 0 <= i < |list|
    ensures forall p :: p in SubList(list, list[i], i + 1) ==> ItemOk(data, list[i].rows, p)
  {
    SortByMembers(Projections(list, list[i], i + 1), SupportOf);
    ProjectionsOk(data, u, list, i);
  }

  lemma SubListCovers(list: seq<ItemValue>, i: int)
    requires 0 <= i < |list|
    ensures forall j :: i < j < |list| && list[j].rows * list[i].rows != {} ==>
      list[j].Key() in KeysOf(SubList(list, list[i], i + 1))
  {
    var ref := list[i];
    var proj := Projections(list, ref, i + 1);
    SortByMembers(proj, SupportOf);
    forall j | i < j < |list| && list[j].rows * ref.rows != {}
      ensures list[j].Key() in KeysOf(SubList(list, ref, i + 1))
    {
      assert Project(list[j], ref.rows) in proj;
    }
  }

  lemma ProjectionsOk(data: Table, u: set<int>, list: seq<ItemValue>, i: int)
    requires ListOk(data, u, list) && 0 <= i < |list|
    ensures forall p :: p in Projections(list, list[i], i + 1) ==> ItemOk(data, list[i].rows, p)
  {
    var ref := list[i];
    assert ref in list;
    forall p | p in Projections(list, ref, i + 1) ensures ItemOk(data, ref.rows, p) {
      var j :| i + 1 <= j < |list| && list[j].rows * ref.rows != {} && p == Project(list[j], ref.rows);
      assert list[j] in list;
      ProjectOk(data, u, list[j], ref);
    }
  }

  // ------------------------------------------ getMSUs(list, reference, from)

  /**
   * `getMSUs(list, reference, from)`: the items from position `from` on that
   * share exactly one row with `ref` (`SUDA2Item.get1MSU`), each as a
   * one-item candidate, in list order.
   */
  function DirectScan(list: seq<ItemValue>, ref: ItemValue, from: nat): (msus: seq<seq<ItemValue>>)
    requires from <= |list|
    ensures forall c :: c in msus <==>
      exists j :: from <= j < |list| && |list[j].rows * ref.rows| == 1 && c == [list[j]]
    decreases |list| - from
  {
    if from == |list| then []
    else (if |list[from].rows * ref.rows| == 1 then [[list[from]]] else []) + DirectScan(list, ref, from + 1)
  }

  // ------------------------------------------------------------------ isMSU

  function Lookup(list: seq<ItemValue>, id: int): (it: ItemValue)
    requires exists j :: 0 <= j < |list| && list[j].id == id
    ensures it in list && it.id == id
  {
    if list[0].id == id then list[0] else Lookup(list[1..], id)
  }

  /** Every item of the candidate is listed (`currentList.getItem` finds it). */
  predicate Listed(list: seq<ItemValue>, c: seq<ItemValue>)
  {
    forall i :: 0 <= i < |c| ==> exists j :: 0 <= j < |list| && list[j].id == c[i].id
  }

  function ListedSupport(list: seq<ItemValue>, c: seq<ItemValue>, i: int): int
    requires Listed(list, c) && 0 <= i < |c|
  {
    |Lookup(list, c[i].id).rows|
  }

  /**
   * The scan of `isMSU` for the candidate item of smallest listed support:
   * `best` is the first minimum among the positions before `i`.
   */
  function PivotFrom(list: seq<ItemValue>, c: seq<ItemValue>, i: nat, best: nat): (p: nat)
    requires Listed(list, c) && best < i <= |c|
    requires forall q :: 0 <= q < i ==> ListedSupport(list, c, best) <= ListedSupport(list, c, q)
    requires forall q :: 0 <= q < best ==> ListedSupport(list, c, best) < ListedSupport(list, c, q)
    ensures p < |c|
    ensures forall q :: 0 <= q < |c| ==> ListedSupport(list, c, p) <= ListedSupport(list, c, q)
    ensures forall q :: 0 <= q < p ==> ListedSupport(list, c, p) < ListedSupport(list, c, q)
    decreases |c| - i
  {
    if i == |c| then best
    else if ListedSupport(list, c, i) < ListedSupport(list, c, best) then PivotFrom(list, c, i + 1, i)
    else PivotFrom(list, c, i + 1, best)
  }

  /**
   * `isMSU`: a candidate of one item is accepted outright; otherwise it is
   * accepted iff some row of its pivot (the first item of smallest listed
   * support) holds all other candidate items but not the reference item.
   */
  function IsMsuCandidate(data: Table, list: seq<ItemValue>, c: seq<ItemValue>, ref: ItemValue): bool
    requires Listed(list, c)
  {
    if |c| <= 1 then true
    else
      var p := PivotFrom(list, c, 1, 0);
      SpecialAmong(data, Lookup(list, c[p].id).rows, c, p, ref.Key())
  }

  /** Some record among `rows` is special for the candidate, apart from position `p`. */
  predicate SpecialAmong(data: Table, rows: set<int>, c: seq<ItemValue>, p: int, ref: ItemKey)
  {
    exists r {:trigger SpecialRow(data, r, c, p, ref)} :: r in rows && SpecialRow(data, r, c, p, ref)
  }

  /** Record `r` (1-based) is special for the candidate, apart from position `p`. */
  predicate SpecialRow(data: Table, r: int, c: seq<ItemValue>, p: int, ref: ItemKey)
  {
    1 <= r <= |data| && SpecialBesides(data[r - 1], c, p, ref)
  }

  /** The record holds every candidate item except perhaps the one at `p`, and not `ref`. */
  predicate SpecialBesides(row: Row, c: seq<ItemValue>, p: int, ref: ItemKey)
  {
    (forall q :: 0 <= q < |c| && q != p ==> Holds(row, c[q].Key())) && !Holds(row, ref)
  }

  // ------------------------------------------------------ isMSU as written

  /** `DEFAULT_INITIAL_CAPACITY` of `SUDA2IntSet`. */
  const BaseCapacity := 8

  /**
   * The base class's `buckets`: its constructor allocates them and no row
   * set writes them, since each one adds to fields of its own class.
   */
  function BaseBuckets(): (b: seq<int>)
    ensures |b| == BaseCapacity
  {
    seq(BaseCapacity, _ => 0)
  }

  /** The `outer` loop of `isMSU` over the slots from `i` on: a row id whose record is special ends it. */
  function ScanSlots(data: Table, buckets: seq<int>, c: seq<ItemValue>, p: int, ref: ItemKey, i: nat): bool
    requires i <= |buckets|
    decreases |buckets| - i
  {
    if i == |buckets| then false
    else if buckets[i] != 0 && SpecialRow(data, buckets[i], c, p, ref) then true
    else ScanSlots(data, buckets, c, p, ref, i + 1)
  }

  /**
   * `isMSU` as the Java reads its fields: `_rows.size` and `rows.buckets`
   * name the base class's `size`, never set, and `buckets`. The strict `<`
   * then keeps the first item as the pivot, and the scan walks the base
   * class's slots.
   */
  function IsMsuAsWritten(data: Table, c: seq<ItemValue>, ref: ItemKey): bool
  {
    if |c| <= 1 then true else ScanSlots(data, BaseBuckets(), c, 0, ref, 0)
  }

  /** Slots that hold no row id yield no special row. */
  lemma {:induction false} ScanEmptySlots(data: Table, buckets: seq<int>, c: seq<ItemValue>, p: int, ref: ItemKey, i: nat)
    requires i <= |buckets|
    requires forall j :: i <= j < |buckets| ==> buckets[j] == 0
    ensures !ScanSlots(data, buckets, c, p, ref, i)
    decreases |buckets| - i
  {
    if i < |buckets| {
      ScanEmptySlots(data, buckets, c, p, ref, i + 1);
    }
  }

  /** As written, `isMSU` accepts a candidate iff it has at most one item. */
  lemma IsMsuAsWrittenRejects(data: Table, c: seq<ItemValue>, ref: ItemKey)
    ensures IsMsuAsWritten(data, c, ref) <==> |c| <= 1
  {
    ScanEmptySlots(data, BaseBuckets(), c, 0, ref, 0);
  }

  /** The records [1,1,1], [1,1,2], [1,2,1] and [2,1,1]. */
  function ExampleTable(): Table
  {
    [[1, 1, 1], [1, 1, 2], [1, 2, 1], [2, 1, 1]]
  }

  /** The items (1,1) and (2,1) of the example, over all its records. */
  function ExampleList(): seq<ItemValue>
  {
    [ItemValue(1, 1, GetId(1, 1), {1, 2, 4}), ItemValue(2, 1, GetId(2, 1), {1, 3, 4})]
  }

  /** The same items projected onto the rows of the reference item (0,1). */
  function ExampleCandidate(): seq<ItemValue>
  {
    [ItemValue(1, 1, GetId(1, 1), {1, 2}), ItemValue(2, 1, GetId(2, 1), {1, 3})]
  }

  lemma ExampleKeys()
    ensures KeysOf(ExampleCandidate()) == {ItemKey(1, 1), ItemKey(2, 1)} == KeysOf(ExampleList())
  {
    var c, list := ExampleCandidate(), ExampleList();
    assert c == [c[0]] + [c[1]] && list == [list[0]] + [list[1]];
    KeysOfConcat([c[0]], [c[1]]);
    KeysOfConcat([list[0]], [list[1]]);
    KeysOfSingle(c[0]);
    KeysOfSingle(c[1]);
    KeysOfSingle(list[0]);
    KeysOfSingle(list[1]);
  }

  lemma ExampleListOk()
    ensures ListOk(ExampleTable(), AllRows(ExampleTable()), ExampleList())
  {
    ExampleKeys();
    ExampleSupport1();
    ExampleSupport2();
  }

  lemma ExampleSupport1()
    ensures Support(ExampleTable(), AllRows(ExampleTable()), {ItemKey(1, 1)}) == {1, 2, 4}
  {
    var data, k1 := ExampleTable(), ItemKey(1, 1);
    assert HoldsAll(data[0], {k1}) && HoldsAll(data[1], {k1}) && !HoldsAll(data[2], {k1}) && HoldsAll(data[3], {k1});
  }

  lemma ExampleSupport2()
    ensures Support(ExampleTable(), AllRows(ExampleTable()), {ItemKey(2, 1)}) == {1, 3, 4}
  {
    var data, k2 := ExampleTable(), ItemKey(2, 1);
    assert HoldsAll(data[0], {k2}) && !HoldsAll(data[1], {k2}) && HoldsAll(data[2], {k2}) && HoldsAll(data[3], {k2});
  }

  /** Two records of the universe that hold the keys make them not unique. */
  lemma TwoHolders(data: Table, u: set<int>, keys: set<ItemKey>, a: int, b: int)
    requires a != b && a in u && b in u && 1 <= a <= |data| && 1 <= b <= |data|
    requires HoldsAll(data[a - 1], keys) && HoldsAll(data[b - 1], keys)
    ensures |Support(data, u, keys)| >= 2
  {
    SubsetCard({a, b}, Support(data, u, keys));
  }

  lemma ExampleMsu()
    ensures Msu(ExampleTable(), AllRows(ExampleTable()), {ItemKey(0, 1), ItemKey(1, 1), ItemKey(2, 1)})
  {
    var data, u := ExampleTable(), AllRows(ExampleTable());
    var k0, k1, k2 := ItemKey(0, 1), ItemKey(1, 1), ItemKey(2, 1);
    var keys := {k0, k1, k2};
    assert HoldsAll(data[0], keys);
    assert !Holds(data[1], k2) && !Holds(data[2], k1) && !Holds(data[3], k0);
    assert Support(data, u, keys) == {1};
    forall z | z in keys && keys - {z} != {} ensures |Support(data, u, keys - {z})| >= 2 {
      if z == k0 {
        assert keys - {z} == {k1, k2};
        TwoHolders(data, u, {k1, k2}, 1, 4);
      } else if z == k1 {
        assert keys - {z} == {k0, k2};
        TwoHolders(data, u, {k0, k2}, 1, 3);
      } else {
        assert keys - {z} == {k0, k1};
        TwoHolders(data, u, {k0, k1}, 1, 2);
      }
    }
    MsuBySingleRemoval(data, u, keys);
  }

  /** The candidate's items are well formed, and record 4 holds them but not (0,1). */
  lemma ExampleSpecial()
    ensures forall it :: it in ExampleCandidate() ==> it.Shaped()
    ensures HasSpecialRow(ExampleTable(), AllRows(ExampleTable()), KeysOf(ExampleCandidate()), ItemKey(0, 1))
  {
    var data, c := ExampleTable(), ExampleCandidate();
    assert c[0].Shaped() && c[1].Shaped();
    assert forall it :: it in c ==> it == c[0] || it == c[1];
    ExampleKeys();
    assert HoldsAll(data[3], KeysOf(c));
    assert 4 in Support(data, AllRows(data), KeysOf(c)) && !Holds(data[3], ItemKey(0, 1));
  }

  /**
   * On the example table, {(0,1), (1,1), (2,1)} is an MSU. Its candidate
   * [(1,1), (2,1)] for the reference item (0,1) passes the intended
   * `isMSU` (record 4 is special), but the as-written one rejects it.
   */
  lemma MissedMsu() returns (data: Table, list: seq<ItemValue>, c: seq<ItemValue>, ref: ItemValue)
    ensures Msu(data, AllRows(data), KeysOf(c) + {ref.Key()})
    ensures Listed(list, c) && IsMsuCandidate(data, list, c, ref)
    ensures !IsMsuAsWritten(data, c, ref.Key())
  {
    data, list, c := ExampleTable(), ExampleList(), ExampleCandidate();
    ref := ItemValue(0, 1, GetId(0, 1), {1, 2, 3});
    var u := AllRows(data);
    ExampleKeys();
    ExampleListOk();
    ExampleMsu();
    assert KeysOf(c) + {ref.Key()} == {ItemKey(0, 1), ItemKey(1, 1), ItemKey(2, 1)};
    ExampleSpecial();
    IsMsuCandidateSpec(data, u, list, c, ref);
    IsMsuAsWrittenRejects(data, c, ref.Key());
  }

  /** Items of a list over `u` with the candidate's keys are found by id. */
  lemma ListedByKeys(data: Table, u: set<int>, list: seq<ItemValue>, c: seq<ItemValue>)
    requires ListOk(data, u, list)
    requires forall it :: it in c ==> it.Shaped()
    requires KeysOf(c) <= KeysOf(list)
    ensures Listed(list, c)
    ensures forall i :: 0 <= i < |c| ==> Lookup(list, c[i].id).rows == Support(data, u, {c[i].Key()})
  {
    forall i | 0 <= i < |c|
      ensures exists j :: 0 <= j < |list| && list[j].id == c[i].id
    {
      assert c[i] in c;
      var it :| it in list && it.Key() == c[i].Key();
      assert ItemOk(data, u, it);
      var j :| 0 <= j < |list| && list[j] == it;
    }
    forall i | 0 <= i < |c|
      ensures Lookup(list, c[i].id).rows == Support(data, u, {c[i].Key()})
    {
      var it := Lookup(list, c[i].id);
      assert c[i] in c;
      assert ItemOk(data, u, it);
      SameIdSameKey(it, c[i]);
    }
  }

  /** A record holds all items of a candidate iff it holds each of them. */
  lemma HoldsAllOf(row: Row, c: seq<ItemValue>)
    ensures HoldsAll(row, KeysOf(c)) <==> forall q :: 0 <= q < |c| ==> Holds(row, c[q].Key())
  {
    if forall q :: 0 <= q < |c| ==> Holds(row, c[q].Key()) {
      forall k | k in KeysOf(c) ensures Holds(row, k) {
        var it :| it in c && it.Key() == k;
        var q :| 0 <= q < |c| && c[q] == it;
      }
    }
    if HoldsAll(row, KeysOf(c)) {
      forall q | 0 <= q < |c| ensures Holds(row, c[q].Key()) {
        assert c[q] in c;
      }
    }
  }

  /** The rows the pivot test scans are the support of the pivot item. */
  lemma PivotRows(data: Table, u: set<int>, list: seq<ItemValue>, c: seq<ItemValue>)
    requires ListOk(data, u, list)
    requires forall it :: it in c ==> it.Shaped()
    requires KeysOf(c) <= KeysOf(list) && |c| >= 2
    ensures Listed(list, c)
    ensures Lookup(list, c[PivotFrom(list, c, 1, 0)].id).rows == Support(data, u, {c[PivotFrom(list, c, 1, 0)].Key()})
  {
    ListedByKeys(data, u, list, c);
  }

  /**
   * Scanning the rows of any one candidate item finds a special row exactly
   * when the candidate has one.
   */
  lemma SpecialAmongSpec(data: Table, u: set<int>, c: seq<ItemValue>, p: int, ref: ItemKey)
    requires 0 <= p < |c|
    ensures SpecialAmong(data, Support(data, u, {c[p].Key()}), c, p, ref) <==> HasSpecialRow(data, u, KeysOf(c), ref)
  {
    var rows := Support(data, u, {c[p].Key()});
    if SpecialAmong(data, rows, c, p, ref) {
      var r :| r in rows && SpecialRow(data, r, c, p, ref);
      HoldsAllOf(data[r - 1], c);
      assert r in Support(data, u, KeysOf(c));
    }
    if HasSpecialRow(data, u, KeysOf(c), ref) {
      var r :| r in Support(data, u, KeysOf(c)) && !Holds(data[r - 1], ref);
      HoldsAllOf(data[r - 1], c);
      assert r in rows && SpecialRow(data, r, c, p, ref);
    }
  }

  /**
   * The pivot's rows are a shortcut: `isMSU` accepts a candidate of two or
   * more items exactly when it has a special row in the universe.
   */
  lemma IsMsuCandidateSpec(data: Table, u: set<int>, list: seq<ItemValue>, c: seq<ItemValue>, ref: ItemValue)
    requires ListOk(data, u, list)
    requires forall it :: it in c ==> it.Shaped()
    requires KeysOf(c) <= KeysOf(list) && |c| >= 2
    ensures Listed(list, c)
    ensures IsMsuCandidate(data, list, c, ref) <==> HasSpecialRow(data, u, KeysOf(c), ref.Key())
  {
    PivotRows(data, u, list, c);
    var p := Pivot(data, list, c, ref);
    SpecialAmongSpec(data, u, c, p, ref.Key());
  }

  /** The pivot `isMSU` scans, and its test in terms of that pivot. */
  lemma Pivot(data: Table, list: seq<ItemValue>, c: seq<ItemValue>, ref: ItemValue) returns (p: nat)
    requires Listed(list, c) && |c| >= 2
    ensures p == PivotFrom(list, c, 1, 0) && p < |c|
    ensures IsMsuCandidate(data, list, c, ref) <==> SpecialAmong(data, Lookup(list, c[p].id).rows, c, p, ref.Key())
  {
    p := PivotFrom(list, c, 1, 0);
  }
}
