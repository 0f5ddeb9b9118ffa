/**
 * The SUDA2 search (src/main/de/linearbits/suda2/SUDA2.java): a depth-first
 * enumeration of the minimal sample uniques of a table. Each level splits
 * off the one-item MSUs of its list, and for every remaining item (the
 * reference item) searches the later items, restricted to the rows of the
 * reference item, for MSUs that the reference item extends; `isMSU`'s
 * special-row test keeps exactly the extensions that are MSUs one level up.
 * The top level reports each MSU of the table to the listener; deeper levels
 * return their MSUs to the caller. Where `isMSU` and `suda2` read `size` and
 * `buckets` through the type `SUDA2IntSet`, this engine reads the row set's
 * own support and rows; `SearchSteps.IsMsuAsWritten` is the reading as
 * written.
 */
module Search {
  import opened Rows
  import opened Uniques
  import opened Items
  import opened Sorting
  import opened SearchSteps
  import opened Results
  import opened InitialState

  // ----------------------------------------------------- what is reported

  /**
   * A candidate returned by a level over the universe `u`: its keys are
   * distinct and form an MSU of `u`, and each item's rows contain the
   * candidate's unique record and only records that hold the item.
   */
  ghost predicate CandidateOk(data: Table, u: set<int>, c: seq<ItemValue>)
  {
    && Msu(data, u, KeysOf(c))
    && DistinctKeys(c)
    && forall it :: it in c ==>
         it.Shaped() && Support(data, u, KeysOf(c)) <= it.rows <= Support(data, AllRows(data), {it.Key()})
  }

  /** The keys a `registerKey` call reports. */
  function RegKeys(g: Registration): set<ItemKey>
  {
    match g
    case Single(c) => KeysOf(c)
    case Extended(ref, c) => KeysOf(c) + {ref.Key()}
  }

  /**
   * A registration of an MSU of `u`: a one-item MSU is reported with the
   * item of the list, an extended one with the reference item of the list
   * and a candidate of the rows of the reference item.
   */
  ghost predicate RegOk(data: Table, u: set<int>, g: Registration)
  {
    match g
    case Single(c) =>
      |c| == 1 && ItemOk(data, u, c[0]) && Msu(data, u, KeysOf(c))
    case Extended(ref, c) =>
      && ItemOk(data, u, ref)
      && ref.Key() !in KeysOf(c)
      && CandidateOk(data, ref.rows, c)
      && Msu(data, u, KeysOf(c) + {ref.Key()})
  }

  function KeySets(cands: seq<seq<ItemValue>>): set<set<ItemKey>>
  {
    set c | c in cands :: KeysOf(c)
  }

  function RegKeySets(regs: seq<Registration>): set<set<ItemKey>>
  {
    set g | g in regs :: RegKeys(g)
  }

  lemma KeySetsMono(a: seq<seq<ItemValue>>, b: seq<seq<ItemValue>>)
    requires forall c :: c in a ==> c in b
    ensures KeySets(a) <= KeySets(b)
  {
  }

  lemma RegKeySetsMono(a: seq<Registration>, b: seq<Registration>)
    requires forall g :: g in a ==> g in b
    ensures RegKeySets(a) <= RegKeySets(b)
  {
  }

  /** The keys of each registration, in the order of the calls. */
  function RegKeyList(regs: seq<Registration>): (ks: seq<set<ItemKey>>)
    ensures |ks| == |regs|
    ensures forall k :: 0 <= k < |regs| ==> ks[k] == RegKeys(regs[k])
  {
    seq(|regs|, k requires 0 <= k < |regs| => RegKeys(regs[k]))
  }

  /** The keys of what a level has found, in order: registered at the top, returned below. */
  function FoundList(top: bool, regs: seq<Registration>, msus: seq<seq<ItemValue>>): seq<set<ItemKey>>
  {
    if top then RegKeyList(regs) else KeyList(msus)
  }

  /** The keys of each accepted candidate together with the reference item. */
  function ExtendedKeys(acc: seq<seq<ItemValue>>, ref: ItemValue): (ks: seq<set<ItemKey>>)
    ensures |ks| == |acc|
    ensures forall k :: 0 <= k < |acc| ==> ks[k] == KeysOf(acc[k]) + {ref.Key()}
  {
    seq(|acc|, k requires 0 <= k < |acc| => KeysOf(acc[k]) + {ref.Key()})
  }

  /**
   * No key set has been found twice at this level, and each one of more
   * than one item has its first item before `index`.
   */
  ghost predicate LevelDistinct(current: seq<ItemValue>, index: int, ks: seq<set<ItemKey>>)
  {
    && DistinctSets(ks)
    && forall k :: 0 <= k < |ks| ==> |ks[k]| == 1 || Before(current, ks[k], index)
  }

  /** Distinct registrations report distinct key sets, as many as there are calls. */
  lemma {:induction false} RegKeySetsCard(regs: seq<Registration>)
    requires DistinctSets(RegKeyList(regs))
    ensures |RegKeySets(regs)| == |regs|
    decreases |regs|
  {
    if regs != [] {
      var init := regs[..|regs| - 1];
      var last := regs[|regs| - 1];
      assert DistinctSets(RegKeyList(init)) by {
        forall i, j | 0 <= i < j < |init| ensures RegKeyList(init)[i] != RegKeyList(init)[j] {
          assert RegKeyList(regs)[i] != RegKeyList(regs)[j];
        }
      }
      RegKeySetsCard(init);
      assert RegKeySets(regs) == RegKeySets(init) + {RegKeys(last)} by {
        assert regs == init + [last];
      }
      assert RegKeys(last) !in RegKeySets(init) by {
        forall g | g in init ensures RegKeys(g) != RegKeys(last) {
          var m :| 0 <= m < |init| && init[m] == g;
          assert RegKeyList(regs)[m] != RegKeyList(regs)[|regs| - 1];
        }
      }
    }
  }

  /** The registration calls that report each candidate as a one-item MSU. */
  function Singles(cands: seq<seq<ItemValue>>): (regs: seq<Registration>)
    ensures |regs| == |cands|
    ensures forall j :: 0 <= j < |cands| ==> regs[j] == Single(cands[j])
  {
    if cands == [] then [] else Singles(cands[..|cands| - 1]) + [Single(cands[|cands| - 1])]
  }

  /** The larger of `maxK` and 1: one-item MSUs are reported whatever the limit. */
  function Cap(maxK: int): int
  {
    if maxK < 1 then 1 else maxK
  }

  function Min(a: int, b: int): int
  {
    if a < b then a else b
  }

  /** Some item of the key set sits at a position before `index`. */
  ghost predicate Before(current: seq<ItemValue>, keys: set<ItemKey>, index: int)
  {
    exists q :: 0 <= q < index && q < |current| && current[q].Key() in keys
  }

  // ------------------------------------------------------ partition facts

  /**
   * `getMSUs(list, numRecords)` keeps every MSU reachable: the one-item MSUs
   * are split off, and every item of a larger MSU stays in the list.
   */
  lemma PartitionOk(data: Table, u: set<int>, list: seq<ItemValue>, numRecords: int,
                    singles: seq<seq<ItemValue>>, current: seq<ItemValue>)
    requires RowIdsOf(data, u) && |u| <= numRecords
    requires ListOk(data, u, list)
    requires (singles, current) == Partition(list, numRecords)
    ensures forall c :: c in singles ==>
      |c| == 1 && ItemOk(data, u, c[0]) && CandidateOk(data, u, c) && KeysOf(c) <= KeysOf(list)
    ensures ListOk(data, u, current)
    ensures KeysOf(current) <= KeysOf(list)
    ensures forall it :: it in current ==> 2 <= |it.rows| < numRecords
    ensures forall keys :: Msu(data, u, keys) && keys <= KeysOf(list) && |keys| == 1 ==> keys in KeySets(singles)
    ensures forall keys :: Msu(data, u, keys) && keys <= KeysOf(list) && |keys| >= 2 ==> keys <= KeysOf(current)
  {
    PartitionSingles(data, u, list, numRecords);
    PartitionRest(data, u, list, numRecords);
    PartitionFindsSingles(data, u, list, numRecords);
    PartitionKeeps(data, u, list, numRecords);
  }

  lemma PartitionSingles(data: Table, u: set<int>, list: seq<ItemValue>, numRecords: int)
    requires RowIdsOf(data, u) && ListOk(data, u, list)
    ensures forall c :: c in Partition(list, numRecords).0 ==>
      |c| == 1 && ItemOk(data, u, c[0]) && CandidateOk(data, u, c) && KeysOf(c) <= KeysOf(list)
  {
    forall c | c in Partition(list, numRecords).0
      ensures |c| == 1 && ItemOk(data, u, c[0]) && CandidateOk(data, u, c) && KeysOf(c) <= KeysOf(list)
    {
      var it :| it in list && |it.rows| == 1 && c == [it];
      SingleOk(data, u, it);
    }
  }

  /** An item held by one record is, on its own, a candidate. */
  lemma SingleOk(data: Table, u: set<int>, it: ItemValue)
    requires RowIdsOf(data, u) && ItemOk(data, u, it) && |it.rows| == 1
    ensures CandidateOk(data, u, [it]) && KeysOf([it]) == {it.Key()}
  {
    KeysOfSingle(it);
    MsuSingleton(data, u, it.Key());
  }

  lemma PartitionRest(data: Table, u: set<int>, list: seq<ItemValue>, numRecords: int)
    requires RowIdsOf(data, u) && |u| <= numRecords
    requires ListOk(data, u, list)
    ensures ListOk(data, u, Partition(list, numRecords).1)
    ensures KeysOf(Partition(list, numRecords).1) <= KeysOf(list)
    ensures forall it :: it in Partition(list, numRecords).1 ==> 2 <= |it.rows| < numRecords
  {
    var rest := Partition(list, numRecords).1;
    forall it | it in rest ensures 2 <= |it.rows| < numRecords {
      assert ItemOk(data, u, it);
      SubsetCard(it.rows, u);
    }
    forall k | k in KeysOf(rest) ensures k in KeysOf(list) {
      var it :| it in rest && it.Key() == k;
    }
  }

  lemma PartitionFindsSingles(data: Table, u: set<int>, list: seq<ItemValue>, numRecords: int)
    requires ListOk(data, u, list)
    ensures forall keys :: Msu(data, u, keys) && keys <= KeysOf(list) && |keys| == 1 ==>
      keys in KeySets(Partition(list, numRecords).0)
  {
    forall keys | Msu(data, u, keys) && keys <= KeysOf(list) && |keys| == 1
      ensures keys in KeySets(Partition(list, numRecords).0)
    {
      var k := OnlyKey(keys);
      var it :| it in list && it.Key() == k;
      SingleSplitOff(data, u, list, numRecords, it);
    }
  }

  /** A set of one key is that key's singleton. */
  lemma OnlyKey(keys: set<ItemKey>) returns (k: ItemKey)
    requires |keys| == 1
    ensures keys == {k}
  {
    k :| k in keys;
    SubsetCard({k}, keys);
  }

  /** A listed item whose key alone is an MSU goes to the one-item MSUs of the partition. */
  lemma SingleSplitOff(data: Table, u: set<int>, list: seq<ItemValue>, numRecords: int, it: ItemValue)
    requires ListOk(data, u, list) && it in list && Msu(data, u, {it.Key()})
    ensures {it.Key()} in KeySets(Partition(list, numRecords).0)
  {
    assert ItemOk(data, u, it);
    MsuSingleton(data, u, it.Key());
    KeysOfSingle(it);
    assert [it] in Partition(list, numRecords).0;
  }

  lemma PartitionKeeps(data: Table, u: set<int>, list: seq<ItemValue>, numRecords: int)
    requires RowIdsOf(data, u) && |u| <= numRecords
    requires ListOk(data, u, list)
    ensures forall keys :: Msu(data, u, keys) && keys <= KeysOf(list) && |keys| >= 2 ==>
      keys <= KeysOf(Partition(list, numRecords).1)
  {
    forall keys, k | Msu(data, u, keys) && keys <= KeysOf(list) && |keys| >= 2 && k in keys
      ensures k in KeysOf(Partition(list, numRecords).1)
    {
      var it :| it in list && it.Key() == k;
      KeptItem(data, u, keys, it);
      assert it in Partition(list, numRecords).1;
    }
  }

  /** An item of an MSU of two or more items is held by two or more records, but not by all. */
  lemma KeptItem(data: Table, u: set<int>, keys: set<ItemKey>, it: ItemValue)
    requires ItemOk(data, u, it)
    requires Msu(data, u, keys) && |keys| >= 2 && it.Key() in keys
    ensures 2 <= |it.rows| < |u|
  {
    MsuItemSupport(data, u, keys, it.Key());
    MsuItemNotEverywhere(data, u, keys, it.Key());
  }

  // ------------------------------------------------------- candidate facts

  /**
   * `isMSU` accepts a candidate of the rows of the reference item exactly
   * when the candidate extended by the reference item is an MSU one level up.
   */
  lemma IsMsuCandidateExact(data: Table, u: set<int>, current: seq<ItemValue>, i: int, c: seq<ItemValue>)
    requires RowIdsOf(data, u)
    requires ListOk(data, u, current) && 0 <= i < |current|
    requires forall it :: it in current ==> |it.rows| >= 2
    requires CandidateOk(data, current[i].rows, c) && KeysOf(c) <= KeysOf(current[i + 1..])
    ensures Listed(current, c)
    ensures current[i].Key() !in KeysOf(c)
    ensures IsMsuCandidate(data, current, c, current[i]) <==> Msu(data, u, KeysOf(c) + {current[i].Key()})
  {
    var ref := current[i];
    CandidateFacts(data, u, current, i, c);
    if |c| >= 2 {
      IsMsuCandidateSpec(data, u, current, c, ref);
    } else {
      SingleCandidate(data, u, current, i, c);
    }
    LiftIff(data, u, KeysOf(c), ref.Key());
  }

  lemma CandidateFacts(data: Table, u: set<int>, current: seq<ItemValue>, i: int, c: seq<ItemValue>)
    requires ListOk(data, u, current) && 0 <= i < |current|
    requires forall it :: it in current ==> |it.rows| >= 2
    requires CandidateOk(data, current[i].rows, c) && KeysOf(c) <= KeysOf(current[i + 1..])
    ensures Listed(current, c)
    ensures current[i].Key() !in KeysOf(c)
    ensures KeysOf(c) <= KeysOf(current)
    ensures forall it :: it in c ==> it.Shaped()
    ensures current[i].rows == Support(data, u, {current[i].Key()}) && |current[i].rows| >= 2
  {
    assert current[i] in current;
    DistinctAt(current, i);
    KeysOfSuffix(current, i + 1);
    ListedByKeys(data, u, current, c);
  }

  /** A one-item candidate is accepted outright, and it always has a special row. */
  lemma SingleCandidate(data: Table, u: set<int>, current: seq<ItemValue>, i: int, c: seq<ItemValue>)
    requires ListOk(data, u, current) && 0 <= i < |current|
    requires forall it :: it in current ==> |it.rows| >= 2
    requires CandidateOk(data, current[i].rows, c) && KeysOf(c) <= KeysOf(current)
    requires |c| < 2 && current[i].rows == Support(data, u, {current[i].Key()})
    ensures HasSpecialRow(data, u, KeysOf(c), current[i].Key())
  {
    var keys := KeysOf(c);
    KeysOfCard(c);
    assert keys != {};
    var k := OnlyKey(keys);
    var it :| it in current && it.Key() == k;
    assert ItemOk(data, u, it);
    SingletonSpecialRow(data, u, k, current[i].Key());
  }

  /** An accepted candidate, extended by the reference item, is a candidate one level up. */
  lemma ExtendOk(data: Table, u: set<int>, current: seq<ItemValue>, i: int, c: seq<ItemValue>)
    requires RowIdsOf(data, u)
    requires ListOk(data, u, current) && 0 <= i < |current|
    requires CandidateOk(data, current[i].rows, c)
    requires current[i].Key() !in KeysOf(c)
    requires Msu(data, u, KeysOf(c) + {current[i].Key()})
    ensures CandidateOk(data, u, c + [current[i]])
    ensures KeysOf(c + [current[i]]) == KeysOf(c) + {current[i].Key()}
    ensures RegOk(data, u, Extended(current[i], c))
  {
    var ref := current[i];
    assert ref in current;
    var keys := KeysOf(c);
    KeysOfConcat(c, [ref]);
    KeysOfSingle(ref);
    DistinctSplit(c, [ref]);
    SupportWith(data, u, keys, ref.Key());
    SupportAntitone(data, u, {ref.Key()}, keys + {ref.Key()});
  }

  /** `getMSUs(list, reference, from)` returns candidates of the rows of the reference item. */
  lemma DirectScanOk(data: Table, u: set<int>, current: seq<ItemValue>, i: int)
    requires RowIdsOf(data, u)
    requires ListOk(data, u, current) && 0 <= i < |current|
    ensures forall c :: c in DirectScan(current, current[i], i + 1) ==>
      |c| == 1 && CandidateOk(data, current[i].rows, c) && KeysOf(c) <= KeysOf(current[i + 1..])
    ensures forall keys :: Msu(data, current[i].rows, keys) && keys <= KeysOf(current[i + 1..]) && |keys| == 1 ==>
      keys in KeySets(DirectScan(current, current[i], i + 1))
  {
    DirectScanSound(data, u, current, i);
    DirectScanFinds(data, u, current, i);
  }

  /** The one-item candidates of the direct scan are distinct items, so their key sets differ. */
  lemma {:induction false} DirectScanDistinct(list: seq<ItemValue>, ref: ItemValue, from: nat)
    requires DistinctKeys(list) && from <= |list|
    ensures DistinctSets(KeyList(DirectScan(list, ref, from)))
    decreases |list| - from
  {
    if from < |list| {
      DirectScanDistinct(list, ref, from + 1);
      DistinctAt(list, from);
      KeysOfSingle(list[from]);
      var head: seq<seq<ItemValue>> := if |list[from].rows * ref.rows| == 1 then [[list[from]]] else [];
      var tail := DirectScan(list, ref, from + 1);
      var ks := KeyList(head + tail);
      forall a, b | 0 <= a < b < |ks| ensures ks[a] != ks[b] {
        var c := tail[b - |head|];
        assert ks[b] == KeysOf(c) && c in tail;
        if a < |head| {
          var j :| from + 1 <= j < |list| && |list[j].rows * ref.rows| == 1 && c == [list[j]];
          assert list[j] in list[from + 1..];
          KeysOfSingle(list[j]);
        } else {
          assert ks[a] == KeyList(tail)[a - |head|] && ks[b] == KeyList(tail)[b - |head|];
        }
      }
    }
  }

  lemma DirectScanSound(data: Table, u: set<int>, current: seq<ItemValue>, i: int)
    requires RowIdsOf(data, u)
    requires ListOk(data, u, current) && 0 <= i < |current|
    ensures forall c :: c in DirectScan(current, current[i], i + 1) ==>
      |c| == 1 && CandidateOk(data, current[i].rows, c) && KeysOf(c) <= KeysOf(current[i + 1..])
  {
    var ref := current[i];
    forall c | c in DirectScan(current, ref, i + 1)
      ensures |c| == 1 && CandidateOk(data, ref.rows, c) && KeysOf(c) <= KeysOf(current[i + 1..])
    {
      var j :| i + 1 <= j < |current| && |current[j].rows * ref.rows| == 1 && c == [current[j]];
      ScannedItem(data, u, current, i, j);
    }
  }

  /**
   * An item sharing one record with the reference item is a one-item MSU of
   * the reference item's rows, and as such a candidate.
   */
  lemma ScannedItem(data: Table, u: set<int>, current: seq<ItemValue>, i: int, j: int)
    requires RowIdsOf(data, u)
    requires ListOk(data, u, current) && 0 <= i < j < |current|
    ensures |current[j].rows * current[i].rows| == 1 <==> Msu(data, current[i].rows, {current[j].Key()})
    ensures |current[j].rows * current[i].rows| == 1 ==> CandidateOk(data, current[i].rows, [current[j]])
    ensures KeysOf([current[j]]) == {current[j].Key()} <= KeysOf(current[i + 1..])
  {
    var ref, it := current[i], current[j];
    assert ref in current && it in current;
    ProjectRows(data, u, it, ref);
    KeysOfSingle(it);
    MsuSingleton(data, ref.rows, it.Key());
    assert it == current[i + 1..][j - (i + 1)];
  }

  lemma DirectScanFinds(data: Table, u: set<int>, current: seq<ItemValue>, i: int)
    requires RowIdsOf(data, u)
    requires ListOk(data, u, current) && 0 <= i < |current|
    ensures forall keys :: Msu(data, current[i].rows, keys) && keys <= KeysOf(current[i + 1..]) && |keys| == 1 ==>
      keys in KeySets(DirectScan(current, current[i], i + 1))
  {
    var ref := current[i];
    forall keys | Msu(data, ref.rows, keys) && keys <= KeysOf(current[i + 1..]) && |keys| == 1
      ensures keys in KeySets(DirectScan(current, ref, i + 1))
    {
      var k :| k in keys;
      assert keys == {k} by { SubsetCard({k}, keys); }
      var j := PositionOf(current, i + 1, k);
      ScannedItem(data, u, current, i, j);
      assert [current[j]] in DirectScan(current, ref, i + 1);
    }
  }

  /** A position, from `from` on, of the item with a key listed there. */
  lemma PositionOf(s: seq<ItemValue>, from: int, k: ItemKey) returns (j: int)
    requires 0 <= from <= |s| && k in KeysOf(s[from..])
    ensures from <= j < |s| && s[j].Key() == k
  {
    var it :| it in s[from..] && it.Key() == k;
    var q :| 0 <= q < |s[from..]| && s[from..][q] == it;
    j := from + q;
  }

  /**
   * Where the search finds an MSU of two or more items: at the first of its
   * items in the list, as an MSU of that item's rows made of later items,
   * within all three pruning limits.
   */
  lemma FirstItem(data: Table, u: set<int>, current: seq<ItemValue>, i: int, keys: set<ItemKey>)
    requires RowIdsOf(data, u)
    requires ListOk(data, u, current) && 0 <= i < |current|
    requires Msu(data, u, keys) && |keys| >= 2 && keys <= KeysOf(current)
    requires current[i].Key() in keys && !Before(current, keys, i)
    ensures Msu(data, current[i].rows, keys - {current[i].Key()})
    ensures keys - {current[i].Key()} <= KeysOf(current[i + 1..])
    ensures keys - {current[i].Key()} <= KeysOf(SubList(current, current[i], i + 1))
    ensures 1 <= |keys - {current[i].Key()}| <= |current| - (i + 1)
    ensures |keys - {current[i].Key()}| <= |current[i].rows| - 1
  {
    var ref := current[i];
    assert ref in current;
    var rest := keys - {ref.Key()};
    DropMsu(data, u, keys, ref.Key());
    assert |rest| == |keys| - 1;
    LaterKeys(current, i, keys);
    KeysOfCard(current[i + 1..]);
    SubsetCard(rest, KeysOf(current[i + 1..]));
    SharedKeys(data, u, current, i, keys);
  }

  /** The other items of a key set whose first item is at position i come later. */
  lemma LaterKeys(current: seq<ItemValue>, i: int, keys: set<ItemKey>)
    requires 0 <= i < |current| && keys <= KeysOf(current) && !Before(current, keys, i)
    ensures keys - {current[i].Key()} <= KeysOf(current[i + 1..])
  {
    forall k | k in keys - {current[i].Key()} ensures k in KeysOf(current[i + 1..]) {
      var it :| it in current && it.Key() == k;
      var q :| 0 <= q < |current| && current[q] == it;
      assert current[i + 1..][q - (i + 1)] == it;
    }
  }

  /** The later items of an MSU that holds the reference item all reach the sub-list. */
  lemma SharedKeys(data: Table, u: set<int>, current: seq<ItemValue>, i: int, keys: set<ItemKey>)
    requires ListOk(data, u, current) && 0 <= i < |current|
    requires Unique(data, u, keys) && current[i].Key() in keys
    requires keys - {current[i].Key()} <= KeysOf(current[i + 1..])
    ensures keys - {current[i].Key()} <= KeysOf(SubList(current, current[i], i + 1))
  {
    var ref := current[i];
    assert ref in current;
    SubListCovers(current, i);
    var w :| w in Support(data, u, keys);
    forall k | k in keys - {ref.Key()} ensures k in KeysOf(SubList(current, ref, i + 1)) {
      var j := PositionOf(current, i + 1, k);
      assert current[j] in current;
      assert w in current[j].rows * ref.rows;
    }
  }

  lemma KeysOfSuffix(s: seq<ItemValue>, from: int)
    requires 0 <= from <= |s|
    ensures KeysOf(s[from..]) <= KeysOf(s)
  {
    forall k | k in KeysOf(s[from..]) ensures k in KeysOf(s) {
      var it :| it in s[from..] && it.Key() == k;
    }
  }

  lemma RegKeySetsSingles(cands: seq<seq<ItemValue>>)
    ensures RegKeySets(Singles(cands)) == KeySets(cands)
  {
    var regs := Singles(cands);
    forall keys | keys in KeySets(cands) ensures keys in RegKeySets(regs) {
      var c :| c in cands && KeysOf(c) == keys;
      var j :| 0 <= j < |cands| && cands[j] == c;
      assert regs[j] in regs;
    }
    forall keys | keys in RegKeySets(regs) ensures keys in KeySets(cands) {
      var g :| g in regs && RegKeys(g) == keys;
      var j :| 0 <= j < |regs| && regs[j] == g;
      assert cands[j] in cands;
    }
  }

  /** What a level has found so far: registered at the top, returned below. */
  ghost function Found(top: bool, regs: seq<Registration>, msus: seq<seq<ItemValue>>): set<set<ItemKey>>
  {
    if top then RegKeySets(regs) else KeySets(msus)
  }

  /** Every one-item MSU of `u` made of listed items is in `found`. */
  ghost predicate FoundSingles(data: Table, u: set<int>, list: seq<ItemValue>, found: set<set<ItemKey>>)
  {
    forall keys :: Msu(data, u, keys) && keys <= KeysOf(list) && |keys| == 1 ==> keys in found
  }

  /**
   * Every MSU of `u` of two to `maxK` listed items whose first item in
   * `current` sits before `index` is in `found`.
   */
  ghost predicate FoundUpTo(data: Table, u: set<int>, list: seq<ItemValue>, current: seq<ItemValue>,
                            index: int, maxK: int, found: set<set<ItemKey>>)
  {
    forall keys :: Msu(data, u, keys) && keys <= KeysOf(list) && 2 <= |keys| <= maxK && Before(current, keys, index) ==>
      keys in found
  }

  /** The candidates of one reference item: what the recursion or the direct scan returns. */
  ghost predicate CandsOk(data: Table, current: seq<ItemValue>, i: int, upperLimit: int, cands: seq<seq<ItemValue>>)
    requires 0 <= i < |current|
  {
    && (forall c :: c in cands ==>
         CandidateOk(data, current[i].rows, c) && KeysOf(c) <= KeysOf(current[i + 1..]) && |KeysOf(c)| <= Cap(upperLimit))
    && (forall keys ::
          (Msu(data, current[i].rows, keys) && keys <= KeysOf(SubList(current, current[i], i + 1))
           && keys <= KeysOf(current[i + 1..]) && |keys| <= Cap(upperLimit)) ==> keys in KeySets(cands))
  }

  /**
   * Handling the reference item at position i finds every MSU whose first
   * item it is: the pruning limits never cut one off.
   */
  lemma Advance(data: Table, u: set<int>, list: seq<ItemValue>, current: seq<ItemValue>, i: int, maxK: int,
                upperLimit: int, cands: seq<seq<ItemValue>>, f0: set<set<ItemKey>>, fNew: set<set<ItemKey>>,
                f1: set<set<ItemKey>>)
    requires RowIdsOf(data, u)
    requires ListOk(data, u, current) && 0 <= i < |current|
    requires forall keys :: Msu(data, u, keys) && keys <= KeysOf(list) && |keys| >= 2 ==> keys <= KeysOf(current)
    requires upperLimit == Min(Min(maxK - 1, |current| - (i + 1)), |current[i].rows| - 1)
    requires CandsOk(data, current, i, upperLimit, cands)
    requires forall c :: c in cands && Msu(data, u, KeysOf(c) + {current[i].Key()}) ==>
      KeysOf(c) + {current[i].Key()} in fNew
    requires FoundUpTo(data, u, list, current, i, maxK, f0) && f0 + fNew <= f1
    ensures FoundUpTo(data, u, list, current, i + 1, maxK, f1)
  {
    var ref := current[i];
    forall keys | Msu(data, u, keys) && keys <= KeysOf(list) && 2 <= |keys| <= maxK && Before(current, keys, i + 1)
      ensures keys in f1
    {
      if !Before(current, keys, i) {
        AdvanceOne(data, u, list, current, i, maxK, upperLimit, cands, keys);
      }
    }
  }

  lemma AdvanceOne(data: Table, u: set<int>, list: seq<ItemValue>, current: seq<ItemValue>, i: int, maxK: int,
                   upperLimit: int, cands: seq<seq<ItemValue>>, keys: set<ItemKey>)
    requires RowIdsOf(data, u)
    requires ListOk(data, u, current) && 0 <= i < |current|
    requires upperLimit == Min(Min(maxK - 1, |current| - (i + 1)), |current[i].rows| - 1)
    requires CandsOk(data, current, i, upperLimit, cands)
    requires Msu(data, u, keys) && keys <= KeysOf(current) && 2 <= |keys| <= maxK
    requires Before(current, keys, i + 1) && !Before(current, keys, i)
    ensures exists c :: c in cands && KeysOf(c) + {current[i].Key()} == keys
  {
    var ref := current[i];
    var q :| 0 <= q < i + 1 && q < |current| && current[q].Key() in keys;
    assert q == i;
    FirstItem(data, u, current, i, keys);
    var rest := keys - {ref.Key()};
    assert |rest| == |keys| - 1;
    CandsComplete(data, current, i, upperLimit, cands, rest);
    var c :| c in cands && KeysOf(c) == rest;
    PutBack(keys, ref.Key());
  }

  lemma PutBack<T>(s: set<T>, x: T)
    requires x in s
    ensures (s - {x}) + {x} == s
  {
  }

  /** The completeness half of `CandsOk`, for one key set. */
  lemma CandsComplete(data: Table, current: seq<ItemValue>, i: int, upperLimit: int, cands: seq<seq<ItemValue>>,
                      rest: set<ItemKey>)
    requires 0 <= i < |current|
    requires CandsOk(data, current, i, upperLimit, cands)
    requires Msu(data, current[i].rows, rest) && rest <= KeysOf(SubList(current, current[i], i + 1))
    requires rest <= KeysOf(current[i + 1..]) && |rest| <= upperLimit
    ensures exists c :: c in cands && KeysOf(c) == rest
  {
    assert rest in KeySets(cands);
  }

  /** At the end of the list every MSU of two or more listed items has been reached. */
  lemma AllBefore(data: Table, u: set<int>, list: seq<ItemValue>, current: seq<ItemValue>, maxK: int,
                  found: set<set<ItemKey>>)
    requires forall keys :: Msu(data, u, keys) && keys <= KeysOf(list) && |keys| >= 2 ==> keys <= KeysOf(current)
    requires FoundUpTo(data, u, list, current, |current|, maxK, found)
    ensures forall keys :: Msu(data, u, keys) && keys <= KeysOf(list) && 2 <= |keys| <= maxK ==> keys in found
  {
    forall keys | Msu(data, u, keys) && keys <= KeysOf(list) && 2 <= |keys| <= maxK
      ensures keys in found
    {
      var k :| k in keys;
      var q := PositionOf(current, 0, k);
      assert Before(current, keys, |current|);
    }
  }

  /** The one-item MSUs registered at the top level are registered correctly. */
  lemma SinglesOk(data: Table, u: set<int>, list: seq<ItemValue>, msus: seq<seq<ItemValue>>)
    requires forall c :: c in msus ==>
      |c| == 1 && ItemOk(data, u, c[0]) && CandidateOk(data, u, c) && KeysOf(c) <= KeysOf(list)
    ensures forall g :: g in Singles(msus) ==> RegOk(data, u, g) && RegKeys(g) <= KeysOf(list) && |RegKeys(g)| <= 1
  {
    forall g | g in Singles(msus) ensures RegOk(data, u, g) && RegKeys(g) <= KeysOf(list) && |RegKeys(g)| <= 1 {
      var j :| 0 <= j < |msus| && Singles(msus)[j] == g;
      assert msus[j] in msus;
    }
  }

  /** What the recursion returns are candidates of the reference item's rows. */
  lemma RecursionCands(data: Table, current: seq<ItemValue>, i: int, upperLimit: int, ref: ItemValue,
                       sub: seq<ItemValue>, cands: seq<seq<ItemValue>>, subAdded: seq<Registration>)
    requires 0 <= i < |current| && ref == current[i] && sub == SubList(current, ref, i + 1)
    requires upperLimit > 1 && |ref.rows| < |data|
    requires KeysOf(sub) <= KeysOf(current[i + 1..])
    requires LevelSound(data, ref.rows, sub, Cap(upperLimit), subAdded, cands)
    requires LevelFound(data, ref.rows, sub, Cap(upperLimit), Found(|ref.rows| == |data|, subAdded, cands))
    ensures CandsOk(data, current, i, upperLimit, cands)
  {
  }

  /** The arguments of the recursive call meet its precondition. */
  lemma RecursionArgs(data: Table, u: set<int>, numRecords: int, current: seq<ItemValue>, i: int)
    requires RowIdsOf(data, u) && |u| <= numRecords <= |data|
    requires ListOk(data, u, current) && 0 <= i < |current|
    requires forall it :: it in current ==> 2 <= |it.rows| < numRecords
    ensures RowIdsOf(data, current[i].rows) && |current[i].rows| < |data|
    ensures ListOk(data, current[i].rows, SubList(current, current[i], i + 1))
    ensures KeysOf(SubList(current, current[i], i + 1)) <= KeysOf(current[i + 1..])
  {
    assert current[i] in current;
    SubListOk(data, u, current, i);
  }

  lemma SeqAssoc<T>(a: seq<T>, b: seq<T>, c: seq<T>)
    ensures a + b + c == a + (b + c)
  {
  }

  /** The registrations stay sound when those of one reference item are appended. */
  lemma RegsGrow(data: Table, u: set<int>, list: seq<ItemValue>, maxK: int, added: seq<Registration>,
                 more: seq<Registration>)
    requires forall g :: g in added ==> RegOk(data, u, g) && RegKeys(g) <= KeysOf(list) && |RegKeys(g)| <= maxK
    requires forall g :: g in more ==> RegOk(data, u, g) && RegKeys(g) <= KeysOf(list) && |RegKeys(g)| <= maxK
    ensures forall g :: g in added + more ==> RegOk(data, u, g) && RegKeys(g) <= KeysOf(list) && |RegKeys(g)| <= maxK
  {
  }

  /** The returned MSUs stay sound when those of one reference item are appended. */
  lemma MsusGrow(data: Table, u: set<int>, list: seq<ItemValue>, maxK: int, msus: seq<seq<ItemValue>>,
                 more: seq<seq<ItemValue>>)
    requires forall c :: c in msus ==> CandidateOk(data, u, c) && KeysOf(c) <= KeysOf(list) && |KeysOf(c)| <= maxK
    requires forall c :: c in more ==> CandidateOk(data, u, c) && KeysOf(c) <= KeysOf(list) && |KeysOf(c)| <= maxK
    ensures forall c :: c in msus + more ==> CandidateOk(data, u, c) && KeysOf(c) <= KeysOf(list) && |KeysOf(c)| <= maxK
  {
  }

  lemma FoundSinglesMono(data: Table, u: set<int>, list: seq<ItemValue>, f0: set<set<ItemKey>>, f1: set<set<ItemKey>>)
    requires FoundSingles(data, u, list, f0) && f0 <= f1
    ensures FoundSingles(data, u, list, f1)
  {
  }

  /** What the direct scan returns are candidates of the reference item's rows. */
  lemma ScanCands(data: Table, u: set<int>, current: seq<ItemValue>, i: int, upperLimit: int)
    requires RowIdsOf(data, u)
    requires ListOk(data, u, current) && 0 <= i < |current|
    requires upperLimit <= 1
    ensures CandsOk(data, current, i, upperLimit, DirectScan(current, current[i], i + 1))
  {
    DirectScanOk(data, u, current, i);
    SinglesCands(data, current, i, upperLimit, DirectScan(current, current[i], i + 1));
  }

  /** One-item candidates that include every one-item MSU are all the candidates a limit of one asks for. */
  lemma SinglesCands(data: Table, current: seq<ItemValue>, i: int, upperLimit: int, cands: seq<seq<ItemValue>>)
    requires 0 <= i < |current| && upperLimit <= 1
    requires forall c :: c in cands ==>
      |c| == 1 && CandidateOk(data, current[i].rows, c) && KeysOf(c) <= KeysOf(current[i + 1..])
    requires forall keys :: Msu(data, current[i].rows, keys) && keys <= KeysOf(current[i + 1..]) && |keys| == 1 ==>
      keys in KeySets(cands)
    ensures CandsOk(data, current, i, upperLimit, cands)
  {
    forall c | c in cands ensures |KeysOf(c)| <= Cap(upperLimit) {
      KeysOfCard(c);
    }
    forall keys | Msu(data, current[i].rows, keys) && keys <= KeysOf(current[i + 1..]) && |keys| <= Cap(upperLimit)
      ensures keys in KeySets(cands)
    {
      var k :| k in keys;
      SubsetCard({k}, keys);
    }
  }

  /** The candidates `isMSU` accepts for the reference item, in order. */
  function Accepted(data: Table, current: seq<ItemValue>, cands: seq<seq<ItemValue>>, ref: ItemValue): (acc: seq<seq<ItemValue>>)
    ensures |acc| <= |cands|
  {
    if cands == [] then []
    else
      var last := cands[|cands| - 1];
      Accepted(data, current, cands[..|cands| - 1], ref)
        + if Listed(current, last) && IsMsuCandidate(data, current, last, ref) then [last] else []
  }

  /** `Accepted` keeps exactly the candidates `isMSU` accepts. */
  lemma {:induction false} AcceptedMembers(data: Table, current: seq<ItemValue>, cands: seq<seq<ItemValue>>, ref: ItemValue)
    requires forall c :: c in cands ==> Listed(current, c)
    ensures forall c :: c in Accepted(data, current, cands, ref) <==> c in cands && IsMsuCandidate(data, current, c, ref)
    decreases |cands|
  {
    if cands != [] {
      var last := cands[|cands| - 1];
      assert cands == cands[..|cands| - 1] + [last];
      AcceptedMembers(data, current, cands[..|cands| - 1], ref);
    }
  }

  /** `registerKey(referenceItem, candidate)` for each accepted candidate. */
  function Reported(acc: seq<seq<ItemValue>>, ref: ItemValue): (regs: seq<Registration>)
    ensures |regs| == |acc|
    ensures forall k {:trigger regs[k]} :: 0 <= k < |acc| ==> regs[k] == Extended(ref, acc[k])
  {
    if acc == [] then [] else Reported(acc[..|acc| - 1], ref) + [Extended(ref, acc[|acc| - 1])]
  }

  /** `candidate.add(referenceItem)` for each accepted candidate. */
  function Extensions(acc: seq<seq<ItemValue>>, ref: ItemValue): (ext: seq<seq<ItemValue>>)
    ensures |ext| == |acc|
    ensures forall k {:trigger ext[k]} :: 0 <= k < |acc| ==> ext[k] == acc[k] + [ref]
  {
    if acc == [] then [] else Extensions(acc[..|acc| - 1], ref) + [acc[|acc| - 1] + [ref]]
  }

  lemma AcceptedStep(data: Table, current: seq<ItemValue>, cands: seq<seq<ItemValue>>, j: int, ref: ItemValue)
    requires 0 <= j < |cands| && Listed(current, cands[j])
    ensures IsMsuCandidate(data, current, cands[j], ref) ==>
      Accepted(data, current, cands[..j + 1], ref) == Accepted(data, current, cands[..j], ref) + [cands[j]]
    ensures !IsMsuCandidate(data, current, cands[j], ref) ==>
      Accepted(data, current, cands[..j + 1], ref) == Accepted(data, current, cands[..j], ref)
  {
    assert cands[..j + 1][..j] == cands[..j];
    assert Accepted(data, current, cands[..j], ref) + [] == Accepted(data, current, cands[..j], ref);
  }

  lemma ReportedStep(acc: seq<seq<ItemValue>>, c: seq<ItemValue>, ref: ItemValue)
    ensures Reported(acc + [c], ref) == Reported(acc, ref) + [Extended(ref, c)]
  {
    assert (acc + [c])[..|acc|] == acc;
  }

  lemma ExtensionsStep(acc: seq<seq<ItemValue>>, c: seq<ItemValue>, ref: ItemValue)
    ensures Extensions(acc + [c], ref) == Extensions(acc, ref) + [c + [ref]]
  {
    assert (acc + [c])[..|acc|] == acc;
  }

  /** One candidate of `processCandidates`: what it adds to the accepted candidates, the registrations and the MSUs. */
  lemma ProcessStep(data: Table, current: seq<ItemValue>, cands: seq<seq<ItemValue>>, j: int, ref: ItemValue,
                    isMsu: bool, acc: seq<seq<ItemValue>>, acc': seq<seq<ItemValue>>,
                    regs: seq<Registration>, msus: seq<seq<ItemValue>>)
    requires 0 <= j < |cands| && Listed(current, cands[j])
    requires acc == Accepted(data, current, cands[..j], ref)
    requires isMsu == IsMsuCandidate(data, current, cands[j], ref)
    requires acc' == if isMsu then acc + [cands[j]] else acc
    ensures acc' == Accepted(data, current, cands[..j + 1], ref)
    ensures regs + Reported(acc', ref) ==
      if isMsu then regs + Reported(acc, ref) + [Extended(ref, cands[j])] else regs + Reported(acc, ref)
    ensures msus + Extensions(acc', ref) ==
      if isMsu then msus + Extensions(acc, ref) + [cands[j] + [ref]] else msus + Extensions(acc, ref)
  {
    AcceptedStep(data, current, cands, j, ref);
    if isMsu {
      ReportedStep(acc, cands[j], ref);
      ExtensionsStep(acc, cands[j], ref);
      SeqAssoc(regs, Reported(acc, ref), [Extended(ref, cands[j])]);
      SeqAssoc(msus, Extensions(acc, ref), [cands[j] + [ref]]);
    }
  }

  /** What one reference item adds to what a level has found. */
  ghost function NewFound(top: bool, acc: seq<seq<ItemValue>>, ref: ItemValue): set<set<ItemKey>>
  {
    if top then RegKeySets(Reported(acc, ref)) else KeySets(Extensions(acc, ref))
  }

  lemma FoundStep(top: bool, added: seq<Registration>, msus: seq<seq<ItemValue>>, acc: seq<seq<ItemValue>>, ref: ItemValue)
    ensures Found(top, added, msus) + NewFound(top, acc, ref) <=
      Found(top, added + (if top then Reported(acc, ref) else []), msus + (if top then [] else Extensions(acc, ref)))
  {
    if top {
      RegKeySetsMono(added, added + Reported(acc, ref));
      RegKeySetsMono(Reported(acc, ref), added + Reported(acc, ref));
    } else {
      KeySetsMono(msus, msus + Extensions(acc, ref));
      KeySetsMono(Extensions(acc, ref), msus + Extensions(acc, ref));
    }
  }

  /**
   * One candidate of the reference item at position i: `isMSU` accepts it
   * iff it extends to an MSU, and then what is reported or returned for it
   * is correct and within the size limit.
   */
  lemma AcceptOne(data: Table, u: set<int>, list: seq<ItemValue>, current: seq<ItemValue>, i: int, maxK: int,
                  c: seq<ItemValue>)
    requires RowIdsOf(data, u)
    requires ListOk(data, u, current) && 0 <= i < |current|
    requires forall it :: it in current ==> |it.rows| >= 2
    requires KeysOf(current) <= KeysOf(list)
    requires CandidateOk(data, current[i].rows, c) && KeysOf(c) <= KeysOf(current[i + 1..]) && |KeysOf(c)| < maxK
    ensures Listed(current, c)
    ensures IsMsuCandidate(data, current, c, current[i]) <==> Msu(data, u, KeysOf(c) + {current[i].Key()})
    ensures IsMsuCandidate(data, current, c, current[i]) ==>
      && RegOk(data, u, Extended(current[i], c))
      && RegKeys(Extended(current[i], c)) <= KeysOf(list) && |RegKeys(Extended(current[i], c))| <= maxK
      && CandidateOk(data, u, c + [current[i]])
      && KeysOf(c + [current[i]]) == RegKeys(Extended(current[i], c))
  {
    IsMsuCandidateExact(data, u, current, i, c);
    if IsMsuCandidate(data, current, c, current[i]) {
      ExtendOk(data, u, current, i, c);
      KeysOfSuffix(current, i + 1);
      assert current[i] in current;
      assert |KeysOf(c) + {current[i].Key()}| <= |KeysOf(c)| + 1;
    }
  }

  /** The candidates of one reference item are all listed, as `isMSU` needs. */
  lemma CandsListed(data: Table, u: set<int>, list: seq<ItemValue>, current: seq<ItemValue>, i: int, maxK: int,
                    upperLimit: int, cands: seq<seq<ItemValue>>)
    requires RowIdsOf(data, u)
    requires ListOk(data, u, current) && 0 <= i < |current|
    requires forall it :: it in current ==> |it.rows| >= 2
    requires KeysOf(current) <= KeysOf(list)
    requires upperLimit < maxK && maxK >= 2
    requires CandsOk(data, current, i, upperLimit, cands)
    ensures forall c :: c in cands ==> Listed(current, c)
  {
    forall c | c in cands ensures Listed(current, c) {
      AcceptOne(data, u, list, current, i, maxK, c);
    }
  }

  /** One accepted candidate extends to a correct MSU within the size limit. */
  lemma AcceptedItem(data: Table, u: set<int>, list: seq<ItemValue>, current: seq<ItemValue>, i: int, maxK: int,
                     upperLimit: int, cands: seq<seq<ItemValue>>, c: seq<ItemValue>)
    requires RowIdsOf(data, u)
    requires ListOk(data, u, current) && 0 <= i < |current|
    requires forall it :: it in current ==> |it.rows| >= 2
    requires KeysOf(current) <= KeysOf(list)
    requires upperLimit < maxK && maxK >= 2
    requires CandsOk(data, current, i, upperLimit, cands)
    requires forall c :: c in cands ==> Listed(current, c)
    requires c in Accepted(data, current, cands, current[i])
    ensures RegOk(data, u, Extended(current[i], c))
    ensures RegKeys(Extended(current[i], c)) <= KeysOf(list) && |RegKeys(Extended(current[i], c))| <= maxK
    ensures CandidateOk(data, u, c + [current[i]])
    ensures KeysOf(c + [current[i]]) == RegKeys(Extended(current[i], c))
  {
    AcceptedMembers(data, current, cands, current[i]);
    AcceptOne(data, u, list, current, i, maxK, c);
  }

  /** What `ProcessCandidates` reports for one reference item is correct. */
  lemma ReportedSound(data: Table, u: set<int>, list: seq<ItemValue>, current: seq<ItemValue>, i: int, maxK: int,
                      upperLimit: int, cands: seq<seq<ItemValue>>)
    requires RowIdsOf(data, u)
    requires ListOk(data, u, current) && 0 <= i < |current|
    requires forall it :: it in current ==> |it.rows| >= 2
    requires KeysOf(current) <= KeysOf(list)
    requires upperLimit < maxK && maxK >= 2
    requires CandsOk(data, current, i, upperLimit, cands)
    requires forall c :: c in cands ==> Listed(current, c)
    ensures forall g :: g in Reported(Accepted(data, current, cands, current[i]), current[i]) ==>
      RegOk(data, u, g) && RegKeys(g) <= KeysOf(list) && |RegKeys(g)| <= maxK
  {
    var acc := Accepted(data, current, cands, current[i]);
    forall g | g in Reported(acc, current[i])
      ensures RegOk(data, u, g) && RegKeys(g) <= KeysOf(list) && |RegKeys(g)| <= maxK
    {
      var k :| 0 <= k < |acc| && Reported(acc, current[i])[k] == g;
      assert g == Extended(current[i], acc[k]) && acc[k] in acc;
      AcceptedItem(data, u, list, current, i, maxK, upperLimit, cands, acc[k]);
    }
  }

  /** What `ProcessCandidates` returns for one reference item is correct. */
  lemma ExtensionsSound(data: Table, u: set<int>, list: seq<ItemValue>, current: seq<ItemValue>, i: int, maxK: int,
                        upperLimit: int, cands: seq<seq<ItemValue>>)
    requires RowIdsOf(data, u)
    requires ListOk(data, u, current) && 0 <= i < |current|
    requires forall it :: it in current ==> |it.rows| >= 2
    requires KeysOf(current) <= KeysOf(list)
    requires upperLimit < maxK && maxK >= 2
    requires CandsOk(data, current, i, upperLimit, cands)
    requires forall c :: c in cands ==> Listed(current, c)
    ensures forall c :: c in Extensions(Accepted(data, current, cands, current[i]), current[i]) ==>
      CandidateOk(data, u, c) && KeysOf(c) <= KeysOf(list) && |KeysOf(c)| <= maxK
  {
    var acc := Accepted(data, current, cands, current[i]);
    forall c | c in Extensions(acc, current[i])
      ensures CandidateOk(data, u, c) && KeysOf(c) <= KeysOf(list) && |KeysOf(c)| <= maxK
    {
      var k :| 0 <= k < |acc| && Extensions(acc, current[i])[k] == c;
      assert c == acc[k] + [current[i]] && acc[k] in acc;
      AcceptedItem(data, u, list, current, i, maxK, upperLimit, cands, acc[k]);
    }
  }

  /** Every candidate that extends to an MSU is reported or returned. */
  lemma AcceptedComplete(data: Table, u: set<int>, list: seq<ItemValue>, current: seq<ItemValue>, i: int, maxK: int,
                         upperLimit: int, cands: seq<seq<ItemValue>>, top: bool)
    requires RowIdsOf(data, u)
    requires ListOk(data, u, current) && 0 <= i < |current|
    requires forall it :: it in current ==> |it.rows| >= 2
    requires KeysOf(current) <= KeysOf(list)
    requires upperLimit < maxK && maxK >= 2
    requires CandsOk(data, current, i, upperLimit, cands)
    requires forall c :: c in cands ==> Listed(current, c)
    ensures forall c :: c in cands && Msu(data, u, KeysOf(c) + {current[i].Key()}) ==>
      KeysOf(c) + {current[i].Key()} in NewFound(top, Accepted(data, current, cands, current[i]), current[i])
  {
    var ref := current[i];
    var acc := Accepted(data, current, cands, ref);
    AcceptedMembers(data, current, cands, ref);
    forall c | c in cands && Msu(data, u, KeysOf(c) + {ref.Key()})
      ensures KeysOf(c) + {ref.Key()} in NewFound(top, acc, ref)
    {
      AcceptOne(data, u, list, current, i, maxK, c);
      AcceptedSlot(acc, c, ref, top);
    }
  }

  /** An accepted candidate's key set is among what one reference item adds. */
  lemma AcceptedSlot(acc: seq<seq<ItemValue>>, c: seq<ItemValue>, ref: ItemValue, top: bool)
    requires c in acc
    ensures KeysOf(c) + {ref.Key()} in NewFound(top, acc, ref)
  {
    var k :| 0 <= k < |acc| && acc[k] == c;
    if top {
      assert Reported(acc, ref)[k] in Reported(acc, ref);
    } else {
      assert Extensions(acc, ref)[k] in Extensions(acc, ref);
      KeysOfConcat(c, [ref]);
      KeysOfSingle(ref);
    }
  }

  /** Everything reported or returned so far is a correct MSU within the size limit. */
  ghost predicate LevelSound(data: Table, u: set<int>, list: seq<ItemValue>, maxK: int, added: seq<Registration>,
                             msus: seq<seq<ItemValue>>)
  {
    && (forall g :: g in added ==> RegOk(data, u, g) && RegKeys(g) <= KeysOf(list) && |RegKeys(g)| <= maxK)
    && (forall c :: c in msus ==> CandidateOk(data, u, c) && KeysOf(c) <= KeysOf(list) && |KeysOf(c)| <= maxK)
  }

  /** Every MSU of `u` made of listed items, at most `maxK` of them, has been found. */
  ghost predicate LevelFound(data: Table, u: set<int>, list: seq<ItemValue>, maxK: int, found: set<set<ItemKey>>)
  {
    forall keys :: Msu(data, u, keys) && keys <= KeysOf(list) && |keys| <= maxK ==> keys in found
  }

  /** Every MSU of one item, or whose first item comes before `index`, has been found. */
  ghost predicate LevelComplete(data: Table, u: set<int>, list: seq<ItemValue>, current: seq<ItemValue>, index: int,
                                maxK: int, found: set<set<ItemKey>>)
  {
    FoundSingles(data, u, list, found) && FoundUpTo(data, u, list, current, index, maxK, found)
  }

  /** Handling the reference item at position i keeps `LevelSound`. */
  lemma StepSound(data: Table, u: set<int>, list: seq<ItemValue>, current: seq<ItemValue>, i: int,
                  maxK: int, upperLimit: int, cands: seq<seq<ItemValue>>, top: bool, added: seq<Registration>,
                  msus: seq<seq<ItemValue>>)
    requires RowIdsOf(data, u)
    requires ListOk(data, u, current) && 0 <= i < |current|
    requires forall it :: it in current ==> |it.rows| >= 2
    requires KeysOf(current) <= KeysOf(list)
    requires upperLimit < maxK && maxK >= 2
    requires CandsOk(data, current, i, upperLimit, cands)
    requires LevelSound(data, u, list, maxK, added, msus)
    ensures forall c :: c in cands ==> Listed(current, c)
    ensures LevelSound(data, u, list, maxK,
      added + (if top then Reported(Accepted(data, current, cands, current[i]), current[i]) else []),
      msus + (if top then [] else Extensions(Accepted(data, current, cands, current[i]), current[i])))
  {
    var ref := current[i];
    CandsListed(data, u, list, current, i, maxK, upperLimit, cands);
    ReportedSound(data, u, list, current, i, maxK, upperLimit, cands);
    ExtensionsSound(data, u, list, current, i, maxK, upperLimit, cands);
    var acc := Accepted(data, current, cands, ref);
    RegsGrow(data, u, list, maxK, added, if top then Reported(acc, ref) else []);
    MsusGrow(data, u, list, maxK, msus, if top then [] else Extensions(acc, ref));
  }

  /** Handling the reference item at position i keeps `LevelComplete`, one position further. */
  lemma StepComplete(data: Table, u: set<int>, list: seq<ItemValue>, current: seq<ItemValue>, i: int,
                     maxK: int, upperLimit: int, cands: seq<seq<ItemValue>>, top: bool, added: seq<Registration>,
                     msus: seq<seq<ItemValue>>)
    requires RowIdsOf(data, u)
    requires ListOk(data, u, current) && 0 <= i < |current|
    requires forall it :: it in current ==> |it.rows| >= 2
    requires KeysOf(current) <= KeysOf(list)
    requires forall keys :: Msu(data, u, keys) && keys <= KeysOf(list) && |keys| >= 2 ==> keys <= KeysOf(current)
    requires maxK >= 2 && upperLimit == Min(Min(maxK - 1, |current| - (i + 1)), |current[i].rows| - 1)
    requires CandsOk(data, current, i, upperLimit, cands)
    requires LevelComplete(data, u, list, current, i, maxK, Found(top, added, msus))
    ensures LevelComplete(data, u, list, current, i + 1, maxK, Found(top,
      added + (if top then Reported(Accepted(data, current, cands, current[i]), current[i]) else []),
      msus + (if top then [] else Extensions(Accepted(data, current, cands, current[i]), current[i]))))
  {
    var ref := current[i];
    CandsListed(data, u, list, current, i, maxK, upperLimit, cands);
    AcceptedComplete(data, u, list, current, i, maxK, upperLimit, cands, top);
    var acc := Accepted(data, current, cands, ref);
    var f0 := Found(top, added, msus);
    var f1 := Found(top, added + (if top then Reported(acc, ref) else []), msus + (if top then [] else Extensions(acc, ref)));
    FoundStep(top, added, msus, acc, ref);
    FoundSinglesMono(data, u, list, f0, f1);
    Advance(data, u, list, current, i, maxK, upperLimit, cands, f0, NewFound(top, acc, ref), f1);
  }

  /** Appending what one reference item reports or returns appends its extended keys. */
  lemma FoundListStep(top: bool, added: seq<Registration>, msus: seq<seq<ItemValue>>, acc: seq<seq<ItemValue>>,
                      ref: ItemValue)
    ensures FoundList(top, added + (if top then Reported(acc, ref) else []), msus + (if top then [] else Extensions(acc, ref)))
      == FoundList(top, added, msus) + ExtendedKeys(acc, ref)
  {
    if !top {
      forall k | 0 <= k < |acc| ensures KeysOf(acc[k] + [ref]) == KeysOf(acc[k]) + {ref.Key()} {
        KeysOfConcat(acc[k], [ref]);
        KeysOfSingle(ref);
      }
    }
  }

  /** A key set made of the item at position i and later items has no item before i. */
  lemma NotBefore(current: seq<ItemValue>, i: int, keys: set<ItemKey>)
    requires DistinctKeys(current) && 0 <= i < |current|
    requires keys <= KeysOf(current[i + 1..]) + {current[i].Key()}
    ensures !Before(current, keys, i)
  {
    forall q | 0 <= q < i ensures current[q].Key() !in keys {
      DistinctAt(current, q);
      assert current[i] in current[q + 1..];
      KeysOfSuffix(current[q + 1..], i - q);
      assert current[q + 1..][i - q..] == current[i + 1..];
    }
  }

  /** The candidates `isMSU` accepts are some of the candidates, and keep their key sets distinct. */
  lemma {:induction false} AcceptedDistinct(data: Table, current: seq<ItemValue>, cands: seq<seq<ItemValue>>,
                                            ref: ItemValue)
    requires DistinctSets(KeyList(cands))
    ensures forall c :: c in Accepted(data, current, cands, ref) ==> c in cands
    ensures DistinctSets(KeyList(Accepted(data, current, cands, ref)))
    decreases |cands|
  {
    if cands != [] {
      var init := cands[..|cands| - 1];
      var last := cands[|cands| - 1];
      assert DistinctSets(KeyList(init)) by {
        forall i, j | 0 <= i < j < |init| ensures KeyList(init)[i] != KeyList(init)[j] {
          assert KeyList(cands)[i] != KeyList(cands)[j];
        }
      }
      AcceptedDistinct(data, current, init, ref);
      var prev := Accepted(data, current, init, ref);
      if Listed(current, last) && IsMsuCandidate(data, current, last, ref) {
        var acc := prev + [last];
        forall i, j | 0 <= i < j < |acc| ensures KeyList(acc)[i] != KeyList(acc)[j] {
          if j < |prev| {
            assert KeyList(prev)[i] != KeyList(prev)[j];
          } else {
            assert prev[i] in prev;
            var m :| 0 <= m < |init| && init[m] == prev[i];
            assert KeyList(cands)[m] != KeyList(cands)[|cands| - 1];
          }
        }
      }
    }
  }

  /**
   * Handling the reference item at position i adds key sets found nowhere
   * before: each holds the reference item and no earlier one.
   */
  lemma StepDistinct(data: Table, current: seq<ItemValue>, i: int, upperLimit: int,
                     cands: seq<seq<ItemValue>>, ks: seq<set<ItemKey>>)
    requires DistinctKeys(current) && 0 <= i < |current|
    requires CandsOk(data, current, i, upperLimit, cands)
    requires DistinctSets(KeyList(cands))
    requires LevelDistinct(current, i, ks)
    ensures LevelDistinct(current, i + 1, ks + ExtendedKeys(Accepted(data, current, cands, current[i]), current[i]))
  {
    var ref := current[i];
    var acc := Accepted(data, current, cands, ref);
    AcceptedDistinct(data, current, cands, ref);
    DistinctAt(current, i);
    var ext := ExtendedKeys(acc, ref);
    forall k | 0 <= k < |acc|
      ensures KeysOf(acc[k]) == ext[k] - {ref.Key()}
      ensures |ext[k]| >= 2 && !Before(current, ext[k], i)
    {
      assert acc[k] in cands;
      var x :| x in KeysOf(acc[k]);
      assert ext[k] - {ref.Key()} != {};
      NotBefore(current, i, ext[k]);
    }
    var all := ks + ext;
    forall a, b | 0 <= a < b < |all| ensures all[a] != all[b] {
      if b < |ks| {
        assert ks[a] != ks[b];
      } else if a < |ks| {
        assert all[b] == ext[b - |ks|];
      } else {
        assert KeyList(acc)[a - |ks|] != KeyList(acc)[b - |ks|];
      }
    }
    forall k | 0 <= k < |all| ensures |all[k]| == 1 || Before(current, all[k], i + 1) {
      if k >= |ks| {
        assert ref.Key() in all[k];
      }
    }
  }

  /** Handling the reference item at position i keeps `LevelDistinct`, one position further. */
  lemma StepFoundDistinct(data: Table, current: seq<ItemValue>, i: int, upperLimit: int,
                          cands: seq<seq<ItemValue>>, top: bool, added: seq<Registration>, msus: seq<seq<ItemValue>>)
    requires DistinctKeys(current) && 0 <= i < |current|
    requires CandsOk(data, current, i, upperLimit, cands)
    requires DistinctSets(KeyList(cands))
    requires LevelDistinct(current, i, FoundList(top, added, msus))
    ensures LevelDistinct(current, i + 1, FoundList(top,
      added + (if top then Reported(Accepted(data, current, cands, current[i]), current[i]) else []),
      msus + (if top then [] else Extensions(Accepted(data, current, cands, current[i]), current[i]))))
  {
    StepDistinct(data, current, i, upperLimit, cands, FoundList(top, added, msus));
    FoundListStep(top, added, msus, Accepted(data, current, cands, current[i]), current[i]);
  }

  /**
   * What `getMSUs` leaves for the loop over the reference items: listed items
   * of at least two and fewer than `numRecords` rows, among them every item
   * of an MSU of two or more listed items.
   */
  ghost predicate Descends(data: Table, u: set<int>, list: seq<ItemValue>, numRecords: int, current: seq<ItemValue>)
  {
    && ListOk(data, u, current) && KeysOf(current) <= KeysOf(list)
    && (forall it :: it in current ==> 2 <= |it.rows| < numRecords)
    && (forall keys :: Msu(data, u, keys) && keys <= KeysOf(list) && |keys| >= 2 ==> keys <= KeysOf(current))
  }

  /** Handling the reference item at position i keeps the three level invariants, one position further. */
  lemma StepKeeps(data: Table, u: set<int>, list: seq<ItemValue>, numRecords: int, current: seq<ItemValue>, i: int,
                  maxK: int, upperLimit: int, cands: seq<seq<ItemValue>>, added: seq<Registration>,
                  msus: seq<seq<ItemValue>>, regs: seq<Registration>, msus': seq<seq<ItemValue>>)
    requires RowIdsOf(data, u) && maxK >= 2 && 0 <= i < |current|
    requires Descends(data, u, list, numRecords, current)
    requires upperLimit == Min(Min(maxK - 1, |current| - (i + 1)), |current[i].rows| - 1)
    requires CandsOk(data, current, i, upperLimit, cands) && DistinctSets(KeyList(cands))
    requires LevelSound(data, u, list, maxK, added, msus)
    requires LevelComplete(data, u, list, current, i, maxK, Found(numRecords == |data|, added, msus))
    requires LevelDistinct(current, i, FoundList(numRecords == |data|, added, msus))
    requires regs == if numRecords == |data| then Reported(Accepted(data, current, cands, current[i]), current[i]) else []
    requires msus' == msus + if numRecords == |data| then [] else Extensions(Accepted(data, current, cands, current[i]), current[i])
    ensures forall c :: c in cands ==> Listed(current, c)
    ensures LevelSound(data, u, list, maxK, added + regs, msus')
    ensures LevelComplete(data, u, list, current, i + 1, maxK, Found(numRecords == |data|, added + regs, msus'))
    ensures LevelDistinct(current, i + 1, FoundList(numRecords == |data|, added + regs, msus'))
  {
    var top := numRecords == |data|;
    StepSound(data, u, list, current, i, maxK, upperLimit, cands, top, added, msus);
    StepComplete(data, u, list, current, i, maxK, upperLimit, cands, top, added, msus);
    StepFoundDistinct(data, current, i, upperLimit, cands, top, added, msus);
  }

  /**
   * A level before its loop: the one-item MSUs split off by the partition,
   * registered at the top level and returned below it, are sound and all
   * the one-item MSUs there are; with a limit of one item that is all.
   */
  lemma LevelStart(data: Table, u: set<int>, list: seq<ItemValue>, numRecords: int, maxK: int, top: bool,
                   msus: seq<seq<ItemValue>>, current: seq<ItemValue>, added: seq<Registration>)
    requires RowIdsOf(data, u) && |u| <= numRecords
    requires ListOk(data, u, list)
    requires (msus, current) == Partition(list, numRecords)
    requires added == if top then Singles(msus) else []
    ensures Descends(data, u, list, numRecords, current)
    ensures LevelSound(data, u, list, Cap(maxK), added, msus)
    ensures LevelComplete(data, u, list, current, 0, Cap(maxK), Found(top, added, msus))
    ensures maxK <= 1 ==> LevelFound(data, u, list, Cap(maxK), Found(top, added, msus))
  {
    StartSound(data, u, list, numRecords, maxK, top, msus, current, added);
    StartComplete(data, u, list, numRecords, maxK, top, msus, current, added);
  }

  /** The one-item MSUs a level starts with are sound. */
  lemma StartSound(data: Table, u: set<int>, list: seq<ItemValue>, numRecords: int, maxK: int, top: bool,
                   msus: seq<seq<ItemValue>>, current: seq<ItemValue>, added: seq<Registration>)
    requires RowIdsOf(data, u) && |u| <= numRecords
    requires ListOk(data, u, list)
    requires (msus, current) == Partition(list, numRecords)
    requires added == if top then Singles(msus) else []
    ensures Descends(data, u, list, numRecords, current)
    ensures LevelSound(data, u, list, Cap(maxK), added, msus)
  {
    PartitionOk(data, u, list, numRecords, msus, current);
    if top {
      SinglesOk(data, u, list, msus);
    }
    SinglesSound(data, u, list, Cap(maxK), added, msus);
  }

  /** The one-item MSUs a level starts with are all there are; with a limit of one item that is all. */
  lemma StartComplete(data: Table, u: set<int>, list: seq<ItemValue>, numRecords: int, maxK: int, top: bool,
                      msus: seq<seq<ItemValue>>, current: seq<ItemValue>, added: seq<Registration>)
    requires RowIdsOf(data, u) && |u| <= numRecords
    requires ListOk(data, u, list)
    requires (msus, current) == Partition(list, numRecords)
    requires added == if top then Singles(msus) else []
    ensures LevelComplete(data, u, list, current, 0, Cap(maxK), Found(top, added, msus))
    ensures maxK <= 1 ==> LevelFound(data, u, list, Cap(maxK), Found(top, added, msus))
  {
    var found := Found(top, added, msus);
    assert FoundSingles(data, u, list, found) by {
      PartitionFindsSingles(data, u, list, numRecords);
      assert found == KeySets(msus) by {
        if top {
          RegKeySetsSingles(msus);
        }
      }
    }
    assert FoundUpTo(data, u, list, current, 0, Cap(maxK), found);
    if maxK <= 1 {
      forall keys | Msu(data, u, keys) && keys <= KeysOf(list) && |keys| <= Cap(maxK) ensures keys in found {
        assert keys != {};
      }
    }
  }

  /** The one-item MSUs a level starts with have distinct key sets of one item each. */
  lemma StartDistinct(list: seq<ItemValue>, top: bool, msus: seq<seq<ItemValue>>, current: seq<ItemValue>,
                      added: seq<Registration>)
    requires DistinctKeys(list) && msus == OneRowItems(list)
    requires added == if top then Singles(msus) else []
    ensures LevelDistinct(current, 0, FoundList(top, added, msus))
  {
    OneRowKeys(list);
    if top {
      SinglesKeys(msus);
    }
  }

  lemma OneRowKeys(list: seq<ItemValue>)
    requires DistinctKeys(list)
    ensures DistinctSets(KeyList(OneRowItems(list)))
    ensures forall k :: 0 <= k < |OneRowItems(list)| ==> |KeyList(OneRowItems(list))[k]| == 1
  {
    OneRowItemsDistinct(list);
    OneRowItemsIn(list);
    var msus := OneRowItems(list);
    forall k | 0 <= k < |msus| ensures |KeyList(msus)[k]| == 1 {
      assert msus[k] in msus;
      assert |msus[k]| == 1;
      assert msus[k] == [msus[k][0]];
      KeysOfSingle(msus[k][0]);
    }
  }

  /** Registering each one-item MSU reports its keys, in order. */
  lemma SinglesKeys(msus: seq<seq<ItemValue>>)
    ensures RegKeyList(Singles(msus)) == KeyList(msus)
  {
  }

  /** The loop over the reference items of a level with a limit of two or more items has done all of it. */
  lemma LevelsDone(data: Table, u: set<int>, list: seq<ItemValue>, numRecords: int, current: seq<ItemValue>,
                   maxK: int, top: bool, added: seq<Registration>, msus: seq<seq<ItemValue>>)
    requires maxK >= 2
    requires Descends(data, u, list, numRecords, current)
    requires LevelSound(data, u, list, maxK, added, msus)
    requires LevelComplete(data, u, list, current, |current|, maxK, Found(top, added, msus))
    ensures LevelSound(data, u, list, Cap(maxK), added, msus)
    ensures LevelFound(data, u, list, Cap(maxK), Found(top, added, msus))
  {
    LevelDone(data, u, list, current, maxK, Found(top, added, msus));
  }

  /** After the last reference item, the level has found what `suda2` promises. */
  lemma LevelDone(data: Table, u: set<int>, list: seq<ItemValue>, current: seq<ItemValue>, maxK: int,
                  found: set<set<ItemKey>>)
    requires forall keys :: Msu(data, u, keys) && keys <= KeysOf(list) && |keys| >= 2 ==> keys <= KeysOf(current)
    requires LevelComplete(data, u, list, current, |current|, maxK, found)
    ensures LevelFound(data, u, list, maxK, found)
  {
    AllBefore(data, u, list, current, maxK, found);
    forall keys | Msu(data, u, keys) && keys <= KeysOf(list) && |keys| <= maxK
      ensures keys in found
    {
      assert keys != {};
    }
  }

  /** The one-item MSUs are within any size limit of at least one. */
  lemma SinglesSound(data: Table, u: set<int>, list: seq<ItemValue>, maxK: int, added: seq<Registration>,
                     msus: seq<seq<ItemValue>>)
    requires maxK >= 1
    requires forall g :: g in added ==> RegOk(data, u, g) && RegKeys(g) <= KeysOf(list) && |RegKeys(g)| <= 1
    requires forall c :: c in msus ==> CandidateOk(data, u, c) && KeysOf(c) <= KeysOf(list) && |c| == 1
    ensures LevelSound(data, u, list, maxK, added, msus)
  {
    forall c | c in msus ensures |KeysOf(c)| <= maxK {
      KeysOfCard(c);
    }
  }

  // ------------------------------------------------------------ the engine

  /** The registrations after position n report distinct key sets when those appended do. */
  lemma AppendedDistinct(regs: seq<Registration>, n: nat)
    requires n <= |regs|
    requires forall i, j :: 0 <= i < j < |regs[n..]| ==> RegKeys(regs[n..][i]) != RegKeys(regs[n..][j])
    ensures forall i, j :: n <= i < j < |regs| ==> RegKeys(regs[i]) != RegKeys(regs[j])
  {
    forall i, j | n <= i < j < |regs| ensures RegKeys(regs[i]) != RegKeys(regs[j]) {
      assert regs[n..][i - n] == regs[i] && regs[n..][j - n] == regs[j];
    }
  }

  /**
   * What the top-level search promises, in the terms of the whole table: the
   * keys reported are MSUs of the kept records within the first `columns`
   * columns and the size limit, and all of them when it was not stopped.
   */
  lemma TopLevel(data: Table, ignore: seq<bool>, columns: int, list: seq<ItemValue>, maxK: int,
                 added: seq<Registration>, msus: seq<seq<ItemValue>>, interrupted: bool)
    requires Readable(data, columns, ignore)
    requires forall k :: k in KeysOf(list) <==> 0 <= k.column < columns && Support(data, Kept(ignore), {k}) != {}
    requires LevelSound(data, Kept(ignore), list, Cap(maxK), added, msus)
    requires !interrupted ==> LevelFound(data, Kept(ignore), list, Cap(maxK), Found(true, added, msus))
    requires DistinctSets(FoundList(true, added, msus))
    ensures forall g :: g in added ==>
      RegOk(data, Kept(ignore), g) && InColumns(RegKeys(g), columns) && |RegKeys(g)| <= Cap(maxK)
    ensures !interrupted ==> forall keys ::
      keys in RegKeySets(added) <==> Msu(data, Kept(ignore), keys) && InColumns(keys, columns) && |keys| <= Cap(maxK)
    ensures forall i, j :: 0 <= i < j < |added| ==> RegKeys(added[i]) != RegKeys(added[j])
    ensures |RegKeySets(added)| == |added|
  {
    RegKeySetsCard(added);
    forall i, j | 0 <= i < j < |added| ensures RegKeys(added[i]) != RegKeys(added[j]) {
      assert RegKeyList(added)[i] != RegKeyList(added)[j];
    }
    forall keys | Msu(data, Kept(ignore), keys) && InColumns(keys, columns)
      ensures keys <= KeysOf(list)
    {
      forall k | k in keys ensures k in KeysOf(list) {
        SupportAntitone(data, Kept(ignore), {k}, keys);
      }
    }
    forall keys | keys in RegKeySets(added)
      ensures Msu(data, Kept(ignore), keys) && InColumns(keys, columns) && |keys| <= Cap(maxK)
    {
      var g :| g in added && RegKeys(g) == keys;
    }
  }

  /** `SUDA2`: the search over one table, reporting to `result`. */
  class Suda2 {
    const data: Table
    const columns: int
    var result: ResultLog?
    var stop: bool

    /** `SUDA2(int[][])`: the column count is that of the first record. */
    constructor (data: Table)
      ensures this.data == data
      ensures columns == if |data| == 0 then 0 else |data[0]|
      ensures result == null && !stop
    {
      this.data := data;
      this.columns := if |data| == 0 then 0 else |data[0]|;
      this.result := null;
      this.stop := false;
    }

    /** `isEmpty(data)`: no records or no columns, so nothing to search. */
    predicate IsEmpty()
      reads this
    {
      |data| == 0 || columns == 0
    }

    /** `maxKeyLength > 0 ? maxKeyLength : columns`. */
    function MaxK(maxKeyLength: int): (maxK: int)
      ensures maxKeyLength > 0 ==> maxK == maxKeyLength
      ensures maxKeyLength <= 0 ==> maxK == columns
    {
      if maxKeyLength > 0 then maxKeyLength else columns
    }

    /**
     * `getKeys(maxKeyLength, listener)`: nothing happens on an empty table;
     * otherwise the listener is initialised once and then receives exactly
     * the MSUs of the kept records, over the first `columns` columns, with at
     * most `maxK` items, unless the search is stopped (the exception is the
     * `interrupted` result; what was reported before it is still correct).
     */
    method GetKeys(maxKeyLength: int, listener: ResultLog, ignore: seq<bool>) returns (interrupted: bool)
      requires Readable(data, columns, ignore)
      modifies this, listener
      ensures IsEmpty() ==> !interrupted && result == old(result) && unchanged(listener)
      ensures !IsEmpty() ==> result == listener
      ensures !IsEmpty() ==> listener.inits == old(listener.inits) + [InitCall(columns, MaxK(maxKeyLength), 0, 0)]
      ensures !IsEmpty() ==> |old(listener.registrations)| <= |listener.registrations|
      ensures !IsEmpty() ==> listener.registrations[..|old(listener.registrations)|] == old(listener.registrations)
      ensures !IsEmpty() ==> interrupted == old(stop)
      ensures !IsEmpty() ==> forall g :: g in listener.registrations[|old(listener.registrations)|..] ==>
        RegOk(data, Kept(ignore), g) && InColumns(RegKeys(g), columns) && |RegKeys(g)| <= Cap(MaxK(maxKeyLength))
      ensures !IsEmpty() && !interrupted ==> forall keys ::
        keys in RegKeySets(listener.registrations[|old(listener.registrations)|..]) <==>
        Msu(data, Kept(ignore), keys) && InColumns(keys, columns) && |keys| <= Cap(MaxK(maxKeyLength))
      ensures !IsEmpty() ==> forall i, j :: |old(listener.registrations)| <= i < j < |listener.registrations| ==>
        RegKeys(listener.registrations[i]) != RegKeys(listener.registrations[j])
      ensures !IsEmpty() ==>
        |RegKeySets(listener.registrations[|old(listener.registrations)|..])| ==
        |listener.registrations| - |old(listener.registrations)|
    {
      var maxK := MaxK(maxKeyLength);
      if IsEmpty() {
        return false;
      }
      var list, numUniqueRecords, numDuplicateRecords := GetInitialState(ignore);
      result := listener;
      result.Init(columns, maxK, numUniqueRecords, numDuplicateRecords);
      ghost var before := result.registrations;
      KeptCard(ignore);
      var msus;
      ghost var added;
      interrupted, msus, added := Search(maxK, list, |data|, Kept(ignore));
      assert listener.registrations[|old(listener.registrations)|..] == added;
      TopLevel(data, ignore, columns, list, maxK, added, msus, interrupted);
      AppendedDistinct(listener.registrations, |old(listener.registrations)|);
    }

    /**
     * `getKeyStatistics(maxKeyLength, ...)`: like `getKeys`, with a fresh
     * result object that is installed before the empty-table check and
     * returned. The statistics derived from the keys are not part of this
     * model; the result records the calls they are derived from.
     */
    method GetKeyStatistics(maxKeyLength: int, ignore: seq<bool>) returns (stats: ResultLog, interrupted: bool)
      requires Readable(data, columns, ignore)
      modifies this
      ensures fresh(stats) && result == stats
      ensures IsEmpty() ==> !interrupted && stats.inits == [] && stats.registrations == []
      ensures !IsEmpty() ==> stats.inits == [InitCall(columns, MaxK(maxKeyLength), 0, 0)]
      ensures !IsEmpty() ==> interrupted == old(stop)
      ensures !IsEmpty() ==> forall g :: g in stats.registrations ==>
        RegOk(data, Kept(ignore), g) && InColumns(RegKeys(g), columns) && |RegKeys(g)| <= Cap(MaxK(maxKeyLength))
      ensures !IsEmpty() && !interrupted ==> forall keys ::
        keys in RegKeySets(stats.registrations) <==>
        Msu(data, Kept(ignore), keys) && InColumns(keys, columns) && |keys| <= Cap(MaxK(maxKeyLength))
      ensures forall i, j :: 0 <= i < j < |stats.registrations| ==>
        RegKeys(stats.registrations[i]) != RegKeys(stats.registrations[j])
      ensures |RegKeySets(stats.registrations)| == |stats.registrations|
    {
      var maxK := MaxK(maxKeyLength);
      stats := new ResultLog();
      result := stats;
      if IsEmpty() {
        assert RegKeySets(stats.registrations) == {};
        return stats, false;
      }
      var list, numUniqueRecords, numDuplicateRecords := GetInitialState(ignore);
      result.Init(columns, maxK, numUniqueRecords, numDuplicateRecords);
      KeptCard(ignore);
      var msus;
      ghost var added;
      interrupted, msus, added := Search(maxK, list, |data|, Kept(ignore));
      assert stats.registrations == added;
      TopLevel(data, ignore, columns, list, maxK, added, msus, interrupted);
    }

    /**
     * `getInitialState`: one item per (column, value) pair of the records
     * that are not skipped, carrying the 1-based ids of the records that hold
     * it, sorted by support; and the unique and duplicate record counts of a
     * `SUDA2Groupify` that is never given a record.
     */
    method GetInitialState(ignore: seq<bool>) returns (list: seq<ItemValue>, numUniqueRecords: int, numDuplicateRecords: int)
      requires Readable(data, columns, ignore)
      ensures ListOk(data, Kept(ignore), list)
      ensures forall k :: k in KeysOf(list) <==> 0 <= k.column < columns && Support(data, Kept(ignore), {k}) != {}
      ensures SortedBy(list, SupportOf)
      ensures numUniqueRecords == 0 && numDuplicateRecords == 0
    {
      var rowsOf: map<ItemKey, set<int>> := map[];
      var order: seq<ItemKey> := [];
      var index := 1;
      CollectStart(data, ignore, columns);
      var i := 0;
      while i < |data|
        invariant 0 <= i <= |data| && index == i + 1
        invariant Collected(data, ignore, columns, i, 0, rowsOf, order)
      {
        if !ignore[i] {
          rowsOf, order := AddRow(ignore, i, index, rowsOf, order);
        }
        CollectRow(data, ignore, columns, i, rowsOf, order);
        index := index + 1;
        i := i + 1;
      }
      ItemListOk(data, ignore, columns, order, rowsOf);
      var items := ItemList(order, rowsOf);
      list := SortBy(items, SupportOf);
      KeysOfPermutation(items, list);
      SortByMembers(items, SupportOf);
      numUniqueRecords, numDuplicateRecords := 0, 0;
    }

    /** The loop of `getInitialState` over the columns of one record: `item.addRow(index)` for each. */
    method AddRow(ignore: seq<bool>, i: int, index: int, rowsOf: map<ItemKey, set<int>>, order: seq<ItemKey>)
      returns (rowsOf': map<ItemKey, set<int>>, order': seq<ItemKey>)
      requires Readable(data, columns, ignore)
      requires 0 <= i < |data| && !ignore[i] && index == i + 1
      requires Collected(data, ignore, columns, i, 0, rowsOf, order)
      ensures Collected(data, ignore, columns, i, columns, rowsOf', order')
    {
      rowsOf', order' := rowsOf, order;
      var row := data[i];
      var column := 0;
      while column < columns
        invariant 0 <= column <= columns
        invariant Collected(data, ignore, columns, i, column, rowsOf', order')
      {
        var key := ItemKey(column, row[column]);
        ghost var before, beforeOrder := rowsOf', order';
        if key in rowsOf' {
          rowsOf' := rowsOf'[key := rowsOf'[key] + {index}];
        } else {
          order' := order' + [key];
          rowsOf' := rowsOf'[key := {index}];
        }
        CollectColumn(data, ignore, columns, i, column, before, beforeOrder, rowsOf', order');
        column := column + 1;
      }
    }

    /** `stop()`: asks a running search to give up. */
    method Stop()
      modifies this
      ensures stop && result == old(result)
    {
      stop := true;
    }

    /** The registration loop for the one-item MSUs of the table. */
    method RegisterSingles(msus: seq<seq<ItemValue>>)
      requires result != null
      modifies result
      ensures result.registrations == old(result.registrations) + Singles(msus)
      ensures result.inits == old(result.inits)
    {
      var j := 0;
      while j < |msus|
        invariant 0 <= j <= |msus|
        invariant result.registrations == old(result.registrations) + Singles(msus[..j])
        invariant result.inits == old(result.inits)
      {
        assert msus[..j + 1][..j] == msus[..j];
        result.RegisterKey(msus[j]);
        j := j + 1;
      }
      assert msus[..j] == msus;
    }

    /**
     * The loop over the candidates found for one reference item: the ones
     * `isMSU` accepts are reported at the top level, and returned extended by
     * the reference item below it.
     */
    method ProcessCandidates(current: seq<ItemValue>, ref: ItemValue, cands: seq<seq<ItemValue>>,
                             numRecords: int, msus: seq<seq<ItemValue>>)
      returns (msus': seq<seq<ItemValue>>)
      requires result != null
      requires forall c :: c in cands ==> Listed(current, c)
      modifies result
      ensures result.inits == old(result.inits)
      ensures result.registrations == old(result.registrations) +
        if numRecords == |data| then Reported(Accepted(data, current, cands, ref), ref) else []
      ensures msus' == msus +
        if numRecords == |data| then [] else Extensions(Accepted(data, current, cands, ref), ref)
    {
      ghost var top := numRecords == |data|;
      msus' := msus;
      ghost var acc: seq<seq<ItemValue>> := [];
      var j := 0;
      while j < |cands|
        invariant 0 <= j <= |cands|
        invariant acc == Accepted(data, current, cands[..j], ref)
        invariant result.inits == old(result.inits)
        invariant top ==> result.registrations == old(result.registrations) + Reported(acc, ref) && msus' == msus
        invariant !top ==> result.registrations == old(result.registrations) && msus' == msus + Extensions(acc, ref)
      {
        var candidate := cands[j];
        assert candidate in cands;
        var isMsu := IsMsuCandidate(data, current, candidate, ref);
        ghost var acc' := if isMsu then acc + [candidate] else acc;
        ProcessStep(data, current, cands, j, ref, isMsu, acc, acc', old(result.registrations), msus);
        if isMsu {
          if numRecords == |data| {
            result.RegisterKeyWith(ref, candidate);
          } else {
            msus' := msus' + [candidate + [ref]];
          }
        }
        acc := acc';
        j := j + 1;
      }
      assert cands[..j] == cands;
    }

    /**
     * The candidates for the reference item at position i: the MSUs of its
     * rows among the later items, by the recursive call when the limit
     * allows more than one item, else by the direct scan.
     */
    method Candidates(maxK: int, current: seq<ItemValue>, i: int, upperLimit: int, numRecords: int, ghost u: set<int>)
      returns (cands: seq<seq<ItemValue>>)
      requires result != null && !stop
      requires RowIdsOf(data, u) && |u| <= numRecords <= |data|
      requires ListOk(data, u, current) && 0 <= i < |current|
      requires forall it :: it in current ==> 2 <= |it.rows| < numRecords
      requires upperLimit == Min(Min(maxK - 1, |current| - (i + 1)), |current[i].rows| - 1)
      modifies result
      decreases maxK, 0
      ensures result.inits == old(result.inits) && result.registrations == old(result.registrations)
      ensures CandsOk(data, current, i, upperLimit, cands)
      ensures DistinctSets(KeyList(cands))
    {
      var ref := current[i];
      if upperLimit > 1 {
        RecursionArgs(data, u, numRecords, current, i);
        var sub := SubList(current, ref, i + 1);
        var stopped, found, subAdded := Search(upperLimit, sub, |ref.rows|, ref.rows);
        cands := found;
        RecursionCands(data, current, i, upperLimit, ref, sub, cands, subAdded);
      } else {
        cands := DirectScan(current, ref, i + 1);
        ScanCands(data, u, current, i, upperLimit);
        DirectScanDistinct(current, ref, i + 1);
      }
    }

    /**
     * `suda2(maxK, currentList, numRecords)` over the universe `u` of rows
     * the list describes. At the top level (`numRecords` is the number of
     * records) every MSU of the table made of listed items and at most
     * `maxK` of them is registered, and only such MSUs; below it those MSUs
     * of `u` are returned. A set stop flag ends the search after the one-item
     * MSUs of the current level.
     */
    method Search(maxK: int, list: seq<ItemValue>, numRecords: int, ghost u: set<int>)
      returns (interrupted: bool, msus: seq<seq<ItemValue>>, ghost added: seq<Registration>)
      requires result != null
      requires RowIdsOf(data, u) && |u| <= numRecords <= |data|
      requires ListOk(data, u, list)
      modifies result
      decreases maxK, 4
      ensures interrupted == stop
      ensures result.inits == old(result.inits)
      ensures result.registrations == old(result.registrations) + added
      ensures numRecords != |data| ==> added == []
      ensures LevelSound(data, u, list, Cap(maxK), added, msus)
      ensures !interrupted ==> LevelFound(data, u, list, Cap(maxK), Found(numRecords == |data|, added, msus))
      ensures DistinctSets(FoundList(numRecords == |data|, added, msus))
    {
      var current;
      msus, current, added := Split(maxK, list, numRecords, u);
      if stop {
        return true, [], added;
      }
      if maxK <= 1 {
        return false, msus, added;
      }
      var more, newAdded := Levels(maxK, list, current, numRecords, u, msus, added);
      SeqAssoc(old(result.registrations), added, newAdded);
      added := added + newAdded;
      msus := more;
      interrupted := false;
    }

    /**
     * The start of a level: the items of one row become the one-item MSUs,
     * registered at the top level; the rest of the list, ordered, is left
     * for the loop over the reference items.
     */
    method Split(maxK: int, list: seq<ItemValue>, numRecords: int, ghost u: set<int>)
      returns (msus: seq<seq<ItemValue>>, current: seq<ItemValue>, ghost added: seq<Registration>)
      requires result != null
      requires RowIdsOf(data, u) && |u| <= numRecords <= |data|
      requires ListOk(data, u, list)
      modifies result
      ensures result.inits == old(result.inits)
      ensures result.registrations == old(result.registrations) + added
      ensures numRecords != |data| ==> added == []
      ensures Descends(data, u, list, numRecords, current)
      ensures LevelSound(data, u, list, Cap(maxK), added, msus)
      ensures LevelComplete(data, u, list, current, 0, Cap(maxK), Found(numRecords == |data|, added, msus))
      ensures maxK <= 1 ==> LevelFound(data, u, list, Cap(maxK), Found(numRecords == |data|, added, msus))
      ensures LevelDistinct(current, 0, FoundList(numRecords == |data|, added, msus))
    {
      var p := Partition(list, numRecords);
      msus, current := p.0, p.1;
      var top := numRecords == |data|;
      added := if top then Singles(msus) else [];
      if top {
        RegisterSingles(msus);
      }
      LevelStart(data, u, list, numRecords, maxK, top, msus, current, added);
      StartDistinct(list, top, msus, current, added);
    }

    /** The loop over the reference items of a level, followed by what it establishes for the whole level. */
    method Levels(maxK: int, list: seq<ItemValue>, current: seq<ItemValue>, numRecords: int, ghost u: set<int>,
                  msus: seq<seq<ItemValue>>, ghost added: seq<Registration>)
      returns (msus': seq<seq<ItemValue>>, ghost newAdded: seq<Registration>)
      requires result != null && !stop && maxK >= 2
      requires RowIdsOf(data, u) && |u| <= numRecords <= |data|
      requires Descends(data, u, list, numRecords, current)
      requires LevelSound(data, u, list, Cap(maxK), added, msus)
      requires LevelComplete(data, u, list, current, 0, Cap(maxK), Found(numRecords == |data|, added, msus))
      requires LevelDistinct(current, 0, FoundList(numRecords == |data|, added, msus))
      modifies result
      decreases maxK, 3
      ensures result.inits == old(result.inits)
      ensures result.registrations == old(result.registrations) + newAdded
      ensures numRecords != |data| ==> newAdded == []
      ensures LevelSound(data, u, list, Cap(maxK), added + newAdded, msus')
      ensures LevelFound(data, u, list, Cap(maxK), Found(numRecords == |data|, added + newAdded, msus'))
      ensures DistinctSets(FoundList(numRecords == |data|, added + newAdded, msus'))
    {
      assert Cap(maxK) == maxK;
      msus', newAdded := ScanLevel(maxK, list, current, numRecords, u, msus, added);
      LevelsDone(data, u, list, numRecords, current, maxK, numRecords == |data|, added + newAdded, msus');
    }

    /**
     * The loop of `suda2` over the reference items of the current list: each
     * one's candidates are found and the accepted ones reported or returned.
     * `added` and `msus` are what the level has found before the loop.
     */
    method ScanLevel(maxK: int, list: seq<ItemValue>, current: seq<ItemValue>, numRecords: int, ghost u: set<int>,
                     msus: seq<seq<ItemValue>>, ghost added: seq<Registration>)
      returns (msus': seq<seq<ItemValue>>, ghost newAdded: seq<Registration>)
      requires result != null && !stop && maxK >= 2
      requires RowIdsOf(data, u) && |u| <= numRecords <= |data|
      requires Descends(data, u, list, numRecords, current)
      requires LevelSound(data, u, list, maxK, added, msus)
      requires LevelComplete(data, u, list, current, 0, maxK, Found(numRecords == |data|, added, msus))
      requires LevelDistinct(current, 0, FoundList(numRecords == |data|, added, msus))
      modifies result
      decreases maxK, 2
      ensures result.inits == old(result.inits)
      ensures result.registrations == old(result.registrations) + newAdded
      ensures numRecords != |data| ==> newAdded == []
      ensures LevelSound(data, u, list, maxK, added + newAdded, msus')
      ensures LevelComplete(data, u, list, current, |current|, maxK, Found(numRecords == |data|, added + newAdded, msus'))
      ensures LevelDistinct(current, |current|, FoundList(numRecords == |data|, added + newAdded, msus'))
    {
      ghost var top := numRecords == |data|;
      msus' := msus;
      newAdded := [];
      assert added + newAdded == added;
      assert old(result.registrations) + newAdded == result.registrations;
      var index := 0;
      while index < |current|
        invariant 0 <= index <= |current|
        invariant result.inits == old(result.inits)
        invariant result.registrations == old(result.registrations) + newAdded
        invariant !top ==> newAdded == []
        invariant LevelSound(data, u, list, maxK, added + newAdded, msus')
        invariant LevelComplete(data, u, list, current, index, maxK, Found(top, added + newAdded, msus'))
        invariant LevelDistinct(current, index, FoundList(top, added + newAdded, msus'))
      {
        msus', newAdded := ScanStep(maxK, list, current, index, numRecords, u, msus', old(result.registrations), added, newAdded);
        index := index + 1;
      }
    }

    /** One pass of the loop over the reference items: the candidates of the item at `index`, then their processing. */
    method ScanStep(maxK: int, list: seq<ItemValue>, current: seq<ItemValue>, index: int, numRecords: int,
                    ghost u: set<int>, msus: seq<seq<ItemValue>>, ghost start: seq<Registration>,
                    ghost added: seq<Registration>, ghost newAdded: seq<Registration>)
      returns (msus': seq<seq<ItemValue>>, ghost newAdded': seq<Registration>)
      requires result != null && !stop && maxK >= 2 && 0 <= index < |current|
      requires RowIdsOf(data, u) && |u| <= numRecords <= |data|
      requires Descends(data, u, list, numRecords, current)
      requires result.registrations == start + newAdded
      requires LevelSound(data, u, list, maxK, added + newAdded, msus)
      requires LevelComplete(data, u, list, current, index, maxK, Found(numRecords == |data|, added + newAdded, msus))
      requires LevelDistinct(current, index, FoundList(numRecords == |data|, added + newAdded, msus))
      modifies result
      decreases maxK, 1
      ensures result.inits == old(result.inits)
      ensures result.registrations == start + newAdded'
      ensures numRecords != |data| ==> newAdded' == newAdded
      ensures LevelSound(data, u, list, maxK, added + newAdded', msus')
      ensures LevelComplete(data, u, list, current, index + 1, maxK, Found(numRecords == |data|, added + newAdded', msus'))
      ensures LevelDistinct(current, index + 1, FoundList(numRecords == |data|, added + newAdded', msus'))
    {
      ghost var top := numRecords == |data|;
      var ref := current[index];
      var upperLimit := Min(Min(maxK - 1, |current| - (index + 1)), |ref.rows| - 1);
      var cands := Candidates(maxK, current, index, upperLimit, numRecords, u);
      ghost var regs := if top then Reported(Accepted(data, current, cands, ref), ref) else [];
      StepKeeps(data, u, list, numRecords, current, index, maxK, upperLimit, cands, added + newAdded, msus,
                regs, msus + if top then [] else Extensions(Accepted(data, current, cands, ref), ref));
      SeqAssoc(start, newAdded, regs);
      SeqAssoc(added, newAdded, regs);
      newAdded' := newAdded + regs;
      msus' := ProcessCandidates(current, ref, cands, numRecords, msus);
    }
  }
}
