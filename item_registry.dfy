/**
 * `SUDA2ItemRegistry` (src/main/de/linearbits/suda2/SUDA2ItemRegistry.java):
 * an open-addressing table of items without a key array, probed with
 * `slot = (slot + 1) & mask` from the unseeded 64-bit murmur hash of the
 * item id. `add` does not look for the id first, so one id can be stored
 * more than once; the registry's contents are therefore a multiset of items.
 * `size` counts the calls to `add` and `register`, found or not.
 */
module ItemRegistries {
  import opened Rows
  import opened Items
  import opened Probing
  import opened Sorting
  import opened ItemObjects
  import opened ItemIndexes
  import opened ItemLists

  /** The registry's `hashcode`: the 64-bit finaliser with no seed. */
  const RegistryHash: Hash := Murmur64Of(0)

  /** The slots as the ids of their items. */
  ghost function IdSlots(values: seq<Item?>): (t: seq<Option<int>>)
    ensures |t| == |values|
    ensures forall i :: 0 <= i < |t| ==> t[i] == if values[i] == null then None else Some(values[i].id)
  {
    seq(|values|, i requires 0 <= i < |values| => if values[i] == null then None else Some(values[i].id))
  }

  /** The slot `steps` steps after `home` in a table of `length` slots. */
  function Ahead(home: int, steps: int, length: int): int
  {
    if home + steps < length then home + steps else home + steps - length
  }

  /** `(slot + 1) & mask` steps to the next slot, from the last one to the first. */
  lemma NextSlot(slot: int, length: int)
    requires 0 <= slot < length
    ensures (slot + 1) % length == if slot + 1 == length then 0 else slot + 1
  {
  }

  /**
   * A search that has made `steps` steps from `home` and stands on a used
   * slot, every passed slot used too, has not gone round the table.
   */
  lemma ScanBound(t: seq<Option<int>>, home: int, slot: int, steps: int)
    requires 0 <= home < |t| && 0 <= steps < |t| && slot == Ahead(home, steps, |t|)
    requires t[slot].Some? && Occupied(t) < |t|
    requires forall k :: 0 <= k < |t| && Scanned(home, slot, slot < home, k) ==> t[k].Some?
    ensures steps + 1 < |t|
  {
    if steps + 1 == |t| {
      forall k | 0 <= k < |t| ensures t[k].Some? {
        if k != slot {
          assert Scanned(home, slot, slot < home, k);
        }
      }
      Full(t);
    }
  }

  /**
   * The probe of `add` and of `rehash`: from the key's home slot, step
   * over used slots to the first free one.
   */
  method FreeSlot(values: array<Item?>, ghost log: nat, key: int) returns (slot: int)
    requires values.Length == Pow2(log) && Occupied(IdSlots(values[..])) < values.Length
    ensures 0 <= slot < values.Length && values[slot] == null
    ensures var home := Home(RegistryHash, log, key);
      forall k :: 0 <= k < values.Length && Scanned(home, slot, slot < home, k) ==> values[k] != null
  {
    ghost var t := IdSlots(values[..]);
    var home := HomeSlot(values.Length, log, 0, key);
    slot := home;
    ghost var steps := 0;
    while values[slot] != null
      invariant 0 <= steps < values.Length && slot == Ahead(home, steps, values.Length)
      invariant forall k :: 0 <= k < values.Length && Scanned(home, slot, slot < home, k) ==> values[k] != null
      decreases values.Length - steps
    {
      ScanBound(t, home, slot, steps);
      NextSlot(slot, values.Length);
      slot := (slot + 1) % values.Length;
      steps := steps + 1;
    }
  }

  /**
   * The probe of `get` and `register`: from the key's home slot, step over
   * used slots holding other ids to a free slot or to an item with the id.
   */
  method FindSlot(values: array<Item?>, ghost log: nat, key: int) returns (slot: int)
    requires values.Length == Pow2(log) && Occupied(IdSlots(values[..])) < values.Length
    ensures 0 <= slot < values.Length
    ensures values[slot] != null ==> values[slot].id == key
    ensures var home := Home(RegistryHash, log, key);
      forall k :: 0 <= k < values.Length && Scanned(home, slot, slot < home, k) ==>
        values[k] != null && values[k].id != key
  {
    ghost var t := IdSlots(values[..]);
    var home := HomeSlot(values.Length, log, 0, key);
    slot := home;
    ghost var steps := 0;
    while values[slot] != null && values[slot].id != key
      invariant 0 <= steps < values.Length && slot == Ahead(home, steps, values.Length)
      invariant forall k :: 0 <= k < values.Length && Scanned(home, slot, slot < home, k) ==>
        values[k] != null && values[k].id != key
      decreases values.Length - steps
    {
      ScanBound(t, home, slot, steps);
      NextSlot(slot, values.Length);
      slot := (slot + 1) % values.Length;
      steps := steps + 1;
    }
  }

  /** The ids of the stored items. */
  ghost function StoredIds(values: seq<Item?>): set<int>
  {
    Keys(IdSlots(values))
  }

  /** Storing an item in a free slot found by probing keeps every item reachable. */
  lemma Stored(values: seq<Item?>, log: nat, item: Item, slot: int)
    requires Probed(IdSlots(values), RegistryHash, log)
    requires 0 <= slot < |values| && values[slot] == null
    requires var home := Home(RegistryHash, log, item.id);
      forall k :: 0 <= k < |values| && Scanned(home, slot, slot < home, k) ==> values[k] != null
    ensures Probed(IdSlots(values[slot := item]), RegistryHash, log)
    ensures Occupied(IdSlots(values[slot := item])) == Occupied(IdSlots(values)) + 1
    ensures multiset(Present(values[slot := item])) == multiset(Present(values)) + multiset{item}
    ensures StoredIds(values[slot := item]) == StoredIds(values) + {item.id}
  {
    var t := IdSlots(values);
    assert IdSlots(values[slot := item]) == t[slot := Some(item.id)];
    var home := Home(RegistryHash, log, item.id);
    Place(t, RegistryHash, log, item.id, slot, slot < home);
    PresentSet(values, slot, item);
  }

  /** `SUDA2ItemRegistry`. */
  class ItemRegistry {
    var threshold: int
    var values: array<Item?>
    var size: int

    ghost var log: nat

    ghost function Repr(): set<object>
      reads this
    {
      {this, values}
    }

    /** The stored items, with multiplicity. */
    ghost function Items(): multiset<Item>
      reads this, values
    {
      multiset(Present(values[..]))
    }

    /**
     * The table has a power-of-two length of at least 8, probing reaches
     * every item from the home slot of its id, and `size`, which counts
     * every call that may have stored an item, bounds the used slots and
     * stays below the threshold.
     */
    ghost predicate Valid()
      reads this, values
    {
      && log >= 3 && values.Length == Pow2(log)
      && threshold == Threshold(values.Length)
      && Probed(IdSlots(values[..]), RegistryHash, log)
      && Occupied(IdSlots(values[..])) <= size < threshold
    }

    /** `SUDA2ItemRegistry()`: an empty table of 8 slots. */
    constructor ()
      ensures Valid() && Items() == multiset{} && size == 0 && fresh(Repr())
    {
      values := new Item?[8](_ => null);
      threshold := Threshold(8);
      size := 0;
      log := 3;
      new;
      EmptyTable(RegistryHash, 3, IdSlots(values[..]));
      PresentEmpty(values[..]);
    }

    /** `add(item)`: stores the item, even when an item with its id is already stored. */
    method Add(item: Item)
      requires Valid()
      modifies this, values
      ensures Valid() && fresh(Repr() - old(Repr()))
      ensures Items() == old(Items()) + multiset{item}
      ensures StoredIds(values[..]) == old(StoredIds(values[..])) + {item.id}
      ensures size == old(size) + 1
    {
      var slot := FreeSlot(values, log, item.id);
      Put(values, log, item, slot);
      size := size + 1;
      if size == threshold {
        Rehash();
      }
    }

    /** `get(key)`: an item with that id, or null when none is stored. */
    method Get(key: int) returns (r: Item?)
      requires Valid()
      ensures r == null <==> key !in StoredIds(values[..])
      ensures r != null ==> r.id == key && r in Items()
    {
      var slot := FindSlot(values, log, key);
      r := values[slot];
      if r == null {
        ghost var home := Home(RegistryHash, log, key);
        Miss(IdSlots(values[..]), RegistryHash, log, key, slot, slot < home);
      } else {
        PresentHas(values[..], slot);
      }
    }

    /**
     * `register(column, value)`: an item of the pair, stored, or a new item
     * stored under the pair's id (`Registered` states that it has no rows
     * yet). `rowSeed` seeds the hash of the new item's row set. `size`
     * grows either way.
     */
    method Register(column: int, value: int, rowSeed: int) returns (r: Item)
      requires Valid() && IsInt32(column) && IsInt32(value)
      modifies this, values
      ensures Valid() && fresh(Repr() - old(Repr()))
      ensures r.id == GetId(column, value) && r in Items()
      ensures GetId(column, value) in old(StoredIds(values[..])) ==> r in old(Items()) && Items() == old(Items())
      ensures GetId(column, value) !in old(StoredIds(values[..])) ==>
        fresh(r) && r.column == column && r.value == value && Items() == old(Items()) + multiset{r}
      ensures StoredIds(values[..]) == old(StoredIds(values[..])) + {GetId(column, value)}
      ensures size == old(size) + 1
    {
      r := Registered(values, log, column, value, rowSeed);
      size := size + 1;
      if size == threshold {
        Rehash();
      }
    }

    /**
     * `getSortedItemList()`: every stored item, collected in slot order and
     * then stably sorted by ascending support. `supports` are the supports
     * the comparator reads, in slot order.
     */
    method GetSortedItemList() returns (list: seq<Item>, ghost supports: seq<int>)
      requires Valid()
      requires forall i :: 0 <= i < values.Length && values[i] != null ==> values[i].Valid()
      ensures var stored := Present(values[..]);
        && |supports| == |stored|
        && (forall i :: 0 <= i < |stored| ==> supports[i] == stored[i].Value().Support())
        && list == Firsts(SortBy(Zip(stored, supports), Second))
      ensures multiset(list) == Items()
      ensures forall i, j :: 0 <= i < j < |list| ==> list[i].Value().Support() <= list[j].Value().Support()
    {
      var stored := Collect(values);
      PresentMembers(values[..]);
      forall it: Item | it in stored ensures it.Valid() {
        assert it in values[..];
      }
      list, supports := SortBySupport(stored);
    }

    /** `rehash()`: the same items in a table of twice the length. */
    method Rehash()
      requires log >= 3 && values.Length == Pow2(log)
      requires Probed(IdSlots(values[..]), RegistryHash, log)
      requires Occupied(IdSlots(values[..])) <= size == Threshold(values.Length)
      modifies this
      ensures Valid() && Items() == old(Items()) && StoredIds(values[..]) == old(StoredIds(values[..]))
      ensures size == old(size) && fresh(values) && values.Length == 2 * old(values.Length)
    {
      ThresholdGrows(values.Length);
      var nv := Relocated(values, log);
      values, threshold, log := nv, Threshold(nv.Length), log + 1;
    }
  }

  /** The table part of `register`: the item found under the pair's id, or a new one in the free slot reached. */
  method Registered(values: array<Item?>, ghost log: nat, column: int, value: int, rowSeed: int) returns (r: Item)
    requires values.Length == Pow2(log) && Probed(IdSlots(values[..]), RegistryHash, log)
    requires Occupied(IdSlots(values[..])) < values.Length && IsInt32(column) && IsInt32(value)
    modifies values
    ensures Probed(IdSlots(values[..]), RegistryHash, log)
    ensures Occupied(IdSlots(values[..])) <= old(Occupied(IdSlots(values[..]))) + 1
    ensures r.id == GetId(column, value) && r in multiset(Present(values[..]))
    ensures GetId(column, value) in old(StoredIds(values[..])) ==>
      r in old(multiset(Present(values[..]))) && values[..] == old(values[..])
    ensures GetId(column, value) !in old(StoredIds(values[..])) ==>
      && fresh(r) && r.column == column && r.value == value
      && r.Valid() && r.Value().rows == {} && fresh(r.rows.Repr())
      && multiset(Present(values[..])) == old(multiset(Present(values[..]))) + multiset{r}
    ensures StoredIds(values[..]) == old(StoredIds(values[..])) + {GetId(column, value)}
  {
    var key := GetId(column, value);
    var slot := FindSlot(values, log, key);
    if values[slot] == null {
      r := Create(values, log, column, value, rowSeed, slot);
    } else {
      r := values[slot];
      assert IdSlots(values[..])[slot] == Some(key);
      PresentHas(values[..], slot);
    }
  }

  /** The miss of `register`: a new item of the pair in the free slot that probing for its id reached. */
  method Create(values: array<Item?>, ghost log: nat, column: int, value: int, rowSeed: int, slot: int) returns (r: Item)
    requires Probed(IdSlots(values[..]), RegistryHash, log) && IsInt32(column) && IsInt32(value)
    requires 0 <= slot < values.Length && values[slot] == null
    requires var home := Home(RegistryHash, log, GetId(column, value));
      forall k :: 0 <= k < values.Length && Scanned(home, slot, slot < home, k) ==>
        values[k] != null && values[k].id != GetId(column, value)
    modifies values
    ensures GetId(column, value) !in old(StoredIds(values[..]))
    ensures Probed(IdSlots(values[..]), RegistryHash, log)
    ensures Occupied(IdSlots(values[..])) == old(Occupied(IdSlots(values[..]))) + 1
    ensures fresh(r) && r.id == GetId(column, value) && r.column == column && r.value == value
    ensures r.Valid() && r.Value().rows == {} && fresh(r.rows.Repr())
    ensures multiset(Present(values[..])) == old(multiset(Present(values[..]))) + multiset{r}
    ensures StoredIds(values[..]) == old(StoredIds(values[..])) + {r.id}
  {
    var key := GetId(column, value);
    ghost var home := Home(RegistryHash, log, key);
    Miss(IdSlots(values[..]), RegistryHash, log, key, slot, slot < home);
    r := new Item(column, value, key, rowSeed);
    Put(values, log, r, slot);
  }

  /** Stores `item` in the free slot `slot` that probing for its id reached. */
  method Put(values: array<Item?>, ghost log: nat, item: Item, slot: int)
    requires Probed(IdSlots(values[..]), RegistryHash, log)
    requires 0 <= slot < values.Length && values[slot] == null
    requires var home := Home(RegistryHash, log, item.id);
      forall k :: 0 <= k < values.Length && Scanned(home, slot, slot < home, k) ==> values[k] != null
    modifies values
    ensures values[..] == old(values[..])[slot := item]
    ensures Probed(IdSlots(values[..]), RegistryHash, log)
    ensures Occupied(IdSlots(values[..])) == old(Occupied(IdSlots(values[..]))) + 1
    ensures multiset(Present(values[..])) == old(multiset(Present(values[..]))) + multiset{item}
    ensures StoredIds(values[..]) == old(StoredIds(values[..])) + {item.id}
    ensures item in multiset(Present(values[..]))
  {
    Stored(values[..], log, item, slot);
    values[slot] := item;
    PresentHas(values[..], slot);
  }

  /** The loop of `rehash`: every item, from the last slot down, into a table of twice the length. */
  method Relocated(values: array<Item?>, ghost log: nat) returns (nv: array<Item?>)
    requires values.Length == Pow2(log)
    ensures fresh(nv) && nv.Length == 2 * values.Length
    ensures Probed(IdSlots(nv[..]), RegistryHash, log + 1)
    ensures Occupied(IdSlots(nv[..])) == Occupied(IdSlots(values[..]))
    ensures StoredIds(nv[..]) == StoredIds(values[..])
    ensures multiset(Present(nv[..])) == multiset(Present(values[..]))
  {
    ghost var t := IdSlots(values[..]);
    nv := new Item?[2 * values.Length](_ => null);
    EmptyTable(RegistryHash, log + 1, IdSlots(nv[..]));
    PresentEmpty(nv[..]);
    NoneOccupied(IdSlots(nv[..]));
    assert values[values.Length..] == [] && t[values.Length..] == [];
    var i := values.Length - 1;
    while i >= 0
      invariant -1 <= i < values.Length && nv.Length == 2 * values.Length
      invariant Probed(IdSlots(nv[..]), RegistryHash, log + 1)
      invariant Occupied(IdSlots(nv[..])) == Occupied(t[i + 1..])
      invariant StoredIds(nv[..]) == Keys(t[i + 1..])
      invariant multiset(Present(nv[..])) == multiset(Present(values[i + 1..]))
    {
      MoveSlot(values, nv, log, i);
      i := i - 1;
    }
    assert values[0..] == values[..] && t[0..] == t;
  }

  /** One step of `rehash`: the item of slot `i`, if any, into the new table. */
  method MoveSlot(values: array<Item?>, nv: array<Item?>, ghost log: nat, i: int)
    requires nv != values && 0 <= i < values.Length && nv.Length == 2 * values.Length
    requires nv.Length == Pow2(log + 1) && Probed(IdSlots(nv[..]), RegistryHash, log + 1)
    requires Occupied(IdSlots(nv[..])) == Occupied(IdSlots(values[..])[i + 1..])
    requires StoredIds(nv[..]) == Keys(IdSlots(values[..])[i + 1..])
    requires multiset(Present(nv[..])) == multiset(Present(values[i + 1..]))
    modifies nv
    ensures Probed(IdSlots(nv[..]), RegistryHash, log + 1)
    ensures Occupied(IdSlots(nv[..])) == Occupied(IdSlots(values[..])[i..])
    ensures StoredIds(nv[..]) == Keys(IdSlots(values[..])[i..])
    ensures multiset(Present(nv[..])) == multiset(Present(values[i..]))
  {
    ghost var before := nv[..];
    Transfer(nv, log + 1, values[i]);
    RelocateStep(values[..], before, nv[..], i);
  }

  /**
   * The loop invariant of `rehash` steps from slot `i + 1` down to slot `i`
   * when the step stores the item of slot `i`, if any, in the new table.
   */
  lemma RelocateStep(values: seq<Item?>, before: seq<Item?>, after: seq<Item?>, i: int)
    requires 0 <= i < |values|
    requires var t := IdSlots(values);
      && Occupied(IdSlots(before)) == Occupied(t[i + 1..])
      && StoredIds(before) == Keys(t[i + 1..])
      && multiset(Present(before)) == multiset(Present(values[i + 1..]))
    requires Occupied(IdSlots(after)) == Occupied(IdSlots(before)) + (if values[i] != null then 1 else 0)
    requires StoredIds(after) == StoredIds(before) + (if values[i] != null then {values[i].id} else {})
    requires multiset(Present(after)) ==
      multiset(Present(before)) + (if values[i] != null then multiset{values[i]} else multiset{})
    ensures var t := IdSlots(values);
      && Occupied(IdSlots(after)) == Occupied(t[i..])
      && StoredIds(after) == Keys(t[i..])
      && multiset(Present(after)) == multiset(Present(values[i..]))
  {
    KeysSuffix(IdSlots(values), i);
    assert values[i..][1..] == values[i + 1..] && values[i..][0] == values[i];
  }

  /** One step of `rehash`: the item of a slot of the old table, if any, into the new table. */
  method Transfer(nv: array<Item?>, ghost log: nat, item: Item?)
    requires nv.Length == Pow2(log) && Probed(IdSlots(nv[..]), RegistryHash, log)
    requires item != null ==> Occupied(IdSlots(nv[..])) < nv.Length
    modifies nv
    ensures Probed(IdSlots(nv[..]), RegistryHash, log)
    ensures Occupied(IdSlots(nv[..])) == old(Occupied(IdSlots(nv[..]))) + (if item != null then 1 else 0)
    ensures StoredIds(nv[..]) == old(StoredIds(nv[..])) + (if item != null then {item.id} else {})
    ensures multiset(Present(nv[..])) ==
      old(multiset(Present(nv[..]))) + (if item != null then multiset{item} else multiset{})
  {
    if item != null {
      var slot := FreeSlot(nv, log, item.id);
      Put(nv, log, item, slot);
    }
  }
}
