/**
 * `SUDA2IndexedItemSet` (src/main/de/linearbits/suda2/SUDA2IndexedItemSet.java):
 * the catalogue of items while the initial state is built, an `ItemIndex`
 * from item id to item. Every stored item sits under its own id.
 */
module IndexedItemSets {
  import opened Rows
  import opened Items
  import opened Probing
  import opened Sorting
  import opened ItemObjects
  import opened ItemIndexes
  import opened ItemLists

  /** A used slot of the index holds the item of that slot's key, and no other slot does. */
  lemma {:induction false} PresentCount(keys: seq<int>, values: seq<Item?>)
    requires |keys| == |values|
    ensures |Present(values)| == Occupied(KeySlots(keys, values))
  {
    if values != [] {
      PresentCount(keys[1..], values[1..]);
      assert KeySlots(keys, values)[1..] == KeySlots(keys[1..], values[1..]);
    }
  }

  class IndexedItemSet {
    const items: ItemIndex

    ghost function Repr(): set<object>
      reads this, items
    {
      {this} + items.Repr()
    }

    /** The items by id. */
    ghost function Contents(): map<int, Item>
      reads this, items
    {
      items.contents
    }

    ghost predicate Valid()
      reads this, items, items.keys, items.values
    {
      && items.Valid()
      && forall id :: id in items.contents ==> items.contents[id].id == id
    }

    /** A new catalogue: no items. */
    constructor (seed: int)
      ensures Valid() && Contents() == map[] && fresh(Repr())
    {
      items := new ItemIndex(seed);
    }

    /** `addItem(item)`: stores the item under its id; an item already stored under that id stays. */
    method AddItem(item: Item)
      requires Valid()
      modifies items.Repr()
      ensures Valid()
      ensures Contents() == if item.id in old(Contents()) then old(Contents()) else old(Contents())[item.id := item]
      ensures fresh(items.Repr() - old(items.Repr()))
    {
      items.Put(item.id, item);
    }

    /** `getItem(id)`: the item with that id, or null. */
    method GetItem(id: int) returns (r: Item?)
      requires Valid()
      ensures r == if id in Contents() then Contents()[id] else null
      ensures r != null ==> r.id == id
    {
      r := items.Get(id);
    }

    /**
     * `getOrCreateItem(column, value)`: the stored item of the pair, or a
     * new item without rows stored under the pair's id. `rowSeed` seeds the
     * hash of the new item's row set.
     */
    method GetOrCreateItem(column: int, value: int, rowSeed: int) returns (r: Item)
      requires Valid() && IsInt32(column) && IsInt32(value)
      modifies items.Repr()
      ensures Valid() && fresh(items.Repr() - old(items.Repr()))
      ensures r.id == GetId(column, value)
      ensures GetId(column, value) in Contents() && Contents()[GetId(column, value)] == r
      ensures GetId(column, value) in old(Contents()) ==>
        r == old(Contents())[GetId(column, value)] && Contents() == old(Contents())
      ensures GetId(column, value) !in old(Contents()) ==>
        && fresh(r) && r.column == column && r.value == value
        && r.Valid() && r.Value().rows == {} && fresh(r.rows.Repr())
        && Contents() == old(Contents())[GetId(column, value) := r]
    {
      var id := GetId(column, value);
      var slot := items.GetSlot(id);
      if slot >= 0 {
        r := items.values[slot];
      } else {
        r := new Item(column, value, id, rowSeed);
        items.PutSlot(id, -(slot + 1), r);
      }
    }

    /**
     * `getItemList()`: every stored item once, collected in slot order and
     * then stably sorted by ascending support. `supports` are the supports
     * the comparator reads, in slot order.
     */
    method GetItemList() returns (list: seq<Item>, ghost supports: seq<int>)
      requires Valid()
      requires forall it :: it in Contents().Values ==> it.Valid()
      ensures var stored := Present(items.values[..]);
        && |supports| == |stored|
        && (forall i :: 0 <= i < |stored| ==> supports[i] == stored[i].Value().Support())
        && list == Firsts(SortBy(Zip(stored, supports), Second))
      ensures forall it :: it in list <==> it in Contents().Values
      ensures NoDuplicates(list) && |list| == |Contents()|
      ensures forall i, j :: 0 <= i < j < |list| ==> list[i].Value().Support() <= list[j].Value().Support()
    {
      var stored := Collect(items.values);
      StoredItems();
      list, supports := SortBySupport(stored);
      PermutedNoDuplicates(stored, list);
      PermutedMembers(stored, list);
    }

    /** The items of the used slots are the stored items, each once. */
    lemma StoredItems()
      requires Valid()
      ensures var stored := Present(items.values[..]);
        && (forall it :: it in stored <==> it in Contents().Values)
        && NoDuplicates(stored) && |stored| == |Contents()|
    {
      var keys, values := items.keys[..], items.values[..];
      DistinctItems(keys, values, items.contents);
      PresentNoDuplicates(values);
      PresentCount(keys, values);
      DistinctCount(KeySlots(keys, values));
      StoredValues(keys, values, items.contents);
    }
  }

  /** Slots with different keys hold different items when every item sits under its own id. */
  lemma DistinctItems(keys: seq<int>, values: seq<Item?>, m: map<int, Item>)
    requires |keys| == |values| && Distinct(KeySlots(keys, values)) && Maps(keys, values, m)
    requires forall id :: id in m ==> m[id].id == id
    ensures forall i, j :: 0 <= i < j < |values| && values[i] != null ==> values[i] != values[j]
  {
    var t := KeySlots(keys, values);
    forall i, j | 0 <= i < j < |values| && values[i] != null
      ensures values[i] != values[j]
    {
      if values[j] != null {
        assert values[i].id == keys[i] && values[j].id == keys[j];
        assert !Twice(t, i, j);
      }
    }
  }

  /** The items of the used slots are the values of the map the slots stand for. */
  lemma StoredValues(keys: seq<int>, values: seq<Item?>, m: map<int, Item>)
    requires |keys| == |values| && Maps(keys, values, m)
    ensures forall it :: it in Present(values) <==> it in m.Values
  {
    PresentMembers(values);
    forall it: Item | it in values ensures it in m.Values {
      var i :| 0 <= i < |values| && values[i] == it;
      assert keys[i] in m && m[keys[i]] == it;
    }
    forall id | id in m ensures m[id] in values {
      StoredValue(keys, values, m, id);
    }
  }

  lemma StoredValue(keys: seq<int>, values: seq<Item?>, m: map<int, Item>, id: int)
    requires |keys| == |values| && Maps(keys, values, m) && id in m
    ensures m[id] in values
  {
    var t := KeySlots(keys, values);
    assert id in Keys(t);
    var i :| 0 <= i < |t| && t[i].Some? && t[i].value == id;
    assert values[i] != null && keys[i] == id;
  }
}
