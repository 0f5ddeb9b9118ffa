/**
 * `SUDA2ItemIndex` (src/main/de/linearbits/suda2/SUDA2ItemIndex.java): a map
 * from `long` ids to items kept in two parallel arrays, `keys` and `values`,
 * with open addressing and linear probing. A slot is free when its value is
 * null. The table starts with 8 slots and doubles when the number of keys
 * reaches three quarters of its length.
 *
 * The seed of the hash comes from `System.nanoTime()`; here it is a
 * constructor parameter, and nothing below depends on its value.
 */
module ItemIndexes {
  import opened Rows
  import opened Probing
  import opened ItemObjects

  /** The slots of the table as optional keys: a slot is used when its value is not null. */
  ghost function KeySlots(keys: seq<int>, values: seq<Item?>): (t: seq<Option<int>>)
    requires |keys| == |values|
    ensures |t| == |keys|
    ensures forall i :: 0 <= i < |t| ==> t[i] == if values[i] == null then None else Some(keys[i])
  {
    seq(|keys|, i requires 0 <= i < |keys| => if values[i] == null then None else Some(keys[i]))
  }

  /** Probing reaches every key of the table, and no key is stored twice. */
  ghost predicate Indexed(keys: seq<int>, values: seq<Item?>, log: nat, seed: int)
  {
    && |keys| == |values|
    && Probed(KeySlots(keys, values), Murmur64Of(seed), log)
    && Distinct(KeySlots(keys, values))
  }

  /** The table stands for the map `m`: its keys are the used slots' keys, each with its slot's item. */
  ghost predicate Maps(keys: seq<int>, values: seq<Item?>, m: map<int, Item>)
    requires |keys| == |values|
  {
    && m.Keys == Keys(KeySlots(keys, values))
    && forall i :: 0 <= i < |values| && values[i] != null ==> keys[i] in m && m[keys[i]] == values[i]
  }

  /** The part of `m` whose keys are in `s`. */
  ghost function Restrict(m: map<int, Item>, s: set<int>): (r: map<int, Item>)
    ensures r.Keys == m.Keys * s
  {
    map k | k in m && k in s :: m[k]
  }

  /** `hashcode(key) & mask` for a table of `2^log` slots. */
  method HomeSlot(length: int, ghost log: nat, seed: int, key: int) returns (slot: int)
    requires length == Pow2(log)
    ensures slot == Home(Murmur64Of(seed), log, key) && 0 <= slot < length
  {
    var hash := Murmur64(seed, key);
    slot := hash % length;
    LowBitsMod(hash, log);
  }

  /** The writes of a successful `put`: `key` and `value` into the vacant slot `i`. */
  method Write(keys: array<int>, values: array<Item?>, ghost log: nat, seed: int, ghost m: map<int, Item>,
               key: int, value: Item, i: int)
    requires keys.Length == values.Length
    requires Indexed(keys[..], values[..], log, seed) && Maps(keys[..], values[..], m)
    requires Vacant(KeySlots(keys[..], values[..]), Murmur64Of(seed), log, key, i)
    modifies keys, values
    ensures key !in m
    ensures Indexed(keys[..], values[..], log, seed) && Maps(keys[..], values[..], m[key := value])
    ensures Occupied(KeySlots(keys[..], values[..])) == Occupied(KeySlots(old(keys[..]), old(values[..]))) + 1
  {
    ghost var t := KeySlots(keys[..], values[..]);
    FillSlot(t, Murmur64Of(seed), log, key, i);
    values[i] := value;
    keys[i] := key;
    assert KeySlots(keys[..], values[..]) == t[i := Some(key)];
    forall j | 0 <= j < values.Length && values[j] != null
      ensures keys[j] in m[key := value] && m[key := value][keys[j]] == values[j]
    {
      if j != i {
        assert t[j] == Some(keys[j]);
      }
    }
  }

  /**
   * The private `put(keys, values, key, hash, value)`: probe from the home
   * slot, wrapping around once; stop at the key (nothing is written, the
   * first value stays) or at the first free slot (write the pair there). The
   * final throw cannot be reached while a slot is free.
   */
  method PutInto(keys: array<int>, values: array<Item?>, ghost log: nat, seed: int, ghost m: map<int, Item>,
                 key: int, value: Item) returns (added: bool)
    requires keys.Length == values.Length
    requires Indexed(keys[..], values[..], log, seed) && Maps(keys[..], values[..], m)
    requires Occupied(KeySlots(keys[..], values[..])) < keys.Length
    modifies keys, values
    ensures added <==> key !in m
    ensures added ==> Indexed(keys[..], values[..], log, seed) && Maps(keys[..], values[..], m[key := value])
    ensures added ==> Occupied(KeySlots(keys[..], values[..])) == Occupied(KeySlots(old(keys[..]), old(values[..]))) + 1
    ensures !added ==> keys[..] == old(keys[..]) && values[..] == old(values[..])
  {
    ghost var t := KeySlots(keys[..], values[..]);
    var slot := HomeSlot(keys.Length, log, seed, key);
    var i := slot;
    while i < keys.Length
      invariant slot <= i <= keys.Length
      invariant forall k :: 0 <= k < |t| && Scanned(slot, i, false, k) ==> t[k].Some? && t[k] != Some(key)
    {
      if values[i] != null && keys[i] == key {
        return false;
      } else if values[i] == null {
        Write(keys, values, log, seed, m, key, value, i);
        return true;
      }
      i := i + 1;
    }
    i := 0;
    while i < slot
      invariant 0 <= i <= slot
      invariant forall k :: 0 <= k < |t| && Scanned(slot, i, true, k) ==> t[k].Some? && t[k] != Some(key)
    {
      if values[i] != null && keys[i] == key {
        return false;
      } else if values[i] == null {
        Write(keys, values, log, seed, m, key, value, i);
        return true;
      }
      i := i + 1;
    }
    Full(t);
    assert false;
  }

  /**
   * The loop of `rehash()`: tables of twice the length, filled by putting
   * the pairs from the last slot down to the first.
   */
  method Rehashed(keys: array<int>, values: array<Item?>, ghost log: nat, seed: int, ghost m: map<int, Item>)
    returns (nk: array<int>, nv: array<Item?>)
    requires keys.Length == values.Length == Pow2(log)
    requires Indexed(keys[..], values[..], log, seed) && Maps(keys[..], values[..], m)
    ensures fresh(nk) && fresh(nv) && nk.Length == nv.Length == 2 * keys.Length
    ensures Indexed(nk[..], nv[..], log + 1, seed) && Maps(nk[..], nv[..], m)
    ensures Occupied(KeySlots(nk[..], nv[..])) == Occupied(KeySlots(keys[..], values[..]))
  {
    ghost var t := KeySlots(keys[..], values[..]);
    nk := new int[2 * keys.Length](_ => 0);
    nv := new Item?[2 * keys.Length](_ => null);
    EmptyTable(Murmur64Of(seed), log + 1, KeySlots(nk[..], nv[..]));
    assert t[keys.Length..] == [];
    var i := keys.Length - 1;
    while i >= 0
      invariant -1 <= i < keys.Length
      invariant nk.Length == nv.Length == 2 * keys.Length
      invariant Indexed(nk[..], nv[..], log + 1, seed)
      invariant Maps(nk[..], nv[..], Restrict(m, Keys(t[i + 1..])))
      invariant Occupied(KeySlots(nk[..], nv[..])) == Occupied(t[i + 1..])
    {
      Move(keys, values, nk, nv, log, seed, m, i);
      i := i - 1;
    }
    assert t[0..] == t;
    assert Restrict(m, Keys(t)) == m;
  }

  /** One step of `Rehashed`: puts the pair of slot `i`, if any, into the new tables. */
  method Move(keys: array<int>, values: array<Item?>, nk: array<int>, nv: array<Item?>, ghost log: nat, seed: int,
              ghost m: map<int, Item>, i: int)
    requires keys.Length == values.Length && 0 <= i < keys.Length
    requires nk.Length == nv.Length == 2 * keys.Length
    requires Indexed(keys[..], values[..], log, seed) && Maps(keys[..], values[..], m)
    requires Indexed(nk[..], nv[..], log + 1, seed)
    requires Maps(nk[..], nv[..], Restrict(m, Keys(KeySlots(keys[..], values[..])[i + 1..])))
    requires Occupied(KeySlots(nk[..], nv[..])) == Occupied(KeySlots(keys[..], values[..])[i + 1..])
    modifies nk, nv
    ensures Indexed(nk[..], nv[..], log + 1, seed)
    ensures Maps(nk[..], nv[..], Restrict(m, Keys(KeySlots(keys[..], values[..])[i..])))
    ensures Occupied(KeySlots(nk[..], nv[..])) == Occupied(KeySlots(keys[..], values[..])[i..])
  {
    ghost var t := KeySlots(keys[..], values[..]);
    KeysSuffix(t, i);
    if values[i] != null {
      NotLater(t, i);
      ghost var before := Restrict(m, Keys(t[i + 1..]));
      var _ := PutInto(nk, nv, log + 1, seed, before, keys[i], values[i]);
      assert before[keys[i] := values[i]] == Restrict(m, Keys(t[i..]));
    } else {
      assert Restrict(m, Keys(t[i + 1..])) == Restrict(m, Keys(t[i..]));
    }
  }

  /** `SUDA2ItemIndex`. */
  class ItemIndex {
    const seed: int
    var threshold: int
    var keys: array<int>
    var values: array<Item?>
    var size: int
    /** The table has `2^log` slots. */
    ghost var log: nat
    /** The map the table stands for. */
    ghost var contents: map<int, Item>

    ghost function Repr(): set<object>
      reads this
    {
      {this, keys, values}
    }

    /** The slots as optional keys. */
    ghost function Slots(): seq<Option<int>>
      reads this, keys, values
      requires keys.Length == values.Length
    {
      KeySlots(keys[..], values[..])
    }

    /**
     * The arrays have the same power-of-two length of at least 8, probing
     * reaches every key, `size` counts the keys and stays below the
     * threshold (so a slot is always free), and the table stands for
     * `contents`.
     */
    ghost predicate Valid()
      reads this, keys, values
    {
      && log >= 3 && keys.Length == values.Length == Pow2(log)
      && threshold == Threshold(keys.Length)
      && Indexed(keys[..], values[..], log, seed)
      && Maps(keys[..], values[..], contents)
      && size == Occupied(Slots()) && size < threshold
    }

    /** `SUDA2ItemIndex()`: an empty map with 8 slots. */
    constructor (seed: int)
      ensures Valid() && contents == map[] && size == 0 && keys.Length == 8
      ensures this.seed == seed && fresh(Repr())
    {
      this.seed := seed;
      keys := new int[8](_ => 0);
      values := new Item?[8](_ => null);
      threshold := Threshold(8);
      size := 0;
      log := 3;
      contents := map[];
      new;
      EmptyTable(Murmur64Of(seed), 3, KeySlots(keys[..], values[..]));
    }

    /** A full table contradicts a size below the threshold. */
    lemma NotFull()
      requires Valid()
      ensures Occupied(Slots()) < keys.Length
    {
    }

    /** `get(key)`: the item stored under `key`, or null. */
    method Get(key: int) returns (r: Item?)
      requires Valid()
      ensures r == if key in contents then contents[key] else null
    {
      ghost var t := Slots();
      var slot := HomeSlot(keys.Length, log, seed, key);
      var i := slot;
      while i < keys.Length
        invariant slot <= i <= keys.Length
        invariant forall k :: 0 <= k < |t| && Scanned(slot, i, false, k) ==> t[k].Some? && t[k] != Some(key)
      {
        if values[i] != null && keys[i] == key {
          return values[i];
        } else if values[i] == null {
          Miss(t, Murmur64Of(seed), log, key, i, false);
          return null;
        }
        i := i + 1;
      }
      i := 0;
      while i < slot
        invariant 0 <= i <= slot
        invariant forall k :: 0 <= k < |t| && Scanned(slot, i, true, k) ==> t[k].Some? && t[k] != Some(key)
      {
        if values[i] != null && keys[i] == key {
          return values[i];
        } else if values[i] == null {
          Miss(t, Murmur64Of(seed), log, key, i, true);
          return null;
        }
        i := i + 1;
      }
      Full(t);
      assert false;
    }

    /**
     * `getSlot(key)`: the slot holding `key`, or `-(i + 1)` for the free
     * slot `i` where its search stopped, the slot `putSlot` must be given.
     */
    method GetSlot(key: int) returns (slot: int)
      requires Valid()
      ensures 0 <= slot ==> slot < values.Length && values[slot] != null && keys[slot] == key
      ensures 0 <= slot ==> key in contents && contents[key] == values[slot]
      ensures slot < 0 ==> key !in contents && Vacant(Slots(), Murmur64Of(seed), log, key, -(slot + 1))
    {
      ghost var t := Slots();
      var home := HomeSlot(keys.Length, log, seed, key);
      var i := home;
      while i < keys.Length
        invariant home <= i <= keys.Length
        invariant forall k :: 0 <= k < |t| && Scanned(home, i, false, k) ==> t[k].Some? && t[k] != Some(key)
      {
        if values[i] != null && keys[i] == key {
          return i;
        } else if values[i] == null {
          FillSlot(t, Murmur64Of(seed), log, key, i);
          return -(i + 1);
        }
        i := i + 1;
      }
      i := 0;
      while i < home
        invariant 0 <= i <= home
        invariant forall k :: 0 <= k < |t| && Scanned(home, i, true, k) ==> t[k].Some? && t[k] != Some(key)
      {
        if values[i] != null && keys[i] == key {
          return i;
        } else if values[i] == null {
          FillSlot(t, Murmur64Of(seed), log, key, i);
          return -(i + 1);
        }
        i := i + 1;
      }
      Full(t);
      assert false;
    }

    /**
     * `put(key, value)`: a new key is stored with its value and counted; for
     * a key already present nothing changes, the first value stays. The table
     * doubles when the count reaches the threshold.
     */
    method Put(key: int, value: Item)
      requires Valid()
      modifies this, keys, values
      ensures Valid()
      ensures contents == if key in old(contents) then old(contents) else old(contents)[key := value]
      ensures size == old(size) + if key in old(contents) then 0 else 1
      ensures fresh(Repr() - old(Repr()))
    {
      var added := PutInto(keys, values, log, seed, contents, key, value);
      if added {
        contents := contents[key := value];
      }
      size := size + if added then 1 else 0;
      if size == threshold {
        Rehash();
      }
    }

    /**
     * `putSlot(key, slot, value)`: writes the pair into `slot` and counts it,
     * doubling the table at the threshold. The slot must be the one a
     * `getSlot(key)` on the current table reported as free.
     */
    method PutSlot(key: int, slot: int, value: Item)
      requires Valid() && Vacant(Slots(), Murmur64Of(seed), log, key, slot)
      modifies this, keys, values
      ensures Valid()
      ensures key !in old(contents) && contents == old(contents)[key := value]
      ensures size == old(size) + 1
      ensures fresh(Repr() - old(Repr()))
    {
      Write(keys, values, log, seed, contents, key, value, slot);
      contents := contents[key := value];
      size := size + 1;
      if size == threshold {
        Rehash();
      }
    }

    /** `rehash()`: the same pairs in tables of twice the length. */
    method Rehash()
      requires log >= 3 && keys.Length == values.Length == Pow2(log)
      requires Indexed(keys[..], values[..], log, seed) && Maps(keys[..], values[..], contents)
      requires size == Occupied(Slots()) == Threshold(keys.Length)
      modifies this
      ensures Valid() && contents == old(contents) && size == old(size)
      ensures fresh(keys) && fresh(values) && keys.Length == 2 * old(keys.Length)
    {
      ThresholdGrows(keys.Length);
      var nk, nv := Rehashed(keys, values, log, seed, contents);
      keys := nk;
      values := nv;
      threshold := Threshold(nk.Length);
      log := log + 1;
    }
  }
}
