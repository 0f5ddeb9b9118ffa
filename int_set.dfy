/**
 * `SUDA2IntSet` (src/main/de/linearbits/suda2/SUDA2IntSet.java): a set of
 * non-zero `int`s in an open-addressing table with linear probing, 0 marking
 * a free slot. The table starts with 8 slots and doubles whenever the number
 * of elements reaches three quarters of its length. The probing code is
 * shared with `SUDA2IntSetHash`, which repeats it.
 *
 * The seed of the hash comes from `System.nanoTime()`; here it is a
 * constructor parameter, and nothing below depends on its value.
 */
module IntSets {
  import opened Rows
  import opened Probing

  /** An `int[]` table whose elements are all reachable from their home slots. */
  ghost predicate ProbeTable(b: seq<int>, log: nat, seed: int)
  {
    Probed(IntSlots(b), Murmur32Of(seed), log) && Distinct(IntSlots(b))
  }

  /** The non-zero values stored in an `int[]` table. */
  ghost function Values(b: seq<int>): set<int>
  {
    Keys(IntSlots(b))
  }

  /** The number of used slots of an `int[]` table. */
  function Used(b: seq<int>): nat
  {
    Occupied(IntSlots(b))
  }

  /** `new int[length]`: every slot free. */
  method Zeros(length: nat) returns (b: array<int>)
    ensures fresh(b) && b.Length == length && forall i :: 0 <= i < length ==> b[i] == 0
  {
    b := new int[length](_ => 0);
  }

  /** `hashcode(value) & (buckets.length - 1)` for a table of `2^log` slots. */
  method HomeSlot(b: array<int>, ghost log: nat, seed: int, value: int) returns (slot: int)
    requires b.Length == Pow2(log)
    ensures slot == Home(Murmur32Of(seed), log, value) && 0 <= slot < b.Length
  {
    var hash := Murmur32(seed, value);
    slot := hash % b.Length;
    LowBitsMod(hash, log);
  }

  /**
   * The private `add(buckets, value, hash)`: probe from the home slot,
   * wrapping around once; stop at the value (nothing to do) or at the first
   * free slot (store it there). Adding 0 finds a "0" at the first free slot
   * and so changes nothing. The final throw cannot be reached while a slot is
   * free.
   */
  method Store(b: array<int>, ghost log: nat, seed: int, value: int) returns (added: bool)
    requires ProbeTable(b[..], log, seed) && Used(b[..]) < b.Length
    modifies b
    ensures added <==> value != 0 && value !in Values(old(b[..]))
    ensures added ==> ProbeTable(b[..], log, seed) && Values(b[..]) == Values(old(b[..])) + {value}
    ensures added ==> Used(b[..]) == Used(old(b[..])) + 1
    ensures !added ==> b[..] == old(b[..])
  {
    var slot := HomeSlot(b, log, seed, value);
    var i := slot;
    while i < b.Length
      invariant slot <= i <= b.Length
      invariant forall k :: 0 <= k < b.Length && Scanned(slot, i, false, k) ==> b[k] != 0 && b[k] != value
    {
      if b[i] == value {
        IntSlotsKeys(b[..]);
        return false;
      } else if b[i] == 0 {
        Stored(b, log, seed, value, i, false);
        return true;
      }
      i := i + 1;
    }
    i := 0;
    while i < slot
      invariant 0 <= i <= slot
      invariant forall k :: 0 <= k < b.Length && Scanned(slot, i, true, k) ==> b[k] != 0 && b[k] != value
    {
      if b[i] == value {
        IntSlotsKeys(b[..]);
        return false;
      } else if b[i] == 0 {
        Stored(b, log, seed, value, i, true);
        return true;
      }
      i := i + 1;
    }
    Full(IntSlots(b[..]));
    assert false;
  }

  /** Writes `value` into the free slot `i` its search reached. */
  method Stored(b: array<int>, ghost log: nat, seed: int, value: int, i: int, ghost wrapped: bool)
    requires ProbeTable(b[..], log, seed)
    requires 0 <= i < b.Length && b[i] == 0 && value != 0
    requires wrapped ==> i < Home(Murmur32Of(seed), log, value)
    requires !wrapped ==> Home(Murmur32Of(seed), log, value) <= i
    requires forall k :: 0 <= k < b.Length && Scanned(Home(Murmur32Of(seed), log, value), i, wrapped, k) ==> b[k] != 0 && b[k] != value
    modifies b
    ensures value !in Values(old(b[..]))
    ensures ProbeTable(b[..], log, seed) && Values(b[..]) == Values(old(b[..])) + {value}
    ensures Used(b[..]) == Used(old(b[..])) + 1
  {
    Miss(IntSlots(b[..]), Murmur32Of(seed), log, value, i, wrapped);
    Place(IntSlots(b[..]), Murmur32Of(seed), log, value, i, wrapped);
    IntSlotsUpdate(b[..], i, value);
    b[i] := value;
  }

  /**
   * `contains(value)`: the same probe; true on meeting the value, false on
   * meeting a free slot. Asking for 0 meets a "0" at the first free slot, so
   * 0 is always reported as contained.
   */
  method Lookup(b: array<int>, ghost log: nat, seed: int, value: int) returns (found: bool)
    requires ProbeTable(b[..], log, seed) && Used(b[..]) < b.Length
    ensures found <==> value == 0 || value in Values(b[..])
  {
    var slot := HomeSlot(b, log, seed, value);
    IntSlotsKeys(b[..]);
    var i := slot;
    while i < b.Length
      invariant slot <= i <= b.Length
      invariant forall k :: 0 <= k < b.Length && Scanned(slot, i, false, k) ==> b[k] != 0 && b[k] != value
    {
      if b[i] == value {
        return true;
      } else if b[i] == 0 {
        Miss(IntSlots(b[..]), Murmur32Of(seed), log, value, i, false);
        return false;
      }
      i := i + 1;
    }
    i := 0;
    while i < slot
      invariant 0 <= i <= slot
      invariant forall k :: 0 <= k < b.Length && Scanned(slot, i, true, k) ==> b[k] != 0 && b[k] != value
    {
      if b[i] == value {
        return true;
      } else if b[i] == 0 {
        Miss(IntSlots(b[..]), Murmur32Of(seed), log, value, i, true);
        return false;
      }
      i := i + 1;
    }
    Full(IntSlots(b[..]));
    assert false;
  }

  /**
   * The loop of `rehash()`: a table of twice the length, filled by adding the
   * stored values from the last slot down to the first. `last` is the value
   * added last, which the private `add` leaves in the set's `last` field.
   */
  method Rehashed(b: array<int>, ghost log: nat, seed: int) returns (nb: array<int>, last: int)
    requires ProbeTable(b[..], log, seed) && 0 < Used(b[..]) < b.Length
    ensures fresh(nb) && nb.Length == 2 * b.Length
    ensures ProbeTable(nb[..], log + 1, seed) && Values(nb[..]) == Values(b[..]) && Used(nb[..]) == Used(b[..])
    ensures last in Values(b[..])
  {
    ghost var t := IntSlots(b[..]);
    nb := Zeros(2 * b.Length);
    EmptyTable(Murmur32Of(seed), log + 1, IntSlots(nb[..]));
    assert t[b.Length..] == [];
    last := 0;
    var i := b.Length - 1;
    while i >= 0
      invariant -1 <= i < b.Length
      invariant ProbeTable(nb[..], log + 1, seed)
      invariant Values(nb[..]) == Keys(t[i + 1..]) && Used(nb[..]) == Occupied(t[i + 1..])
      invariant last == 0 ==> Keys(t[i + 1..]) == {}
      invariant last != 0 ==> last in Keys(t)
    {
      last := Move(b, nb, log, seed, i, last);
      i := i - 1;
    }
    assert t[0..] == t;
    if last == 0 {
      DistinctCount(t);
    }
  }

  /** One step of `Rehashed`: adds the value of slot `i`, if any, to the new table. */
  method Move(b: array<int>, nb: array<int>, ghost log: nat, seed: int, i: int, last: int) returns (last': int)
    requires b != nb && 0 <= i < b.Length && nb.Length == 2 * b.Length
    requires ProbeTable(b[..], log, seed) && Used(b[..]) < b.Length
    requires ProbeTable(nb[..], log + 1, seed)
    requires Values(nb[..]) == Keys(IntSlots(b[..])[i + 1..]) && Used(nb[..]) == Occupied(IntSlots(b[..])[i + 1..])
    requires last == 0 ==> Keys(IntSlots(b[..])[i + 1..]) == {}
    requires last != 0 ==> last in Keys(IntSlots(b[..]))
    modifies nb
    ensures ProbeTable(nb[..], log + 1, seed)
    ensures Values(nb[..]) == Keys(IntSlots(b[..])[i..]) && Used(nb[..]) == Occupied(IntSlots(b[..])[i..])
    ensures last' == 0 ==> Keys(IntSlots(b[..])[i..]) == {}
    ensures last' != 0 ==> last' in Keys(IntSlots(b[..]))
  {
    ghost var t := IntSlots(b[..]);
    KeysSuffix(t, i);
    last' := last;
    if b[i] != 0 {
      NotLater(t, i);
      var _ := Store(nb, log + 1, seed, b[i]);
      last' := b[i];
    }
  }

  /** `SUDA2IntSet`. */
  class IntSet {
    const seed: int
    var threshold: int
    var buckets: array<int>
    var size: int
    var last: int
    /** The table has `2^log` slots. */
    ghost var log: nat

    ghost function Repr(): set<object>
      reads this
    {
      {this, buckets}
    }

    /** The elements of the set. */
    ghost function Elems(): set<int>
      reads this, buckets
    {
      Values(buckets[..])
    }

    /**
     * The table is a power of two of at least 8 slots, probing reaches every
     * element, `size` counts the elements and stays below the threshold, so
     * a slot is always free.
     */
    ghost predicate Valid()
      reads this, buckets
    {
      && log >= 3 && buckets.Length == Pow2(log)
      && threshold == Threshold(buckets.Length)
      && ProbeTable(buckets[..], log, seed)
      && size == Used(buckets[..]) && size < threshold
    }

    /** `SUDA2IntSet()`: an empty table of 8 slots. */
    constructor (seed: int)
      ensures Valid() && Elems() == {} && size == 0 && buckets.Length == 8
      ensures this.seed == seed && fresh(Repr())
    {
      this.seed := seed;
      var b := Zeros(8);
      buckets := b;
      threshold := Threshold(8);
      size := 0;
      last := 0;
      log := 3;
      new;
      EmptyTable(Murmur32Of(seed), 3, IntSlots(b[..]));
    }

    /**
     * `add(value)`: stores a value that is not yet in the set, counts it,
     * and doubles the table when the count reaches the threshold. The caller
     * never adds 0 or a value twice (either would count an element that is
     * not stored).
     */
    method Add(value: int)
      requires Valid() && value != 0 && value !in Elems()
      modifies this, buckets
      ensures Valid() && Elems() == old(Elems()) + {value} && size == old(size) + 1
      ensures size < old(threshold) ==> buckets == old(buckets) && last == value
      ensures size == old(threshold) ==>
        fresh(buckets) && buckets.Length == 2 * old(buckets.Length) && last in Elems()
    {
      last := value;
      var _ := Store(buckets, log, seed, value);
      size := size + 1;
      if size == threshold {
        Rehash();
      }
    }

    /** `contains(value)`; 0, the free-slot marker, is always found. */
    method Contains(value: int) returns (found: bool)
      requires Valid()
      ensures found <==> value == 0 || value in Elems()
    {
      found := Lookup(buckets, log, seed, value);
    }

    /** `rehash()`: the same elements in a table of twice the length. */
    method Rehash()
      requires ProbeTable(buckets[..], log, seed) && log >= 3 && buckets.Length == Pow2(log)
      requires size == Used(buckets[..]) == Threshold(buckets.Length)
      modifies this
      ensures Valid() && Elems() == old(Elems()) && size == old(size)
      ensures fresh(buckets) && buckets.Length == 2 * old(buckets.Length) && last in Elems()
    {
      var nb, l := Rehashed(buckets, log, seed);
      buckets := nb;
      threshold := Threshold(nb.Length);
      last := l;
      log := log + 1;
    }
  }
}
