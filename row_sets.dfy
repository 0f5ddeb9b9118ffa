/**
 * The sets of row ids an item keeps (src/main/de/linearbits/suda2/SUDA2IntSet*.java):
 * six representations behind the interface `add`, `contains`,
 * `intersectWith`, `isSupportRowPresent`, `containsSpecialRow`, `min`,
 * `max` and `size`. Each class is proved to implement these operations on
 * the set of row ids it stands for (`Elems`), and `RowSet` dispatches over
 * them the way a call on a `SUDA2IntSet` reference does.
 *
 * Row ids are positive Java `int`s: 1-based record numbers.
 */
module RowSets {
  import opened Rows
  import opened Probing
  import opened IntSets
  import opened Words
  import opened RowIds
  import opened Uniques

  /** A `SUDA2IntSet` reference, tagged by the class of the object it points to. */
  datatype RowSet =
    | HashSet(hash: IntSetHash)
    | SmallSet(small: IntSetSmall)
    | Small2Set(small2: IntSetSmall2)
    | JumpSet(jump: IntSetJump)
    | BitsSet(bits: IntSetBits)
    | EmptySet
  {
    /** The object the reference points to. */
    function Objects(): set<object>
    {
      match this
      case HashSet(h) => {h}
      case SmallSet(s) => {s}
      case Small2Set(s) => {s}
      case JumpSet(j) => {j}
      case BitsSet(b) => {b}
      case EmptySet => {}
    }

    /** That object and the arrays it owns. */
    ghost function Repr(): set<object>
      reads Objects()
    {
      match this
      case HashSet(h) => {h, h.buckets}
      case Small2Set(s) => {s, s.buckets}
      case BitsSet(b) => {b, b.words}
      case _ => Objects()
    }

    /** The row ids in the set. */
    ghost function Elems(): set<int>
      reads Repr()
    {
      match this
      case HashSet(h) => h.Elems()
      case SmallSet(s) => s.Elems
      case Small2Set(s) => s.Elems()
      case JumpSet(j) => j.Elems
      case BitsSet(b) => b.Elems()
      case EmptySet => {}
    }

    /**
     * `min()`: 0 for the empty set. `SUDA2IntSetHash` has no `min()` of its
     * own; it is given the least `int`, so range checks never skip it.
     */
    function Lo(): int
      reads Objects()
    {
      match this
      case HashSet(_) => IntMin
      case SmallSet(s) => s.min
      case Small2Set(s) => s.min
      case JumpSet(j) => j.min
      case BitsSet(b) => b.min
      case EmptySet => 0
    }

    /** `max()`: 0 for the empty set, the greatest `int` for the hash set. */
    function Hi(): int
      reads Objects()
    {
      match this
      case HashSet(_) => IntMax
      case SmallSet(s) => s.max
      case Small2Set(s) => s.max
      case JumpSet(j) => j.max
      case BitsSet(b) => b.max
      case EmptySet => 0
    }

    /** The object is consistent. */
    ghost predicate Valid()
      reads Repr()
    {
      match this
      case HashSet(h) => h.Valid()
      case SmallSet(s) => s.Valid()
      case Small2Set(s) => s.Valid()
      case JumpSet(j) => j.Valid()
      case BitsSet(b) => b.Valid()
      case EmptySet => true
    }

    /** A consistent set does not hold 0, the free-slot marker of the tables. */
    lemma NoZero()
      requires Valid()
      ensures 0 !in Elems()
    {
      Bounds();
    }

    /** A consistent set holds row ids only, and `min()`/`max()` bound them. */
    lemma Bounds()
      requires Valid()
      ensures Bounded(Elems(), Lo(), Hi()) && forall x :: x in Elems() ==> RowId(x)
    {
    }

    /** `size()`: the number of row ids. */
    function Size(): (n: int)
      requires Valid()
      reads Repr()
      ensures n == |Elems()|
    {
      match this
      case HashSet(h) => DistinctCount(IntSlots(h.buckets[..])); h.size
      case SmallSet(s) => s.size
      case Small2Set(s) => ElementsCard(s.Stored()); s.size
      case JumpSet(j) => j.size
      case BitsSet(b) => RangeCard(b.words[..], b.offset); b.size
      case EmptySet => 0
    }

    /** Bitmaps hand intersections with other kinds over to the other set. */
    function Rank(): nat
    {
      if BitsSet? then 1 else 0
    }

    /** `contains(value)`; the hash set also reports its free-slot marker 0. */
    method Contains(value: int) returns (found: bool)
      requires Valid() && IsInt32(value)
      ensures found <==> value in Elems() || (HashSet? && value == 0)
    {
      match this
      case HashSet(h) => found := h.Contains(value);
      case SmallSet(s) => found := s.Contains(value);
      case Small2Set(s) => found := s.Contains(value);
      case JumpSet(j) => found := j.Contains(value);
      case BitsSet(b) => found := b.Contains(value);
      case EmptySet => found := false;
    }

    /**
     * `intersectWith(other)`: a new set of exactly the common row ids; the
     * empty set answers with itself. `seed` is the seed of a hash set the
     * intersection creates.
     */
    method IntersectWith(other: RowSet, seed: int) returns (r: RowSet)
      requires Valid() && other.Valid()
      ensures r.Valid() && r.Elems() == Elems() * other.Elems() && fresh(r.Repr())
      decreases Rank(), 1
    {
      match this
      case HashSet(h) => r := h.IntersectWith(other, seed);
      case SmallSet(s) => r := s.IntersectWith(other);
      case Small2Set(s) => r := s.IntersectWith(other);
      case JumpSet(j) => r := j.IntersectWith(other);
      case BitsSet(b) => r := b.IntersectWith(other, seed);
      case EmptySet => r := this;
    }

    /** `isSupportRowPresent(other)`: the two sets share exactly one row id. */
    method IsSupportRowPresent(other: RowSet) returns (present: bool)
      requires Valid() && other.Valid()
      ensures present <==> |Elems() * other.Elems()| == 1
      decreases Rank(), 1
    {
      match this
      case HashSet(h) => present := h.IsSupportRowPresent(other);
      case SmallSet(s) => present := s.IsSupportRowPresent(other);
      case Small2Set(s) => present := s.IsSupportRowPresent(other);
      case JumpSet(j) => present := j.IsSupportRowPresent(other);
      case BitsSet(b) => present := b.IsSupportRowPresent(other);
      case EmptySet => present := false;
    }

    /**
     * `containsSpecialRow(items, referenceItem, data)`: some row id of the
     * set names a record holding every item but not the reference item.
     */
    method ContainsSpecialRow(items: seq<ItemKey>, ref: ItemKey, data: Table) returns (found: bool)
      requires Valid() && Names(data, Elems())
      ensures found <==> SpecialIn(data, Elems(), items, ref)
    {
      match this
      case HashSet(h) => found := h.ContainsSpecialRow(items, ref, data);
      case SmallSet(s) => found := s.ContainsSpecialRow(items, ref, data);
      case Small2Set(s) => found := s.ContainsSpecialRow(items, ref, data);
      case JumpSet(j) => found := j.ContainsSpecialRow(items, ref, data);
      case BitsSet(b) => found := b.ContainsSpecialRow(items, ref, data);
      case EmptySet => found := false;
    }
  }

  // ------------------------------------------------------------ hash set

  /** A non-zero slot of a table without repeats holds a value no earlier slot holds. */
  lemma {:induction false} FreshSlot(b: seq<int>, i: int)
    requires Distinct(IntSlots(b)) && 0 <= i < |b| && b[i] != 0
    ensures b[i] !in b[..i]
  {
    var t := IntSlots(b);
    forall j | 0 <= j < i ensures b[j] != b[i] {
      assert Twice(t, i, j) ==> i == j;
    }
  }

  /** `SUDA2IntSetHash`: the probing table of `SUDA2IntSet`, holding row ids. */
  class IntSetHash {
    const seed: int
    var threshold: int
    var buckets: array<int>
    var size: int
    var last: int
    /** The table has `2^log` slots. */
    ghost var log: nat

    /** The row ids in the table. */
    ghost function Elems(): set<int>
      reads this, buckets
    {
      Values(buckets[..])
    }

    /**
     * A power of two of at least 8 slots, probing reaches every element,
     * `size` counts them and stays below the threshold.
     */
    ghost predicate Valid()
      reads this, buckets
    {
      && log >= 3 && buckets.Length == Pow2(log)
      && threshold == Threshold(buckets.Length)
      && ProbeTable(buckets[..], log, seed)
      && size == Used(buckets[..]) && size < threshold
      && forall x :: x in Elems() ==> RowId(x)
    }

    /** `SUDA2IntSetHash()`: an empty table of 8 slots. */
    constructor (seed: int)
      ensures Valid() && Elems() == {} && size == 0
      ensures this.seed == seed && fresh(buckets)
    {
      this.seed := seed;
      var b := Zeros(8);
      buckets := b;
      threshold := Threshold(8);
      size := 0;
      last := 0;
      log := 3;
      new;
      EmptyTable(Murmur32Of(seed), 3, IntSlots(b[..]));
    }

    /**
     * `add(value)`: counts the value only when the private `add` stored it,
     * so adding a row id twice is harmless; doubles the table at the
     * threshold.
     */
    method Add(value: int)
      requires Valid() && RowId(value)
      modifies this, buckets
      ensures Valid() && Elems() == old(Elems()) + {value}
      ensures size == old(size) + (if value in old(Elems()) then 0 else 1)
      ensures buckets == old(buckets) ==> last == value
      ensures buckets != old(buckets) ==>
        fresh(buckets) && buckets.Length == 2 * old(buckets.Length) && last in Elems()
    {
      last := value;
      var added := Store(buckets, log, seed, value);
      size := size + if added then 1 else 0;
      if size == threshold {
        Rehash();
      }
    }

    /** `contains(value)`; 0, the free-slot marker, is always found. */
    method Contains(value: int) returns (found: bool)
      requires Valid()
      ensures found <==> value == 0 || value in Elems()
    {
      found := Lookup(buckets, log, seed, value);
    }

    /** `rehash()`: the same elements in a table of twice the length. */
    method Rehash()
      requires ProbeTable(buckets[..], log, seed) && log >= 3 && buckets.Length == Pow2(log)
      requires size == Used(buckets[..]) == Threshold(buckets.Length)
      requires forall x :: x in Elems() ==> RowId(x)
      modifies this
      ensures Valid() && Elems() == old(Elems()) && size == old(size)
      ensures fresh(buckets) && buckets.Length == 2 * old(buckets.Length) && last in Elems()
    {
      ThresholdGrows(buckets.Length);
      var nb, l := Rehashed(buckets, log, seed);
      assert Pow2(log + 1) == 2 * Pow2(log);
      buckets := nb;
      threshold := Threshold(nb.Length);
      last := l;
      log := log + 1;
    }

    /** `containsSpecialRow`: scans the used slots. */
    method ContainsSpecialRow(items: seq<ItemKey>, ref: ItemKey, data: Table) returns (found: bool)
      requires Valid() && Names(data, Elems())
      ensures found <==> SpecialIn(data, Elems(), items, ref)
    {
      found := SpecialSlots(buckets[..], items, ref, data);
    }

    /**
     * `intersectWith(other)`: the row ids of this table that `other`
     * contains, in a new hash set, packed into a `SUDA2IntSetSmall` when
     * there are at most 8 of them.
     */
    method IntersectWith(other: RowSet, seed: int) returns (r: RowSet)
      requires Valid() && other.Valid()
      ensures r.Valid() && r.Elems() == Elems() * other.Elems() && fresh(r.Repr())
      ensures r.HashSet? || r.SmallSet?
    {
      var kept := KeptSlots(buckets[..], other);
      var rows := HashSetOf(kept, seed);
      if rows.size <= 8 {
        r := Pack(rows);
      } else {
        r := HashSet(rows);
      }
    }

    /** `isSupportRowPresent(other)`: stops at a second common row id. */
    method IsSupportRowPresent(other: RowSet) returns (present: bool)
      requires Valid() && other.Valid()
      ensures present <==> |Elems() * other.Elems()| == 1
    {
      present := SupportSlots(buckets[..], other);
    }
  }

  /** A non-zero slot of a table of row ids holds a row id of the table. */
  lemma SlotsAt(t: seq<int>)
    requires forall x :: x in Values(t) ==> RowId(x)
    ensures forall i :: 0 <= i < |t| && t[i] != 0 ==> RowId(t[i]) && t[i] in Values(t)
  {
    IntSlotsKeys(t);
  }

  /** The loop of `SUDA2IntSetHash.containsSpecialRow` over the slots `t`. */
  method SpecialSlots(t: seq<int>, items: seq<ItemKey>, ref: ItemKey, data: Table) returns (found: bool)
    requires Names(data, Values(t))
    ensures found <==> SpecialIn(data, Values(t), items, ref)
  {
    IntSlotsKeys(t);
    var i := 0;
    while i < |t|
      invariant 0 <= i <= |t| && !SpecialIn(data, Elements(t[..i]), items, ref)
    {
      ElementsPrefix(t, i);
      SpecialAdd(data, Elements(t[..i]), t[i], items, ref);
      if t[i] != 0 {
        assert t[i] in Values(t);
        found := SpecialRow(items, ref, data[t[i] - 1]);
        if found {
          return;
        }
      }
      i := i + 1;
    }
    assert t[..i] == t;
    found := false;
  }

  /** In a table without repeats, no non-zero value is stored twice. */
  lemma TableDistinct(t: seq<int>, other: set<int>)
    requires Distinct(IntSlots(t)) && 0 !in other
    ensures DistinctIn(t, other)
  {
    forall j | 0 <= j < |t| && t[j] in other
      ensures t[j] !in t[..j]
    {
      FreshSlot(t, j);
    }
  }

  /**
   * The `other.contains` calls of `SUDA2IntSetHash.intersectWith`: the row
   * ids in the non-zero slots of `t` that `other` contains, in slot order.
   */
  method KeptSlots(t: seq<int>, other: RowSet) returns (kept: seq<int>)
    requires Distinct(IntSlots(t)) && (forall x :: x in Values(t) ==> RowId(x)) && other.Valid()
    ensures kept == Filtered(t, other.Elems())
    ensures Unrepeated(kept) && Elements(kept) == Values(t) * other.Elems()
    ensures forall i :: 0 <= i < |kept| ==> RowId(kept[i])
  {
    other.NoZero();
    SlotsAt(t);
    TableDistinct(t, other.Elems());
    kept := FilterSlots(t, other);
    IntSlotsKeys(t);
    assert Values(t) * other.Elems() == Elements(t) * other.Elems();
    RowIdsAt(kept);
  }

  /** The loop of `SUDA2IntSetHash.intersectWith`, which skips the free slots. */
  method FilterSlots(t: seq<int>, other: RowSet) returns (kept: seq<int>)
    requires forall i :: 0 <= i < |t| && t[i] != 0 ==> RowId(t[i])
    requires other.Valid() && 0 !in other.Elems() && DistinctIn(t, other.Elems())
    ensures kept == Filtered(t, other.Elems())
    ensures Unrepeated(kept) && Elements(kept) == Elements(t) * other.Elems()
  {
    ghost var o := other.Elems();
    kept := [];
    var i := 0;
    while i < |t|
      invariant 0 <= i <= |t| && kept == Filtered(t[..i], o)
      invariant other.Valid() && other.Elems() == o
    {
      var row := t[i];
      FilteredStep(t, i, o);
      if row != 0 {
        var contained := other.Contains(row);
        if contained {
          kept := kept + [row];
        }
      }
      i := i + 1;
    }
    assert t[..i] == t;
    FilteredElements(t, o);
  }

  /** The `add` calls of `SUDA2IntSetHash.intersectWith`: a new hash set of the row ids in `kept`. */
  method HashSetOf(kept: seq<int>, seed: int) returns (rows: IntSetHash)
    requires forall i :: 0 <= i < |kept| ==> RowId(kept[i])
    ensures fresh(rows) && fresh(rows.buckets) && rows.Valid() && rows.Elems() == Elements(kept)
  {
    rows := new IntSetHash(seed);
    for i := 0 to |kept|
      invariant fresh(rows) && fresh(rows.buckets) && rows.Valid() && rows.Elems() == Elements(kept[..i])
    {
      ElementsPrefix(kept, i);
      rows.Add(kept[i]);
    }
    assert kept[..|kept|] == kept;
  }

  /** `SUDA2IntSetHash.isSupportRowPresent` on the slots `t`: exactly one row id in common. */
  method SupportSlots(t: seq<int>, other: RowSet) returns (present: bool)
    requires Distinct(IntSlots(t)) && (forall x :: x in Values(t) ==> RowId(x)) && other.Valid()
    ensures present <==> |Values(t) * other.Elems()| == 1
  {
    other.NoZero();
    SlotsAt(t);
    TableDistinct(t, other.Elems());
    present := SupportLoop(t, other);
    IntSlotsKeys(t);
    assert Values(t) * other.Elems() == Elements(t) * other.Elems();
  }

  /** The loop of `SUDA2IntSetHash.isSupportRowPresent`: it stops at a second common row id. */
  method SupportLoop(t: seq<int>, other: RowSet) returns (present: bool)
    requires forall i :: 0 <= i < |t| && t[i] != 0 ==> RowId(t[i])
    requires other.Valid() && 0 !in other.Elems() && DistinctIn(t, other.Elems())
    ensures present <==> |Elements(t) * other.Elems()| == 1
  {
    ghost var o := other.Elems();
    var found := false;
    ghost var first := 0;
    var i := 0;
    while i < |t|
      invariant 0 <= i <= |t|
      invariant other.Valid() && other.Elems() == o
      invariant Filtered(t[..i], o) == if found then [first] else []
      invariant found ==> first in t[..i] && first in o
    {
      var row := t[i];
      FilteredStep(t, i, o);
      if row != 0 {
        var contained := other.Contains(row);
        if contained {
          if found {
            TwoShared(Elements(t), o, first, row);
            return false;
          }
          found := true;
          first := row;
        }
      }
      i := i + 1;
    }
    assert t[..i] == t;
    FilteredElements(t, o);
    present := found;
  }

  /** The used slots of `t`, in slot order. */
  method UsedSlots(t: seq<int>) returns (used: seq<int>)
    requires Distinct(IntSlots(t))
    ensures used == Filtered(t, Values(t))
    ensures Unrepeated(used) && Elements(used) == Values(t)
  {
    IntSlotsKeys(t);
    ghost var v := Values(t);
    used := [];
    var i := 0;
    while i < |t|
      invariant 0 <= i <= |t| && used == Filtered(t[..i], v)
    {
      FilteredStep(t, i, v);
      if t[i] != 0 {
        used := used + [t[i]];
      }
      i := i + 1;
    }
    assert t[..i] == t;
    TableDistinct(t, v);
    FilteredElements(t, v);
  }

  /** Lines 147-154 of `intersectWith`: the used slots, in slot order, into a `SUDA2IntSetSmall`. */
  method Pack(rows: IntSetHash) returns (r: RowSet)
    requires rows.Valid() && rows.size <= 8
    ensures r.SmallSet? && fresh(r.Repr()) && r.Valid() && r.Elems() == rows.Elems()
  {
    var used := UsedSlots(rows.buckets[..]);
    DistinctCount(IntSlots(rows.buckets[..]));
    RowIdsAt(used);
    r := SmallOf(used);
  }

  // ----------------------------------------------- sets of eight fields

  /** `add` on a slot set: one more distinct row id, with `min`/`max` moved to cover it. */
  lemma Pushed(s: seq<int>, v: int, lo: int, hi: int)
    requires Unrepeated(s) && IsInt32(v) && v !in Elements(s) && Extremes(Elements(s), lo, hi)
    ensures Unrepeated(s + [v]) && Elements(s + [v]) == Elements(s) + {v}
    ensures Extremes(Elements(s + [v]), if v < lo then v else lo, if v > hi then v else hi)
  {
    Appended(s, v);
  }

  /**
   * Writing `v` into slot `n` of eight, the first free one, appends it to
   * the stored row ids and moves the extremes to include it.
   */
  lemma Grown(before: seq<int>, after: seq<int>, n: int, v: int, lo: int, hi: int)
    requires |before| == 8 && 0 <= n < 8 && after == before[n := v]
    requires Unrepeated(before[..n]) && IsInt32(v) && v !in Elements(before[..n])
    requires Extremes(Elements(before[..n]), lo, hi)
    ensures after[..n + 1] == before[..n] + [v]
    ensures Unrepeated(after[..n + 1]) && Elements(after[..n + 1]) == Elements(before[..n]) + {v}
    ensures Extremes(Elements(after[..n + 1]), if v < lo then v else lo, if v > hi then v else hi)
  {
    assert after[..n + 1] == before[..n] + [v];
    Pushed(before[..n], v, lo, hi);
  }

  /** A value among the first `n` of eight slots is in one of them: the cases of a fall-through `switch`. */
  lemma InSlots(s: seq<int>, n: int, v: int)
    requires |s| == 8 && 0 <= n <= 8
    ensures v in s[..n] <==>
      (n >= 8 && s[7] == v) || (n >= 7 && s[6] == v) || (n >= 6 && s[5] == v) || (n >= 5 && s[4] == v) ||
      (n >= 4 && s[3] == v) || (n >= 3 && s[2] == v) || (n >= 2 && s[1] == v) || (n >= 1 && s[0] == v)
  {
    if v in s[..n] {
      var k :| 0 <= k < n && s[..n][k] == v;
      assert s[k] == v;
    }
  }

  /** Every row id of the set is one in every slot that holds it. */
  lemma RowIdsAt(s: seq<int>)
    requires forall x :: x in Elements(s) ==> RowId(x)
    ensures forall i :: 0 <= i < |s| ==> RowId(s[i])
  {
    forall i | 0 <= i < |s| ensures RowId(s[i]) {
      assert s[i] in Elements(s);
    }
  }

  /** Every row id of the set names a record, in whichever slot it is. */
  lemma NamedAt(data: Table, s: seq<int>)
    requires Names(data, Elements(s))
    ensures forall i :: 0 <= i < |s| ==> 1 <= s[i] <= |data| && s[i] in Elements(s)
  {
    forall i | 0 <= i < |s| ensures 1 <= s[i] <= |data| && s[i] in Elements(s) {
      assert s[i] in Elements(s);
    }
  }

  /**
   * The `other.contains` calls of the fall-through `switch` of
   * `intersectWith` in the eight-field sets, from the last used field of `t`
   * to the first: the row ids that `other` contains, in that order.
   */
  method KeptFromLast(t: seq<int>, other: RowSet) returns (kept: seq<int>)
    requires Unrepeated(t) && (forall i :: 0 <= i < |t| ==> RowId(t[i])) && other.Valid()
    ensures kept == KeptFrom(t, other.Elems())
    ensures Unrepeated(kept) && Elements(kept) == Elements(t) * other.Elems() && |kept| <= |t|
    ensures forall i :: 0 <= i < |kept| ==> RowId(kept[i])
  {
    ghost var o := other.Elems();
    kept := [];
    var k := |t|;
    while k > 0
      invariant 0 <= k <= |t| && kept == KeptFrom(t[k..], o)
      invariant other.Valid() && other.Elems() == o
    {
      k := k - 1;
      var contained := other.Contains(t[k]);
      KeptFromStep(t, k, o);
      if contained {
        kept := kept + [t[k]];
      }
    }
    assert t[0..] == t;
    KeptFromElements(t, o);
    RowIdsAt(kept);
  }

  /**
   * The loop of `containsSpecialRow` in the eight-field sets, from the last
   * used field of `t` to the first.
   */
  method SpecialFromLast(t: seq<int>, items: seq<ItemKey>, ref: ItemKey, data: Table) returns (found: bool)
    requires Names(data, Elements(t))
    ensures found <==> SpecialIn(data, Elements(t), items, ref)
  {
    NamedAt(data, t);
    var k := |t|;
    while k > 0
      invariant 0 <= k <= |t| && !SpecialIn(data, Elements(t[k..]), items, ref)
    {
      k := k - 1;
      SuffixStep(t, k);
      SpecialAdd(data, Elements(t[k + 1..]), t[k], items, ref);
      found := SpecialRow(items, ref, data[t[k] - 1]);
      if found {
        return;
      }
    }
    assert t[0..] == t;
    found := false;
  }

  /**
   * The counting `switch` of `isSupportRowPresent` in the eight-field sets:
   * the number of used fields of `t` whose row id `other` contains.
   */
  method CountFromLast(t: seq<int>, other: RowSet) returns (rows: int)
    requires Unrepeated(t) && (forall i :: 0 <= i < |t| ==> RowId(t[i])) && other.Valid()
    ensures rows == |Elements(t) * other.Elems()|
  {
    ghost var o := other.Elems();
    rows := 0;
    var k := |t|;
    while k > 0
      invariant 0 <= k <= |t| && rows == CountIn(t[k..], o)
      invariant other.Valid() && other.Elems() == o
    {
      k := k - 1;
      var contained := other.Contains(t[k]);
      rows := rows + if contained then 1 else 0;
      CountInStep(t, k, o);
    }
    assert t[0..] == t;
    CountInCard(t, o);
  }

  /**
   * The `other.contains` calls of the loop of `SUDA2IntSetSmall2.intersectWith`,
   * from the first used slot of `t` to the last: the row ids that `other`
   * contains, in that order.
   */
  method KeptFromFirst(t: seq<int>, other: RowSet) returns (kept: seq<int>)
    requires Unrepeated(t) && (forall i :: 0 <= i < |t| ==> RowId(t[i])) && other.Valid()
    ensures kept == Filtered(t, other.Elems())
    ensures Unrepeated(kept) && Elements(kept) == Elements(t) * other.Elems() && |kept| <= |t|
    ensures forall i :: 0 <= i < |kept| ==> RowId(kept[i])
  {
    ghost var o := other.Elems();
    kept := [];
    var i := 0;
    while i < |t|
      invariant 0 <= i <= |t| && kept == Filtered(t[..i], o)
      invariant other.Valid() && other.Elems() == o
    {
      var contained := other.Contains(t[i]);
      FilteredStep(t, i, o);
      if contained {
        kept := kept + [t[i]];
      }
      i := i + 1;
    }
    assert t[..i] == t;
    UnrepeatedDistinct(t, o);
    FilteredElements(t, o);
    RowIdsAt(kept);
  }

  /** The `add` calls of `intersectWith`: a new set of the row ids in `kept`, in that order. */
  method SmallOf(kept: seq<int>) returns (r: RowSet)
    requires Unrepeated(kept) && |kept| <= 8 && forall i :: 0 <= i < |kept| ==> RowId(kept[i])
    ensures r.SmallSet? && fresh(r.Repr()) && r.Valid() && r.Elems() == Elements(kept) && r.small.Stored() == kept
  {
    var rows := new IntSetSmall();
    for i := 0 to |kept|
      invariant fresh(rows) && rows.Valid() && rows.Stored() == kept[..i] && rows.Elems == Elements(kept[..i])
    {
      NextRow(kept, i);
      rows.Add(kept[i]);
    }
    assert kept[..|kept|] == kept;
    r := SmallSet(rows);
  }

  class IntSetSmall {
    var int0: int
    var int1: int
    var int2: int
    var int3: int
    var int4: int
    var int5: int
    var int6: int
    var int7: int
    var size: int
    var min: int
    var max: int

    /** The eight fields in slot order. */
    function Slots(): seq<int>
      reads this
    {
      [int0, int1, int2, int3, int4, int5, int6, int7]
    }

    /** The first `size` fields hold the row ids. */
    ghost function Stored(): seq<int>
      reads this
    {
      if 0 <= size <= 8 then Slots()[..size] else []
    }

    /** The row ids in the set. */
    ghost var Elems: set<int>

    /** No row id twice; `min` and `max` the extremes, as `Extremes` says. */
    ghost predicate Valid()
      reads this
    {
      && 0 <= size <= 8
      && Elems == Elements(Stored())
      && Unrepeated(Stored())
      && (forall x :: x in Elems ==> RowId(x))
      && Extremes(Elems, min, max)
    }

    /** `new SUDA2IntSetSmall()`: empty, `min` and `max` at their initial extremes. */
    constructor ()
      ensures Valid() && Elems == {} && size == 0
    {
      int0, int1, int2, int3, int4, int5, int6, int7 := 0, 0, 0, 0, 0, 0, 0, 0;
      size := 0;
      min := IntMax;
      max := IntMin;
      Elems := {};
    }

    /** `add(value)`: the next field; the caller adds fewer than nine distinct row ids. */
    method Add(value: int)
      requires Valid() && size < 8 && RowId(value) && value !in Elems
      modifies this
      ensures Valid() && Stored() == old(Stored()) + [value] && Elems == old(Elems) + {value}
    {
      min := if value < min then value else min;
      max := if value > max then value else max;
      Put(size, value);
      size := size + 1;
      Elems := Elems + {value};
      Grown(old(Slots()), Slots(), old(size), value, old(min), old(max));
    }

    /** The `switch` of `add`: field `k` takes `value`. */
    method Put(k: int, value: int)
      requires 0 <= k < 8
      modifies this
      ensures Slots() == old(Slots())[k := value]
      ensures size == old(size) && min == old(min) && max == old(max) && Elems == old(Elems)
    {
      match k {
        case 0 => int0 := value;
        case 1 => int1 := value;
        case 2 => int2 := value;
        case 3 => int3 := value;
        case 4 => int4 := value;
        case 5 => int5 := value;
        case 6 => int6 := value;
        case 7 => int7 := value;
      }
    }

    /** Field `k`: the one that `case k + 1` of a fall-through `switch` reads. */
    function Field(k: int): (v: int)
      requires 0 <= k < 8
      reads this
      ensures v == Slots()[k]
    {
      match k
      case 0 => int0
      case 1 => int1
      case 2 => int2
      case 3 => int3
      case 4 => int4
      case 5 => int5
      case 6 => int6
      case _ => int7
    }

    /** A used field holds a row id of the set. */
    lemma RowAt(k: int)
      requires Valid() && 0 <= k < size
      ensures Field(k) == Stored()[k] && RowId(Field(k)) && Field(k) in Elems
    {
    }

    /** `contains(value)`: the fall-through `switch` over the used fields. */
    method Contains(value: int) returns (found: bool)
      requires Valid()
      ensures found <==> value in Elems
    {
      found := false;
      if size == 8 { found := found || int7 == value; }
      if 7 <= size <= 8 { found := found || int6 == value; }
      if 6 <= size <= 8 { found := found || int5 == value; }
      if 5 <= size <= 8 { found := found || int4 == value; }
      if 4 <= size <= 8 { found := found || int3 == value; }
      if 3 <= size <= 8 { found := found || int2 == value; }
      if 2 <= size <= 8 { found := found || int1 == value; }
      if 1 <= size <= 8 { found := found || int0 == value; }
      InSlots(Slots(), size, value);
    }

    /** `containsSpecialRow`: the used fields from the last to the first. */
    method ContainsSpecialRow(items: seq<ItemKey>, ref: ItemKey, data: Table) returns (found: bool)
      requires Valid() && Names(data, Elems)
      ensures found <==> SpecialIn(data, Elems, items, ref)
    {
      found := SpecialFromLast(Slots()[..size], items, ref, data);
    }

    /**
     * `intersectWith(other)`: an empty `SUDA2IntSetSmall` when the ranges
     * are apart, otherwise one of the row ids `other` contains.
     */
    method IntersectWith(other: RowSet) returns (r: RowSet)
      requires Valid() && other.Valid()
      ensures r.Valid() && r.Elems() == Elems * other.Elems() && fresh(r.Repr()) && r.SmallSet?
    {
      other.Bounds();
      if max < other.Lo() || other.Hi() < min {
        Apart(Elems, min, max, other.Elems(), other.Lo(), other.Hi());
        r := SmallOf([]);
        return;
      }
      RowIdsAt(Stored());
      var kept := KeptFromLast(Slots()[..size], other);
      r := SmallOf(kept);
    }


    /** `isSupportRowPresent(other)`: false on apart ranges, else counts the common row ids. */
    method IsSupportRowPresent(other: RowSet) returns (present: bool)
      requires Valid() && other.Valid()
      ensures present <==> |Elems * other.Elems()| == 1
    {
      other.Bounds();
      if max < other.Lo() || other.Hi() < min {
        Apart(Elems, min, max, other.Elems(), other.Lo(), other.Hi());
        return false;
      }
      RowIdsAt(Stored());
      var rows := CountFromLast(Slots()[..size], other);
      present := rows == 1;
    }
  }

  /** The `add` calls of `intersectWith`: a new set of the row ids in `kept`, in that order. */
  method JumpOf(kept: seq<int>) returns (r: RowSet)
    requires Unrepeated(kept) && |kept| <= 8 && forall i :: 0 <= i < |kept| ==> RowId(kept[i])
    ensures r.JumpSet? && fresh(r.Repr()) && r.Valid() && r.Elems() == Elements(kept) && r.jump.Stored() == kept
  {
    var rows := new IntSetJump();
    for i := 0 to |kept|
      invariant fresh(rows) && rows.Valid() && rows.Stored() == kept[..i] && rows.Elems == Elements(kept[..i])
    {
      NextRow(kept, i);
      rows.Add(kept[i]);
    }
    assert kept[..|kept|] == kept;
    r := JumpSet(rows);
  }

  /**
   * `SUDA2IntSetJump`: the eight-field set of `SUDA2IntSetSmall` whose
   * intersection is a `SUDA2IntSetJump`, or the shared empty set when this
   * set is empty or the ranges are apart.
   */
  class IntSetJump {
    var int0: int
    var int1: int
    var int2: int
    var int3: int
    var int4: int
    var int5: int
    var int6: int
    var int7: int
    var size: int
    var min: int
    var max: int

    function Slots(): seq<int>
      reads this
    {
      [int0, int1, int2, int3, int4, int5, int6, int7]
    }

    ghost function Stored(): seq<int>
      reads this
    {
      if 0 <= size <= 8 then Slots()[..size] else []
    }

    /** The row ids in the set. */
    ghost var Elems: set<int>

    ghost predicate Valid()
      reads this
    {
      && 0 <= size <= 8
      && Elems == Elements(Stored())
      && Unrepeated(Stored())
      && (forall x :: x in Elems ==> RowId(x))
      && Extremes(Elems, min, max)
    }

    /** `new SUDA2IntSetJump()`. */
    constructor ()
      ensures Valid() && Elems == {} && size == 0
    {
      int0, int1, int2, int3, int4, int5, int6, int7 := 0, 0, 0, 0, 0, 0, 0, 0;
      size := 0;
      min := IntMax;
      max := IntMin;
      Elems := {};
    }

    /** `add(value)`. */
    method Add(value: int)
      requires Valid() && size < 8 && RowId(value) && value !in Elems
      modifies this
      ensures Valid() && Stored() == old(Stored()) + [value] && Elems == old(Elems) + {value}
    {
      min := if value < min then value else min;
      max := if value > max then value else max;
      Put(size, value);
      size := size + 1;
      Elems := Elems + {value};
      Grown(old(Slots()), Slots(), old(size), value, old(min), old(max));
    }

    /** The `switch` of `add`: field `k` takes `value`. */
    method Put(k: int, value: int)
      requires 0 <= k < 8
      modifies this
      ensures Slots() == old(Slots())[k := value]
      ensures size == old(size) && min == old(min) && max == old(max) && Elems == old(Elems)
    {
      match k {
        case 0 => int0 := value;
        case 1 => int1 := value;
        case 2 => int2 := value;
        case 3 => int3 := value;
        case 4 => int4 := value;
        case 5 => int5 := value;
        case 6 => int6 := value;
        case 7 => int7 := value;
      }
    }

    /** Field `k`: the one that `case k + 1` of a fall-through `switch` reads. */
    function Field(k: int): (v: int)
      requires 0 <= k < 8
      reads this
      ensures v == Slots()[k]
    {
      match k
      case 0 => int0
      case 1 => int1
      case 2 => int2
      case 3 => int3
      case 4 => int4
      case 5 => int5
      case 6 => int6
      case _ => int7
    }

    /** A used field holds a row id of the set. */
    lemma RowAt(k: int)
      requires Valid() && 0 <= k < size
      ensures Field(k) == Stored()[k] && RowId(Field(k)) && Field(k) in Elems
    {
    }

    /** `contains(value)`. */
    method Contains(value: int) returns (found: bool)
      requires Valid()
      ensures found <==> value in Elems
    {
      found := false;
      if size == 8 { found := found || int7 == value; }
      if 7 <= size <= 8 { found := found || int6 == value; }
      if 6 <= size <= 8 { found := found || int5 == value; }
      if 5 <= size <= 8 { found := found || int4 == value; }
      if 4 <= size <= 8 { found := found || int3 == value; }
      if 3 <= size <= 8 { found := found || int2 == value; }
      if 2 <= size <= 8 { found := found || int1 == value; }
      if 1 <= size <= 8 { found := found || int0 == value; }
      InSlots(Slots(), size, value);
    }

    /** `containsSpecialRow`. */
    method ContainsSpecialRow(items: seq<ItemKey>, ref: ItemKey, data: Table) returns (found: bool)
      requires Valid() && Names(data, Elems)
      ensures found <==> SpecialIn(data, Elems, items, ref)
    {
      found := SpecialFromLast(Slots()[..size], items, ref, data);
    }

    /** `intersectWith(other)`: the shared empty set, or a `SUDA2IntSetJump` of the common row ids. */
    method IntersectWith(other: RowSet) returns (r: RowSet)
      requires Valid() && other.Valid()
      ensures r.Valid() && r.Elems() == Elems * other.Elems() && fresh(r.Repr())
      ensures r.EmptySet? || r.JumpSet?
    {
      other.Bounds();
      if size == 0 || max < other.Lo() || other.Hi() < min {
        if size == 0 {
          assert Stored() == [];
        } else {
          Apart(Elems, min, max, other.Elems(), other.Lo(), other.Hi());
        }
        return EmptySet;
      }
      RowIdsAt(Stored());
      var kept := KeptFromLast(Slots()[..size], other);
      r := JumpOf(kept);
    }


    /** `isSupportRowPresent(other)`. */
    method IsSupportRowPresent(other: RowSet) returns (present: bool)
      requires Valid() && other.Valid()
      ensures present <==> |Elems * other.Elems()| == 1
    {
      other.Bounds();
      if max < other.Lo() || other.Hi() < min {
        Apart(Elems, min, max, other.Elems(), other.Lo(), other.Hi());
        return false;
      }
      RowIdsAt(Stored());
      var rows := CountFromLast(Slots()[..size], other);
      present := rows == 1;
    }
  }

  // ------------------------------------------------ set of eight slots

  /**
   * The loop of `SUDA2IntSetSmall2.isSupportRowPresent` over the used slots
   * `t`: it stops with false at the second row id `other` contains.
   */
  method SupportScan(t: seq<int>, other: RowSet) returns (present: bool)
    requires Unrepeated(t) && (forall i :: 0 <= i < |t| ==> RowId(t[i])) && other.Valid()
    ensures present <==> |Elements(t) * other.Elems()| == 1
  {
    ghost var o := other.Elems();
    var found := false;
    ghost var first := 0;
    var i := 0;
    while i < |t|
      invariant 0 <= i <= |t|
      invariant other.Valid() && other.Elems() == o
      invariant Filtered(t[..i], o) == if found then [first] else []
      invariant found ==> first in t[..i] && first in o
    {
      var contained := other.Contains(t[i]);
      FilteredStep(t, i, o);
      if contained {
        if found {
          UnrepeatedAt(t, i);
          TwoShared(Elements(t), o, first, t[i]);
          return false;
        }
        found := true;
        first := t[i];
      }
      i := i + 1;
    }
    assert t[..i] == t;
    UnrepeatedDistinct(t, o);
    FilteredElements(t, o);
    present := found;
  }

  /** The `add` calls of `intersectWith`: a new set of the row ids in `kept`, in that order. */
  method Small2Of(kept: seq<int>) returns (r: RowSet)
    requires Unrepeated(kept) && |kept| <= 8 && forall i :: 0 <= i < |kept| ==> RowId(kept[i])
    ensures r.Small2Set? && fresh(r.Repr()) && r.Valid() && r.Elems() == Elements(kept) && r.small2.Stored() == kept
  {
    var rows := Small2Rows(kept);
    r := Small2Set(rows);
  }

  /** A new `SUDA2IntSetSmall2` after one `add` per row of `kept`. */
  method Small2Rows(kept: seq<int>) returns (rows: IntSetSmall2)
    requires Unrepeated(kept) && |kept| <= 8 && forall i :: 0 <= i < |kept| ==> RowId(kept[i])
    ensures fresh(rows) && fresh(rows.buckets) && rows.Valid() && rows.Stored() == kept && rows.Elems() == Elements(kept)
  {
    rows := new IntSetSmall2();
    for i := 0 to |kept|
      invariant fresh(rows) && fresh(rows.buckets) && rows.Valid() && rows.Stored() == kept[..i] && rows.Elems() == Elements(kept[..i])
    {
      NextRow(kept, i);
      rows.Add(kept[i]);
    }
    assert kept[..|kept|] == kept;
  }

  /** `SUDA2IntSetSmall2`: up to eight row ids in the first slots of an `int[8]`. */
  class IntSetSmall2 {
    const buckets: array<int>
    var size: int
    var min: int
    var max: int

    /** The first `size` slots hold the row ids. */
    ghost function Stored(): seq<int>
      reads this, buckets
    {
      if 0 <= size <= buckets.Length then buckets[..size] else []
    }

    ghost function Elems(): set<int>
      reads this, buckets
    {
      Elements(Stored())
    }

    ghost predicate Valid()
      reads this, buckets
    {
      && buckets.Length == 8 && 0 <= size <= 8
      && Unrepeated(Stored())
      && (forall x :: x in Elems() ==> RowId(x))
      && Extremes(Elems(), min, max)
    }

    /** `new SUDA2IntSetSmall2()`. */
    constructor ()
      ensures Valid() && Elems() == {} && size == 0 && fresh(buckets)
    {
      var b := Zeros(8);
      buckets := b;
      size := 0;
      min := IntMax;
      max := IntMin;
    }

    /** `add(value)`: `buckets[size++] = value`. */
    method Add(value: int)
      requires Valid() && size < 8 && RowId(value) && value !in Elems()
      modifies this, buckets
      ensures Valid() && Stored() == old(Stored()) + [value] && Elems() == old(Elems()) + {value}
    {
      ghost var before := Stored();
      Pushed(before, value, min, max);
      buckets[size] := value;
      assert buckets[..size + 1] == before + [value];
      min := if value < min then value else min;
      max := if value > max then value else max;
      size := size + 1;
      assert Stored() == before + [value];
    }

    /** `contains(value)`: a scan of the used slots. */
    method Contains(value: int) returns (found: bool)
      requires Valid()
      ensures found <==> value in Elems()
    {
      var bound := size;
      for i := 0 to bound
        invariant forall j :: 0 <= j < i ==> buckets[j] != value
      {
        if buckets[i] == value {
          return true;
        }
      }
      return false;
    }

    /** `containsSpecialRow`: a scan of the used slots. */
    method ContainsSpecialRow(items: seq<ItemKey>, ref: ItemKey, data: Table) returns (found: bool)
      requires Valid() && Names(data, Elems())
      ensures found <==> SpecialIn(data, Elems(), items, ref)
    {
      ghost var s := Stored();
      NamedAt(data, s);
      var t := buckets[..size];
      var bound := size;
      for i := 0 to bound
        invariant !SpecialIn(data, Elements(s[..i]), items, ref)
      {
        ElementsPrefix(s, i);
        SpecialAdd(data, Elements(s[..i]), t[i], items, ref);
        var special := SpecialRow(items, ref, data[t[i] - 1]);
        if special {
          return true;
        }
      }
      assert s[..bound] == s;
      return false;
    }

    /**
     * `intersectWith(other)`: an empty `SUDA2IntSetSmall` when the ranges
     * are apart, otherwise a `SUDA2IntSetSmall2` of the common row ids in
     * slot order.
     */
    method IntersectWith(other: RowSet) returns (r: RowSet)
      requires Valid() && other.Valid()
      ensures r.Valid() && r.Elems() == Elems() * other.Elems() && fresh(r.Repr())
      ensures r.SmallSet? || r.Small2Set?
    {
      other.Bounds();
      if max < other.Lo() || other.Hi() < min {
        Apart(Elems(), min, max, other.Elems(), other.Lo(), other.Hi());
        r := SmallOf([]);
        return;
      }
      RowIdsAt(Stored());
      var kept := KeptFromFirst(buckets[..size], other);
      r := Small2Of(kept);
    }


    /** `isSupportRowPresent(other)`: false on apart ranges, else stops at a second common row id. */
    method IsSupportRowPresent(other: RowSet) returns (present: bool)
      requires Valid() && other.Valid()
      ensures present <==> |Elems() * other.Elems()| == 1
    {
      other.Bounds();
      if max < other.Lo() || other.Hi() < min {
        Apart(Elems(), min, max, other.Elems(), other.Lo(), other.Hi());
        return false;
      }
      RowIdsAt(Stored());
      present := SupportScan(buckets[..size], other);
    }
  }

  // ------------------------------------------------------------- bitmap

  /** A multiple of 64 at most `lo` is at most `lo` rounded down to a multiple of 64. */
  lemma {:induction false} FloorAligned(a: int, lo: int)
    requires a % 64 == 0 && a <= lo
    ensures a <= lo - lo % 64 && (lo - lo % 64) % 64 == 0
  {
  }

  /**
   * Lines 123-131 of `SUDA2IntSetBits.andWith`: the words of two bitmaps
   * that stand for the first rows of the result, whose words start at
   * `resultOffset`, at or after both.
   */
  method Shifts(offset: int, offset': int, resultOffset: int) returns (index: nat, index': nat)
    requires offset % 64 == 0 && offset' % 64 == 0 && resultOffset % 64 == 0
    requires offset <= resultOffset && offset' <= resultOffset
    ensures resultOffset == offset + 64 * index && resultOffset == offset' + 64 * index'
  {
    var i := offset / 64;
    var i' := offset' / 64;
    var resultIndex := resultOffset / 64;
    var maxIndex := if i < i' then i' else i;
    maxIndex := if maxIndex < resultIndex then resultIndex else maxIndex;
    Multiples(resultOffset, offset);
    Multiples(resultOffset, offset');
    index := maxIndex - i;
    index' := maxIndex - i';
  }

  /** `new long[n]`: every word zero. */
  method ZeroWords(n: nat) returns (a: array<nat>)
    ensures fresh(a) && a.Length == n && forall i :: 0 <= i < n ==> a[i] == 0
  {
    a := new nat[n](_ => 0);
  }

  /** Setting the bit of a row that is not yet in the words adds that row, and one to the count. */
  lemma BitAdded(before: seq<nat>, base: int, o: int, k: int, value: int)
    requires Longs(before) && 0 <= o < |before| && 0 <= k < 64 && value == base + 64 * o + k
    requires value !in Range(before, base)
    ensures Longs(before[o := WithBit(before[o], k)])
    ensures Range(before[o := WithBit(before[o], k)], base) == Range(before, base) + {value}
    ensures Count(before[o := WithBit(before[o], k)]) == Count(before) + 1
  {
    var after := before[o := WithBit(before[o], k)];
    LongWithBit(before[o], k);
    RangeWithBit(before, base, o, k);
    RangeCard(before, base);
    RangeCard(after, base);
  }

  /**
   * `SUDA2IntSetBits`: row `offset + 64 o + i` is in the set when bit `i`
   * of word `o` is set; `offset` is a multiple of 64. `min` and `max` bound
   * the rows; an intersection sets them to the bounds of both operands'
   * ranges, which need not be elements.
   */
  class IntSetBits {
    const offset: int
    const words: array<nat>
    var size: int
    var min: int
    var max: int

    ghost function Elems(): set<int>
      reads this, words
    {
      Range(words[..], offset)
    }

    /**
     * The words are `long`s, `size` counts their bits, `min`/`max` bound
     * the rows and lie inside the words' span (or are still the initial
     * extremes), and rows stay below the greatest `int`.
     */
    ghost predicate Valid()
      reads this, words
    {
      && 0 <= offset <= IntMax && offset % 64 == 0
      && Longs(words[..])
      && size == Count(words[..])
      && Bounded(Elems(), min, max)
      && (forall x :: x in Elems() ==> 0 < x < IntMax)
      && ((0 < min <= max < IntMax && offset <= min && max < offset + 64 * words.Length) ||
          (min == IntMax && max == IntMin))
    }

    /**
     * `SUDA2IntSetBits(min, max)`: `offset` is `min & ~63`, and enough
     * words to reach `max`.
     */
    constructor (min: int, max: int)
      requires 0 < min <= max < IntMax
      ensures Valid() && Elems() == {} && size == 0 && fresh(words)
      ensures forall j :: 0 <= j < words.Length ==> words[j] == 0
      ensures offset == min - min % 64 && max < offset + 64 * words.Length
      ensures this.min == IntMax && this.max == IntMin
    {
      offset := min - min % 64;
      var w := ZeroWords((max - (min - min % 64) + 64) / 64);
      words := w;
      size := 0;
      this.min := IntMax;
      this.max := IntMin;
      new;
      RangeZero(words[..], offset);
      RangeCard(words[..], offset);
    }

    /** `add(value)`: sets the bit of a row inside the words' span that is not yet in the set. */
    method Add(value: int)
      requires Valid() && offset <= value < offset + 64 * words.Length && 0 < value < IntMax
      requires value !in Elems()
      modifies this, words
      ensures Valid() && Elems() == old(Elems()) + {value} && size == old(size) + 1
    {
      min := if value < min then value else min;
      max := if value > max then value else max;
      var v := value - offset;
      var w := v / 64;
      ghost var before := words[..];
      BitAdded(before, offset, w, v % 64, value);
      words[w] := WithBit(words[w], v % 64);
      assert words[..] == before[w := WithBit(before[w], v % 64)];
      size := size + 1;
    }

    /**
     * `contains(value)`: `value - offset` wraps around when `value` is far
     * below `offset`; a negative difference or a word past the end means
     * absent.
     */
    method Contains(value: int) returns (found: bool)
      requires Valid() && IsInt32(value)
      ensures found <==> value in Elems()
    {
      var v := Wrap32(value - offset);
      WrapNear(value - offset);
      if v < 0 || v / 64 >= words.Length {
        RangeBound(words[..], offset);
        return false;
      }
      RangeBit(words[..], offset, offset + v);
      found := Bit(words[v / 64], v % 64);
    }

    /** `containsSpecialRow`: every bit of every word, with the row it stands for. */
    method ContainsSpecialRow(items: seq<ItemKey>, ref: ItemKey, data: Table) returns (found: bool)
      requires Valid() && Names(data, Elems())
      ensures found <==> SpecialIn(data, Elems(), items, ref)
    {
      var index := offset;
      var value := 0;
      for o := 0 to words.Length
        invariant index == offset + 64 * o && value == 64 * o
        invariant forall x :: x in Elems() && x < index ==> !Special(data[x - 1], items, ref)
      {
        for i := 0 to 64
          invariant index == offset + 64 * o + i && value == 64 * o + i
          invariant forall x :: x in Elems() && x < index ==> !Special(data[x - 1], items, ref)
        {
          BitAt(words[..], offset, o, i);
          assert value % 64 == i;
          if Bit(words[o], value % 64) {
            found := SpecialRow(items, ref, data[index - 1]);
            if found {
              return;
            }
          }
          value := value + 1;
          index := index + 1;
        }
      }
      RangeBound(words[..], offset);
      found := false;
    }

    /**
     * Lines 113-138 of `intersectWith` for two bitmaps that overlap: a
     * bitmap over the overlap of both ranges, filled by ANDing the words
     * that stand for the same rows.
     */
    method AndWith(ob: IntSetBits) returns (result: IntSetBits)
      requires Valid() && ob.Valid() && size > 0 && !(max < ob.min || ob.max < min)
      ensures fresh(result) && fresh(result.words) && result.Valid()
      ensures result.Elems() == Elems() * ob.Elems()
    {
      RangeCard(words[..], offset);
      var lo := if min < ob.min then ob.min else min;
      var hi := if max < ob.max then max else ob.max;
      result := new IntSetBits(lo, hi);
      FloorAligned(offset, lo);
      FloorAligned(ob.offset, lo);
      Overlap(this, ob, lo, hi);
      var index, index' := Shifts(offset, ob.offset, result.offset);
      Fill(result, lo, hi, words, offset, index, ob.words, ob.offset, index');
    }

    /** The bitset branch of `isSupportRowPresent`: the words from the common start, until two shared rows are seen. */
    static method SharedOne(a: IntSetBits, b: IntSetBits) returns (present: bool)
      requires a.Valid() && b.Valid()
      ensures present <==> |a.Elems() * b.Elems()| == 1
    {
      var index, index' := CommonStart(a.offset, b.offset);
      SharedCount(a, b, index, index');
      var count := SharedUpToTwo(a.words, index, b.words, index');
      present := count == 1;
    }

    /**
     * The loop of `isSupportRowPresent`: the running `bitCount` of the ANDed
     * words from `x0` and `y0` on, stopped as soon as it passes one. It is
     * the whole count when that is at most one, and more than one otherwise.
     */
    static method SharedUpToTwo(a: array<nat>, x0: nat, b: array<nat>, y0: nat) returns (count: nat)
      ensures count <= 1 ==> count == Count(Ands(Skip(a[..], x0), Skip(b[..], y0)))
      ensures count > 1 ==> Count(Ands(Skip(a[..], x0), Skip(b[..], y0))) > 1
    {
      ghost var p := Ands(Skip(a[..], x0), Skip(b[..], y0));
      var index, index' := x0, y0;
      count := 0;
      ghost var j := 0;
      while count <= 1 && index < a.Length && index' < b.Length
        invariant 0 <= j <= |p| && index == x0 + j && index' == y0 + j
        invariant count == Count(p[..j])
        decreases a.Length - index
      {
        CountPush(p, j);
        count := count + BitCount(And(a[index], b[index']));
        index := index + 1;
        index' := index' + 1;
        j := j + 1;
      }
      CountPrefix(p, j);
      assert j < |p| ==> count > 1;
      assert p[..|p|] == p;
    }

    /**
     * The loop of `intersectWith` that fills the fresh result: word `j` is
     * the AND of word `x0 + j` of one set and word `y0 + j` of the other,
     * for as long as all three arrays last, and `size` counts the bits.
     */
    method AndInto(a: array<nat>, x0: nat, b: array<nat>, y0: nat)
      requires words != a && words != b
      requires size == Count(words[..]) && forall j :: 0 <= j < words.Length ==> words[j] == 0
      modifies this, words
      ensures min == old(min) && max == old(max)
      ensures forall j :: 0 <= j < words.Length ==>
        words[j] == (if x0 + j < a.Length && y0 + j < b.Length then And(a[x0 + j], b[y0 + j]) else 0)
      ensures size == Count(words[..])
    {
      var index, index', resultIndex := x0, y0, 0;
      while resultIndex < words.Length && index < a.Length && index' < b.Length
        invariant 0 <= resultIndex <= words.Length
        invariant index == x0 + resultIndex && index' == y0 + resultIndex
        invariant forall j :: 0 <= j < resultIndex ==>
          x0 + j < a.Length && y0 + j < b.Length && words[j] == And(a[x0 + j], b[y0 + j])
        invariant forall j :: resultIndex <= j < words.Length ==> words[j] == 0
        invariant size == Count(words[..]) && min == old(min) && max == old(max)
        decreases words.Length - resultIndex
      {
        var element := And(a[index], b[index']);
        CountUpdate(words[..], resultIndex, element);
        size := size + BitCount(element);
        words[resultIndex] := element;
        index := index + 1;
        index' := index' + 1;
        resultIndex := resultIndex + 1;
      }
    }

    /**
     * `intersectWith(other)`: the empty set when this set is empty or the
     * ranges are apart; for a bitmap, the ANDed words, given up for the
     * shared empty set when no bit is left and copied into a
     * `SUDA2IntSetJump` when at most 8 are; any other set probes this one.
     */
    method IntersectWith(other: RowSet, seed: int) returns (r: RowSet)
      requires Valid() && other.Valid()
      ensures r.Valid() && r.Elems() == Elems() * other.Elems() && fresh(r.Repr())
      decreases 1, 0
    {
      if size == 0 || max < other.Lo() || other.Hi() < min {
        if size == 0 {
          RangeCard(words[..], offset);
        } else {
          Apart(Elems(), min, max, other.Elems(), other.Lo(), other.Hi());
        }
        return EmptySet;
      }
      if other.BitsSet? {
        var result := AndWith(other.bits);
        RangeCard(result.words[..], result.offset);
        if result.size > 8 {
          r := BitsSet(result);
        } else {
          r := ShrinkResult(result, result);
        }
      } else {
        r := other.IntersectWith(BitsSet(this), seed);
      }
    }

    /**
     * Lines 98-175 of `intersectWith` for two bitmaps, as written: the
     * shrink copies the rows of `this` rather than those of the
     * intersection. Shrinking is only sound when this set has at most 8
     * rows, so the model stays there.
     */
    method IntersectWithAsWritten(other: IntSetBits) returns (r: RowSet)
      requires Valid() && other.Valid() && size <= 8
      ensures r.Valid()
      ensures r.Elems() ==
        if Elems() * other.Elems() == {} then {}
        else if |Elems() * other.Elems()| > 8 then Elems() * other.Elems()
        else Elems()
    {
      if size == 0 || max < other.min || other.max < min {
        if size == 0 {
          RangeCard(words[..], offset);
        } else {
          Apart(Elems(), min, max, other.Elems(), other.min, other.max);
        }
        return EmptySet;
      }
      var result := AndWith(other);
      RangeCard(result.words[..], result.offset);
      if result.size > 8 {
        r := BitsSet(result);
      } else {
        r := ShrinkResult(result, this);
      }
    }

    /**
     * `isSupportRowPresent(other)`: for a bitmap, sums the `bitCount`s of
     * the ANDed words that stand for the same rows while the sum is at
     * most 1; any other set probes this one.
     */
    method IsSupportRowPresent(other: RowSet) returns (present: bool)
      requires Valid() && other.Valid()
      ensures present <==> |Elems() * other.Elems()| == 1
      decreases 1, 0
    {
      other.Bounds();
      if max < other.Lo() || other.Hi() < min {
        Apart(Elems(), min, max, other.Elems(), other.Lo(), other.Hi());
        return false;
      }
      if other.BitsSet? {
        var ob := other.bits;
        present := SharedOne(this, ob);
        assert other.Elems() == ob.Elems();
      } else {
        present := other.IsSupportRowPresent(BitsSet(this));
        assert other.Elems() * BitsSet(this).Elems() == Elems() * other.Elems();
      }
    }
  }

  /**
   * Lines 119-138 of `SUDA2IntSetBits.intersectWith`: the fresh `result`
   * takes the overlap `lo..hi` as its range and the ANDed words of `a`
   * (whose rows start at `aBase`) and `b` (from `bBase`).
   */
  method Fill(result: IntSetBits, lo: int, hi: int, a: array<nat>, ghost aBase: int, x0: nat,
              b: array<nat>, ghost bBase: int, y0: nat)
    requires result.words != a && result.words != b
    requires result.size == Count(result.words[..])
    requires forall j :: 0 <= j < result.words.Length ==> result.words[j] == 0
    requires Longs(a[..]) && Longs(b[..]) && 0 < lo <= hi < IntMax
    requires forall v :: v in Range(a[..], aBase) * Range(b[..], bBase) ==> lo <= v <= hi && 0 < v < IntMax
    requires 0 <= result.offset <= lo && result.offset % 64 == 0
    requires hi < result.offset + 64 * result.words.Length
    requires result.offset == aBase + 64 * x0 && result.offset == bBase + 64 * y0
    modifies result, result.words
    ensures result.Valid() && result.Elems() == Range(a[..], aBase) * Range(b[..], bBase)
  {
    ghost var x, y := a[..], b[..];
    result.min, result.max := lo, hi;
    result.AndInto(a, x0, b, y0);
    assert a[..] == x && b[..] == y;
    AndWithResult(result, x, aBase, y, bBase, x0, y0);
  }

  /**
   * Two bitmaps whose ranges overlap: their common rows lie between the
   * greater of the minima and the lesser of the maxima.
   */
  lemma Overlap(a: IntSetBits, b: IntSetBits, lo: int, hi: int)
    requires a.Valid() && b.Valid() && a.size > 0 && !(a.max < b.min || b.max < a.min)
    requires lo == (if a.min < b.min then b.min else a.min)
    requires hi == (if a.max < b.max then a.max else b.max)
    ensures Longs(a.words[..]) && Longs(b.words[..]) && 0 < lo <= hi < IntMax
    ensures forall v :: v in Range(a.words[..], a.offset) * Range(b.words[..], b.offset) ==>
      lo <= v <= hi && 0 < v < IntMax
  {
    RangeCard(a.words[..], a.offset);
  }

  /**
   * After the AND loop: the words reached hold exactly the common rows of
   * the words `x` from row `xBase` and `y` from row `yBase`, the words not
   * reached are zero, so the result holds the intersection.
   */
  lemma AndWithResult(result: IntSetBits, x: seq<nat>, xBase: int, y: seq<nat>, yBase: int, x0: nat, y0: nat)
    requires Longs(x) && Longs(y) && 0 < result.min <= result.max < IntMax
    requires forall v :: v in Range(x, xBase) * Range(y, yBase) ==>
      result.min <= v <= result.max && 0 < v < IntMax
    requires 0 <= result.offset <= result.min && result.offset % 64 == 0
    requires result.max < result.offset + 64 * result.words.Length
    requires result.offset == xBase + 64 * x0 && result.offset == yBase + 64 * y0
    requires forall j :: 0 <= j < result.words.Length ==>
      result.words[j] == (if x0 + j < |x| && y0 + j < |y| then And(x[x0 + j], y[y0 + j]) else 0)
    requires result.size == Count(result.words[..])
    ensures result.Valid() && result.Elems() == Range(x, xBase) * Range(y, yBase)
  {
    var z := result.words[..];
    forall j | 0 <= j < |z|
      ensures z[j] == (if x0 + j < |x| && y0 + j < |y| then And(x[x0 + j], y[y0 + j]) else 0)
    {
      assert z[j] == result.words[j];
    }
    AndRange(x, xBase, y, yBase, z, result.offset, result.max, x0, y0);
    assert result.Elems() == Range(x, xBase) * Range(y, yBase);
    assert Bounded(result.Elems(), result.min, result.max);
  }

  /**
   * Lines 201-207 of `SUDA2IntSetBits.isSupportRowPresent`: the words of two
   * bitmaps that stand for the same rows, from the later of their first
   * words on.
   */
  method CommonStart(offset: int, offset': int) returns (index: nat, index': nat)
    requires offset % 64 == 0 && offset' % 64 == 0
    ensures offset + 64 * index == offset' + 64 * index' && (index == 0 || index' == 0)
  {
    var i := offset / 64;
    var i' := offset' / 64;
    var maxIndex := if i < i' then i' else i;
    index := maxIndex - i;
    index' := maxIndex - i';
  }

  /**
   * The rows two bitmaps share are counted by the `bitCount`s of their
   * words ANDed from words `x0` and `y0`, which stand for the same rows and
   * one of which is the first.
   */
  lemma {:induction false} SharedCount(a: IntSetBits, b: IntSetBits, x0: nat, y0: nat)
    requires a.Valid() && b.Valid()
    requires a.offset + 64 * x0 == b.offset + 64 * y0 && (x0 == 0 || y0 == 0)
    ensures |a.Elems() * b.Elems()| == Count(Ands(Skip(a.words[..], x0), Skip(b.words[..], y0)))
  {
    var base := a.offset + 64 * x0;
    Aligned(a.words[..], a.offset, b.words[..], b.offset, base, x0, y0);
    var x, y := Skip(a.words[..], x0), Skip(b.words[..], y0);
    assert Longs(x);
    AndsLongs(x, y);
    RangeCard(Ands(x, y), base);
  }

  /** The elements of `e` below `n`. */
  ghost function Below(e: set<int>, n: int): (r: set<int>)
    ensures forall x :: x in r <==> x in e && x < n
  {
    set x | x in e && x < n
  }

  /** One more candidate row: it joins the rows below it when `e` holds it. */
  lemma BelowStep(e: set<int>, n: int)
    ensures Below(e, n + 1) == Below(e, n) + (if n in e then {n} else {})
  {
  }

  /**
   * Lines 151-168 of `SUDA2IntSetBits.intersectWith`, for an ANDed bitmap
   * `result` of at most 8 rows: the shared empty set when no bit is left,
   * otherwise a `SUDA2IntSetJump` holding the rows of `shrunk` (which ought
   * to be `result` itself).
   */
  method ShrinkResult(result: IntSetBits, shrunk: IntSetBits) returns (r: RowSet)
    requires result.Valid() && shrunk.Valid() && result.size <= 8
    requires 0 < result.size ==> shrunk.size <= 8
    ensures r.Valid() && fresh(r.Repr())
    ensures r.Elems() == if result.size == 0 then {} else shrunk.Elems()
  {
    if result.size == 0 {
      r := EmptySet;
    } else {
      r := Shrink(shrunk);
    }
  }


  /**
   * The outer loop of the shrink of `SUDA2IntSetBits.intersectWith`: the
   * rows of every word in turn, in ascending order.
   */
  method SetBits(words: seq<nat>, base: int) returns (rows: seq<int>)
    requires Longs(words)
    ensures Unrepeated(rows) && Elements(rows) == Range(words, base)
  {
    rows := [];
    var o := 0;
    while o < |words|
      invariant 0 <= o <= |words|
      invariant Unrepeated(rows) && Elements(rows) == Range(words[..o], base)
    {
      var lo := base + 64 * o;
      var part := WordRows(words[o], lo);
      SetBitsStep(words, base, o, rows, lo, part);
      rows := rows + part;
      o := o + 1;
    }
    assert words[..o] == words;
  }

  /** One step of `SetBits`: the rows of word `o` follow those of the words before it. */
  lemma SetBitsStep(words: seq<nat>, base: int, o: int, rows: seq<int>, lo: int, part: seq<int>)
    requires Longs(words) && 0 <= o < |words| && lo == base + 64 * o
    requires Unrepeated(rows) && Elements(rows) == Range(words[..o], base)
    requires Unrepeated(part) && Elements(part) == Members(words[o], lo)
    ensures Unrepeated(rows + part) && Elements(rows + part) == Range(words[..o + 1], base)
  {
    RangePush(words, base, o, lo);
    assert Longs(words[..o]);
    RangeBound(words[..o], base);
    Joined(rows, part);
  }

  /**
   * The inner loop of the shrink: the 64 bits of word `w` in turn, collecting
   * the row `base + i` of each set bit `i`.
   */
  method WordRows(w: nat, base: int) returns (rows: seq<int>)
    requires w < Two64
    ensures Unrepeated(rows) && Elements(rows) == Members(w, base)
  {
    rows := [];
    var index := base;
    var i := 0;
    while i < 64
      invariant 0 <= i <= 64 && index == base + i
      invariant Unrepeated(rows) && Elements(rows) == Below(Members(w, base), index)
      invariant forall k :: 0 <= k < |rows| ==> rows[k] < index
    {
      var next := if Bit(w, i) then rows + [index] else rows;
      WordRowsStep(w, base, i, index, rows, next);
      rows := next;
      index := index + 1;
      i := i + 1;
    }
    LongBound(w, base);
    assert Below(Members(w, base), index) == Members(w, base);
  }

  /** One bit of `WordRows`: row `index` is kept exactly when bit `i` is set. */
  lemma WordRowsStep(w: nat, base: int, i: nat, index: int, rows: seq<int>, next: seq<int>)
    requires index == base + i
    requires Unrepeated(rows) && Elements(rows) == Below(Members(w, base), index)
    requires forall k :: 0 <= k < |rows| ==> rows[k] < index
    requires next == if Bit(w, i) then rows + [index] else rows
    ensures Unrepeated(next) && Elements(next) == Below(Members(w, base), index + 1)
    ensures forall k :: 0 <= k < |next| ==> next[k] < index + 1
  {
    MembersRow(w, base, i, index);
    BelowStep(Members(w, base), index);
    if Bit(w, i) {
      Appended(rows, index);
    }
  }


  /**
   * Lines 159-168 of `SUDA2IntSetBits.intersectWith`: every set bit of a
   * bitmap of at most 8 rows, in ascending order, into a `SUDA2IntSetJump`.
   */
  method Shrink(b: IntSetBits) returns (r: RowSet)
    requires b.Valid() && b.size <= 8
    ensures r.JumpSet? && fresh(r.Repr()) && r.Valid() && r.Elems() == b.Elems()
  {
    var rows := SetBits(b.words[..], b.offset);
    RangeCard(b.words[..], b.offset);
    RowIdsAt(rows);
    r := JumpOf(rows);
  }

  /**
   * The input that shows the shrink reading the wrong words: `{1, 2}`
   * intersected with `{2}` comes out as `{1, 2}`.
   */
  method ShrinkCounterexample() returns (a: IntSetBits, b: IntSetBits, r: RowSet)
    ensures a.Valid() && b.Valid() && r.Valid()
    ensures a.Elems() == {1, 2} && b.Elems() == {2} && r.Elems() == {1, 2}
    ensures r.Elems() != a.Elems() * b.Elems()
  {
    a := BitsOfOneTwo();
    b := new IntSetBits(2, 2);
    b.Add(2);
    r := a.IntersectWithAsWritten(b);
  }

  /** The bitmap `{1, 2}` of the counterexample above. */
  method BitsOfOneTwo() returns (a: IntSetBits)
    ensures fresh(a) && fresh(a.words) && a.Valid() && a.Elems() == {1, 2} && a.size == 2
  {
    a := new IntSetBits(1, 2);
    a.Add(1);
    a.Add(2);
  }

}
