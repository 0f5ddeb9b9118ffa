/**
 * `SUDA2Groupify` (src/main/de/linearbits/suda2/SUDA2Groupify.java): a
 * chained hash table over whole records that groups equal records into
 * equivalence classes and keeps, in O(1) per added record, the number of
 * classes of size 1 and of size 2.
 *
 * An `Entry` is an object whose `count` is incremented in place. The `next`
 * links of a bucket are seen as the order of the bucket's sequence of
 * entries, head first.
 */
module RowClasses {
  import opened Rows
  import opened Probing

  // ------------------------------------------------------------ capacity

  /** The largest capacity, `1 << 30`. */
  const MaxCapacity: int := 0x4000_0000

  lemma {:induction false} Pow2Mono(a: nat, b: nat)
    requires a <= b
    ensures Pow2(a) <= Pow2(b)
    decreases b
  {
    if a < b {
      Pow2Mono(a, b - 1);
    }
  }

  lemma Pow2Thirty()
    ensures Pow2(4) == 16 && Pow2(30) == MaxCapacity
  {
    assert Pow2(10) == 1024;
    assert Pow2(20) == 1024 * 1024;
  }

  /** The exponent of the smallest power of two that is at least `x`. */
  function CeilLog(x: int): (k: nat)
    ensures x <= Pow2(k) && (k == 0 || Pow2(k - 1) < x)
    decreases x
  {
    if x <= 1 then 0 else 1 + CeilLog((x + 1) / 2)
  }

  /** A power of two is its own smallest power of two. */
  lemma {:induction false} CeilLogPow2(k: nat)
    ensures CeilLog(Pow2(k)) == k
  {
    if k > 0 {
      CeilLogPow2(k - 1);
      assert (Pow2(k) + 1) / 2 == Pow2(k - 1);
    }
  }

  lemma CeilLogBound(x: int)
    requires x <= MaxCapacity
    ensures CeilLog(x) <= 30
  {
    var k := CeilLog(x);
    Pow2Thirty();
    if k > 30 {
      Pow2Mono(30, k - 1);
    }
  }

  /** The exponent of `calculateCapacity(x)`. */
  function CapacityLog(x: int): (k: nat)
    requires 0 <= x
    ensures k <= 30
  {
    if x >= MaxCapacity then 30
    else if x == 0 then 4
    else
      CeilLogBound(x);
      CeilLog(x)
  }

  /**
   * `calculateCapacity(x)`: `1 << 30` from `1 << 30` on, 16 for 0, and
   * otherwise the smallest power of two that is at least `x`, which the
   * code gets by or-ing `x - 1` with its shifts by 1, 2, 4, 8 and 16 and
   * adding one.
   */
  function CalculateCapacity(x: int): (c: int)
    requires 0 <= x
    ensures c == Pow2(CapacityLog(x))
    ensures x == 0 ==> c == 16
    ensures x >= MaxCapacity ==> c == MaxCapacity
    ensures 0 < x < MaxCapacity ==> x <= c < 2 * x
  {
    Pow2Thirty();
    if x >= MaxCapacity then MaxCapacity
    else if x == 0 then 16
    else Pow2(CeilLog(x))
  }

  /** Doubling a power-of-two capacity below the largest gives twice the buckets. */
  lemma CapacityDoubles(log: nat)
    requires log < 30
    ensures 2 * Pow2(log) == Pow2(log + 1) && CalculateCapacity(2 * Pow2(log)) == Pow2(log + 1)
  {
    Pow2Thirty();
    Pow2Mono(log + 1, 30);
    CeilLogPow2(log + 1);
  }

  /** `calculateThreshold(buckets, 0.75f)`: `(int) (buckets * 0.75f)`, exact for the power-of-two bucket counts. */
  function GroupThreshold(buckets: int): int
  {
    3 * buckets / 4
  }

  // ------------------------------------------------------------- hashing

  /** The fold `result = 37 * result + a[i]` from 23, in `int` arithmetic. */
  function FoldHash(a: seq<int>): (h: int)
    ensures IsInt32(h)
  {
    if a == [] then 23 else Wrap32(37 * FoldHash(a[..|a| - 1]) + a[|a| - 1])
  }

  /** The same fold on unbounded integers. */
  function Poly(a: seq<int>): int
  {
    if a == [] then 23 else 37 * Poly(a[..|a| - 1]) + a[|a| - 1]
  }

  /** Wrapping at every step gives the wrapped unbounded fold. */
  lemma {:induction false} FoldPoly(a: seq<int>)
    ensures FoldHash(a) == Wrap32(Poly(a))
  {
    if a != [] {
      var p := a[..|a| - 1];
      FoldPoly(p);
      WrapMulAdd(Poly(p), 37, a[|a| - 1]);
    }
  }

  lemma PolyNext(a: seq<int>, i: int)
    requires 0 <= i < |a|
    ensures Poly(a[..i + 1]) == 37 * Poly(a[..i]) + a[i]
  {
    assert a[..i + 1][..i] == a[..i];
  }

  /** Four steps of the fold at once, as the unrolled loop takes them. */
  lemma PolyFour(a: seq<int>, i: int)
    requires 0 <= i && i + 3 < |a|
    ensures Poly(a[..i + 4]) == 1874161 * Poly(a[..i]) + 50653 * a[i] + 1369 * a[i + 1] + 37 * a[i + 2] + a[i + 3]
  {
    PolyNext(a, i);
    PolyNext(a, i + 1);
    PolyNext(a, i + 2);
    PolyNext(a, i + 3);
  }

  /**
   * `hashcode(array)`: blocks of four elements at once, then the rest one
   * by one; every product and sum wraps, which is the wrap of the exact
   * value.
   */
  method HashCode(a: seq<int>) returns (result: int)
    ensures result == FoldHash(a)
  {
    result := 23;
    var i := 0;
    while i + 3 < |a|
      invariant 0 <= i <= |a|
      invariant result == Wrap32(Poly(a[..i]))
    {
      PolyFour(a, i);
      WrapMulAdd(Poly(a[..i]), 1874161, 50653 * a[i] + 1369 * a[i + 1] + 37 * a[i + 2] + a[i + 3]);
      result := Wrap32(1874161 * result + 50653 * a[i] + 1369 * a[i + 1] + 37 * a[i + 2] + a[i + 3]);
      i := i + 4;
    }
    while i < |a|
      invariant 0 <= i <= |a|
      invariant result == Wrap32(Poly(a[..i]))
    {
      PolyNext(a, i);
      WrapMulAdd(Poly(a[..i]), 37, a[i]);
      result := Wrap32(37 * result + a[i]);
      i := i + 1;
    }
    assert a[..i] == a;
    FoldPoly(a);
  }

  /**
   * `equals(first, second)`: compares `second` with `first` at `first`'s
   * indices only. Lengths 1 to 17 go through the fall-through switch, from
   * the last index down; every other length through the loop.
   */
  method Equals(first: seq<int>, second: seq<int>) returns (r: bool)
    requires |first| <= |second|
    ensures r <==> first == second[..|first|]
    ensures |first| == |second| ==> (r <==> first == second)
  {
    if 1 <= |first| <= 17 {
      var i := |first|;
      while i > 0
        invariant 0 <= i <= |first|
        invariant first[i..] == second[i..|first|]
      {
        if first[i - 1] != second[i - 1] {
          assert first[i - 1] != second[..|first|][i - 1];
          return false;
        }
        assert first[i - 1..] == [first[i - 1]] + first[i..];
        assert second[i - 1..|first|] == [second[i - 1]] + second[i..|first|];
        i := i - 1;
      }
    } else {
      var i := 0;
      while i < |first|
        invariant 0 <= i <= |first|
        invariant first[..i] == second[..i]
      {
        if first[i] != second[i] {
          assert first[i] != second[..|first|][i];
          return false;
        }
        i := i + 1;
      }
    }
    return true;
  }

  // -------------------------------------------------------------- entries

  /** `Entry`: one equivalence class. */
  class Entry {
    /** The number of records of the class. */
    var count: int
    const hashcode: int
    const key: seq<int>

    constructor (key: seq<int>, hash: int)
      ensures this.key == key && hashcode == hash && count == 0
    {
      this.key := key;
      hashcode := hash;
      count := 0;
    }
  }

  /** The row contents added exactly `n` times. */
  ghost function OfSize(rows: multiset<seq<int>>, n: nat): set<seq<int>>
  {
    set k | k in rows && rows[k] == n
  }

  /**
   * One more record changes the classes of its content only: the class
   * leaves the size it had and takes the size one larger.
   */
  lemma OfSizeAdd(rows: multiset<seq<int>>, record: seq<int>, n: nat)
    requires n > 0
    ensures var after := OfSize(rows + multiset{record}, n);
      && (rows[record] + 1 == n ==> after == OfSize(rows, n) + {record} && record !in OfSize(rows, n))
      && (rows[record] == n ==> after == OfSize(rows, n) - {record} && record in OfSize(rows, n))
      && (rows[record] + 1 != n && rows[record] != n ==> after == OfSize(rows, n))
  {
  }

  /** The number of classes of size `n` after one more record, as `add` updates it. */
  lemma OfSizeCount(rows: multiset<seq<int>>, record: seq<int>, n: nat)
    requires n > 0
    ensures |OfSize(rows + multiset{record}, n)| ==
      |OfSize(rows, n)| + (if rows[record] + 1 == n then 1 else 0) - (if rows[record] + 1 == n + 1 then 1 else 0)
  {
    OfSizeAdd(rows, record, n);
  }

  /**
   * Every entry of bucket `b` is the entry of its row content, and its
   * hash masked to the table is `b`. `hash & (length - 1)` is
   * `hash % length` for the power-of-two lengths (Probing.LowBitsMod).
   */
  ghost predicate Placed(buckets: array<seq<Entry>>, classes: map<seq<int>, Entry>)
    reads buckets
  {
    && buckets.Length > 0
    && forall b, j :: 0 <= b < buckets.Length && 0 <= j < |buckets[b]| ==>
      && buckets[b][j].key in classes && classes[buckets[b][j].key] == buckets[b][j]
      && buckets[b][j].hashcode % buckets.Length == b
  }

  /** The entry of every row content is in the bucket of its hash. */
  ghost predicate Reached(buckets: array<seq<Entry>>, classes: map<seq<int>, Entry>)
    reads buckets
    requires buckets.Length > 0
  {
    forall k :: k in classes ==>
      && classes[k].key == k && classes[k].hashcode == FoldHash(k)
      && classes[k] in buckets[FoldHash(k) % buckets.Length]
  }

  /** `2^log` buckets, each class in the bucket of its hash and nowhere else. */
  ghost predicate Hashed(buckets: array<seq<Entry>>, classes: map<seq<int>, Entry>, log: nat)
    reads buckets
  {
    && log <= 30 && buckets.Length == Pow2(log)
    && Placed(buckets, classes) && Reached(buckets, classes)
  }

  /** The records counted by the class of `k`. */
  ghost function CountOf(classes: map<seq<int>, Entry>, k: seq<int>): int
    reads classes.Values
    requires k in classes
  {
    classes[k].count
  }

  /** Each class counts its records; `size1` and `size2` count the classes of size 1 and 2. */
  ghost predicate CountedIn(classes: map<seq<int>, Entry>, rows: multiset<seq<int>>, size1: int, size2: int)
    reads classes.Values
  {
    && (forall k {:trigger CountOf(classes, k)} :: k in classes ==> CountOf(classes, k) == rows[k])
    && size1 == |OfSize(rows, 1)|
    && size2 == |OfSize(rows, 2)|
  }

  /** A new class of a content without records counts none. */
  lemma CountedNew(classes: map<seq<int>, Entry>, rows: multiset<seq<int>>, size1: int, size2: int, key: seq<int>, entry: Entry)
    requires CountedIn(classes, rows, size1, size2) && key !in rows && entry.count == 0
    ensures CountedIn(classes[key := entry], rows, size1, size2)
  {
    var next := classes[key := entry];
    forall k | k in next
      ensures CountOf(next, k) == rows[k]
    {
      if k != key {
        assert CountOf(classes, k) == rows[k];
      }
    }
  }

  /**
   * `SUDA2Groupify`: a chained hash table from the content of a record to
   * the number of records with that content, with running counts of the
   * contents held by one record and by two.
   */
  class Groupify {
    var buckets: array<seq<Entry>>
    var elements: int
    var threshold: int
    var numClassesOfSize1: int
    var numClassesOfSize2: int

    /** The table has `2^log` buckets. */
    ghost var log: nat
    /** The entry of each row content added. */
    ghost var classes: map<seq<int>, Entry>
    /** The records added. */
    ghost var rows: multiset<seq<int>>

    ghost function Repr(): set<object>
      reads this
    {
      {this, buckets} + set e | e in classes.Values :: e as object
    }

    /**
     * Every entry of bucket `b` is the entry of its row content and its
     * hash masked to the table is `b`; the entry of every row content is
     * in the bucket of its hash. `hash & (length - 1)` is `hash % length`
     * for the power-of-two lengths (Probing.LowBitsMod).
     */
    ghost predicate Chains()
      reads this, buckets
    {
      Hashed(buckets, classes, log)
    }

    /**
     * The classes are the distinct records added, each class counts its
     * records, and the two counters count the classes of size 1 and 2.
     */
    ghost predicate Valid()
      reads this, buckets, classes.Values
    {
      && Chains() && Sized()
      && (forall k :: k in classes <==> k in rows)
      && Counted()
    }

    /** `elements` counts the classes, and the threshold is three quarters of the buckets. */
    ghost predicate Sized()
      reads this, buckets
    {
      threshold == GroupThreshold(buckets.Length) && elements == |classes|
    }

    /** Each class counts its records; the counters count the classes of size 1 and 2. */
    ghost predicate Counted()
      reads this, classes.Values
    {
      CountedIn(classes, rows, numClassesOfSize1, numClassesOfSize2)
    }

    /** `SUDA2Groupify(capacity)`: `calculateCapacity(capacity)` empty buckets. */
    constructor (capacity: int)
      requires 0 <= capacity
      ensures Valid() && rows == multiset{} && buckets.Length == CalculateCapacity(capacity)
    {
      var length := CalculateCapacity(capacity);
      buckets := new seq<Entry>[length](_ => []);
      elements := 0;
      threshold := GroupThreshold(length);
      numClassesOfSize1 := 0;
      numClassesOfSize2 := 0;
      log := CapacityLog(capacity);
      classes := map[];
      rows := multiset{};
    }

    /** `getNumUniqueRecords()`: the records whose content no other record has. */
    function GetNumUniqueRecords(): (r: int)
      reads this, buckets, classes.Values
      requires Valid()
      ensures r == |OfSize(rows, 1)|
    {
      numClassesOfSize1
    }

    /** `getNumDuplicateRecords()`: the records whose content exactly one other record has. */
    function GetNumDuplicateRecords(): (r: int)
      reads this, buckets, classes.Values
      requires Valid()
      ensures r == 2 * |OfSize(rows, 2)|
    {
      numClassesOfSize2 * 2
    }

    /**
     * `add(record)`: counts the record in the class of its content, which
     * is created when the content is new. Records have the width of the
     * table's records.
     */
    method Add(record: seq<int>)
      requires Valid()
      requires forall k :: k in rows ==> |k| == |record|
      requires |classes| < 0x3000_0000
      modifies this, buckets, classes.Values
      ensures Valid() && rows == old(rows) + multiset{record}
      ensures record in old(classes) ==> classes == old(classes)
      ensures record !in old(classes) ==> fresh(classes[record]) && classes == old(classes)[record := classes[record]]
    {
      var entry := Lookup(record);
      Count(entry, record);
    }

    /** The first part of `add(record)`: the class of the record's content, created if new. */
    method Lookup(record: seq<int>) returns (entry: Entry)
      requires Valid() && |classes| < 0x3000_0000
      requires forall k :: k in rows ==> |k| == |record|
      modifies this, buckets
      ensures Chains() && Sized() && record in classes && classes[record] == entry
      ensures Counted() && rows == old(rows)
      ensures record in old(classes) ==> classes == old(classes)
      ensures record !in old(classes) ==> fresh(entry) && classes == old(classes)[record := entry]
    {
      var hash := HashCode(record);
      var index := hash % buckets.Length;
      var found := FindEntry(record, index, hash);
      if found != null {
        return found;
      }
      entry := NewClass(record, hash);
    }

    /** `add(record)` for a new content: one more element, a rehash when there are too many, and the new class. */
    method NewClass(record: seq<int>, hash: int) returns (entry: Entry)
      requires Chains() && Sized() && |classes| < 0x3000_0000
      requires record !in classes && hash == FoldHash(record)
      requires record !in rows && Counted()
      modifies this, buckets
      ensures Chains() && Sized() && fresh(entry) && classes == old(classes)[record := entry]
      ensures Counted() && rows == old(rows)
    {
      Grow();
      entry := CreateClass(record, hash);
    }

    /** The new class of a content without records: its entry, counting none. */
    method CreateClass(record: seq<int>, hash: int) returns (entry: Entry)
      requires Chains() && record !in classes && hash == FoldHash(record)
      requires record !in rows && Counted()
      modifies this, buckets
      ensures Chains() && fresh(entry) && classes == old(classes)[record := entry] && buckets == old(buckets)
      ensures Counted() && rows == old(rows) && elements == old(elements) && threshold == old(threshold)
    {
      entry := CreateEntry(record, hash % buckets.Length, hash);
      CountedNew(old(classes), rows, numClassesOfSize1, numClassesOfSize2, record, entry);
    }

    /** The second part of `add(record)`: one more record in the class, and the counters follow. */
    method Count(entry: Entry, record: seq<int>)
      requires record in classes && classes[record] == entry && forall k :: k in classes ==> classes[k].key == k
      requires Counted()
      modifies this, entry
      ensures Counted() && rows == old(rows) + multiset{record}
      ensures classes == old(classes) && buckets == old(buckets) && log == old(log)
      ensures elements == old(elements) && threshold == old(threshold)
    {
      var count := entry.count + 1;
      assert count == CountOf(classes, record) + 1 == rows[record] + 1;
      OfSizeCount(rows, record, 1);
      OfSizeCount(rows, record, 2);
      entry.count := count;
      numClassesOfSize1 := numClassesOfSize1 + (if count == 1 then 1 else 0);
      numClassesOfSize1 := numClassesOfSize1 - (if count == 2 then 1 else 0);
      numClassesOfSize2 := numClassesOfSize2 + (if count == 2 then 1 else 0);
      numClassesOfSize2 := numClassesOfSize2 - (if count == 3 then 1 else 0);
      rows := rows + multiset{record};
      forall k | k in classes
        ensures CountOf(classes, k) == rows[k]
      {
        if k != record {
          assert classes[k].key == k && old(CountOf(classes, k)) == old(rows[k]);
        }
      }
    }

    /** `add(record)` for a new content: one more element, and twice the buckets once there are more elements than the threshold. */
    method Grow()
      requires Chains() && Sized() && |classes| < 0x3000_0000
      modifies this
      ensures Chains() && elements == |classes| + 1 && threshold == GroupThreshold(buckets.Length)
      ensures buckets == old(buckets) || fresh(buckets)
      ensures classes == old(classes) && rows == old(rows)
      ensures numClassesOfSize1 == old(numClassesOfSize1) && numClassesOfSize2 == old(numClassesOfSize2)
    {
      elements := elements + 1;
      if elements > threshold {
        Pow2Thirty();
        if log == 30 {
          assert false;
        }
        Rehash();
      }
    }

    /** `createEntry(key, index, hash)`: a new class at the head of bucket `index`. */
    method CreateEntry(key: seq<int>, index: int, hash: int) returns (entry: Entry)
      requires Chains() && key !in classes && hash == FoldHash(key) && index == hash % buckets.Length
      modifies this, buckets
      ensures Chains() && fresh(entry) && entry.key == key && entry.count == 0
      ensures classes == old(classes)[key := entry] && buckets == old(buckets)
      ensures rows == old(rows) && elements == old(elements) && threshold == old(threshold)
      ensures numClassesOfSize1 == old(numClassesOfSize1) && numClassesOfSize2 == old(numClassesOfSize2)
    {
      entry := new Entry(key, hash);
      buckets[index] := [entry] + buckets[index];
      classes := classes[key := entry];
    }

    /** `findEntry(key, index, keyHash)`: the class of the record's content, or null. */
    method FindEntry(record: seq<int>, index: int, hash: int) returns (m: Entry?)
      requires Chains() && hash == FoldHash(record) && index == hash % buckets.Length
      requires forall k :: k in classes ==> |k| == |record|
      ensures m == if record in classes then classes[record] else null
    {
      var chain := buckets[index];
      var j := 0;
      while j < |chain|
        invariant 0 <= j <= |chain|
        invariant forall l :: 0 <= l < j ==> chain[l].key != record
      {
        var e := chain[j];
        if e.hashcode == hash {
          var same := Equals(record, e.key);
          if same {
            return e;
          }
        }
        j := j + 1;
      }
      return null;
    }

    /**
     * `rehash()`, as evidently intended: every entry of every bucket moves
     * to the head of the bucket of its hash in a table of twice the length.
     */
    method Rehash()
      requires Chains() && log < 30
      modifies this
      ensures Chains() && fresh(buckets) && buckets.Length == 2 * old(buckets.Length)
      ensures threshold == GroupThreshold(buckets.Length)
      ensures classes == old(classes) && rows == old(rows) && elements == old(elements)
      ensures numClassesOfSize1 == old(numClassesOfSize1) && numClassesOfSize2 == old(numClassesOfSize2)
    {
      var length := Doubled();
      var newData := Relinked(length);
      buckets, threshold, log := newData, GroupThreshold(length), log + 1;
    }

    /** `calculateCapacity(buckets.length << 1)`: twice the buckets. */
    method Doubled() returns (length: int)
      requires Chains() && log < 30
      ensures length == 2 * buckets.Length == Pow2(log + 1)
    {
      CapacityDoubles(log);
      length := CalculateCapacity(buckets.Length * 2);
    }

    /** The loop of `rehash()`: new buckets holding every entry in the bucket of its hash. */
    method Relinked(length: int) returns (newData: array<seq<Entry>>)
      requires Chains() && length > 0
      ensures fresh(newData) && newData.Length == length
      ensures Placed(newData, classes) && Reached(newData, classes)
    {
      newData := new seq<Entry>[length](_ => []);
      var i := 0;
      while i < buckets.Length
        modifies newData
        invariant 0 <= i <= buckets.Length
        invariant Placed(newData, classes)
        invariant forall b, j :: 0 <= b < i && 0 <= j < |buckets[b]| ==>
          buckets[b][j] in newData[buckets[b][j].hashcode % length]
      {
        MoveChain(newData, i);
        i := i + 1;
      }
      forall k | k in classes
        ensures classes[k] in newData[FoldHash(k) % length]
      {
        var b := FoldHash(k) % buckets.Length;
        var j :| 0 <= j < |buckets[b]| && buckets[b][j] == classes[k];
      }
    }

    /** The inner loop of `rehash()`: the entries of old bucket `i`, head first, each to the head of its new bucket. */
    method MoveChain(newData: array<seq<Entry>>, i: int)
      requires Chains() && newData != buckets && 0 <= i < buckets.Length && Placed(newData, classes)
      modifies newData
      ensures Placed(newData, classes)
      ensures forall b, j :: 0 <= b < newData.Length && 0 <= j < |old(newData[b])| ==> old(newData[b])[j] in newData[b]
      ensures forall j :: 0 <= j < |buckets[i]| ==> buckets[i][j] in newData[buckets[i][j].hashcode % newData.Length]
    {
      var chain := buckets[i];
      var j := 0;
      while j < |chain|
        invariant 0 <= j <= |chain| && Placed(newData, classes)
        invariant forall b, l :: 0 <= b < newData.Length && 0 <= l < |old(newData[b])| ==> old(newData[b])[l] in newData[b]
        invariant forall l :: 0 <= l < j ==> chain[l] in newData[chain[l].hashcode % newData.Length]
      {
        var entry := chain[j];
        var index := entry.hashcode % newData.Length;
        newData[index] := [entry] + newData[index];
        j := j + 1;
      }
    }
  }

  // ------------------------------------------------- rehash as written

  /**
   * The relinking loop of `rehash()` as written, on the row contents of
   * the chains, old bucket by old bucket: `entry.next = newData[index]`
   * overwrites the link to the rest of the old chain before `entry =
   * entry.next` reads it, so each old chain contributes its head only.
   */
  function RehashAsWritten(chains: seq<seq<seq<int>>>, length: int): (r: seq<seq<seq<int>>>)
    requires length > 0
    ensures |r| == length
  {
    if chains == [] then seq(length, _ => [])
    else
      var r := RehashAsWritten(chains[..|chains| - 1], length);
      var c := chains[|chains| - 1];
      if c == [] then r
      else
        var b := FoldHash(c[0]) % length;
        r[b := [c[0]] + r[b]]
  }

  /**
   * `new SUDA2Groupify(1)` and `add` of [1], [5], [2], [3]: the fourth
   * record rehashes four buckets, where [5] heads the chain [5], [1] of
   * bucket 0, into eight, and [1] is in no bucket afterwards.
   */
  lemma RehashLosesRows()
    ensures var before := [[[5], [1]], [[2]], [], []];
      && (forall b, j :: 0 <= b < 4 && 0 <= j < |before[b]| ==> FoldHash(before[b][j]) % 4 == b)
      && [1] in before[0]
      && forall b :: 0 <= b < 8 ==> [1] !in RehashAsWritten(before, 8)[b]
  {
    var before: seq<seq<seq<int>>> := [[[5], [1]], [[2]], [], []];
    assert FoldHash([5]) == 856 && FoldHash([1]) == 852 && FoldHash([2]) == 853;
    var empty: seq<seq<seq<int>>> := seq(8, _ => []);
    assert RehashAsWritten([], 8) == empty && empty[0] == [] && empty[5] == [];
    // bucket 0 contributes [5] only
    var r1 := RehashAsWritten(before[..1], 8);
    assert before[..1][..0] == [] && before[..1][0] == [[5], [1]];
    assert r1 == empty[0 := [[5]] + empty[0]];
    assert [[5]] + empty[0] == [[5]];
    // bucket 1 contributes [2]
    var r2 := RehashAsWritten(before[..2], 8);
    assert before[..2][..1] == before[..1] && before[..2][1] == [[2]];
    assert r2 == r1[5 := [[2]] + r1[5]];
    assert r1[5] == [] && [[2]] + r1[5] == [[2]];
    // buckets 2 and 3 are empty
    assert before[..3][..2] == before[..2] && before[..3][2] == [];
    assert RehashAsWritten(before[..3], 8) == r2;
    assert before[..3] == before[..|before| - 1] && before[3] == [];
    assert RehashAsWritten(before, 8) == r2 == empty[0 := [[5]]][5 := [[2]]];
  }
}
