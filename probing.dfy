/**
 * Open addressing with linear probing, as the hash tables of SUDA2 use it
 * (src/main/de/linearbits/suda2/SUDA2IntSet.java, SUDA2IntSetHash.java,
 * SUDA2ItemIndex.java and SUDA2ItemRegistry.java): a table has a power-of-two
 * length, a key's home slot is its hash masked to the table, and a key is
 * stored in the first free slot at or after its home slot, wrapping around at
 * the end. The tables are seen here as sequences of optional keys.
 */
module Probing {
  import opened Rows

  // ------------------------------------------------------------- hashing

  function Pow2(k: nat): (p: nat)
    ensures p >= 1
  {
    if k == 0 then 1 else 2 * Pow2(k - 1)
  }

  /** `x & (2^k - 1)`: the low `k` bits of the two's-complement `x`. */
  function LowBits(x: int, k: nat): (r: int)
    ensures 0 <= r < Pow2(k)
    decreases k
  {
    if k == 0 then 0 else x % 2 + 2 * LowBits(x / 2, k - 1)
  }

  /** Masking with `2^k - 1` is the non-negative remainder modulo `2^k`. */
  lemma {:induction false} LowBitsMod(x: int, k: nat)
    ensures LowBits(x, k) == x % Pow2(k)
    decreases k
  {
    if k > 0 {
      var p := Pow2(k - 1);
      LowBitsMod(x / 2, k - 1);
      var a, b := (x / 2) / p, (x / 2) % p;
      assert x / 2 == p * a + b;
      assert x == 2 * (x / 2) + x % 2;
      assert 2 * (p * a) == (2 * p) * a;
      assert x == (2 * p) * a + (2 * b + x % 2);
      ModOf(x, 2 * p, a, 2 * b + x % 2);
    }
  }

  lemma ModOf(x: int, m: int, a: int, r: int)
    requires m > 0 && 0 <= r < m && x == m * a + r
    ensures x % m == r
  {
    var q, s := x / m, x % m;
    assert m * q + s == m * a + r;
    assert m * (q - a) == r - s;
    MulBound(m, q - a);
  }

  /** A non-zero multiple of `m` is at least `m` away from zero. */
  lemma MulBound(m: int, d: int)
    requires m > 0
    ensures d == 0 || m * d >= m || m * d <= -m
  {
    if d > 0 {
      assert m * d == m * (d - 1) + m;
      MulNonneg(m, d - 1);
    } else if d < 0 {
      assert m * d == -(m * (-d - 1)) - m;
      MulNonneg(m, -d - 1);
    }
  }

  lemma MulNonneg(a: int, b: int)
    requires a >= 0 && b >= 0
    ensures a * b >= 0
  {
  }

  /**
   * Bitwise exclusive or of two non-negative numbers. The hashes below work
   * on unsigned words: `x % 2^32` is the bit pattern of the Java `int` `x`,
   * `v / 2^s` is `v >>> s`, and a product taken `% 2^32` is Java's
   * wrapping `*`.
   */
  function Xor(a: nat, b: nat): (r: nat)
    decreases a + b
  {
    if a == 0 && b == 0 then 0 else (a % 2 + b % 2) % 2 + 2 * Xor(a / 2, b / 2)
  }

  /**
   * The hash of `SUDA2IntSet` and `SUDA2IntSetHash`: the murmur3 32-bit
   * finaliser applied to the value xor the set's seed, read back as a signed
   * `int`.
   */
  function Murmur32(seed: int, value: int): (h: int)
    ensures IsInt32(h)
  {
    var v := Xor(value % Two32, seed % Two32);
    var v := (Xor(v, v / 0x1_0000) * 0x85eb_ca6b) % Two32;
    var v := (Xor(v, v / 0x2000) * 0xc2b2_ae35) % Two32;
    Wrap32(Xor(v, v / 0x1_0000))
  }

  const Two64: int := 0x1_0000_0000_0000_0000

  /**
   * The hash of `SUDA2ItemIndex` and `SUDA2ItemRegistry`: the murmur3 64-bit
   * finaliser applied to the key xor a seed, cast to `int` (its low 32 bits,
   * signed). The registry has no seed, which is the seed 0.
   */
  function Murmur64(seed: int, key: int): (h: int)
    ensures IsInt32(h)
  {
    var v := Xor(key % Two64, seed % Two64);
    var v := (Xor(v, v / Two32) * 0x4cd6_944c_5cc2_0b6d) % Two64;
    var v := (Xor(v, v / 0x2000_0000) * 0xfc12_c5b1_9d32_59e9) % Two64;
    Wrap32(Xor(v, v / Two32))
  }

  /** Which of the two hash functions a table uses, with its seed. */
  datatype Hash = Murmur32Of(seed: int) | Murmur64Of(seed: int)

  function HashOf(hash: Hash, key: int): (h: int)
    ensures IsInt32(h)
  {
    match hash
    case Murmur32Of(seed) => Murmur32(seed, key)
    case Murmur64Of(seed) => Murmur64(seed, key)
  }

  /**
   * `getThreshold(length)`: `ceil(length * 0.75f)`; for the power-of-two
   * lengths the tables have, the float product is exact.
   */
  function Threshold(length: nat): nat
  {
    (3 * length + 3) / 4
  }

  /** Doubling a table of at least one slot raises its threshold. */
  lemma ThresholdGrows(length: nat)
    requires length >= 1
    ensures Threshold(length) < Threshold(2 * length)
  {
    var t := Threshold(length);
    assert 4 * t <= 3 * length + 3;
    assert 4 * (t + 1) <= 6 * length + 3;
  }

  // -------------------------------------------------------------- tables

  /** The home slot of a key in a table of length `2^log`: `hash(key) & mask`. */
  function Home(hash: Hash, log: nat, key: int): int
  {
    LowBits(HashOf(hash, key), log)
  }

  /**
   * A search that started at slot `home` and is now at slot `i` has passed
   * slot `k`; `wrapped` once it has gone past the end of the table.
   */
  predicate Scanned(home: int, i: int, wrapped: bool, k: int)
  {
    if wrapped then home <= k || k < i else home <= k < i
  }

  /**
   * Every stored key can be reached from its home slot without crossing a
   * free slot.
   */
  ghost predicate Probed(t: seq<Option<int>>, hash: Hash, log: nat)
  {
    && |t| == Pow2(log)
    && forall j, k :: Reaches(t, hash, log, j, k) ==> t[k].Some?
  }

  /** The search for the key stored in slot `j` passes slot `k` before it gets to `j`. */
  ghost predicate Reaches(t: seq<Option<int>>, hash: Hash, log: nat, j: int, k: int)
  {
    && 0 <= j < |t| && 0 <= k < |t| && t[j].Some?
    && Scanned(Home(hash, log, t[j].value), j, j < Home(hash, log, t[j].value), k)
  }

  /** No key is stored twice. */
  ghost predicate Distinct(t: seq<Option<int>>)
  {
    forall i, j :: Twice(t, i, j) ==> i == j
  }

  /** Slots `i` and `j` hold the same key. */
  ghost predicate Twice(t: seq<Option<int>>, i: int, j: int)
  {
    0 <= i < |t| && 0 <= j < |t| && t[i].Some? && t[i] == t[j]
  }

  ghost function Keys(t: seq<Option<int>>): set<int>
  {
    set i | 0 <= i < |t| && t[i].Some? :: t[i].value
  }

  /** The number of used slots. */
  function Occupied(t: seq<Option<int>>): (n: nat)
    ensures n <= |t|
  {
    if t == [] then 0 else (if t[0].Some? then 1 else 0) + Occupied(t[1..])
  }

  /** A fresh table: every slot free. */
  lemma EmptyTable(hash: Hash, log: nat, t: seq<Option<int>>)
    requires |t| == Pow2(log) && forall i :: 0 <= i < |t| ==> t[i].None?
    ensures Probed(t, hash, log) && Distinct(t) && Keys(t) == {} && Occupied(t) == 0
  {
    NoneOccupied(t);
  }

  lemma {:induction false} NoneOccupied(t: seq<Option<int>>)
    requires forall i :: 0 <= i < |t| ==> t[i].None?
    ensures Occupied(t) == 0
  {
    if t != [] {
      NoneOccupied(t[1..]);
    }
  }

  /**
   * The search for `key` is at the free slot `i`, having passed only slots
   * that hold other keys: `key` is not in the table.
   */
  lemma Miss(t: seq<Option<int>>, hash: Hash, log: nat, key: int, i: int, wrapped: bool)
    requires Probed(t, hash, log)
    requires 0 <= i < |t| && t[i].None?
    requires wrapped ==> i < Home(hash, log, key)
    requires !wrapped ==> Home(hash, log, key) <= i
    requires forall k :: 0 <= k < |t| && Scanned(Home(hash, log, key), i, wrapped, k) ==> t[k] != Some(key)
    ensures key !in Keys(t)
  {
    var h := Home(hash, log, key);
    forall j | 0 <= j < |t| && t[j].Some? ensures t[j].value != key {
      if j != i && !Scanned(h, i, wrapped, j) {
        Passed(h, i, wrapped, j);
        assert !Reaches(t, hash, log, j, i);
      }
    }
  }

  /**
   * Slot `i` is where a search for `key` that did not find it stops: a free
   * slot, reached from the key's home slot over used slots holding other keys.
   */
  ghost predicate Vacant(t: seq<Option<int>>, hash: Hash, log: nat, key: int, i: int)
  {
    && 0 <= i < |t| && t[i].None?
    && forall k :: 0 <= k < |t| && Scanned(Home(hash, log, key), i, i < Home(hash, log, key), k) ==>
         t[k].Some? && t[k] != Some(key)
  }

  /** Storing a missing key in its vacant slot: it is found there afterwards, nothing else moves. */
  lemma FillSlot(t: seq<Option<int>>, hash: Hash, log: nat, key: int, i: int)
    requires Probed(t, hash, log) && Distinct(t) && Vacant(t, hash, log, key, i)
    ensures key !in Keys(t)
    ensures Probed(t[i := Some(key)], hash, log) && Distinct(t[i := Some(key)])
    ensures Keys(t[i := Some(key)]) == Keys(t) + {key}
    ensures Occupied(t[i := Some(key)]) == Occupied(t) + 1
  {
    var h := Home(hash, log, key);
    Miss(t, hash, log, key, i, i < h);
    Place(t, hash, log, key, i, i < h);
  }

  /** A search that has not yet passed slot `j` passes its current slot on the way to `j`. */
  lemma Passed(h: int, i: int, wrapped: bool, j: int)
    requires i != j
    requires wrapped ==> i < h
    requires !wrapped ==> h <= i
    requires !Scanned(h, i, wrapped, j)
    ensures Scanned(h, j, j < h, i)
  {
  }

  /**
   * Storing `key` in the free slot `i` that its search reached, having passed
   * only used slots, keeps every key reachable.
   */
  lemma Place(t: seq<Option<int>>, hash: Hash, log: nat, key: int, i: int, wrapped: bool)
    requires Probed(t, hash, log)
    requires 0 <= i < |t| && t[i].None?
    requires wrapped ==> i < Home(hash, log, key)
    requires !wrapped ==> Home(hash, log, key) <= i
    requires forall k :: 0 <= k < |t| && Scanned(Home(hash, log, key), i, wrapped, k) ==> t[k].Some?
    ensures Probed(t[i := Some(key)], hash, log)
    ensures Keys(t[i := Some(key)]) == Keys(t) + {key}
    ensures Distinct(t) && key !in Keys(t) ==> Distinct(t[i := Some(key)])
    ensures Occupied(t[i := Some(key)]) == Occupied(t) + 1
  {
    PlaceProbed(t, hash, log, key, i, wrapped);
    PlaceKeys(t, key, i);
    OccupiedSet(t, i, Some(key));
  }

  lemma PlaceProbed(t: seq<Option<int>>, hash: Hash, log: nat, key: int, i: int, wrapped: bool)
    requires Probed(t, hash, log)
    requires 0 <= i < |t| && t[i].None?
    requires wrapped ==> i < Home(hash, log, key)
    requires !wrapped ==> Home(hash, log, key) <= i
    requires forall k :: 0 <= k < |t| && Scanned(Home(hash, log, key), i, wrapped, k) ==> t[k].Some?
    ensures Probed(t[i := Some(key)], hash, log)
  {
    var t' := t[i := Some(key)];
    forall j, k | Reaches(t', hash, log, j, k)
      ensures t'[k].Some?
    {
      if j != i && k != i {
        assert t[j] == t'[j];
        assert Reaches(t, hash, log, j, k);
      }
    }
  }

  /** Writing a key into a free slot adds it to the keys, and to no slot twice if it was new. */
  lemma PlaceKeys(t: seq<Option<int>>, key: int, i: int)
    requires 0 <= i < |t| && t[i].None?
    ensures Keys(t[i := Some(key)]) == Keys(t) + {key}
    ensures Distinct(t) && key !in Keys(t) ==> Distinct(t[i := Some(key)])
  {
    var t' := t[i := Some(key)];
    assert t'[i].value == key;
    forall x | x in Keys(t) ensures x in Keys(t') {
      var j :| 0 <= j < |t| && t[j].Some? && t[j].value == x;
      assert t'[j] == t[j];
    }
    if Distinct(t) && key !in Keys(t) {
      forall a, b | Twice(t', a, b) ensures a == b {
        if a != i && b != i {
          assert Twice(t, a, b);
        }
      }
    }
  }

  lemma {:induction false} OccupiedSet(t: seq<Option<int>>, i: int, x: Option<int>)
    requires 0 <= i < |t| && t[i].None? && x.Some?
    ensures Occupied(t[i := x]) == Occupied(t) + 1
  {
    if i > 0 {
      OccupiedSet(t[1..], i - 1, x);
      assert t[i := x][1..] == t[1..][i - 1 := x];
    } else {
      assert t[i := x][1..] == t[1..];
    }
  }

  /** A table whose every slot is used has as many used slots as slots. */
  lemma {:induction false} Full(t: seq<Option<int>>)
    requires forall i :: 0 <= i < |t| ==> t[i].Some?
    ensures Occupied(t) == |t|
  {
    if t != [] {
      Full(t[1..]);
    }
  }

  /** Without repeated keys, the used slots count the keys. */
  lemma {:induction false} DistinctCount(t: seq<Option<int>>)
    requires Distinct(t)
    ensures |Keys(t)| == Occupied(t)
  {
    if t != [] {
      var r := t[1..];
      assert Distinct(r) by {
        forall i, j | Twice(r, i, j) ensures i == j {
          assert Twice(t, i + 1, j + 1);
        }
      }
      DistinctCount(r);
      if t[0].Some? {
        assert Keys(t) == Keys(r) + {t[0].value} by {
          forall x | x in Keys(t) ensures x in Keys(r) + {t[0].value} {
            var j :| 0 <= j < |t| && t[j].Some? && t[j].value == x;
            if j > 0 { assert r[j - 1] == t[j]; }
          }
          forall x | x in Keys(r) ensures x in Keys(t) {
            var j :| 0 <= j < |r| && r[j].Some? && r[j].value == x;
            assert t[j + 1] == r[j];
          }
        }
        forall j | 0 <= j < |r| && r[j].Some? ensures r[j].value != t[0].value {
          assert t[j + 1] == r[j];
          assert Twice(t, 0, j + 1) ==> 0 == j + 1;
        }
      } else {
        assert Keys(t) == Keys(r) by {
          forall x | x in Keys(t) ensures x in Keys(r) {
            var j :| 0 <= j < |t| && t[j].Some? && t[j].value == x;
            assert r[j - 1] == t[j];
          }
          forall x | x in Keys(r) ensures x in Keys(t) {
            var j :| 0 <= j < |r| && r[j].Some? && r[j].value == x;
            assert t[j + 1] == r[j];
          }
        }
      }
    }
  }

  /** The keys stored from slot `i` on. */
  lemma KeysSuffix(t: seq<Option<int>>, i: int)
    requires 0 <= i < |t|
    ensures Keys(t[i..]) == Keys(t[i + 1..]) + (if t[i].Some? then {t[i].value} else {})
    ensures Occupied(t[i..]) == Occupied(t[i + 1..]) + (if t[i].Some? then 1 else 0)
  {
    assert t[i..][1..] == t[i + 1..];
    forall x | x in Keys(t[i..]) ensures x in Keys(t[i + 1..]) + (if t[i].Some? then {t[i].value} else {}) {
      var j :| 0 <= j < |t[i..]| && t[i..][j].Some? && t[i..][j].value == x;
      if j > 0 { assert t[i + 1..][j - 1] == t[i..][j]; }
    }
    forall x | x in Keys(t[i + 1..]) ensures x in Keys(t[i..]) {
      var j :| 0 <= j < |t[i + 1..]| && t[i + 1..][j].Some? && t[i + 1..][j].value == x;
      assert t[i..][j + 1] == t[i + 1..][j];
    }
    if t[i].Some? {
      assert t[i..][0] == t[i];
    }
  }

  /** A key stored without repeats does not occur again further on. */
  lemma NotLater(t: seq<Option<int>>, i: int)
    requires Distinct(t) && 0 <= i < |t| && t[i].Some?
    ensures t[i].value !in Keys(t[i + 1..])
  {
    forall j | i + 1 <= j < |t| && t[j].Some? ensures t[j].value != t[i].value {
      assert Twice(t, i, j) ==> i == j;
    }
  }

  // ------------------------------------------------------- int[] tables

  /** An `int[]` table whose free slots hold 0. */
  function IntSlots(b: seq<int>): (t: seq<Option<int>>)
    ensures |t| == |b|
    ensures forall i :: 0 <= i < |b| ==> t[i] == if b[i] == 0 then None else Some(b[i])
  {
    if b == [] then [] else [if b[0] == 0 then None else Some(b[0])] + IntSlots(b[1..])
  }

  lemma IntSlotsUpdate(b: seq<int>, i: int, v: int)
    requires 0 <= i < |b| && v != 0
    ensures IntSlots(b[i := v]) == IntSlots(b)[i := Some(v)]
  {
  }

  /** 0 is never a key of an `int[]` table. */
  lemma IntSlotsKeys(b: seq<int>)
    ensures forall x :: x in Keys(IntSlots(b)) <==> x != 0 && x in b
  {
    var t := IntSlots(b);
    forall x | x != 0 && x in b ensures x in Keys(t) {
      var i :| 0 <= i < |b| && b[i] == x;
      assert t[i] == Some(x);
    }
  }
}
