/**
 * The 64-bit words of `SUDA2IntSetBits`
 * (src/main/de/linearbits/suda2/SUDA2IntSetBits.java). A Java `long` is seen
 * as its unsigned value in `[0, 2^64)`, and the three operations the bitmap
 * uses on it are defined bit by bit: `a & b`, `w | (1L << k)` and
 * `Long.bitCount(w)`. A word holds the rows `base + i` whose bit `i` is set.
 */
module Words {
  import opened Probing

  /** `(w & (1L << k)) != 0`: bit `k` of `w` is set. */
  predicate Bit(w: nat, k: nat)
    decreases k
  {
    if k == 0 then w % 2 == 1 else Bit(w / 2, k - 1)
  }

  /** `a & b`. */
  function And(a: nat, b: nat): (r: nat)
    ensures r <= a
    decreases a
  {
    if a == 0 then 0 else (if a % 2 == 1 && b % 2 == 1 then 1 else 0) + 2 * And(a / 2, b / 2)
  }

  /** `w | (1L << k)`. */
  function WithBit(w: nat, k: nat): (r: nat)
    decreases k
  {
    if k == 0 then (if w % 2 == 1 then w else w + 1) else w % 2 + 2 * WithBit(w / 2, k - 1)
  }

  /** `Long.bitCount(w)`. */
  function BitCount(w: nat): nat
  {
    if w == 0 then 0 else (if w % 2 == 1 then 1 else 0) + BitCount(w / 2)
  }

  /** The rows `base + i` whose bit `i` is set in `w`. */
  function Members(w: nat, base: int): (s: set<int>)
    ensures forall x :: x in s ==> base <= x
  {
    if w == 0 then {} else (if w % 2 == 1 then {base} else {}) + Members(w / 2, base + 1)
  }

  lemma {:induction false} MembersBit(w: nat, base: int, k: nat)
    ensures base + k in Members(w, base) <==> Bit(w, k)
    decreases k
  {
    if k > 0 {
      MembersBit(w / 2, base + 1, k - 1);
    }
  }

  /** `MembersBit` for row `x`, the row of bit `k`. */
  lemma MembersRow(w: nat, base: int, k: nat, x: int)
    requires x == base + k
    ensures x in Members(w, base) <==> Bit(w, k)
  {
    MembersBit(w, base, k);
  }

  /** An `n`-bit word holds rows below `base + n` only. */
  lemma {:induction false} MembersBound(w: nat, base: int, n: nat)
    requires w < Pow2(n)
    ensures forall x :: x in Members(w, base) ==> x < base + n
    decreases n
  {
    if n > 0 {
      MembersBound(w / 2, base + 1, n - 1);
    }
  }

  /** The rows of `a & b` are the rows common to `a` and `b`. */
  lemma {:induction false} MembersAnd(a: nat, b: nat, base: int)
    ensures Members(And(a, b), base) == Members(a, base) * Members(b, base)
    decreases a
  {
    if a > 0 {
      MembersAnd(a / 2, b / 2, base + 1);
    }
  }

  /** Setting bit `k` adds row `base + k`. */
  lemma {:induction false} MembersWithBit(w: nat, base: int, k: nat)
    ensures Members(WithBit(w, k), base) == Members(w, base) + {base + k}
    decreases k
  {
    if k > 0 {
      MembersWithBit(w / 2, base + 1, k - 1);
    } else if w % 2 == 0 {
      assert (w + 1) / 2 == w / 2;
    }
  }

  /** `bitCount` counts the rows of a word. */
  lemma {:induction false} BitCountCard(w: nat, base: int)
    ensures |Members(w, base)| == BitCount(w)
    decreases w
  {
    if w > 0 {
      BitCountCard(w / 2, base + 1);
    }
  }

  /** `w | (1L << k)` stays within any `n`-bit word with `k < n`. */
  lemma {:induction false} WithBitBound(w: nat, k: nat, n: nat)
    requires w < Pow2(n) && k < n
    ensures WithBit(w, k) < Pow2(n)
    decreases k
  {
    var p := Pow2(n - 1);
    assert Pow2(n) == 2 * p;
    var h, r := w / 2, w % 2;
    assert w == 2 * h + r && h < p;
    if k > 0 {
      WithBitBound(h, k - 1, n - 1);
      assert WithBit(w, k) == r + 2 * WithBit(h, k - 1);
    } else {
      assert WithBit(w, k) == 2 * h + 1;
    }
  }

  lemma {:induction false} Pow2Add(a: nat, b: nat)
    ensures Pow2(a + b) == Pow2(a) * Pow2(b)
    decreases a
  {
    if a > 0 {
      Pow2Add(a - 1, b);
    }
  }

  lemma Pow2Of16()
    ensures Pow2(16) == 0x1_0000
  {
    assert Pow2(8) == 256;
    Pow2Add(8, 8);
  }

  /** A `long` has 64 bits. */
  lemma LongPow()
    ensures Pow2(64) == Two64
  {
    Pow2Of16();
    Pow2Add(16, 16);
    Pow2Add(32, 32);
  }

  /** A `long` holds rows `base .. base + 63` only. */
  lemma LongBound(w: nat, base: int)
    requires w < Two64
    ensures forall x :: x in Members(w, base) ==> x < base + 64
  {
    LongPow();
    MembersBound(w, base, 64);
  }

  /** `w | (1L << k)` is still a `long`. */
  lemma LongWithBit(w: nat, k: nat)
    requires w < Two64 && k < 64
    ensures WithBit(w, k) < Two64
  {
    LongPow();
    WithBitBound(w, k, 64);
  }

  // ------------------------------------------------------------ arrays

  /** Every word is a `long`. */
  predicate Longs(words: seq<nat>)
  {
    forall i :: 0 <= i < |words| ==> words[i] < Two64
  }

  /** The rows of consecutive words, the first starting at row `base`. */
  function Range(words: seq<nat>, base: int): (s: set<int>)
    ensures forall x :: x in s ==> base <= x
  {
    if words == [] then {} else Members(words[0], base) + Range(words[1..], base + 64)
  }

  /** The sum of the `bitCount`s of the words. */
  function Count(words: seq<nat>): nat
  {
    if words == [] then 0 else BitCount(words[0]) + Count(words[1..])
  }

  /** Words of `long`s hold rows below `base + 64 |words|` only. */
  lemma {:induction false} RangeBound(words: seq<nat>, base: int)
    requires Longs(words)
    ensures forall x :: x in Range(words, base) ==> x < base + 64 * |words|
  {
    if words != [] {
      LongBound(words[0], base);
      RangeBound(words[1..], base + 64);
    }
  }

  /** Row `x` is in word `(x - base) / 64`, at bit `(x - base) % 64`. */
  lemma {:induction false} RangeBit(words: seq<nat>, base: int, x: int)
    requires Longs(words) && base <= x < base + 64 * |words|
    ensures x in Range(words, base) <==> Bit(words[(x - base) / 64], (x - base) % 64)
  {
    if x < base + 64 {
      MembersBit(words[0], base, x - base);
    } else {
      LongBound(words[0], base);
      RangeBit(words[1..], base + 64, x);
      assert (x - base) / 64 == (x - (base + 64)) / 64 + 1;
    }
  }

  /** The words count their rows. */
  lemma {:induction false} RangeCard(words: seq<nat>, base: int)
    requires Longs(words)
    ensures |Range(words, base)| == Count(words)
  {
    if words != [] {
      RangeCard(words[1..], base + 64);
      BitCountCard(words[0], base);
      LongBound(words[0], base);
      assert Members(words[0], base) * Range(words[1..], base + 64) == {};
    }
  }

  /** Setting bit `k` of word `i` adds row `base + 64 i + k`. */
  lemma {:induction false} RangeWithBit(words: seq<nat>, base: int, i: int, k: nat)
    requires 0 <= i < |words|
    ensures Range(words[i := WithBit(words[i], k)], base) == Range(words, base) + {base + 64 * i + k}
  {
    var set' := words[i := WithBit(words[i], k)];
    if i == 0 {
      MembersWithBit(words[0], base, k);
      assert set'[1..] == words[1..];
    } else {
      RangeWithBit(words[1..], base + 64, i - 1, k);
      assert set'[1..] == words[1..][i - 1 := WithBit(words[i], k)];
    }
  }

  /** Words that are all zero hold no rows. */
  lemma {:induction false} RangeZero(words: seq<nat>, base: int)
    requires forall i :: 0 <= i < |words| ==> words[i] == 0
    ensures Range(words, base) == {}
  {
    if words != [] {
      RangeZero(words[1..], base + 64);
    }
  }

  /** `a[i] & b[i]` for the positions both arrays have. */
  function Ands(a: seq<nat>, b: seq<nat>): (r: seq<nat>)
    ensures |r| == if |a| < |b| then |a| else |b|
    ensures forall j :: 0 <= j < |r| ==> r[j] == And(a[j], b[j])
  {
    if a == [] || b == [] then [] else [And(a[0], b[0])] + Ands(a[1..], b[1..])
  }

  /** ANDing aligned words keeps exactly the rows both arrays hold. */
  lemma {:induction false} RangeAnd(a: seq<nat>, b: seq<nat>, base: int)
    requires Longs(a) && Longs(b)
    ensures Range(Ands(a, b), base) == Range(a, base) * Range(b, base)
  {
    if a == [] || b == [] {
    } else {
      RangeAnd(a[1..], b[1..], base + 64);
      MembersAnd(a[0], b[0], base);
      LongBound(a[0], base);
      LongBound(b[0], base);
      assert Ands(a, b)[1..] == Ands(a[1..], b[1..]);
    }
  }

  /** The words from position `k` on, none if there are fewer. */
  function Skip(words: seq<nat>, k: nat): (r: seq<nat>)
    ensures |r| == if k <= |words| then |words| - k else 0
  {
    if k <= |words| then words[k..] else []
  }

  /** The rows at or above `base + 64 k` are the rows of the words from position `k` on. */
  lemma {:induction false} RangeFrom(words: seq<nat>, base: int, k: nat)
    requires Longs(words)
    ensures forall v :: v in Range(words, base) && v >= base + 64 * k <==> v in Range(Skip(words, k), base + 64 * k)
  {
    if k > 0 && words != [] {
      LongBound(words[0], base);
      RangeFrom(words[1..], base + 64, k - 1);
      assert Skip(words[1..], k - 1) == Skip(words, k);
    }
  }

  /** Rows held by a prefix of the words and by the rest. */
  lemma {:induction false} RangeAppend(a: seq<nat>, b: seq<nat>, base: int)
    ensures Range(a + b, base) == Range(a, base) + Range(b, base + 64 * |a|)
  {
    if a != [] {
      RangeAppend(a[1..], b, base + 64);
      assert (a + b)[1..] == a[1..] + b;
    } else {
      assert a + b == b;
    }
  }

  /** The rows of the first `o + 1` words: those of the first `o`, and those of word `o`. */
  lemma RangePush(words: seq<nat>, base: int, o: int, lo: int)
    requires 0 <= o < |words| && lo == base + 64 * o
    ensures Range(words[..o + 1], base) == Range(words[..o], base) + Members(words[o], lo)
  {
    assert words[..o + 1] == words[..o] + [words[o]];
    RangeAppend(words[..o], [words[o]], base);
    assert [words[o]][1..] == [];
  }

  /** Filling a zero word adds its `bitCount`. */
  lemma {:induction false} CountUpdate(words: seq<nat>, i: int, w: nat)
    requires 0 <= i < |words| && words[i] == 0
    ensures Count(words[i := w]) == Count(words) + BitCount(w)
  {
    if i > 0 {
      CountUpdate(words[1..], i - 1, w);
      assert words[i := w][1..] == words[1..][i - 1 := w];
    } else {
      assert words[i := w][1..] == words[1..];
    }
  }

  lemma {:induction false} CountAppend(a: seq<nat>, b: seq<nat>)
    ensures Count(a + b) == Count(a) + Count(b)
  {
    if a != [] {
      CountAppend(a[1..], b);
      assert (a + b)[1..] == a[1..] + b;
    } else {
      assert a + b == b;
    }
  }

  /** ANDed words are `long`s. */
  lemma AndsLongs(a: seq<nat>, b: seq<nat>)
    requires Longs(a)
    ensures Longs(Ands(a, b))
  {
  }

  /**
   * Two arrays whose common rows all lie at or above `base`, a multiple of 64
   * rows above each array's first row: their common rows are the rows of the
   * words ANDed pairwise from the word holding row `base` on.
   */
  lemma {:induction false} Aligned(x: seq<nat>, xBase: int, y: seq<nat>, yBase: int, base: int, i: nat, j: nat)
    requires Longs(x) && Longs(y)
    requires base == xBase + 64 * i && base == yBase + 64 * j
    requires forall v :: v in Range(x, xBase) * Range(y, yBase) ==> v >= base
    ensures Range(x, xBase) * Range(y, yBase) == Range(Ands(Skip(x, i), Skip(y, j)), base)
  {
    RangeFrom(x, xBase, i);
    RangeFrom(y, yBase, j);
    RangeAnd(Skip(x, i), Skip(y, j), base);
  }

  /**
   * Words that agree with `s` on their first `n` positions and are zero
   * after: when they stop early, `s` had no rows beyond them anyway.
   */
  lemma {:induction false} Truncated(s: seq<nat>, z: seq<nat>, base: int, n: int)
    requires Longs(s) && 0 <= n <= |s| && n <= |z|
    requires forall j :: 0 <= j < n ==> z[j] == s[j]
    requires forall j :: n <= j < |z| ==> z[j] == 0
    requires n == |s| || n == |z|
    requires n == |s| || forall v :: v in Range(s, base) ==> v < base + 64 * |z|
    ensures Range(z, base) == Range(s, base)
  {
    var head, zeros, rest := s[..n], z[n..], s[n..];
    assert z == head + zeros;
    assert s == head + rest;
    RangeAppend(head, zeros, base);
    RangeZero(zeros, base + 64 * n);
    RangeAppend(head, rest, base);
    if n < |s| {
      var later := Range(rest, base + 64 * n);
      assert later <= Range(s, base);
      assert later == {};
    }
  }

  /** The running `bitCount` sum over the first words. */
  lemma {:induction false} CountPush(s: seq<nat>, j: int)
    requires 0 <= j < |s|
    ensures Count(s[..j + 1]) == Count(s[..j]) + BitCount(s[j])
  {
    assert s[..j + 1] == s[..j] + [s[j]];
    CountAppend(s[..j], [s[j]]);
  }

  lemma {:induction false} CountPrefix(s: seq<nat>, j: int)
    requires 0 <= j <= |s|
    ensures Count(s[..j]) <= Count(s)
  {
    assert s == s[..j] + s[j..];
    CountAppend(s[..j], s[j..]);
  }

  /** Row `base + 64 o + i` is bit `i` of word `o`. */
  lemma BitAt(words: seq<nat>, base: int, o: int, i: int)
    requires Longs(words) && 0 <= o < |words| && 0 <= i < 64
    ensures base + 64 * o + i in Range(words, base) <==> Bit(words[o], i)
  {
    RangeBit(words, base, base + 64 * o + i);
    assert (64 * o + i) / 64 == o && (64 * o + i) % 64 == i;
  }

  /** A multiple of 64 divides exactly. */
  lemma Exact(d: int, k: int)
    requires d == 64 * k
    ensures d % 64 == 0 && d / 64 == k
  {
  }

  lemma {:induction false} Multiples(a: int, b: int)
    requires a % 64 == 0 && b % 64 == 0
    ensures (a - b) % 64 == 0 && (a - b) / 64 == a / 64 - b / 64
  {
    var p, q := a / 64, b / 64;
    assert a == 64 * p && b == 64 * q;
    assert a - b == 64 * (p - q);
  }

  /**
   * Words filled with the ANDs of the words of two bitmaps that stand for
   * the same rows, from row `base` on, and zero past either end, hold the
   * common rows when those lie in `[base, hi]` and the words reach `hi`.
   */
  lemma {:induction false} AndRange(x: seq<nat>, xBase: int, y: seq<nat>, yBase: int, z: seq<nat>, base: int, hi: int, x0: int, y0: int)
    requires Longs(x) && Longs(y)
    requires 0 <= x0 && 0 <= y0 && base == xBase + 64 * x0 && base == yBase + 64 * y0
    requires forall v :: v in Range(x, xBase) * Range(y, yBase) ==> base <= v <= hi
    requires hi < base + 64 * |z|
    requires forall j :: 0 <= j < |z| ==>
      z[j] == (if x0 + j < |x| && y0 + j < |y| then And(x[x0 + j], y[y0 + j]) else 0)
    ensures Longs(z) && Range(z, base) == Range(x, xBase) * Range(y, yBase)
  {
    Aligned(x, xBase, y, yBase, base, x0, y0);
    var p := Ands(Skip(x, x0), Skip(y, y0));
    assert Longs(Skip(x, x0));
    AndsLongs(Skip(x, x0), Skip(y, y0));
    var n := if |p| < |z| then |p| else |z|;
    forall j | 0 <= j < n ensures z[j] == p[j] {
      assert Skip(x, x0)[j] == x[x0 + j] && Skip(y, y0)[j] == y[y0 + j];
    }
    Truncated(p, z, base, n);
    assert Longs(z) by {
      forall j | 0 <= j < |z| ensures z[j] < Two64 {
        if j < n {
          assert z[j] == p[j];
        }
      }
    }
  }
}
