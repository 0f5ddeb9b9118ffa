/**
 * `SUDA2StatisticsKeys` (src/main/de/linearbits/suda2/SUDA2StatisticsKeys.java):
 * a result that keeps only counts of the minimal sample uniques found — how
 * many, their total size, and how many there are of each size from 1 to
 * `maxK`. The `double` counters of the distribution are modelled as exact
 * integers and the quotients the getters compute as exact reals.
 */
module KeyStatistics {
  import opened Items

  // ------------------------------------------------------ specification

  /** How often `k` occurs among the key sizes. */
  function Count(sizes: seq<int>, k: int): (n: nat)
    ensures n == multiset(sizes)[k]
  {
    if sizes == [] then 0
    else
      var last := sizes[|sizes| - 1];
      assert sizes == sizes[..|sizes| - 1] + [last];
      Count(sizes[..|sizes| - 1], k) + (if last == k then 1 else 0)
  }

  /** The sum of the key sizes. */
  function Sum(sizes: seq<int>): int
  {
    if sizes == [] then 0 else Sum(sizes[..|sizes| - 1]) + sizes[|sizes| - 1]
  }

  /** Every key size lies between 1 and `maxK`. */
  ghost predicate InRange(sizes: seq<int>, maxK: int)
  {
    forall i :: 0 <= i < |sizes| ==> 1 <= sizes[i] <= maxK
  }

  /** Slot `k` of the distribution counts the keys of size `k + 1`. */
  function Distribution(sizes: seq<int>, maxK: nat): seq<int>
  {
    seq(maxK, k requires 0 <= k < maxK => Count(sizes, k + 1))
  }

  /** The sum of the slots of a distribution. */
  function Total(d: seq<int>): int
  {
    if d == [] then 0 else Total(d[..|d| - 1]) + d[|d| - 1]
  }

  /** The sum of the sizes a distribution counts: slot `k` stands for keys of size `k + 1`. */
  function Weighted(d: seq<int>): int
  {
    if d == [] then 0 else Weighted(d[..|d| - 1]) + |d| * d[|d| - 1]
  }

  /** A Java `double` quotient `a / b` of two counters, without rounding. */
  datatype Quotient = NaN | Infinity | Exact(value: real)

  /** `(double) a / (double) b` for counters: `0/0` is NaN and `a/0` infinite. */
  function Divide(a: int, b: int): (q: Quotient)
    ensures b != 0 ==> q.Exact? && q.value * b as real == a as real
    ensures b == 0 ==> (q == NaN <==> a == 0)
  {
    if b != 0 then Exact(a as real / b as real)
    else if a == 0 then NaN
    else Infinity
  }

  // ------------------------------------------------------ the counters

  /** One more key changes the distribution in one slot. */
  lemma {:induction false} DistributionSnoc(sizes: seq<int>, size: int, maxK: nat)
    requires 1 <= size <= maxK
    ensures Distribution(sizes + [size], maxK) == Distribution(sizes, maxK)[size - 1 := Distribution(sizes, maxK)[size - 1] + 1]
  {
    var next := sizes + [size];
    assert next[..|next| - 1] == sizes;
  }

  /** Adding one to a slot adds one to the total and the slot's size to the weighted sum. */
  lemma {:induction false} Increment(d: seq<int>, i: int)
    requires 0 <= i < |d|
    ensures Total(d[i := d[i] + 1]) == Total(d) + 1
    ensures Weighted(d[i := d[i] + 1]) == Weighted(d) + i + 1
  {
    var e := d[i := d[i] + 1];
    if i == |d| - 1 {
      assert e[..|e| - 1] == d[..|d| - 1];
    } else {
      Increment(d[..|d| - 1], i);
      assert e[..|e| - 1] == d[..|d| - 1][i := d[i] + 1];
    }
  }

  /** No key yet: every slot is zero. */
  lemma {:induction false} ZeroTotals(d: seq<int>)
    requires forall k :: 0 <= k < |d| ==> d[k] == 0
    ensures Total(d) == 0 && Weighted(d) == 0
  {
    if d != [] {
      ZeroTotals(d[..|d| - 1]);
    }
  }

  /**
   * The distribution accounts for every key: its slots add up to the number
   * of keys, and weighted by their sizes to the total key size.
   */
  lemma {:induction false} DistributionTotals(sizes: seq<int>, maxK: nat)
    requires InRange(sizes, maxK)
    ensures Total(Distribution(sizes, maxK)) == |sizes|
    ensures Weighted(Distribution(sizes, maxK)) == Sum(sizes)
  {
    if sizes == [] {
      ZeroTotals(Distribution(sizes, maxK));
    } else {
      var front, size := sizes[..|sizes| - 1], sizes[|sizes| - 1];
      assert sizes == front + [size];
      DistributionTotals(front, maxK);
      DistributionSnoc(front, size, maxK);
      Increment(Distribution(front, maxK), size - 1);
    }
  }

  /** The total size lies between one and `maxK` per key. */
  lemma {:induction false} SumBounds(sizes: seq<int>, maxK: int)
    requires InRange(sizes, maxK)
    ensures |sizes| <= Sum(sizes) <= |sizes| * maxK
  {
    if sizes != [] {
      SumBounds(sizes[..|sizes| - 1], maxK);
    }
  }

  /** The sum of a sequence and of a single element after it. */
  lemma {:induction false} SumAppend(a: seq<int>, b: seq<int>)
    ensures Sum(a + b) == Sum(a) + Sum(b)
  {
    if b == [] {
      assert a + b == a;
    } else {
      var front := b[..|b| - 1];
      assert (a + b)[..|a + b| - 1] == a + front;
      assert (a + b)[|a + b| - 1] == b[|b| - 1];
      SumAppend(a, front);
    }
  }

  /** The order in which keys are registered does not change their total size. */
  lemma {:induction false} SumPermuted(a: seq<int>, b: seq<int>)
    requires multiset(a) == multiset(b)
    ensures Sum(a) == Sum(b)
  {
    if a != [] {
      var front, x := a[..|a| - 1], a[|a| - 1];
      assert a == front + [x];
      assert x in multiset(b);
      var j :| 0 <= j < |b| && b[j] == x;
      var rest := b[..j] + b[j + 1..];
      assert b == b[..j] + [x] + b[j + 1..];
      assert multiset(b) == multiset(b[..j]) + multiset{x} + multiset(b[j + 1..]);
      assert multiset(rest) == multiset(b[..j]) + multiset(b[j + 1..]);
      assert multiset(a) == multiset(front) + multiset{x};
      assert multiset(front) == multiset(a) - multiset{x} == multiset(b) - multiset{x} == multiset(rest);
      SumPermuted(front, rest);
      SumAppend(b[..j] + [x], b[j + 1..]);
      SumAppend(b[..j], [x]);
      SumAppend(b[..j], b[j + 1..]);
    }
  }

  /**
   * Two runs that found the same keys in another order end with equal
   * counters: `equals` does not see the order of the registrations.
   */
  lemma SameKeysSameCounters(a: seq<int>, b: seq<int>, maxK: nat)
    requires multiset(a) == multiset(b)
    ensures |a| == |b| && Sum(a) == Sum(b) && Distribution(a, maxK) == Distribution(b, maxK)
  {
    assert |a| == |multiset(a)| == |multiset(b)| == |b|;
    SumPermuted(a, b);
  }

  // ------------------------------------------------------ the quotients

  /** Each slot of a distribution over `n` keys, as a share of the keys. */
  function Shares(d: seq<int>, n: int): (s: seq<real>)
    requires n > 0
    ensures |s| == |d| && forall k :: 0 <= k < |d| ==> Divide(d[k], n) == Exact(s[k])
  {
    seq(|d|, k requires 0 <= k < |d| => d[k] as real / n as real)
  }

  /** The sum of a sequence of reals. */
  function RealTotal(s: seq<real>): real
  {
    if s == [] then 0.0 else RealTotal(s[..|s| - 1]) + s[|s| - 1]
  }

  /** The shares add up to the total over `n`. */
  lemma {:induction false} SharesTotal(d: seq<int>, n: int)
    requires n > 0
    ensures RealTotal(Shares(d, n)) == Total(d) as real / n as real
  {
    if d != [] {
      var front := d[..|d| - 1];
      SharesTotal(front, n);
      assert Shares(d, n)[..|d| - 1] == Shares(front, n);
      AddQuotients(Total(front) as real, d[|d| - 1] as real, n as real);
    }
  }

  /** Once a key is found, the size distribution's shares add up to one. */
  lemma SharesSumToOne(sizes: seq<int>, maxK: nat)
    requires InRange(sizes, maxK) && |sizes| > 0
    ensures RealTotal(Shares(Distribution(sizes, maxK), |sizes|)) == 1.0
  {
    var d := Distribution(sizes, maxK);
    DistributionTotals(sizes, maxK);
    SharesTotal(d, |sizes|);
    SelfQuotient(|sizes| as real);
  }

  /** Once a key is found, the average key size lies between 1 and `maxK`. */
  lemma AverageInRange(sizes: seq<int>, maxK: int)
    requires InRange(sizes, maxK) && |sizes| > 0
    ensures var q := Divide(Sum(sizes), |sizes|); q.Exact? && 1.0 <= q.value <= maxK as real
  {
    SumBounds(sizes, maxK);
    var n, q := |sizes| as real, Divide(Sum(sizes), |sizes|);
    assert n <= Sum(sizes) as real <= n * maxK as real;
    QuotientBounds(Sum(sizes) as real, n, maxK as real);
  }

  /** A quotient of a sum of `n` terms, each between 1 and `m`, lies between 1 and `m`. */
  lemma QuotientBounds(s: real, n: real, m: real)
    requires 0.0 < n && n <= s <= n * m
    ensures 1.0 <= s / n <= m
  {
    assert s / n * n == s;
  }

  /** A positive number over itself is one. */
  lemma SelfQuotient(n: real)
    requires 0.0 < n
    ensures n / n == 1.0
  {
  }

  /** Quotients by the same positive number add up to the quotient of the sum. */
  lemma AddQuotients(a: real, b: real, n: real)
    requires 0.0 < n
    ensures a / n + b / n == (a + b) / n
  {
  }

  // ------------------------------------------------------ the result

  class StatisticsKeys {
    const columns: int
    const maxK: int
    var numKeys: int
    var totalKeySize: int
    const sizeDistribution: array<int>
    /** The sizes of the keys registered so far, in order. */
    ghost var sizes: seq<int>

    /** The counters summarise the keys registered. */
    ghost predicate Valid()
      reads this, sizeDistribution
    {
      && 0 <= maxK && sizeDistribution.Length == maxK
      && InRange(sizes, maxK)
      && numKeys == |sizes| && totalKeySize == Sum(sizes)
      && sizeDistribution[..] == Distribution(sizes, maxK)
    }

    /** `new SUDA2StatisticsKeys(rows, columns, maxK)`: no keys; a negative `maxK` throws. */
    constructor (rows: int, columns: int, maxK: int)
      requires 0 <= maxK
      ensures Valid() && sizes == [] && fresh(sizeDistribution)
      ensures this.columns == columns && this.maxK == maxK
    {
      this.columns := columns;
      this.maxK := maxK;
      numKeys := 0;
      totalKeySize := 0;
      sizeDistribution := new int[maxK](_ => 0);
      sizes := [];
    }

    /** `init(...)`: empty by design. */
    method Init(columns: int, maxK: int, numUniqueRecords: int, numDuplicateRecords: int)
      ensures unchanged(this) && unchanged(sizeDistribution)
    {
    }

    /**
     * The body of every `registerKey`: one more key, `size` more in the
     * total, and one more in the size's slot. The slot index is checked
     * last, so a size outside 1..maxK throws (`ok` false) after both
     * counters have moved.
     */
    method Record(size: int) returns (ok: bool)
      requires Valid()
      modifies this, sizeDistribution
      ensures numKeys == old(numKeys) + 1 && totalKeySize == old(totalKeySize) + size
      ensures ok <==> 1 <= size <= maxK
      ensures ok ==> Valid() && sizes == old(sizes) + [size]
      ensures !ok ==> sizeDistribution[..] == old(sizeDistribution[..])
    {
      numKeys := numKeys + 1;
      totalKeySize := totalKeySize + size;
      if size < 1 || size > maxK {
        return false;
      }
      sizeDistribution[size - 1] := sizeDistribution[size - 1] + 1;
      DistributionSnoc(sizes, size, maxK);
      SumAppend(sizes, [size]);
      sizes := sizes + [size];
      ok := true;
    }

    /** `registerKey(Set<SUDA2Item>)`: a key of `|items|` items. */
    method RegisterKeyOfItems(items: set<ItemValue>) returns (ok: bool)
      requires Valid()
      modifies this, sizeDistribution
      ensures ok <==> 1 <= |items| <= maxK
      ensures ok ==> Valid() && sizes == old(sizes) + [|items|]
    {
      ok := Record(|items|);
    }

    /** `registerKey(item, set)`: a key of the item and the set, one more than the set. */
    method RegisterKeyWith(item: ItemValue, itemSet: seq<ItemValue>) returns (ok: bool)
      requires Valid()
      modifies this, sizeDistribution
      ensures ok <==> |itemSet| + 1 <= maxK
      ensures ok ==> Valid() && sizes == old(sizes) + [|itemSet| + 1]
    {
      ok := Record(|itemSet| + 1);
    }

    /** `registerKey(set)`: a key of the set's items. */
    method RegisterKey(itemSet: seq<ItemValue>) returns (ok: bool)
      requires Valid()
      modifies this, sizeDistribution
      ensures ok <==> 1 <= |itemSet| <= maxK
      ensures ok ==> Valid() && sizes == old(sizes) + [|itemSet|]
    {
      ok := Record(|itemSet|);
    }

    /** `getNumKeys()`: the number of keys registered. */
    function GetNumKeys(): (n: int)
      reads this, sizeDistribution
      requires Valid()
      ensures n == |sizes| && n == Total(sizeDistribution[..])
    {
      DistributionTotals(sizes, maxK);
      numKeys
    }

    /** `getAverageKeySize()`: the total size over the number of keys; NaN before the first key. */
    function GetAverageKeySize(): (q: Quotient)
      reads this, sizeDistribution
      requires Valid()
      ensures |sizes| == 0 <==> q == NaN
      ensures |sizes| > 0 ==> q.Exact? && 1.0 <= q.value <= maxK as real && q.value * |sizes| as real == Sum(sizes) as real
    {
      if numKeys == 0 then
        Divide(totalKeySize, numKeys)
      else
        AverageInRange(sizes, maxK);
        Divide(totalKeySize, numKeys)
    }

    /** `getKeySizeDistribution()`: each slot over the number of keys, in a new array. */
    method GetKeySizeDistribution() returns (result: array<Quotient>)
      requires Valid()
      ensures fresh(result) && result.Length == maxK
      ensures forall k :: 0 <= k < maxK ==> result[k] == Divide(sizeDistribution[k], numKeys)
      ensures numKeys > 0 ==> RealTotal(Shares(sizeDistribution[..], numKeys)) == 1.0
    {
      result := new Quotient[sizeDistribution.Length](_ => NaN);
      var i := 0;
      while i < result.Length
        invariant 0 <= i <= result.Length
        invariant forall k :: 0 <= k < i ==> result[k] == Divide(sizeDistribution[k], numKeys)
      {
        result[i] := Divide(sizeDistribution[i], numKeys);
        i := i + 1;
      }
      if numKeys > 0 {
        SharesSumToOne(sizes, maxK);
      }
    }

    /** The fields `equals` compares agree. */
    ghost predicate SameCounters(other: StatisticsKeys)
      reads this, sizeDistribution, other, other.sizeDistribution
    {
      && maxK == other.maxK && numKeys == other.numKeys
      && sizeDistribution[..] == other.sizeDistribution[..]
      && totalKeySize == other.totalKeySize
    }

    /**
     * `equals(other)`: the same object, or the same `maxK`, number of keys,
     * distribution and total size. `columns` is not compared.
     */
    method Equals(other: StatisticsKeys?) returns (r: bool)
      ensures r <==> other != null && (other == this || SameCounters(other))
    {
      if other == this {
        return true;
      }
      if other == null || maxK != other.maxK || numKeys != other.numKeys {
        return false;
      }
      r := SameArray(sizeDistribution, other.sizeDistribution);
      r := r && totalKeySize == other.totalKeySize;
    }
  }

  /** `Arrays.equals` on two arrays: the same length and the same slots. */
  method SameArray(a: array<int>, b: array<int>) returns (r: bool)
    ensures r <==> a[..] == b[..]
  {
    if a.Length != b.Length {
      return false;
    }
    var i := 0;
    while i < a.Length
      invariant 0 <= i <= a.Length
      invariant a[..i] == b[..i]
    {
      if a[i] != b[i] {
        assert a[..][i] != b[..][i];
        return false;
      }
      assert a[..i + 1] == a[..i] + [a[i]] && b[..i + 1] == b[..i] + [b[i]];
      i := i + 1;
    }
    assert a[..] == a[..i] && b[..] == b[..i];
    return true;
  }

  /**
   * Two valid statistics over the same keys, registered in any order, are
   * `equals`.
   */
  lemma EqualsIgnoresOrder(a: StatisticsKeys, b: StatisticsKeys)
    requires a.Valid() && b.Valid() && a.maxK == b.maxK && multiset(a.sizes) == multiset(b.sizes)
    ensures a.SameCounters(b)
  {
    SameKeysSameCounters(a.sizes, b.sizes, a.maxK);
  }
}
