/**
 * Shared vocabulary of the SUDA2 model: Java's 32-bit integers, the record
 * table, items as (column, value) pairs and the rows that support a set of
 * items.
 *
 * Row ids are 1-based throughout: row id `r` names `data[r - 1]`, and 0 is the
 * empty-slot sentinel of the hash-based row sets.
 */
module Rows {

  const IntMin: int := -0x8000_0000
  const IntMax: int := 0x7fff_ffff
  const Two32: int := 0x1_0000_0000

  predicate IsInt32(x: int) { IntMin <= x <= IntMax }

  /** Java `int` arithmetic: the value of `x` after wrapping into 32 bits. */
  function Wrap32(x: int): (r: int)
    ensures IsInt32(r)
    ensures (r - x) % Two32 == 0
    ensures IsInt32(x) ==> r == x
  {
    (x - IntMin) % Two32 + IntMin
  }

  /** Wrapping is compatible with the ring operations Java performs on `int`. */
  lemma WrapMulAdd(x: int, m: int, y: int)
    ensures Wrap32(Wrap32(x) * m + y) == Wrap32(x * m + y)
  {
    var q := (Wrap32(x) - x) / Two32;
    assert Wrap32(x) == x + q * Two32;
    assert Wrap32(x) * m + y == x * m + y + (q * m) * Two32;
    WrapShift(x * m + y, q * m);
  }

  lemma WrapAddWrap(x: int, y: int)
    ensures Wrap32(Wrap32(x) + y) == Wrap32(x + y)
  {
    WrapMulAdd(x, 1, y);
  }

  lemma WrapShift(x: int, k: int)
    ensures Wrap32(x + k * Two32) == Wrap32(x)
  {
    var a := x - IntMin;
    var q1, r1 := (a + k * Two32) / Two32, (a + k * Two32) % Two32;
    var q0, r0 := a / Two32, a % Two32;
    assert (q1 - q0 - k) * Two32 == r0 - r1;
    MultipleOfTwo32(q1 - q0 - k);
  }

  /** A non-zero multiple of 2^32 is at least 2^32 away from zero. */
  lemma MultipleOfTwo32(d: int)
    ensures d == 0 || d * Two32 >= Two32 || d * Two32 <= -Two32
  {
  }

  datatype Option<T> = None | Some(value: T)

  /** A record is a sequence of integer codes, one per column. */
  type Row = seq<int>
  type Table = seq<Row>

  /** A table of Java `int[]` records. */
  predicate IntTable(data: Table)
  {
    forall i, j :: 0 <= i < |data| && 0 <= j < |data[i]| ==> IsInt32(data[i][j])
  }

  /** An item: a concrete value in a concrete column. */
  datatype ItemKey = ItemKey(column: int, value: int)

  /** `SUDA2Item.isContained`: the record holds the item's value in its column. */
  predicate Holds(row: Row, k: ItemKey)
  {
    0 <= k.column < |row| && row[k.column] == k.value
  }

  predicate HoldsAll(row: Row, keys: set<ItemKey>)
  {
    forall k :: k in keys ==> Holds(row, k)
  }

  /** The ids of all records of the table. */
  function AllRows(data: Table): (u: set<int>)
    ensures forall r :: r in u <==> 1 <= r <= |data|
  {
    Ids(|data|)
  }

  /** The ids 1..n. */
  function Ids(n: int): (u: set<int>)
    ensures forall r :: r in u <==> 1 <= r <= n
    decreases n
  {
    if n <= 0 then {} else Ids(n - 1) + {n}
  }

  /** A universe of row ids names records of the table. */
  predicate RowIdsOf(data: Table, u: set<int>)
  {
    forall r :: r in u ==> 1 <= r <= |data|
  }

  /** The ids, among `u`, of the records that hold every item of `keys`. */
  function Support(data: Table, u: set<int>, keys: set<ItemKey>): (s: set<int>)
    ensures s <= u
    ensures forall r :: r in s <==> r in u && 1 <= r <= |data| && HoldsAll(data[r - 1], keys)
  {
    set r | r in u && 1 <= r <= |data| && HoldsAll(data[r - 1], keys)
  }

  /** The items of one record. */
  function RowItems(row: Row): (items: set<ItemKey>)
    ensures forall k :: k in items <==> Holds(row, k)
  {
    set c | 0 <= c < |row| :: ItemKey(c, row[c])
  }
}
