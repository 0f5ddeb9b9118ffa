/**
 * Items (src/main/de/linearbits/suda2/SUDA2Item.java): a value in a column,
 * its packed 64-bit id, and the ids of the records that hold it.
 */
module Items {
  import opened Rows

  const Two63: int := 0x8000_0000_0000_0000

  /**
   * `SUDA2Item.getId`: the column in the high 32 bits of a `long`, the bit
   * pattern of the value in the low 32 bits.
   */
  function GetId(column: int, value: int): (id: int)
    requires IsInt32(column) && IsInt32(value)
    ensures -Two63 <= id < Two63
    ensures ColumnOfId(id) == column && ValueOfId(id) == value
  {
    var low := value % Two32;
    WrapShift(low, column);
    WrapShift(value, (low - value) / Two32);
    column * Two32 + low
  }

  /** The column of an id, `(int) (id >> 32)`. */
  function ColumnOfId(id: int): int
  {
    id / Two32
  }

  /** The value of an id, `(int) id`. */
  function ValueOfId(id: int): int
  {
    Wrap32(id)
  }

  /** Different items never share an id. */
  lemma GetIdInjective(c1: int, v1: int, c2: int, v2: int)
    requires IsInt32(c1) && IsInt32(v1) && IsInt32(c2) && IsInt32(v2)
    ensures GetId(c1, v1) == GetId(c2, v2) <==> c1 == c2 && v1 == v2
  {
  }

  /**
   * The value of an item as the search sees it: column, value, id and the
   * set of ids of the records that hold it (the abstract value of its
   * `SUDA2IntSet rows`).
   */
  datatype ItemValue = ItemValue(column: int, value: int, id: int, rows: set<int>)
  {
    function Key(): ItemKey { ItemKey(column, value) }

    /** `SUDA2Item.getSupport`. */
    function Support(): nat { |rows| }

    /** The id is the packed (column, value) pair. */
    predicate Shaped()
    {
      IsInt32(column) && IsInt32(value) && id == GetId(column, value)
    }
  }

  /** Items with the same id have the same key. */
  lemma SameIdSameKey(a: ItemValue, b: ItemValue)
    requires a.Shaped() && b.Shaped() && a.id == b.id
    ensures a.Key() == b.Key()
  {
  }
}
