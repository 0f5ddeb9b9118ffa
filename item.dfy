/**
 * `SUDA2Item` as an object (src/main/de/linearbits/suda2/SUDA2Item.java):
 * a column, a value, the packed id of the pair, and the set of row ids of
 * the records that hold the value. The search itself works on the value of
 * an item (`Items.ItemValue`); `Value()` is that value.
 */
module ItemObjects {
  import opened Rows
  import opened Items
  import opened RowSets
  import opened SearchSteps
  import opened RowIds

  class Item {
    const column: int
    const value: int
    const id: int
    const rows: RowSet

    /** The item as the search sees it. */
    ghost function Value(): ItemValue
      reads rows.Repr()
    {
      ItemValue(column, value, id, rows.Elems())
    }

    ghost predicate Valid()
      reads rows.Repr()
    {
      rows.Valid()
    }

    /** `SUDA2Item(column, value, id)`: no rows yet, kept in a new `SUDA2IntSetHash`. */
    constructor (column: int, value: int, id: int, seed: int)
      ensures Valid() && Value() == ItemValue(column, value, id, {})
      ensures rows.HashSet? && fresh(rows.Repr())
    {
      this.column := column;
      this.value := value;
      this.id := id;
      var h := new IntSetHash(seed);
      this.rows := HashSet(h);
    }

    /** The clone constructor: the given rows, shared, not copied. */
    constructor Clone(column: int, value: int, id: int, rows: RowSet)
      ensures this.rows == rows
      ensures this.column == column && this.value == value && this.id == id
    {
      this.column := column;
      this.value := value;
      this.id := id;
      this.rows := rows;
    }

    /**
     * `addRow(row)`: adds a row id to the rows. Items get rows only while
     * the catalogue is built, when their rows are still the hash set the
     * first constructor made.
     */
    method AddRow(row: int)
      requires Valid() && rows.HashSet? && RowId(row)
      modifies rows.Repr()
      ensures Valid() && Value() == old(Value()).(rows := old(Value().rows) + {row})
    {
      rows.hash.Add(row);
    }

    /** `getSupport()`: the number of rows. */
    function GetSupport(): (n: int)
      requires Valid()
      reads rows.Repr()
      ensures n == Value().Support()
    {
      rows.Size()
    }

    /** `isContained(row)`: the record holds this item. */
    predicate IsContained(row: Row): (b: bool)
      requires 0 <= column < |row|
      ensures b <==> Holds(row, Value().Key())
    {
      row[column] == value
    }

    /**
     * `get1MSU(otherRows)`: this item when it shares exactly one row with
     * `otherRows`, else null. The smaller set asks the other; on a tie
     * `otherRows` asks.
     */
    method Get1Msu(otherRows: RowSet) returns (r: Item?)
      requires Valid() && otherRows.Valid()
      ensures r == (if |Value().rows * otherRows.Elems()| == 1 then this else null)
    {
      var size1 := rows.Size();
      var size2 := otherRows.Size();
      var rows1 := if size1 < size2 then rows else otherRows;
      var rows2 := if size1 < size2 then otherRows else rows;
      var present := rows1.IsSupportRowPresent(rows2);
      assert rows1.Elems() * rows2.Elems() == rows.Elems() * otherRows.Elems();
      r := if present then this else null;
    }

    /**
     * `getProjection(otherRows)`: null when no row is shared, else a new
     * item with the same column, value and id whose rows are the shared
     * ones; this item is left as it is.
     */
    method GetProjection(otherRows: RowSet, seed: int) returns (r: Item?)
      requires Valid() && otherRows.Valid()
      ensures r == null <==> Value().rows * otherRows.Elems() == {}
      ensures r != null ==> fresh(r) && fresh(r.rows.Repr()) && r.Valid()
      ensures r != null ==> r.Value() == Project(Value(), otherRows.Elems())
    {
      var shared := Shared(rows, otherRows, seed);
      if shared.Size() == 0 {
        r := null;
      } else {
        r := new Item.Clone(column, value, id, shared);
      }
    }
  }

  /** The intersection `getProjection` computes: the strictly smaller set drives, `otherRows` on a tie. */
  method Shared(rows: RowSet, otherRows: RowSet, seed: int) returns (shared: RowSet)
    requires rows.Valid() && otherRows.Valid()
    ensures shared.Valid() && fresh(shared.Repr())
    ensures shared.Elems() == rows.Elems() * otherRows.Elems()
  {
    var size1 := rows.Size();
    var size2 := otherRows.Size();
    var rows1 := if size1 < size2 then rows else otherRows;
    var rows2 := if size1 < size2 then otherRows else rows;
    shared := rows1.IntersectWith(rows2, seed);
    assert rows1.Elems() * rows2.Elems() == rows.Elems() * otherRows.Elems();
  }
}
