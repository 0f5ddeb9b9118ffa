/**
 * The two listeners that turn a minimal sample unique into the record it
 * identifies (src/main/de/linearbits/suda2/SUDA2ListenerKey.java,
 * src/main/de/linearbits/suda2/SUDA2ListenerMSU.java). The abstract
 * `keyFound` callbacks are the user's code; each listener records the
 * arguments of its `keyFound` calls instead. Row ids in the row sets start
 * at 1, so `min() - 1` is the 0-based index of the record.
 */
module Listeners {
  import opened Rows
  import opened Items

  /** The least element of a non-empty set of row ids. */
  ghost function Least(rows: set<int>): (m: int)
    requires rows != {}
    ensures m in rows && forall x :: x in rows ==> m <= x
    decreases rows
  {
    Member(rows);
    var x :| x in rows;
    if rows - {x} == {} then
      assert forall y :: y in rows ==> y == x || y in rows - {x};
      x
    else
      var rest := Least(rows - {x});
      assert forall y :: y in rows ==> y == x || y in rows - {x};
      if x < rest then x else rest
  }

  /** A non-empty set of row ids has a member. */
  lemma Member(rows: set<int>)
    requires rows != {}
    ensures exists x :: x in rows
  {
    assert (forall x :: x !in rows) ==> rows == {};
  }

  /** `SUDA2IntSet.min()` on a non-empty set: its least row id. */
  method Min(rows: set<int>) returns (m: int)
    requires rows != {}
    ensures m == Least(rows)
  {
    var rest := rows;
    Member(rest);
    m :| m in rest;
    rest := rest - {m};
    while rest != {}
      invariant rest <= rows && m in rows
      invariant forall x :: x in rows && x !in rest ==> m <= x
      decreases rest
    {
      Member(rest);
      var x :| x in rest;
      if x < m {
        m := x;
      }
      rest := rest - {x};
    }
  }

  /** The rows of `rows` shared with every item of `itemSet`. */
  function Shared(rows: set<int>, itemSet: seq<ItemValue>): (r: set<int>)
    ensures forall x :: x in r <==> x in rows && forall i :: 0 <= i < |itemSet| ==> x in itemSet[i].rows
  {
    if itemSet == [] then rows
    else
      var r := Shared(rows, itemSet[..|itemSet| - 1]);
      r * itemSet[|itemSet| - 1].rows
  }

  /** The columns of the items, in order. */
  function Columns(itemSet: seq<ItemValue>): (c: seq<int>)
    ensures |c| == |itemSet| && forall i :: 0 <= i < |itemSet| ==> c[i] == itemSet[i].column
  {
    seq(|itemSet|, i requires 0 <= i < |itemSet| => itemSet[i].column)
  }

  /**
   * The projection loop of both listeners: `temp =
   * temp.getProjection(set.get(i).getRows())` for each item of the set,
   * starting from `item`. `getProjection` gives null once no row is left,
   * and the next call, or `getRows()` after the loop, throws; `rows` is
   * `None` then.
   */
  method Project(item: ItemValue, itemSet: seq<ItemValue>) returns (rows: Option<set<int>>)
    requires item.rows != {}
    ensures rows.None? <==> Shared(item.rows, itemSet) == {}
    ensures rows.Some? ==> rows.value == Shared(item.rows, itemSet)
  {
    var temp := item.rows;
    var i := 0;
    while i < |itemSet|
      invariant 0 <= i <= |itemSet| && temp == Shared(item.rows, itemSet[..i]) && temp != {}
    {
      assert itemSet[..i + 1][..i] == itemSet[..i];
      temp := temp * itemSet[i].rows;
      if temp == {} {
        SharedPrefix(item.rows, itemSet, i + 1);
        return None;
      }
      i := i + 1;
    }
    if temp == {} {
      return None;
    }
    assert itemSet[..i] == itemSet;
    return Some(temp);
  }

  /** Every row shared with all the items is shared with the first `i` of them. */
  lemma SharedPrefix(rows: set<int>, itemSet: seq<ItemValue>, i: int)
    requires 0 <= i <= |itemSet|
    ensures Shared(rows, itemSet) <= Shared(rows, itemSet[..i])
  {
    forall x | x in Shared(rows, itemSet)
      ensures x in Shared(rows, itemSet[..i])
    {
      assert forall j :: 0 <= j < i ==> itemSet[..i][j] == itemSet[j];
    }
  }

  /** The record `keyFound` names: the least shared row id, made 0-based. */
  ghost function KeyRow(rows: set<int>): int
    requires rows != {}
  {
    Least(rows) - 1
  }

  /** The record named is one that holds every item of the key. */
  lemma KeyRowHoldsKey(item: ItemValue, itemSet: seq<ItemValue>)
    requires Shared(item.rows, itemSet) != {}
    ensures KeyRow(Shared(item.rows, itemSet)) + 1 in item.rows
    ensures forall i :: 0 <= i < |itemSet| ==> KeyRow(Shared(item.rows, itemSet)) + 1 in itemSet[i].rows
  {
  }

  /** When the key identifies a single record, as a sample unique does, that record is the one named. */
  lemma KeyRowOfUnique(item: ItemValue, itemSet: seq<ItemValue>, row: int)
    requires Shared(item.rows, itemSet) == {row}
    ensures KeyRow(Shared(item.rows, itemSet)) == row - 1
  {
  }

  /** How a `registerKey` call ended. */
  datatype Outcome =
    | Reported        // keyFound was called
    | Unsupported     // UnsupportedOperationException
    | NoSharedRow     // NullPointerException: the projection became null

  /** `SUDA2ListenerKey`: reports the record and the size of each key. */
  class KeyListener {
    /** The `keyFound(row, size)` calls made so far. */
    var found: seq<(int, int)>

    constructor ()
      ensures found == []
    {
      found := [];
    }

    /** `init(...)`: empty by design. */
    method Init(columns: int, maxK: int, numUniqueRecords: int, numDuplicateRecords: int)
      ensures found == old(found)
    {
    }

    /** `registerKey(Set<SUDA2Item>)`: always throws. */
    method RegisterKeyOfItems(items: set<ItemValue>) returns (outcome: Outcome)
      ensures outcome == Unsupported
    {
      outcome := Unsupported;
    }

    /**
     * `registerKey(item, set)`: the key is the item and the set; the
     * record is the least row shared by all of them, the size one more
     * than the set's.
     */
    method RegisterKeyWith(item: ItemValue, itemSet: seq<ItemValue>) returns (outcome: Outcome)
      requires item.rows != {}
      modifies this
      ensures outcome != Unsupported
      ensures outcome == NoSharedRow <==> Shared(item.rows, itemSet) == {}
      ensures outcome == Reported ==> found == old(found) + [(KeyRow(Shared(item.rows, itemSet)), |itemSet| + 1)]
      ensures outcome == NoSharedRow ==> found == old(found)
    {
      var temp := Project(item, itemSet);
      if temp.None? {
        return NoSharedRow;
      }
      var row := Min(temp.value);
      found := found + [(row - 1, |itemSet| + 1)];
      outcome := Reported;
    }

    /**
     * `registerKey(set)`: the key is the set; the record is the least row
     * of its first item, which at the top level of the search holds the
     * one record of the key.
     */
    method RegisterKey(itemSet: seq<ItemValue>)
      requires |itemSet| > 0 && itemSet[0].rows != {}
      modifies this
      ensures found == old(found) + [(KeyRow(itemSet[0].rows), |itemSet|)]
    {
      var row := Min(itemSet[0].rows);
      found := found + [(row - 1, |itemSet|)];
    }
  }

  /**
   * `SUDA2ListenerMSU`: reports the record, the columns and the size of
   * each key. The columns go to one buffer, `result`, allocated by `init`
   * and overwritten by every key; the callback sees the buffer as it is
   * at the call.
   */
  class MsuListener {
    var result: array?<int>
    /** The `keyFound(row, columns, size)` calls made so far, with the buffer's contents at each call. */
    var found: seq<(int, seq<int>, int)>

    constructor ()
      ensures result == null && found == []
    {
      result := null;
      found := [];
    }

    /** `keyFound(row, size)`: always throws. */
    method KeyFound(row: int, size: int) returns (outcome: Outcome)
      ensures outcome == Unsupported
    {
      outcome := Unsupported;
    }

    /** `init(columns, ...)`: a zeroed buffer with one slot per column. */
    method Init(columns: int, maxK: int, numUniqueRecords: int, numDuplicateRecords: int)
      requires 0 <= columns
      modifies this
      ensures result != null && fresh(result) && result[..] == seq(columns, _ => 0)
      ensures found == old(found)
    {
      result := new int[columns](_ => 0);
    }

    /** `registerKey(Set<SUDA2Item>)`: always throws. */
    method RegisterKeyOfItems(items: set<ItemValue>) returns (outcome: Outcome)
      ensures outcome == Unsupported
    {
      outcome := Unsupported;
    }

    /**
     * `registerKey(item, set)`: the set's columns, then the item's, go to
     * the front of the buffer, whatever the rows; then the record is the
     * least row shared by the key's items.
     */
    method RegisterKeyWith(item: ItemValue, itemSet: seq<ItemValue>) returns (outcome: Outcome)
      requires result != null && |itemSet| < result.Length && item.rows != {}
      modifies this, result
      ensures result == old(result) && outcome != Unsupported
      ensures result[..] == Columns(itemSet) + [item.column] + old(result[|itemSet| + 1..])
      ensures outcome == NoSharedRow <==> Shared(item.rows, itemSet) == {}
      ensures outcome == Reported ==>
        found == old(found) + [(KeyRow(Shared(item.rows, itemSet)), result[..], |itemSet| + 1)]
      ensures outcome == NoSharedRow ==> found == old(found)
    {
      StoreColumns(itemSet);
      result[|itemSet|] := item.column;
      assert result[..] == Columns(itemSet) + [item.column] + old(result[|itemSet| + 1..]);
      var temp := Project(item, itemSet);
      if temp.None? {
        return NoSharedRow;
      }
      var row := Min(temp.value);
      found := found + [(row - 1, result[..], |itemSet| + 1)];
      outcome := Reported;
    }

    /**
     * `registerKey(set)`: the record is the least row of the first item;
     * the set's columns go to the front of the buffer.
     */
    method RegisterKey(itemSet: seq<ItemValue>)
      requires result != null && 0 < |itemSet| <= result.Length && itemSet[0].rows != {}
      modifies this, result
      ensures result == old(result)
      ensures result[..] == Columns(itemSet) + old(result[|itemSet|..])
      ensures found == old(found) + [(KeyRow(itemSet[0].rows), result[..], |itemSet|)]
    {
      var row := Min(itemSet[0].rows);
      StoreColumns(itemSet);
      found := found + [(row - 1, result[..], |itemSet|)];
    }

    /** The column loop of both overloads: `result[i] = set.get(i).getColumn()`. */
    method StoreColumns(itemSet: seq<ItemValue>)
      requires result != null && |itemSet| <= result.Length
      modifies result
      ensures result[..] == Columns(itemSet) + old(result[|itemSet|..])
    {
      var i := 0;
      while i < |itemSet|
        invariant 0 <= i <= |itemSet|
        invariant forall j :: 0 <= j < i ==> result[j] == itemSet[j].column
        invariant forall j :: i <= j < result.Length ==> result[j] == old(result[j])
      {
        result[i] := itemSet[i].column;
        i := i + 1;
      }
    }
  }
}
