/**
 * The receiver of the search's findings. `SUDA2Result`, which the listeners
 * extend, is not part of this model's sources; `ResultLog` stands for it and
 * records the calls the search makes on it: `init` once, then one
 * `registerKey` per minimal sample unique found.
 */
module Results {
  import opened Items

  /** The arguments of one `registerKey` call. */
  datatype Registration =
    | Single(itemSet: seq<ItemValue>)                 // registerKey(SUDA2ItemSet)
    | Extended(item: ItemValue, itemSet: seq<ItemValue>) // registerKey(SUDA2Item, SUDA2ItemSet)
  {
    /** The number of items of the key. */
    function Size(): nat
    {
      match this
      case Single(s) => |s|
      case Extended(_, s) => |s| + 1
    }
  }

  /** The arguments of `init`. */
  datatype InitCall = InitCall(columns: int, maxK: int, numUniqueRecords: int, numDuplicateRecords: int)

  class ResultLog {
    var inits: seq<InitCall>
    var registrations: seq<Registration>

    constructor ()
      ensures inits == [] && registrations == []
    {
      inits := [];
      registrations := [];
    }

    method Init(columns: int, maxK: int, numUniqueRecords: int, numDuplicateRecords: int)
      modifies this
      ensures inits == old(inits) + [InitCall(columns, maxK, numUniqueRecords, numDuplicateRecords)]
      ensures registrations == old(registrations)
    {
      inits := inits + [InitCall(columns, maxK, numUniqueRecords, numDuplicateRecords)];
    }

    method RegisterKey(itemSet: seq<ItemValue>)
      modifies this
      ensures registrations == old(registrations) + [Single(itemSet)]
      ensures inits == old(inits)
    {
      registrations := registrations + [Single(itemSet)];
    }

    method RegisterKeyWith(item: ItemValue, itemSet: seq<ItemValue>)
      modifies this
      ensures registrations == old(registrations) + [Extended(item, itemSet)]
      ensures inits == old(inits)
    {
      registrations := registrations + [Extended(item, itemSet)];
    }
  }
}
