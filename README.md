# SUDA2 in Dafny

A model of SUDA2, the search for minimal sample uniques (MSUs). An MSU
of a table of categorical records is a set of (column, value) items that
exactly one record holds, and no proper subset of which is held by only
one record. The Java engine builds one item per (column, value) pair
with the ids of the records that hold it, and sorts the items by
support. It then searches depth-first. For each reference item it
projects the later items onto the reference item's rows, recurses, and
keeps a candidate only when a "special row" shows that the candidate,
extended by the reference item, is minimal. The performance layer is a
family of integer sets of row ids (open-addressed hash tables, eight
inline fields, a bitmap and an empty set), a hash map from item ids to
items, a record-class counter (`SUDA2Groupify`), two listeners that
report keys, and a key-statistics result.

The model has one module per core class or concern:

- **Foundations.**
  - `Rows`: Java `int` wrap-around, the table and the support of a set of items.
  - `Items`: the packed item id.
  - `Uniques`: the theory of MSUs the search relies on.
- **Integer sets.**
  - `Probing`: murmur hashes and linear probing.
  - `IntSets`: `SUDA2IntSet`.
  - `RowIds`: slot sequences.
  - `Words`: bitmap words.
  - `RowSets`: every `SUDA2IntSet*` subclass, behind one tagged reference `RowSet`.
- **Items and item maps.**
  - `ItemObjects`: `SUDA2Item`.
  - `ItemIndexes`: `SUDA2ItemIndex`.
  - `IndexedItemSets`: `SUDA2IndexedItemSet`.
  - `ItemRegistries`: `SUDA2ItemRegistry`.
  - `ItemLists` and `Sorting`: the stable sort by support.
- **Record classes.** `RowClasses`: `SUDA2Groupify`.
- **The search.**
  - `InitialState`: the initial item list.
  - `SearchSteps`: the pure steps of the search.
  - `Search`: the `SUDA2` class and its correctness argument.
  - `Results`: the calls the search makes on its result object.
- **Receivers.**
  - `Listeners`: `SUDA2ListenerKey` and `SUDA2ListenerMSU`.
  - `KeyStatistics`: `SUDA2StatisticsKeys`.
- **Checking against the test oracle.**
  - `Exhaustive`: the test oracle `ExhaustiveSearch`.
  - `Agreement`: the engine equals the oracle, with the shadowed fields that `isMSU` and `suda2` read taken as intended (see Findings).

Classes whose fields the Java updates in place are Dafny classes, with
`modifies`/`reads` frames. Their arrays stay arrays. Each is proved
against an abstract value: a set of row ids, a map from ids to items, a
multiset of records, or a log of calls. The search itself is the method
`Search.Suda2.Search`, which recurses as the Java does. Its contract
ties what it registers and returns to the mathematical definition
`Uniques.Msu`.

The search works one layer up from those classes. `Search.Suda2` runs on
`Items.ItemValue` items, whose rows are a `set<int>`, and on sequences
of them. It does not run on the `ItemObjects`, `RowSets`,
`IndexedItemSets` or `ItemIndexes` objects, and no lemma connects the
two layers. Each of those classes is proved on its own against its
abstract value. Of the row sets, the engine only ever creates
`SUDA2IntSetHash`: `SUDA2Item` creates one (SUDA2Item.java:55), and its
`intersectWith` creates hash sets and `SUDA2IntSetSmall`. `SUDA2IntSetBits`,
`SUDA2IntSetJump`, `SUDA2IntSetSmall2` and `SUDA2IntSetEmpty` are created
only by one another's `intersectWith` and by tests, so the engine cannot
reach them. `SUDA2Groupify.add` is never called by the engine either,
since `getInitialState` creates a `SUDA2Groupify` and never adds to it.

Nothing is executed. The model is only verified.

## Model

| member | source | states |
|---|---|---|
| Items.GetId | src/main/de/linearbits/suda2/SUDA2Item.java:32-34 | the id is a signed 64-bit value from whose high and low 32 bits the column and the value are recovered |
| Items.GetIdInjective | src/main/de/linearbits/suda2/SUDA2Item.java:32-34 | two (column, value) pairs have the same id if and only if they are the same pair |
| Items.SameIdSameKey | src/main/de/linearbits/suda2/SUDA2Item.java:120-122 | items whose id is their packed pair and whose ids are equal have the same column and value |
| Uniques.MsuBySingleRemoval | src/main/de/linearbits/suda2/SUDA2.java:325-336 | a unique set is minimal iff removing any single item leaves a set held by two or more records, the test the search's special row stands for |
| Uniques.MsuSingleton | src/main/de/linearbits/suda2/SUDA2.java:270-272 | a single item is an MSU exactly when one record holds it, so support 1 means a one-item MSU |
| Uniques.MsuItemSupport | src/main/de/linearbits/suda2/SUDA2.java:447 | every item of an MSU of k items is held by at least k records, which justifies pruning strategy 1 |
| Uniques.MsuItemNotEverywhere | src/main/de/linearbits/suda2/SUDA2.java:274-277 | no item of an MSU of two or more items is held by every record, so items of full support can be dropped |
| Uniques.LiftMsu | src/main/de/linearbits/suda2/SUDA2.java:460-474 | an MSU of the reference item's rows that has a special row, extended by the reference item, is an MSU of the universe |
| Uniques.SingletonSpecialRow | src/main/de/linearbits/suda2/SUDA2.java:333-336 | a one-item MSU of the reference item's rows always has a special row, so `isMSU` may accept it outright |
| Uniques.DropMsu | src/main/de/linearbits/suda2/SUDA2.java:451-457 | removing an item from an MSU of two or more items leaves an MSU of that item's rows, with a special row and fewer items than that item's support |
| Uniques.LiftIff | src/main/de/linearbits/suda2/SUDA2.java:377-393 | the special-row test is exact: an MSU of the reference rows extends to an MSU of the universe iff a special row exists |
| Probing.LowBitsMod | src/main/de/linearbits/suda2/SUDA2IntSet.java:94-95 | `hash & (2^k - 1)` is the non-negative remainder of the hash modulo 2^k, also for negative hashes |
| Probing.Murmur32 | src/main/de/linearbits/suda2/SUDA2IntSet.java:155-160 | the seeded murmur3 32-bit finaliser, computed with Java `int` wrap-around, yields a Java `int` |
| Probing.Murmur64 | src/main/de/linearbits/suda2/SUDA2ItemIndex.java:161-166 | the seeded murmur3 64-bit finaliser over a `long` key, with wrap-around, narrowed to a Java `int` |
| Probing.ThresholdGrows | src/main/de/linearbits/suda2/SUDA2IntSet.java:48-50 | doubling a table raises `ceil(0.75 * length)`, so a table never reaches its threshold again right after a rehash |
| Probing.Miss | src/main/de/linearbits/suda2/SUDA2IntSet.java:97-111 | a linear probe that reaches a free slot having passed only other keys proves the key absent from the whole table |
| Probing.Place | src/main/de/linearbits/suda2/SUDA2IntSet.java:123-148 | writing a key into the free slot its probe reached keeps every stored key reachable by its own probe |
| IntSets.HomeSlot | src/main/de/linearbits/suda2/SUDA2IntSet.java:126-127 | the home slot is the seeded hash masked to the table, a slot of the table |
| IntSets.Store | src/main/de/linearbits/suda2/SUDA2IntSet.java:123-148 | the private `add` stores the value iff it is non-zero and absent; then the elements gain exactly it and one more slot is used; otherwise the table is unchanged |
| IntSets.Lookup | src/main/de/linearbits/suda2/SUDA2IntSet.java:92-114 | `contains` answers true iff the value is stored or is 0, the free-slot marker |
| IntSets.Rehashed | src/main/de/linearbits/suda2/SUDA2IntSet.java:165-179 | the rehash loop builds a fresh table of twice the length with the same elements and used slots, and `last` is one of them |
| IntSets.IntSet.constructor | src/main/de/linearbits/suda2/SUDA2IntSet.java:70-73 | a new set is empty, with 8 free slots |
| IntSets.IntSet.Add | src/main/de/linearbits/suda2/SUDA2IntSet.java:79-85 | a new value joins the elements and is counted; below the threshold the table stays and `last` is the value, at the threshold the table doubles |
| IntSets.IntSet.Contains | src/main/de/linearbits/suda2/SUDA2IntSet.java:92-114 | true iff the value is an element or 0 |
| IntSets.IntSet.Rehash | src/main/de/linearbits/suda2/SUDA2IntSet.java:165-179 | same elements and count in a fresh table of twice the length |
| RowIds.SpecialRow | src/main/de/linearbits/suda2/SUDA2IntSetSmall.java:172-182 | the private `containsSpecialRow(items, referenceItem, row)` is true iff the record holds every item and not the reference item |
| RowSets.RowSet.Bounds | src/main/de/linearbits/suda2/SUDA2IntSetSmall.java:48-69 | every element of a consistent set is a row id and lies between its `min()` and `max()` |
| RowSets.RowSet.Size | src/main/de/linearbits/suda2/SUDA2IntSetEmpty.java:67-69 | `size()` of any kind of set, 0 for the empty set, is the number of its row ids |
| RowSets.RowSet.Contains | src/main/de/linearbits/suda2/SUDA2IntSetEmpty.java:32-34 | `contains` of any kind of set is membership, except that a hash set also reports 0 and the empty set reports nothing |
| RowSets.RowSet.IntersectWith | src/main/de/linearbits/suda2/SUDA2IntSetEmpty.java:47-49 | `intersectWith` of any kind of set returns a fresh set of exactly the common row ids; the empty set returns itself |
| RowSets.RowSet.IsSupportRowPresent | src/main/de/linearbits/suda2/SUDA2IntSetEmpty.java:52-54 | `isSupportRowPresent` of any kind of set is true iff the two sets share exactly one row id |
| RowSets.RowSet.ContainsSpecialRow | src/main/de/linearbits/suda2/SUDA2IntSetEmpty.java:37-39 | `containsSpecialRow` of any kind of set is true iff some element names a record holding every item but not the reference item |
| RowSets.IntSetHash.constructor | src/main/de/linearbits/suda2/SUDA2IntSetHash.java:70-73 | a new hash set is empty |
| RowSets.IntSetHash.Add | src/main/de/linearbits/suda2/SUDA2IntSetHash.java:79-84 | the value joins the elements; `size` grows only when it was new, so adding a row id twice is harmless |
| RowSets.IntSetHash.Contains | src/main/de/linearbits/suda2/SUDA2IntSetHash.java:90-112 | true iff the value is an element or 0 |
| RowSets.IntSetHash.Rehash | src/main/de/linearbits/suda2/SUDA2IntSetHash.java:237-251 | same elements in a fresh table of twice the length |
| RowSets.IntSetHash.ContainsSpecialRow | src/main/de/linearbits/suda2/SUDA2IntSetHash.java:115-131 | true iff some element names a special record |
| RowSets.IntSetHash.IntersectWith | src/main/de/linearbits/suda2/SUDA2IntSetHash.java:134-158 | a fresh hash set, or a packed `SUDA2IntSetSmall`, of exactly the common row ids |
| RowSets.IntSetHash.IsSupportRowPresent | src/main/de/linearbits/suda2/SUDA2IntSetHash.java:161-176 | true iff exactly one row id is shared, stopping at the second |
| RowSets.Pack | src/main/de/linearbits/suda2/SUDA2IntSetHash.java:147-154 | the used slots of the filtered table, in slot order, become a `SUDA2IntSetSmall` of the same row ids |
| RowSets.IntSetSmall.constructor | src/main/de/linearbits/suda2/SUDA2IntSetSmall.java:48-52 | a new set is empty, with `min` the greatest and `max` the least `int` |
| RowSets.IntSetSmall.Add | src/main/de/linearbits/suda2/SUDA2IntSetSmall.java:55-69 | the next field takes the new row id and the elements gain it, with `min`/`max` still bounding them |
| RowSets.IntSetSmall.Contains | src/main/de/linearbits/suda2/SUDA2IntSetSmall.java:72-85 | the fall-through `switch` over the used fields is membership |
| RowSets.IntSetSmall.ContainsSpecialRow | src/main/de/linearbits/suda2/SUDA2IntSetSmall.java:88-101 | true iff some used field names a special record |
| RowSets.IntSetSmall.IntersectWith | src/main/de/linearbits/suda2/SUDA2IntSetSmall.java:104-126 | a fresh `SUDA2IntSetSmall` of exactly the common row ids, empty when the ranges are apart |
| RowSets.IntSetSmall.IsSupportRowPresent | src/main/de/linearbits/suda2/SUDA2IntSetSmall.java:129-148 | false on apart ranges, otherwise true iff exactly one common row id |
| RowSets.IntSetJump.constructor | src/main/de/linearbits/suda2/SUDA2IntSetJump.java:54-56 | a new set is empty |
| RowSets.IntSetJump.Add | src/main/de/linearbits/suda2/SUDA2IntSetJump.java:59-73 | the next field takes the new row id and the elements gain it, with `min`/`max` still bounding them |
| RowSets.IntSetJump.Contains | src/main/de/linearbits/suda2/SUDA2IntSetJump.java:76-89 | membership |
| RowSets.IntSetJump.ContainsSpecialRow | src/main/de/linearbits/suda2/SUDA2IntSetJump.java:92-112 | true iff some used field names a special record |
| RowSets.IntSetJump.IntersectWith | src/main/de/linearbits/suda2/SUDA2IntSetJump.java:120-150 | the empty set or a fresh `SUDA2IntSetJump` of exactly the common row ids |
| RowSets.IntSetJump.IsSupportRowPresent | src/main/de/linearbits/suda2/SUDA2IntSetJump.java:153-179 | true iff exactly one common row id |
| RowSets.IntSetSmall2.constructor | src/main/de/linearbits/suda2/SUDA2IntSetSmall2.java:42-44 | a new set is empty |
| RowSets.IntSetSmall2.Add | src/main/de/linearbits/suda2/SUDA2IntSetSmall2.java:47-51 | `buckets[size++] = value`: the elements gain the new row id |
| RowSets.IntSetSmall2.Contains | src/main/de/linearbits/suda2/SUDA2IntSetSmall2.java:54-62 | membership, by a scan of the used slots |
| RowSets.IntSetSmall2.ContainsSpecialRow | src/main/de/linearbits/suda2/SUDA2IntSetSmall2.java:65-74 | true iff some used slot names a special record |
| RowSets.IntSetSmall2.IntersectWith | src/main/de/linearbits/suda2/SUDA2IntSetSmall2.java:77-96 | a fresh set of exactly the common row ids, empty when the ranges are apart |
| RowSets.IntSetSmall2.IsSupportRowPresent | src/main/de/linearbits/suda2/SUDA2IntSetSmall2.java:99-119 | false on apart ranges, otherwise true iff exactly one common row id |
| RowSets.IntSetBits.constructor | src/main/de/linearbits/suda2/SUDA2IntSetBits.java:39-45 | an empty bitmap whose `offset` is `min` rounded down to a multiple of 64 and whose words reach `max` |
| RowSets.IntSetBits.Add | src/main/de/linearbits/suda2/SUDA2IntSetBits.java:48-55 | setting the bit of a new row within the span adds exactly that row and counts it |
| RowSets.IntSetBits.Contains | src/main/de/linearbits/suda2/SUDA2IntSetBits.java:59-63 | membership, including the wrap-around of `value - offset` and the bounds checks |
| RowSets.IntSetBits.ContainsSpecialRow | src/main/de/linearbits/suda2/SUDA2IntSetBits.java:66-90 | true iff some set bit stands for a row that names a special record |
| RowSets.IntSetBits.AndWith | src/main/de/linearbits/suda2/SUDA2IntSetBits.java:113-138 | for two overlapping bitmaps, a fresh bitmap over the overlap whose rows are exactly the common rows |
| RowSets.IntSetBits.IntersectWith | src/main/de/linearbits/suda2/SUDA2IntSetBits.java:98-181 | a fresh set of exactly the common row ids, for a bitmap against every kind of set; the shrink reads the ANDed words (corrected, see Findings) |
| RowSets.IntSetBits.IntersectWithAsWritten | src/main/de/linearbits/suda2/SUDA2IntSetBits.java:98-175 | the bitmap–bitmap branch as written: when the ANDed result has at most 8 rows, the shrunk set holds every row of this set (up to 8) instead of the common rows |
| RowSets.Shrink | src/main/de/linearbits/suda2/SUDA2IntSetBits.java:159-168 | the shrink loop turns a bitmap of at most 8 rows into a fresh `SUDA2IntSetJump` of exactly its rows |
| RowSets.ShrinkCounterexample | src/main/de/linearbits/suda2/SUDA2IntSetBits.java:159-168 | {1, 2} intersected with {2} as written yields {1, 2}, not {2} |
| RowSets.IntSetBits.SharedOne | src/main/de/linearbits/suda2/SUDA2IntSetBits.java:201-230 | the bitmap branch of `isSupportRowPresent`: the running `bitCount` of the ANDed words from the common start is true iff exactly one row is shared |
| RowSets.IntSetBits.IsSupportRowPresent | src/main/de/linearbits/suda2/SUDA2IntSetBits.java:184-230 | true iff exactly one common row id, for a bitmap against every kind of set |
| ItemObjects.Item.constructor | src/main/de/linearbits/suda2/SUDA2Item.java:51-56 | a new item has the given column, value and id and no rows, kept in a fresh hash set |
| ItemObjects.Item.Clone | src/main/de/linearbits/suda2/SUDA2Item.java:65-70 | the package-private constructor shares the given row set and copies nothing |
| ItemObjects.Item.AddRow | src/main/de/linearbits/suda2/SUDA2Item.java:76-78 | the item's rows gain exactly the row; column, value and id are unchanged |
| ItemObjects.Item.GetSupport | src/main/de/linearbits/suda2/SUDA2Item.java:160-162 | the support is the number of rows |
| ItemObjects.Item.IsContained | src/main/de/linearbits/suda2/SUDA2Item.java:187-189 | true iff the record holds the item's value in the item's column |
| ItemObjects.Item.Get1Msu | src/main/de/linearbits/suda2/SUDA2Item.java:95-106 | this item iff it shares exactly one row with the other rows, else null, whichever set is asked |
| ItemObjects.Item.GetProjection | src/main/de/linearbits/suda2/SUDA2Item.java:129-146 | null iff no row is shared; else a fresh item with the same column, value and id whose rows are the shared rows |
| ItemObjects.Shared | src/main/de/linearbits/suda2/SUDA2Item.java:133-140 | intersecting from the smaller set gives the common rows in a fresh set |
| ItemIndexes.PutInto | src/main/de/linearbits/suda2/SUDA2ItemIndex.java:177-203 | the private `put` stores the pair iff the key is absent (then the map gains it and the table stays probe-consistent); a present key leaves everything unchanged |
| ItemIndexes.Rehashed | src/main/de/linearbits/suda2/SUDA2ItemIndex.java:208-224 | fresh key and value tables of twice the length that represent the same map |
| ItemIndexes.ItemIndex.constructor | src/main/de/linearbits/suda2/SUDA2ItemIndex.java:70-74 | a new index is the empty map, with 8 slots |
| ItemIndexes.ItemIndex.Get | src/main/de/linearbits/suda2/SUDA2ItemIndex.java:76-98 | the item stored under the key, or null iff the key is absent |
| ItemIndexes.ItemIndex.GetSlot | src/main/de/linearbits/suda2/SUDA2ItemIndex.java:105-127 | a slot holding the key when it is present; otherwise `-(i + 1)` for the free slot `i` where it belongs |
| ItemIndexes.ItemIndex.Put | src/main/de/linearbits/suda2/SUDA2ItemIndex.java:134-139 | the first value put under a key wins; a new key is counted |
| ItemIndexes.ItemIndex.PutSlot | src/main/de/linearbits/suda2/SUDA2ItemIndex.java:147-154 | a pair written into the free slot `getSlot` gave is added to the map and counted |
| ItemIndexes.ItemIndex.Rehash | src/main/de/linearbits/suda2/SUDA2ItemIndex.java:208-224 | same map and count in tables of twice the length |
| IndexedItemSets.IndexedItemSet.constructor | src/main/de/linearbits/suda2/SUDA2IndexedItemSet.java:29-32 | a new catalogue holds no items |
| IndexedItemSets.IndexedItemSet.AddItem | src/main/de/linearbits/suda2/SUDA2IndexedItemSet.java:39-41 | stores the item under its id unless an item is already stored there |
| IndexedItemSets.IndexedItemSet.GetItem | src/main/de/linearbits/suda2/SUDA2IndexedItemSet.java:48-50 | the item with that id, or null iff none |
| IndexedItemSets.IndexedItemSet.GetOrCreateItem | src/main/de/linearbits/suda2/SUDA2IndexedItemSet.java:84-94 | the stored item of the pair's id if any; else a fresh item of the pair with no rows, now stored |
| IndexedItemSets.IndexedItemSet.GetItemList | src/main/de/linearbits/suda2/SUDA2IndexedItemSet.java:57-76 | every stored item exactly once, stably sorted by ascending support from slot order |
| ItemRegistries.FreeSlot | src/main/de/linearbits/suda2/SUDA2ItemRegistry.java:71-78 | the probe of `add` ends at a free slot, having passed only used ones |
| ItemRegistries.FindSlot | src/main/de/linearbits/suda2/SUDA2ItemRegistry.java:95-101 | the probe of `get`/`register` ends at a free slot or at an item with the key, having passed only other items |
| ItemRegistries.ItemRegistry.constructor | src/main/de/linearbits/suda2/SUDA2ItemRegistry.java:59-62 | a new registry holds no items |
| ItemRegistries.ItemRegistry.Add | src/main/de/linearbits/suda2/SUDA2ItemRegistry.java:68-85 | the items gain this item even when its id is already stored, and `size` grows |
| ItemRegistries.ItemRegistry.Get | src/main/de/linearbits/suda2/SUDA2ItemRegistry.java:92-103 | null iff no item with the key is stored; else a stored item with that id |
| ItemRegistries.ItemRegistry.Register | src/main/de/linearbits/suda2/SUDA2ItemRegistry.java:137-164 | a stored item with the pair's id; a fresh item of the pair is stored only when the id was absent; `size` grows on every call |
| ItemRegistries.ItemRegistry.GetSortedItemList | src/main/de/linearbits/suda2/SUDA2ItemRegistry.java:110-129 | a permutation of the stored items, sorted by ascending support, stable from slot order |
| ItemRegistries.ItemRegistry.Rehash | src/main/de/linearbits/suda2/SUDA2ItemRegistry.java:180-204 | the same items and ids in a table of twice the length |
| ItemLists.Collect | src/main/de/linearbits/suda2/SUDA2ItemRegistry.java:113-118 | the non-null slots of the item array, in order |
| ItemLists.SortBySupport | src/main/de/linearbits/suda2/SUDA2ItemRegistry.java:119-125 | `Collections.sort` by support: a permutation, sorted by support, the stable sort of the items paired with their supports |
| RowClasses.CalculateCapacity | src/main/de/linearbits/suda2/SUDA2Groupify.java:67-77 | a power of two: 16 for 0, `1 << 30` from `1 << 30` on, otherwise the least power of two at least `x` |
| RowClasses.CapacityDoubles | src/main/de/linearbits/suda2/SUDA2Groupify.java:274 | `calculateCapacity(length << 1)` of a power-of-two length below `1 << 30` is twice the length |
| RowClasses.FoldPoly | src/main/de/linearbits/suda2/SUDA2Groupify.java:151-167 | the row hash wrapped at every step equals the wrapped base-37 polynomial of the row, starting from 23 |
| RowClasses.HashCode | src/main/de/linearbits/suda2/SUDA2Groupify.java:151-167 | the unrolled loop (blocks of four, then single elements) computes the step-by-step fold |
| RowClasses.Equals | src/main/de/linearbits/suda2/SUDA2Groupify.java:97-143 | true iff the first array equals the second's prefix of its length, so equality for equal lengths |
| RowClasses.OfSizeCount | src/main/de/linearbits/suda2/SUDA2Groupify.java:218-222 | one more record of a class of size c-1 changes the number of classes of size n by +1 when n = c and by -1 when n = c-1 |
| RowClasses.Groupify.constructor | src/main/de/linearbits/suda2/SUDA2Groupify.java:192-197 | no records, `calculateCapacity(capacity)` empty buckets |
| RowClasses.Groupify.GetNumUniqueRecords | src/main/de/linearbits/suda2/SUDA2Groupify.java:237-239 | the number of records whose content no other record has |
| RowClasses.Groupify.GetNumDuplicateRecords | src/main/de/linearbits/suda2/SUDA2Groupify.java:229-231 | twice the number of contents held by exactly two records |
| RowClasses.Groupify.Add | src/main/de/linearbits/suda2/SUDA2Groupify.java:203-223 | the record is counted in the class of its content; a fresh class is created for new contents; both counters stay exact |
| RowClasses.Groupify.CreateEntry | src/main/de/linearbits/suda2/SUDA2Groupify.java:248-253 | a fresh class of the key with no records joins the classes, the chains stay consistent, and the bucket array and counters are unchanged |
| RowClasses.Groupify.FindEntry | src/main/de/linearbits/suda2/SUDA2Groupify.java:262-268 | the class of the record's content, or null iff there is none |
| RowClasses.Groupify.Rehash | src/main/de/linearbits/suda2/SUDA2Groupify.java:273-286 | twice the buckets, every class in the bucket of its hash, classes and counters unchanged (corrected, see Findings) |
| RowClasses.RehashAsWritten | src/main/de/linearbits/suda2/SUDA2Groupify.java:276-282 | the relinking loop as written: after a class moves, the walk continues in the new bucket's chain, not the old one |
| RowClasses.RehashLosesRows | src/main/de/linearbits/suda2/SUDA2Groupify.java:276-282 | on a concrete table of four buckets, the record [1] is in no bucket of the rehashed table as written |
| Listeners.Min | src/main/de/linearbits/suda2/SUDA2ListenerKey.java:53 | `min()` of a non-empty set of row ids is its least element |
| Listeners.Project | src/main/de/linearbits/suda2/SUDA2ListenerKey.java:48-52 | the projection loop ends with the rows shared by the item and every item of the set, or `None` iff none is shared (the Java then throws) |
| Listeners.KeyRowHoldsKey | src/main/de/linearbits/suda2/SUDA2ListenerKey.java:47-55 | the record reported holds every item of the key |
| Listeners.KeyRowOfUnique | src/main/de/linearbits/suda2/SUDA2ListenerKey.java:47-55 | for a key held by one record, that record is reported, 0-based |
| Listeners.KeyListener.Init | src/main/de/linearbits/suda2/SUDA2ListenerKey.java:37-39 | nothing is reported |
| Listeners.KeyListener.RegisterKeyOfItems | src/main/de/linearbits/suda2/SUDA2ListenerKey.java:42-44 | always ends in `UnsupportedOperationException` |
| Listeners.KeyListener.RegisterKeyWith | src/main/de/linearbits/suda2/SUDA2ListenerKey.java:47-55 | reports (least shared row - 1, set size + 1) iff some row is shared; otherwise ends in a null pointer and reports nothing |
| Listeners.KeyListener.RegisterKey | src/main/de/linearbits/suda2/SUDA2ListenerKey.java:58-62 | reports (least row of the first item - 1, set size) |
| Listeners.MsuListener.KeyFound | src/main/de/linearbits/suda2/SUDA2ListenerMSU.java:46-48 | always ends in `UnsupportedOperationException` |
| Listeners.MsuListener.Init | src/main/de/linearbits/suda2/SUDA2ListenerMSU.java:51-53 | a fresh zeroed column buffer of one slot per column |
| Listeners.MsuListener.RegisterKeyOfItems | src/main/de/linearbits/suda2/SUDA2ListenerMSU.java:56-58 | always ends in `UnsupportedOperationException` |
| Listeners.MsuListener.RegisterKeyWith | src/main/de/linearbits/suda2/SUDA2ListenerMSU.java:61-78 | the buffer starts with the set's columns and then the item's column, the rest untouched; the report is made iff a row is shared |
| Listeners.MsuListener.RegisterKey | src/main/de/linearbits/suda2/SUDA2ListenerMSU.java:81-94 | the buffer starts with the set's columns; reports (least row of the first item - 1, buffer, set size) |
| Listeners.MsuListener.StoreColumns | src/main/de/linearbits/suda2/SUDA2ListenerMSU.java:66-68 | `result[i] = set.get(i).getColumn()` for every item; the rest of the buffer is unchanged |
| KeyStatistics.Count | src/main/de/linearbits/suda2/SUDA2StatisticsKeys.java:197-215 | the number of registered keys of size `k` |
| KeyStatistics.Divide | src/main/de/linearbits/suda2/SUDA2StatisticsKeys.java:71-73 | a counter divided by a counter as Java doubles do: the exact quotient for a non-zero divisor; for a zero divisor, NaN exactly when the dividend is 0 |
| KeyStatistics.DistributionTotals | src/main/de/linearbits/suda2/SUDA2StatisticsKeys.java:197-215 | the distribution's slots add up to the number of keys, and weighted by size to the total key size |
| KeyStatistics.SumBounds | src/main/de/linearbits/suda2/SUDA2StatisticsKeys.java:197-215 | the total key size lies between the number of keys and `maxK` times it |
| KeyStatistics.SameKeysSameCounters | src/main/de/linearbits/suda2/SUDA2StatisticsKeys.java:55-65 | two runs registering the same keys in any order end with the same number of keys, total size and distribution |
| KeyStatistics.SharesSumToOne | src/main/de/linearbits/suda2/SUDA2StatisticsKeys.java:79-85 | once a key is registered, the shares of the size distribution add up to one |
| KeyStatistics.AverageInRange | src/main/de/linearbits/suda2/SUDA2StatisticsKeys.java:71-73 | once a key is registered, the average key size lies between 1 and `maxK` |
| KeyStatistics.StatisticsKeys.constructor | src/main/de/linearbits/suda2/SUDA2StatisticsKeys.java:46-52 | no keys, and a zeroed distribution of `maxK` slots |
| KeyStatistics.StatisticsKeys.Init | src/main/de/linearbits/suda2/SUDA2StatisticsKeys.java:192-194 | changes nothing |
| KeyStatistics.StatisticsKeys.Record | src/main/de/linearbits/suda2/SUDA2StatisticsKeys.java:197-201 | the key count and total size always grow; the key is added to the distribution iff 1 <= size <= `maxK`; otherwise the distribution is unchanged, where the Java's array access throws |
| KeyStatistics.StatisticsKeys.RegisterKeyOfItems | src/main/de/linearbits/suda2/SUDA2StatisticsKeys.java:197-201 | a key of `|set|` items is recorded |
| KeyStatistics.StatisticsKeys.RegisterKeyWith | src/main/de/linearbits/suda2/SUDA2StatisticsKeys.java:204-208 | a key of `|set| + 1` items is recorded |
| KeyStatistics.StatisticsKeys.RegisterKey | src/main/de/linearbits/suda2/SUDA2StatisticsKeys.java:211-215 | a key of `|set|` items is recorded |
| KeyStatistics.StatisticsKeys.GetNumKeys | src/main/de/linearbits/suda2/SUDA2StatisticsKeys.java:107-109 | the number of keys registered, which is also the sum of the distribution |
| KeyStatistics.StatisticsKeys.GetAverageKeySize | src/main/de/linearbits/suda2/SUDA2StatisticsKeys.java:71-73 | NaN iff no key is registered; otherwise the total size over the count, between 1 and `maxK` |
| KeyStatistics.StatisticsKeys.GetKeySizeDistribution | src/main/de/linearbits/suda2/SUDA2StatisticsKeys.java:79-85 | a fresh array of each slot over the number of keys, whose entries sum to one once a key is registered |
| KeyStatistics.StatisticsKeys.Equals | src/main/de/linearbits/suda2/SUDA2StatisticsKeys.java:55-65 | true iff the other object is this one, or has the same `maxK`, key count, distribution and total size |
| KeyStatistics.SameArray | src/main/de/linearbits/suda2/SUDA2StatisticsKeys.java:61 | `Arrays.equals`: true iff both arrays have the same contents |
| KeyStatistics.EqualsIgnoresOrder | src/main/de/linearbits/suda2/SUDA2StatisticsKeys.java:55-65 | two statistics over the same keys registered in any order satisfy the `equals` test |
| InitialState.Kept | src/main/de/linearbits/suda2/SUDA2.java:212-221 | the 1-based ids of the records that are not skipped |
| InitialState.VisitedAll | src/main/de/linearbits/suda2/SUDA2.java:213-221 | after the last record, an item's rows are exactly the kept records that hold it within the columns |
| InitialState.CollectColumn | src/main/de/linearbits/suda2/SUDA2.java:215-219 | `getOrCreateItem(column, value).addRow(index)` keeps the catalogue equal to the records visited so far |
| InitialState.ItemList | src/main/de/linearbits/suda2/SUDA2IndexedItemSet.java:57-76 | the collected items before the sort, one per key with that key's rows |
| InitialState.ItemListOk | src/main/de/linearbits/suda2/SUDA2.java:207-224 | the collected items are a list of the kept records: each item carries its support, no key repeats, and every key of the table is listed |
| SearchSteps.Partition | src/main/de/linearbits/suda2/SUDA2.java:261-282 | the one-item MSUs are exactly the items of support 1, and the remaining list is exactly the items of support neither 1 nor `numRecords`, each in list order (`OneRowItems`, `Retained`); the remaining list repeats no key if the list does not |
| SearchSteps.Projections | src/main/de/linearbits/suda2/SUDA2.java:234-253 | the items from `fromIndex` on that share a row with the reference item, projected onto its rows |
| SearchSteps.SubListOk | src/main/de/linearbits/suda2/SUDA2.java:451-454 | the recursion's list is a list of the reference item's rows, with keys from the later items only, and covers every later item that shares a row |
| SearchSteps.DirectScan | src/main/de/linearbits/suda2/SUDA2.java:292-306 | the items from `fromIndex` on that share exactly one row with the reference item, each as a one-item set |
| SearchSteps.PivotFrom | src/main/de/linearbits/suda2/SUDA2.java:345-356 | the pivot is the first candidate item of least listed support |
| SearchSteps.IsMsuCandidateSpec | src/main/de/linearbits/suda2/SUDA2.java:325-394 | `isMSU` on a candidate of two or more items is true iff the candidate has a special row among all the universe's rows |
| SearchSteps.IsMsuAsWrittenRejects | src/main/de/linearbits/suda2/SUDA2.java:345-393 | as written, `size` and `buckets` name the fields of the base `SUDA2IntSet`, which are never written; `isMSU` then accepts a candidate iff it has at most one item |
| SearchSteps.MissedMsu | src/main/de/linearbits/suda2/SUDA2.java:325-393 | on a concrete table, a candidate that the intended `isMSU` accepts, whose extension by the reference item is an MSU of three items, is rejected by the as-written `isMSU` |
| SearchSteps.OneRowItemsDistinct | src/main/de/linearbits/suda2/SUDA2.java:261-282 | the one-item MSUs split off from a list without repeated keys have pairwise distinct key sets |
| Search.PartitionOk | src/main/de/linearbits/suda2/SUDA2.java:408-410 | after the partition, the one-item MSUs are correct and every MSU of two or more items of the list is still reachable from the remaining list |
| Search.IsMsuCandidateExact | src/main/de/linearbits/suda2/SUDA2.java:460-465 | `isMSU` accepts a candidate of the reference item's rows iff the candidate extended by the reference item is an MSU of the universe |
| Search.SingleCandidate | src/main/de/linearbits/suda2/SUDA2.java:334-336 | a one-item candidate, accepted outright, does have a special row |
| Search.DirectScanOk | src/main/de/linearbits/suda2/SUDA2.java:455-457 | the direct scan returns exactly the one-item MSUs of the reference item's rows among the later items |
| Search.DirectScanDistinct | src/main/de/linearbits/suda2/SUDA2.java:292-306 | the direct scan over a list without repeated keys never returns the same key set twice |
| Search.AcceptedDistinct | src/main/de/linearbits/suda2/SUDA2.java:460-474 | the candidates `isMSU` accepts are among the candidates and keep their key sets pairwise distinct |
| Search.StepDistinct | src/main/de/linearbits/suda2/SUDA2.java:431-474 | every key set found for the reference item at position i holds its key and no earlier item's, so the key sets found so far stay pairwise distinct |
| Search.RegKeySetsCard | src/main/de/linearbits/suda2/SUDA2.java:83-103 | registrations whose key sets are pairwise distinct report as many distinct key sets as there are calls |
| Search.Advance | src/main/de/linearbits/suda2/SUDA2.java:444-474 | the three pruning limits never cut off an MSU whose first listed item is the reference item |
| Search.TopLevel | src/main/de/linearbits/suda2/SUDA2.java:83-103 | the keys registered are MSUs of the kept records within the columns and the length limit, and if not interrupted every such MSU is registered; no key set is registered twice, so there are as many calls as MSUs reported |
| Search.Suda2.constructor | src/main/de/linearbits/suda2/SUDA2.java:69-75 | the column count is that of the first record, 0 for an empty table; no result and no stop yet |
| Search.Suda2.MaxK | src/main/de/linearbits/suda2/SUDA2.java:86 | a positive `maxKeyLength` is kept; otherwise the number of columns |
| Search.Suda2.GetKeys | src/main/de/linearbits/suda2/SUDA2.java:83-103 | nothing happens for an empty table; otherwise `init` once, then registrations of exactly the MSUs within the limit, unless stopped, with pairwise distinct key sets, one call per MSU |
| Search.Suda2.GetKeyStatistics | src/main/de/linearbits/suda2/SUDA2.java:150-175 | a fresh result object with the same promise as `getKeys`, installed even for an empty table; its registrations have pairwise distinct key sets, one per MSU |
| Search.Suda2.GetInitialState | src/main/de/linearbits/suda2/SUDA2.java:207-224 | one item per (column, value) of the kept records, carrying its rows, sorted by ascending support; both counts are 0 |
| Search.Suda2.AddRow | src/main/de/linearbits/suda2/SUDA2.java:215-219 | one kept record's items all gain its id |
| Search.Suda2.Stop | src/main/de/linearbits/suda2/SUDA2.java:189-191 | sets the stop flag |
| Search.Suda2.RegisterSingles | src/main/de/linearbits/suda2/SUDA2.java:413-419 | one `registerKey` per one-item MSU, in order |
| Search.Suda2.ProcessCandidates | src/main/de/linearbits/suda2/SUDA2.java:460-474 | the candidates `isMSU` accepts are registered at the top level, or extended by the reference item and returned below it |
| Search.Suda2.Candidates | src/main/de/linearbits/suda2/SUDA2.java:445-457 | recursion or direct scan, returning candidates of the reference item's rows, with pairwise distinct key sets, that include every MSU within the upper limit |
| Search.Suda2.Search | src/main/de/linearbits/suda2/SUDA2.java:403-479 | everything registered or returned is an MSU of the universe within `maxK`, and, if not interrupted, every such MSU is; no key set is registered or returned twice |
| Search.Suda2.Split | src/main/de/linearbits/suda2/SUDA2.java:408-419 | the partition and the top-level registration of one-item MSUs |
| Search.Suda2.ScanLevel | src/main/de/linearbits/suda2/SUDA2.java:431-475 | the loop over the reference items finds every MSU of two or more items of the level |
| Exhaustive.PowerSetExact | src/test/de/linearbits/suda2/ExhaustiveSearch.java:39-56 | the power set holds exactly the subsets of the listed elements |
| Exhaustive.RowPowerSet | src/test/de/linearbits/suda2/ExhaustiveSearch.java:83-89 | the sets of items the power set yields for a record are exactly those it holds within the columns |
| Exhaustive.RowItems | src/test/de/linearbits/suda2/ExhaustiveSearch.java:83-89 | the items of a record, column by column |
| Exhaustive.FilterUnique | src/test/de/linearbits/suda2/ExhaustiveSearch.java:107-116 | keeps exactly the sets of items held by one record |
| Exhaustive.DropAbove | src/test/de/linearbits/suda2/ExhaustiveSearch.java:126-137 | drops exactly the kept sets that strictly contain the pivot |
| Exhaustive.Pass | src/test/de/linearbits/suda2/ExhaustiveSearch.java:121-139 | one pass leaves no kept set strictly containing a set of the previous pass |
| Exhaustive.RemoveSupersets | src/test/de/linearbits/suda2/ExhaustiveSearch.java:119-142 | the fixed point keeps exactly the minimal unique sets |
| Exhaustive.MinimalUniqueIsMsu | src/test/de/linearbits/suda2/ExhaustiveSearch.java:78-149 | the minimal unique sets within the columns are the MSUs of the table there |
| Exhaustive.GetMsuStatistics | src/test/de/linearbits/suda2/ExhaustiveSearch.java:78-149 | the result is exactly the MSUs of the table within the first record's columns |
| Agreement.MsuSize | src/main/de/linearbits/suda2/SUDA2.java:86 | an MSU within the columns has at most as many items as there are columns, so the default `maxK` cuts nothing |
| Agreement.EngineMatchesOracle | src/test/de/linearbits/test/Test2.java:43-47 | with every record kept and the default limit, the keys the engine promises are those the oracle promises, with the shadowed fields read as intended |
| Agreement.CompareWithOracle | src/test/de/linearbits/test/Test2.java:43-47 | `getKeyStatistics(0)` registers exactly the key sets that the exhaustive search returns, with one `registerKey` call per key set, with the shadowed fields read as intended |

## Left out

- **Interrupts.** `stop` does not change while a search runs. The model takes the flag as fixed from the start of `suda2` and reports it as `interrupted` instead of throwing `SUDA2Exception`. A `stop()` from another thread during a run is concurrency and is not modelled.
- **Progress and timing.** The progress listener and `setProgressListener`, `Timeable` and the timing calls are I/O with no effect on results.
- **`check(null)`.** It is excluded by Dafny's types.
- **Overloads.** The `getKeys`/`getKeyStatistics` overloads that only forward arguments are not modelled.
- **Result classes.** `SUDA2Statistics` and `SUDA2Result` are not part of this model. `Results.ResultLog` stands for the result object and records the `init` and `registerKey` calls.
- **Debug members.** `SUDA2Item.equals`, `hashCode` and `toString` exist for debugging only.
- **Skipped records.**
  - `InitialState.Kept`, `Search.Suda2.GetInitialState`: `groupify.canBeIgnored(row)` has no definition in `SUDA2Groupify.java`. The model takes a per-record `ignore` flag as a parameter.
  - `Search.Suda2.GetInitialState`: `getInitialState` never calls `groupify.add`, so the unique and duplicate counts it passes on are those of an empty `SUDA2Groupify`, 0 and 0. The model states them as fixed at 0/0.
- **Field shadowing.** `isMSU` reads `_rows.size` and `rows.buckets` (SUDA2.java:352, 378), and `suda2` reads `getRows().size` (SUDA2.java:454). The static type there is `SUDA2IntSet`, so these name the public fields of the base class (SUDA2IntSet.java:59-62). Every subclass declares its own `size`, and the hash and `Small2` sets also declare their own `buckets`, so the base fields are never written. As written, `size` is always 0 and `buckets` is eight zeros. Then the pivot is always the first item, `isMSU` rejects every candidate of two or more items, and no MSU of three or more items is reported (see Findings). The `SUDA2IntSet.java` in this snapshot also lacks the `size()`, `intersectWith`, `isSupportRowPresent`, `containsSpecialRow`, `last`, `min` and `max` methods that its subclasses mark `@Override`, so the code does not compile as given. The engine model reads the fields as intended: the support, the set's own rows, and `|ref.rows|`. This affects these members:
  - `SearchSteps.PivotFrom`, `SearchSteps.IsMsuCandidateSpec`, `Search.IsMsuCandidateExact`;
  - `Search.Suda2.Candidates`, `Search.Suda2.ProcessCandidates`, `Search.Suda2.Search`, `Search.Suda2.ScanLevel`;
  - `Search.TopLevel`, `Search.Suda2.GetKeys`, `Search.Suda2.GetKeyStatistics`;
  - `Agreement.EngineMatchesOracle`, `Agreement.CompareWithOracle`.
- **Tie order before the stable sort.**
  - `Search.Suda2.GetInitialState`, `InitialState.ItemList`: items of equal support are ordered by the record and column where they first appear. The Java orders them by `SUDA2ItemIndex` slot order, which depends on a seed taken from `System.nanoTime()`.
  - `SearchSteps.Projections`: the recursion's sub-list is ordered the same way.
  - The proofs do not depend on this order.
- **Other sort details.** `SearchSteps.IsMsuCandidateSpec`: the comparator of `isMSU` reads `o1`'s support twice (SUDA2.java:370-371). It therefore ranks every pair equal, and the stable sort leaves the items in order; the model keeps that order. `isMSU` returns true on the first special row; the model does the same, whatever a prose description says about searching further.
- **Hash-set bounds.** `RowSets.RowSet.Bounds`: `SUDA2IntSetHash` has no `min()`/`max()`. The model gives it the least and greatest `int`, so the range checks of the other sets never skip it.
- **Excluded Java exceptions.** These `requires` clauses exclude inputs on which the Java throws:
  - `InitialState.Readable`: kept records shorter than the first one. The Java throws `ArrayIndexOutOfBoundsException`.
  - `Exhaustive.GetMsuStatistics`: requires a non-empty table whose records are at least as long as the first. The Java reads `data[0]` and indexes every record by its columns.
  - `RowSets.IntSetBits.constructor`, `RowSets.IntSetBits.Add`: require row ids below `Integer.MAX_VALUE`, so that `max + 1` does not wrap.
  - `Listeners.KeyListener.RegisterKeyWith`, `Listeners.MsuListener.RegisterKeyWith`: require a non-empty item.
  - `Listeners.KeyListener.RegisterKey`, `Listeners.MsuListener.RegisterKey`: require a non-empty first item.
  - `Listeners.MsuListener.RegisterKeyWith`, `Listeners.MsuListener.RegisterKey`: require a key that fits the column buffer.
  - `Listeners.MsuListener.Init`: requires a non-negative column count.
  - `KeyStatistics.StatisticsKeys.constructor`: requires `maxK >= 0`, where Java throws `NegativeArraySizeException`.
- **Precondition on `IntSets.IntSet.Add`.** It requires a new, non-zero value, as the comment at SUDA2IntSet.java:81 demands. Adding a present value would make `size` over-count.
- **Shorter contract on `ItemRegistries.ItemRegistry.Register`.** Its `ensures` does not repeat that a new item has no rows. `ItemRegistries.Registered` and `ItemRegistries.Create` state that.
- **Record-class counter.**
  - `RowClasses.Groupify.Add`: requires records of one width and fewer than `0x3000_0000` classes, so the element count stays below the largest capacity's threshold.
  - `RowClasses.CalculateCapacity`: the bit-smearing of `x - 1` is modelled by its result, the least power of two.
  - Each chain of `Entry.next` links is modelled as the sequence of entries of a bucket.
- **Java integer widths.** Counters (`size`, `elements`, `numKeys`, `totalKeySize`) and row ids are unbounded. 32- or 64-bit overflow of a counter is not modelled. The hash functions do wrap as Java does.
- **Doubles.**
  - `KeyStatistics.StatisticsKeys`: the Java keeps `sizeDistribution` as `double[]`. The model keeps exact integer counts, and quotients are exact reals instead of rounded doubles.
  - `toString`, `hashCode`, `getNumColumns` and `getMaxKeyLengthConsidered` are not modelled.
- **Seeds.** The seeds the hash tables draw from `System.nanoTime()` are constructor parameters. `& mask` on a power-of-two table is modelled as `%`, proved equal by `Probing.LowBitsMod`.
- **Listener callbacks.** `keyFound` is the user's code. Each listener records the arguments of its calls instead.
- **`SUDA2IntSetJump` overflow.** The as-written shrink in `RowSets.IntSetBits.IntersectWithAsWritten` is modelled only when this set has at most 8 rows. Past that, the Java would call `SUDA2IntSetJump.add` more than eight times. The extra values would be dropped while `size` keeps growing. See Findings.

## Findings

| source | as written | input that shows it | evidently intended | confidence | as-written member | corrected member |
|---|---|---|---|---|---|---|
| src/main/de/linearbits/suda2/SUDA2IntSetBits.java:159-168 | when the ANDed bitmap has at most 8 rows, the shrink into a `SUDA2IntSetJump` walks `this.array` (this set's words) instead of `result.array` (the ANDed words). It returns this set's rows, not the common rows. The as-written member covers this set having at most 8 rows. With more than 8 rows (and at most 8 common ones), `SUDA2IntSetJump.add` would be called more than eight times. It drops the extra values while `size` keeps counting, which is not modelled. | `{1, 2}` (a bitmap) intersected with `{2}` (a bitmap) yields `{1, 2}` | the shrink walks `result.array`, yielding exactly the common rows `{2}` | high (not executed) | RowSets.IntSetBits.IntersectWithAsWritten, RowSets.ShrinkCounterexample | RowSets.IntSetBits.IntersectWith |
| src/main/de/linearbits/suda2/SUDA2.java:345-393 | `_rows.size`, `rows.size` and `rows.buckets` have static type `SUDA2IntSet`, so they read the base class's fields, which no row set writes (SUDA2IntSet.java:59-71). The pivot is always the first item, the scan walks eight empty slots, and `isMSU` is false for every candidate of two or more items. No MSU of three or more items is ever reported. | records [1,1,1], [1,1,2], [1,2,1], [2,1,1]: {(0,1), (1,1), (2,1)} is an MSU (record 1), but its candidate [(1,1), (2,1)] for the reference item (0,1) is rejected | the fields of the actual row set are read: the pivot has the least support, and the scan walks its rows, accepting on a special row | high (not executed) | SearchSteps.IsMsuAsWritten, SearchSteps.IsMsuAsWrittenRejects, SearchSteps.MissedMsu | SearchSteps.IsMsuCandidate, SearchSteps.IsMsuCandidateSpec, Search.IsMsuCandidateExact |
| src/main/de/linearbits/suda2/SUDA2Groupify.java:276-282 | `rehash` sets `entry.next = newData[index]` and then steps `entry = entry.next`. It follows the new bucket's chain instead of the rest of the old one, so entries later in the old chain are never moved. | `new SUDA2Groupify(1)`, then `add` of [1], [5], [2], [3]: the fourth record rehashes, and the class of [1] is in no bucket afterwards | each entry's old `next` is saved before relinking, so every class reaches the new table | high (not executed) | RowClasses.RehashAsWritten, RowClasses.RehashLosesRows | RowClasses.Groupify.Rehash |
