# REDasm listing index, modelled in Dafny

REDasm's `ListingDocument` keeps every fact found in a loaded binary as a
listing item: an address and an item type (segment, function, prologue,
symbol, instruction). The items sit in a vector sorted by
`ListingComparator`: by address, and by type ordinal at equal addresses.
Three template algorithms of the `Listing` namespace work on that vector:

- `insertionPoint` is `std::lower_bound` under the comparator.
- `binarySearch` bisects on the address. At the first item it meets at
  that address it hands off to `_adjustSearch`.
- `_adjustSearch` walks the run of items at that address towards the
  requested type.
- `indexOf` turns the search result into a row number, or -1.

The model has five modules:

- `ListingItems` (`listing_items.dfy`): the item, its type ordinals, `is`,
  the default item and the comparator. The item's `type` member is called
  `kind`, since `type` is a Dafny keyword. `address_t` is taken to be an
  unsigned 64-bit integer and the type a `u32`.
- `ListingAsWritten` (`listing_as_written.dfy`): `_adjustSearch` and
  `binarySearch` exactly as written, as functions. Each step whose C++
  behaviour is undefined ends the run with an outcome that names it:
  `ReadsOutside` for a dereference outside the container,
  `StepsBeforeBegin` for moving an iterator before `begin()`.
  `int offset = type - (*it)->type` is modelled exactly: the `u32`
  difference wraps modulo 2^32 and is read back as a signed 32-bit int.
- `Listing` (`listing.dfy`): `insertionPoint` as the halving loop of
  `std::lower_bound`, written as a recursive function. `_adjustSearch` and
  `binarySearch` are methods with the code's loops, plus the bound tests
  that keep every read inside the container. Dafny checks every sequence
  index, so every index these methods read lies in `[0, size)`. Each method
  is proved sound: what it returns holds the requested address and type.
  Each is also proved complete on a sorted container, when the requested
  type and every stored type are below 2^31 (`SignSafe`). Wherever the
  code as written is defined, each method also returns exactly what the
  code returns. Under the same two conditions, `indexOf` is proved equal
  to `Find`, a separate reference definition of an item's row.
- `Document` (`listing_document.dfy`): the item vector of `ListingDocument`
  as a class with one `seq` field, `items`. Its invariant is that the items
  are sorted without duplicates. It offers `pushSorted`, `removeSorted` and
  `itemAt`. `ListingDocumentChanged` is a plain record, which the two
  mutators return instead of publishing it. Client methods check
  examples. First, symbol, segment, prologue and function markers are
  pushed at one address in that order, and the comparator places each one.
  Second, an item is pushed again and one is removed. A third shows a
  present `AllItems` item that removal misses.
- `Wrappers` (`wrappers.dfy`): `Option`.

The completeness of the searches is stated for kinds below 2^31 (`SignSafe`).
This follows the code's arithmetic. The offset's sign is reversed when the
requested kind exceeds the current one by 2^31 or more, or is more than
2^31 below it (`ListingAsWritten.OffsetSignReversed`), as `AllItems` does
against every ordinal 0 to 5. The scan then runs away from the item.
`ListingAsWritten.AllItemsKindIsMissed` shows this when `AllItems` is
requested. `ListingAsWritten.StoredAllItemsHidesSegment` shows it when a
stored `AllItems` hides a segment item. `AllItems` itself is 2^32 - 1
(`static_cast<u32>(-1)`), so this is a real limit of the code. The
condition holds in every call where each type an item is stored or
searched with is one of the ordinals 0 to 5.

## Model

| member | source | states |
|---|---|---|
| `ListingItems.Less` | redasm/disassembler/listing/listingdocument.h:36-43 | `ListingComparator`: an item compares below another only if the two differ and its address is not the higher one. |
| `ListingItems.LessIsKeyOrder` | redasm/disassembler/listing/listingdocument.h:36-43 | The comparator orders items exactly as the number address·2^32 + type: lexicographically, address first, then type. |
| `ListingItems.LessIsStrictTotalOrder` | redasm/disassembler/listing/listingdocument.h:36-43 | The comparator is irreflexive, asymmetric and transitive, and any two distinct items are comparable. |
| `ListingItems.DefaultItemIsLeast` | redasm/disassembler/listing/listingdocument.h:25-27 | `is(t)` holds iff the type is `t`. The default item `(0, Undefined)` is of type `Undefined` only, and it is the least item of all. |
| `ListingItems.KindsStackAtOneAddress` | redasm/disassembler/listing/listingdocument.h:19-21 | At one address the fixed ordinals order Undefined < Segment < Function < Prologue < Symbol < Instruction. |
| `ListingAsWritten.Offset` | redasm/disassembler/listing/listingdocument.h:54 | The wrapped offset lies in the 32-bit signed range. It is zero iff the two types are equal, and it is the plain difference when both types are below 2^31. |
| `ListingAsWritten.OffsetSignReversed` | redasm/disassembler/listing/listingdocument.h:54 | For two different kinds, the offset's sign disagrees with the direction from the current kind to the requested one exactly when the requested kind exceeds the current one by 2^31 or more, or is more than 2^31 below it. |
| `ListingAsWritten.OffsetWrapsForAllItems` | redasm/disassembler/listing/listingdocument.h:22 | With `AllItems` (2^32 - 1) the offset from a segment item is -2, so its sign is reversed. |
| `ListingAsWritten.AdjustFrom` | redasm/disassembler/listing/listingdocument.h:57-69 | The scan loop of `_adjustSearch` as written, from one iterator: when it returns an iterator, that iterator lies inside the container and holds the address and the requested type. |
| `ListingAsWritten.AdjustAsWritten` | redasm/disassembler/listing/listingdocument.h:53-72 | When the code as written returns an iterator, it lies inside the container and holds the starting address and the requested type. |
| `ListingAsWritten.BisectFrom` | redasm/disassembler/listing/listingdocument.h:80-99 | The bisection loop of `binarySearch` as written, from the bounds `thebegin` and `theend`: when it stops at a middle, that middle lies inside the container and holds the address. |
| `ListingAsWritten.BisectAsWritten` | redasm/disassembler/listing/listingdocument.h:75-99 | The bisection as written over the whole container, with `theend` starting at `end()`: when it stops at a middle, that middle lies inside the container and holds the address. |
| `ListingAsWritten.SearchAsWritten` | redasm/disassembler/listing/listingdocument.h:74-102 | When the code as written returns an iterator, it lies inside the container and holds the requested address and type. |
| `ListingAsWritten.AdjustReadsEnd` | redasm/disassembler/listing/listingdocument.h:57-59 | A forward scan off the last item dereferences `end()` in the loop condition, both from `_adjustSearch` and from `binarySearch`. |
| `ListingAsWritten.SearchReadsEnd` | redasm/disassembler/listing/listingdocument.h:80-86 | A search for an address above every item dereferences `end()` as the middle. |
| `ListingAsWritten.SearchStepsBeforeBegin` | redasm/disassembler/listing/listingdocument.h:89-92 | A search for an address below every item steps `theend` before `begin()`. |
| `ListingAsWritten.AllItemsKindIsMissed` | redasm/disassembler/listing/listingdocument.h:53-68 | On `[(0, Segment), (0, Function), (0, AllItems)]`, the code misses the present `(0, AllItems)`: the wrapped offset sends the scan backward. |
| `ListingAsWritten.StoredAllItemsHidesSegment` | redasm/disassembler/listing/listingdocument.h:53-68 | On `[(0, Segment), (0, AllItems)]`, a search for `(0, Segment)` lands on `AllItems`. The wrapped offset sends the scan forward off the end, which reads `end()`. |
| `Listing.LowerBound` | redasm/disassembler/listing/listingdocument.h:50 | The halving loop of `std::lower_bound`: on a partitioned range it returns the split point. Items before it are less than `val`; items from it on are not. |
| `Listing.InsertionPoint` | redasm/disassembler/listing/listingdocument.h:49-51 | The result is at most the size. On a partitioned container it is the first index whose item is not less than `val`. |
| `Listing.LowerBoundIsUnique` | redasm/disassembler/listing/listingdocument.h:49-51 | There is exactly one such first index, so the insertion point is fully determined. |
| `Listing.SortedIsPartitioned` | redasm/disassembler/listing/listingdocument.h:49-51 | A sorted container meets `lower_bound`'s precondition for every value. |
| `Listing.InsertionPointLocates` | redasm/disassembler/listing/listingdocument.h:49-51 | On a sorted container, `val` is present iff it sits exactly at the insertion point. |
| `Listing.InsertionPointBetween` | redasm/disassembler/listing/listingdocument.h:49-51 | An item above every item before row `p` and below every item from row `p` on has insertion point `p`. |
| `Listing.InsertionPointAfterLast` | redasm/disassembler/listing/listingdocument.h:49-51 | An item greater than every item of a sorted container has insertion point `size()`. |
| `Listing.InsertionKeepsSorted` | redasm/disassembler/listing/listingdocument.h:49-51 | Inserting an absent item at the insertion point keeps the container sorted and free of duplicates. |
| `Listing.RunIsContiguous` | redasm/disassembler/listing/listingdocument.h:57 | In a sorted container the items that share an address form one contiguous run. |
| `Listing.AdjustSearch` | redasm/disassembler/listing/listingdocument.h:53-72 | The result is an index holding the starting address and the requested type, or `size()`. It agrees with the code wherever the code is defined. On a sorted container whose stored types are all below 2^31, with a requested type below 2^31 (`SignSafe`), the item is found iff it is present. |
| `Listing.BinarySearch` | redasm/disassembler/listing/listingdocument.h:74-102 | The result is an index holding the requested address and type, or `size()` (so `end()` on an empty container). It agrees with the code wherever the code is defined. On a sorted container whose stored types are all below 2^31, with a requested type below 2^31 (`SignSafe`), the item is found iff it is present. |
| `Listing.BinarySearchItem` | redasm/disassembler/listing/listingdocument.h:104-106 | The same guarantees, for an item's address and type, including the `SignSafe` condition for completeness. |
| `Listing.IndexOf` | redasm/disassembler/listing/listingdocument.h:108-115 | The result is -1 or a row in `[0, size)` holding the item. It agrees with the code wherever the code is defined. On a sorted container whose stored types are all below 2^31, with a requested type below 2^31 (`SignSafe`), it equals the reference row `Find`, so it is -1 iff the item is absent. |
| `Listing.Find` | redasm/disassembler/listing/listingdocument.h:108-115 | The reference row: -1 iff the item is absent, otherwise the first index holding it. |
| `Listing.FindInSorted` | redasm/disassembler/listing/listingdocument.h:108-115 | In a sorted container the row of the item at index `i` is `i`, since there are no duplicates. |
| `Listing.FindAfterInsert` | redasm/disassembler/listing/listingdocument.h:181 | After an absent item is inserted at its insertion point, its row is that insertion point. |
| `Listing.EraseKeepsSorted` | redasm/disassembler/listing/listingdocument.h:182 | Erasing an item keeps the container sorted. The erased item is gone, and every other item remains. |
| `Document.ListingDocument.constructor` | redasm/disassembler/listing/listingdocument.h:147 | A new document has no items and is sorted. |
| `Document.ListingDocument.ItemAt` | redasm/disassembler/listing/listingdocument.h:175 | Returns an item iff the row is in range. That item is the one at the row, and its row is the row asked for. |
| `Document.ListingDocument.PushSorted` | redasm/disassembler/listing/listingdocument.h:181 | The item is present afterwards and the document stays sorted. A present item changes nothing and reports no change. An absent item is inserted at its insertion point and nothing else changes; the change reported is `(item, that row, removed = false)`, and the row is the item's position. |
| `Document.ListingDocument.RemoveSorted` | redasm/disassembler/listing/listingdocument.h:182 | The document stays sorted. An absent item changes nothing. When a change is reported, the item is erased from the row it had, and the change reported is `(item, that row, removed = true)`. An item that is present is always removed when its kind and every stored kind are below 2^31 (`SignSafe`). When the code as written misses the item, nothing is removed. |
| `Document.RemoveMissesAllItems` | redasm/disassembler/listing/listingdocument.h:182 | On `[(0, Segment), (0, Function), (0, AllItems)]`, removing the present `(0, AllItems)` changes nothing and reports no change. |
| `Document.PushBetween` | redasm/disassembler/listing/listingdocument.h:181 | Pushing an item that the comparator places between rows `p - 1` and `p` inserts it at row `p`, and the document stays sorted. |
| `Document.StackingAtOneAddress` | redasm/disassembler/listing/listingdocument.h:181 | Pushing symbol, segment, prologue and function markers at one address, in that order, gives the rows segment, function, prologue, symbol. |

## Findings

| source | as written | input that shows it | evidently intended | confidence | as-written member | corrected member |
|---|---|---|---|---|---|---|
| redasm/disassembler/listing/listingdocument.h:57-59 | The loop condition dereferences `it` before the body compares it with `end()`. A forward scan off the last item reads `*end()`. | Container `[(0x10, SegmentItem)]`; `binarySearch(0x10, InstructionItem)`. | Test the bound before the read, and report not found when the run ends at the container's end. | not executed; undefined behaviour in the C++ | `ListingAsWritten.AdjustReadsEnd` | `Listing.AdjustSearch` |
| redasm/disassembler/listing/listingdocument.h:78-86 | `theend` starts at `end()` but is moved as an inclusive bound. Once `thebegin` reaches `end()`, the middle is `end()` and is dereferenced. | Container `[(0x10, SegmentItem)]`; `binarySearch(0x20, SegmentItem)`. | Stop bisecting when `thebegin` reaches `end()`, and report not found. | not executed; undefined behaviour in the C++ | `ListingAsWritten.SearchReadsEnd` | `Listing.BinarySearch` |
| redasm/disassembler/listing/listingdocument.h:89-92 | When the middle is `begin()` and its address is too high, `theend` is stepped before `begin()`. | Container `[(0x10, SegmentItem)]`; `binarySearch(0x0, SegmentItem)`. | An empty range below `begin()` means not found; no iterator is moved before `begin()`. | not executed; undefined for vector iterators, commonly harmless | `ListingAsWritten.SearchStepsBeforeBegin` | `Listing.BinarySearch` |

The corrected searches keep the code's midpoints and scan order. They add
only the test `thebegin < end()` to the bisection loop and the test
`0 <= it < size()` before each read of the scan. Their contracts prove them
sound, complete under `SignSafe`, and equal to the code on every input
where the code is defined.

## Left out

- The mutex (`m_mutex`, `document_lock`): concurrency is not modelled.
- The `changed` and `segmentadded` events, the callback list and `notify`:
  `PushSorted` and `RemoveSorted` return the `ListingDocumentChanged` value
  they would publish instead.
- `SegmentList`, `SymbolTable`, `InstructionPool`, `FormatPlugin` and
  `symbolName`: their definitions are not part of this model.
- `symbol`, `lock`, `segment`, `function`, `entry`, `instruction`, `update`,
  `instructionItem`, `item`, `segmentsCount`, `segmentAt`, `segmentByName`,
  `symbols` and `format`: the header declares them only, and their bodies
  (`listingdocument.cpp`) are not part of this model.
- `Document.ListingDocument.PushSorted`: the body of `pushSorted` is not part
  of this model. The model looks for an equal key at the insertion point and
  inserts only when there is none.
- `Document.ListingDocument.RemoveSorted`: the body of `removeSorted` is not
  part of this model. The model erases the item that `binarySearch` finds.
- `Document.ListingDocument.ItemAt`: the body of `itemAt` is not part of this
  model. The model returns no item for a row past the last one, and does not
  model a C++ exception or an out-of-range read there.
- `Listing.IndexOf`: the narrowing of `std::distance` to `int` for
  containers of more than 2^31 - 1 items is not modelled. The row is an
  unbounded integer.
- `Document.ListingDocument.PushSorted`: the `int index` of the change
  record narrows the same `std::distance`; the model's row is unbounded.
- `Document.ListingDocument.RemoveSorted`: the `int index` of the change
  record narrows the same `std::distance`; the model's row is unbounded.
- `Listing.AdjustSearch`: completeness is proved only when the requested
  type and every stored type are below 2^31 (`SignSafe`). When the requested
  type exceeds the current one by 2^31 or more, or is more than 2^31 below
  it, the offset of `int offset = type - (*it)->type` wraps and its sign
  flips, and the code misses a present item (`ListingAsWritten.AllItemsKindIsMissed`).
- `Listing.BinarySearch`: completeness holds only under `SignSafe`, for the
  same reason; it hands the scan to `Listing.AdjustSearch`.
- `Listing.BinarySearchItem`: completeness holds only under `SignSafe`, for
  the same reason.
- `Listing.IndexOf`: equality with `Find` holds only under `SignSafe`, for
  the same reason; without it the result can be -1 for a present item.
- `Document.ListingDocument.RemoveSorted`: removal of a present item is
  proved only under `SignSafe`, which bounds the item's kind and every
  stored kind. Otherwise the search can miss the item and nothing is
  removed (`ListingAsWritten.AllItemsKindIsMissed`,
  `ListingAsWritten.StoredAllItemsHidesSegment`,
  `Document.RemoveMissesAllItems`).
- Pointer identity: the vector holds `std::unique_ptr<ListingItem>`, and the
  change record holds a raw pointer. The model holds item values, so
  aliasing between the vector and the change record is not captured.
