/**
 * The listing item of REDasm: one renderable fact, identified by its address
 * and its item type, and the comparator that orders the listing.
 */
module ListingItems {

  const TwoTo32: int := 0x1_0000_0000
  const TwoTo64: int := 0x1_0000_0000_0000_0000

  /** The source's `u32`. */
  type u32 = x: int | 0 <= x < TwoTo32
  /** The source's `address_t`, taken as an unsigned 64-bit integer. */
  type u64 = x: int | 0 <= x < TwoTo64

  // The item types, with the ordinals the enum gives them.
  const Undefined: u32 := 0
  const SegmentItem: u32 := 1
  const FunctionItem: u32 := 2
  const PrologueItem: u32 := 3
  const SymbolItem: u32 := 4
  const InstructionItem: u32 := 5
  /** `static_cast<u32>(-1)`: not one of the item ordinals 0 to 5. */
  const AllItems: u32 := TwoTo32 - 1

  /** The item's `type` member is called `kind` here (`type` is a Dafny keyword). */
  datatype ListingItem = ListingItem(address: u64, kind: u32)
  {
    /** `is(t)`: whether the item has type `t`. */
    predicate Is(t: u32) {
      kind == t
    }
  }

  /** The default constructor's item. */
  const DefaultItem: ListingItem := ListingItem(0, Undefined)

  /** `ListingComparator`: equal addresses compare by type, others by address. */
  predicate Less(a: ListingItem, b: ListingItem)
    ensures Less(a, b) ==> a != b && a.address <= b.address
  {
    if a.address == b.address then a.kind < b.kind else a.address < b.address
  }

  /** An independent reading of the order: the item as one 96-bit number. */
  function Key(x: ListingItem): (k: nat)
    ensures k < TwoTo64 * TwoTo32
  {
    x.address * TwoTo32 + x.kind
  }

  /** The comparator orders items exactly as their keys. */
  lemma LessIsKeyOrder(a: ListingItem, b: ListingItem)
    ensures Less(a, b) <==> Key(a) < Key(b)
  {
    if a.address < b.address {
      assert Key(a) < (a.address + 1) * TwoTo32 <= Key(b);
    } else if b.address < a.address {
      assert Key(b) < (b.address + 1) * TwoTo32 <= Key(a);
    }
  }

  /** The comparator is a strict total order on items. */
  lemma LessIsStrictTotalOrder(a: ListingItem, b: ListingItem, c: ListingItem)
    ensures !Less(a, a)
    ensures Less(a, b) ==> !Less(b, a)
    ensures Less(a, b) && Less(b, c) ==> Less(a, c)
    ensures a == b || Less(a, b) || Less(b, a)
  {
  }

  /** `is` holds of exactly one type, and the default item is the least item. */
  lemma DefaultItemIsLeast(x: ListingItem, t: u32)
    ensures DefaultItem.Is(t) <==> t == Undefined
    ensures x.Is(t) <==> x.kind == t
    ensures x == DefaultItem || Less(DefaultItem, x)
    ensures !Less(x, DefaultItem)
  {
  }

  /** At one address the types stack as Segment, Function, Prologue, Symbol, Instruction. */
  lemma KindsStackAtOneAddress(a: u64)
    ensures Less(ListingItem(a, Undefined), ListingItem(a, SegmentItem))
    ensures Less(ListingItem(a, SegmentItem), ListingItem(a, FunctionItem))
    ensures Less(ListingItem(a, FunctionItem), ListingItem(a, PrologueItem))
    ensures Less(ListingItem(a, PrologueItem), ListingItem(a, SymbolItem))
    ensures Less(ListingItem(a, SymbolItem), ListingItem(a, InstructionItem))
  {
  }
}
