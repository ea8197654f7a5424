/**
 * The item vector of `ListingDocument`: the sorted listing that the
 * document grows and shrinks in place, the row lookup `itemAt`, and the
 * change record it publishes for every insertion and removal.
 */
module Document {
  import opened Wrappers
  import opened ListingItems
  import opened Listing
  import opened ListingAsWritten

  /** `ListingDocumentChanged`: which item changed, at which row, and whether it was removed. */
  datatype ListingDocumentChanged = ListingDocumentChanged(item: ListingItem, index: int, removed: bool)

  class ListingDocument {
    /** The vector of items the document derives from. */
    var items: seq<ListingItem>

    /** The document's invariant: its items are sorted by the comparator, without duplicates. */
    ghost predicate Valid()
      reads this
    {
      Sorted(items)
    }

    constructor ()
      ensures Valid() && items == []
    {
      items := [];
    }

    /** `itemAt(i)`: the item at row `i`, and nothing past the last row. */
    function ItemAt(i: nat): (r: Option<ListingItem>)
      requires Valid()
      reads this
      ensures r.Some? <==> i < |items|
      ensures r.Some? ==> r.value == items[i] && Find(items, r.value) == i
    {
      if i < |items| then
        FindInSorted(items, i);
        Some(items[i])
      else
        None
    }

    /**
     * `pushSorted(address, type)`: insert the item at its insertion point,
     * unless an equal item is already there, and report the row it takes.
     */
    method PushSorted(address: u64, kind: u32) returns (change: Option<ListingDocumentChanged>)
      requires Valid()
      modifies this
      ensures Valid()
      ensures ListingItem(address, kind) in items
      ensures ListingItem(address, kind) in old(items) ==> items == old(items) && change == None
      ensures ListingItem(address, kind) !in old(items) ==>
        var p := InsertionPoint(old(items), ListingItem(address, kind));
        && items == Insert(old(items), p, ListingItem(address, kind))
        && change == Some(ListingDocumentChanged(ListingItem(address, kind), p, false))
        && Find(items, ListingItem(address, kind)) == p
    {
      var x := ListingItem(address, kind);
      var p := InsertionPoint(items, x);
      InsertionPointLocates(items, x);
      if p < |items| && items[p] == x {
        return None;
      }
      InsertionKeepsSorted(items, x);
      FindAfterInsert(items, x);
      items := Insert(items, p, x);
      change := Some(ListingDocumentChanged(x, p, false));
    }

    /**
     * `removeSorted(address, type)`: find the item by `binarySearch` and
     * erase it, reporting the row it had.
     */
    method RemoveSorted(address: u64, kind: u32) returns (change: Option<ListingDocumentChanged>)
      requires Valid()
      modifies this
      ensures Valid()
      ensures ListingItem(address, kind) !in old(items) ==> items == old(items) && change == None
      ensures change.None? ==> items == old(items)
      ensures change.Some? ==>
        var p := Find(old(items), ListingItem(address, kind));
        && 0 <= p
        && change == Some(ListingDocumentChanged(ListingItem(address, kind), p, true))
        && items == Erase(old(items), p)
        && ListingItem(address, kind) !in items
      ensures ListingItem(address, kind) in old(items) && SignSafe(old(items), kind) ==> change.Some?
      ensures SearchAsWritten(old(items), address, kind).Miss? ==> change == None
    {
      var r := BinarySearch(items, address, kind);
      if r == |items| {
        return None;
      }
      change := Some(ListingDocumentChanged(items[r], r, true));
      FindInSorted(items, r);
      EraseKeepsSorted(items, r);
      items := Erase(items, r);
    }
  }

  /**
   * Markers registered at one address in the order symbol, segment,
   * prologue, function: the comparator places each one, and the rows stack
   * as Segment, Function, Prologue, Symbol.
   */
  method StackingAtOneAddress() returns (doc: ListingDocument)
    ensures doc.Valid()
    ensures doc.items == [ListingItem(0x1000, SegmentItem), ListingItem(0x1000, FunctionItem),
                          ListingItem(0x1000, PrologueItem), ListingItem(0x1000, SymbolItem)]
  {
    var seg, fun := ListingItem(0x1000, SegmentItem), ListingItem(0x1000, FunctionItem);
    var pro, sym := ListingItem(0x1000, PrologueItem), ListingItem(0x1000, SymbolItem);
    doc := new ListingDocument();
    var c := doc.PushSorted(0x1000, SymbolItem);
    assert doc.items == [sym];
    PushBetween(doc, seg, 0);
    assert doc.items == [seg, sym];
    PushBetween(doc, pro, 1);
    assert doc.items == [seg, pro, sym];
    PushBetween(doc, fun, 1);
  }

  /**
   * Pushing an item that the comparator places between rows `p - 1` and `p`
   * inserts it at row `p`.
   */
  method PushBetween(doc: ListingDocument, x: ListingItem, p: nat)
    requires doc.Valid()
    requires p <= |doc.items|
    requires forall i :: 0 <= i < p ==> Less(doc.items[i], x)
    requires forall i :: p <= i < |doc.items| ==> Less(x, doc.items[i])
    modifies doc
    ensures doc.Valid() && doc.items == Insert(old(doc.items), p, x)
  {
    InsertionPointBetween(doc.items, x, p);
    assert x !in doc.items by {
      forall i | 0 <= i < |doc.items|
        ensures doc.items[i] != x
      {
        if i < p { assert Less(doc.items[i], x); } else { assert Less(x, doc.items[i]); }
      }
    }
    var c := doc.PushSorted(x.address, x.kind);
  }

  /**
   * A present `AllItems` item that the search misses, as in
   * `AllItemsKindIsMissed`, is not removed.
   */
  method RemoveMissesAllItems(doc: ListingDocument) returns (change: Option<ListingDocumentChanged>)
    requires doc.Valid()
    requires doc.items == [ListingItem(0, SegmentItem), ListingItem(0, FunctionItem), ListingItem(0, AllItems)]
    modifies doc
    ensures change == None && doc.items == old(doc.items)
    ensures ListingItem(0, AllItems) in doc.items
  {
    AllItemsKindIsMissed();
    change := doc.RemoveSorted(0, AllItems);
    assert doc.items[2] == ListingItem(0, AllItems);
  }

  /**
   * On that listing a repeated push changes nothing, and a removal reports
   * the row the item had and leaves no row for it.
   */
  method RepeatAndRemove(doc: ListingDocument)
    requires doc.Valid()
    requires doc.items == [ListingItem(0x1000, SegmentItem), ListingItem(0x1000, FunctionItem),
                           ListingItem(0x1000, PrologueItem), ListingItem(0x1000, SymbolItem)]
    modifies doc
  {
    var pro := ListingItem(0x1000, PrologueItem);
    assert doc.ItemAt(0) == Some(ListingItem(0x1000, SegmentItem));
    var c := doc.PushSorted(0x1000, FunctionItem);
    assert c == None && |doc.items| == 4;
    assert SignSafe(doc.items, PrologueItem);
    assert doc.items[2] == pro;
    FindInSorted(doc.items, 2);
    c := doc.RemoveSorted(0x1000, PrologueItem);
    assert c == Some(ListingDocumentChanged(pro, 2, true));
    var row := IndexOf(doc.items, pro);
    assert row == -1;
  }
}
