/**
 * The two searches of the `Listing` namespace exactly as written, including
 * the steps whose C++ behaviour is undefined. Each undefined step ends the
 * run with an outcome that names it, so that the model can say on which
 * inputs the code is defined and how the corrected searches relate to it.
 */
module ListingAsWritten {
  import opened ListingItems

  const SignBit: int := 0x8000_0000

  /**
   * What a run of the code comes to: it returns the iterator at `index`
   * (`Hit`), returns `end()` (`Miss`), dereferences an iterator outside the
   * container (`ReadsOutside`), or steps an iterator before `begin()`
   * (`StepsBeforeBegin`).
   */
  datatype Outcome = Hit(index: nat) | Miss | ReadsOutside(position: int) | StepsBeforeBegin
  {
    /** The code's behaviour is defined on this run. */
    predicate Defined() {
      Hit? || Miss?
    }
  }

  /**
   * `int offset = type - (*it)->type`: the difference of two `u32` wraps
   * modulo 2^32 and is then read back as a signed 32-bit `int`.
   */
  function Offset(want: u32, current: u32): (r: int)
    ensures -SignBit <= r < SignBit
    ensures r == 0 <==> want == current
    ensures want < SignBit && current < SignBit ==> r == want - current
  {
    var d := (want - current) % TwoTo32;
    if d < SignBit then d else d - TwoTo32
  }

  /**
   * The offset points the wrong way exactly when the requested kind exceeds
   * the current one by 2^31 or more, or is more than 2^31 below it.
   */
  lemma OffsetSignReversed(want: u32, current: u32)
    ensures want != current ==>
      ((Offset(want, current) < 0 <==> want > current) <==>
       (want - current >= SignBit || want - current < -SignBit))
  {
    if want >= current {
      assert (want - current) % TwoTo32 == want - current;
    } else {
      assert (want - current) % TwoTo32 == want - current + TwoTo32;
    }
  }

  /**
   * `AllItems` reverses the sign of the offset against every ordinal 0 to 5,
   * here the segment item's.
   */
  lemma OffsetWrapsForAllItems()
    ensures Offset(AllItems, SegmentItem) == -2
    ensures Offset(SegmentItem, AllItems) == 2
  {
  }

  /**
   * The loop of `_adjustSearch` from iterator `it`. The `while` condition
   * dereferences `it` before the body's test against `end()`, so reaching
   * `end()` is a read outside the container.
   */
  function AdjustFrom(s: seq<ListingItem>, it: int, want: u32, offset: int, address: u64): (r: Outcome)
    requires -1 <= it <= |s|
    ensures r.Hit? ==> r.index < |s| && s[r.index] == ListingItem(address, want)
    decreases if offset > 0 then |s| - it else it + 1
  {
    if it < 0 || it == |s| then ReadsOutside(it)
    else if s[it].address != address then Miss
    else if s[it].kind == want then Hit(it)
    else if offset < 0 && it == 0 then Miss
    else if offset > 0 then AdjustFrom(s, it + 1, want, offset, address)
    else AdjustFrom(s, it - 1, want, offset, address)
  }

  /** `_adjustSearch(container, it, type)` as written. */
  function AdjustAsWritten(s: seq<ListingItem>, it: nat, want: u32): (r: Outcome)
    requires it < |s|
    ensures r.Hit? ==> r.index < |s| && s[r.index] == ListingItem(s[it].address, want)
  {
    AdjustFrom(s, it, want, Offset(want, s[it].kind), s[it].address)
  }

  /**
   * The loop of `binarySearch` from the iterators `b` and `e`, up to the
   * middle that holds `address` (`Hit(m)`). `e` starts at `end()` but is
   * then moved as an inclusive bound, so the middle can be `end()`; and `e`
   * is stepped before `begin()` when the middle is `begin()`.
   */
  function BisectFrom(s: seq<ListingItem>, address: u64, b: int, e: int): (r: Outcome)
    requires 0 <= b <= |s| && -1 <= e <= |s|
    ensures r.Hit? ==> r.index < |s| && s[r.index].address == address
    decreases e - b + 1
  {
    if b > e then Miss
    else
      var m := b + (e - b) / 2;
      if m == |s| then ReadsOutside(m)
      else if s[m].address == address then Hit(m)
      else if s[m].address > address then
        (if m == 0 then StepsBeforeBegin else BisectFrom(s, address, b, m - 1))
      else BisectFrom(s, address, m + 1, e)
  }

  /** The bisection of `binarySearch(container, address, type)` as written. */
  function BisectAsWritten(s: seq<ListingItem>, address: u64): (r: Outcome)
    ensures r.Hit? ==> r.index < |s| && s[r.index].address == address
  {
    if |s| == 0 then Miss else BisectFrom(s, address, 0, |s|)
  }

  /** `binarySearch(container, address, type)` as written: bisect, then `_adjustSearch`. */
  function SearchAsWritten(s: seq<ListingItem>, address: u64, want: u32): (r: Outcome)
    ensures r.Hit? ==> r.index < |s| && s[r.index] == ListingItem(address, want)
  {
    var probe := BisectAsWritten(s, address);
    if probe.Hit? then AdjustAsWritten(s, probe.index, want) else probe
  }

  /**
   * Scanning forward off the last item of the container: `_adjustSearch`
   * moves `it` to `end()` and dereferences it in the loop condition.
   */
  lemma AdjustReadsEnd()
    ensures AdjustAsWritten([ListingItem(0x10, SegmentItem)], 0, InstructionItem) == ReadsOutside(1)
    ensures SearchAsWritten([ListingItem(0x10, SegmentItem)], 0x10, InstructionItem) == ReadsOutside(1)
  {
    var s := [ListingItem(0x10, SegmentItem)];
    assert Offset(InstructionItem, SegmentItem) == 4;
    assert AdjustFrom(s, 1, InstructionItem, 4, 0x10) == ReadsOutside(1);
  }

  /**
   * Searching for an address above every item: `thebegin` reaches `end()`
   * while `theend` is still `end()`, and the middle `end()` is dereferenced.
   */
  lemma SearchReadsEnd()
    ensures SearchAsWritten([ListingItem(0x10, SegmentItem)], 0x20, SegmentItem) == ReadsOutside(1)
  {
    var s := [ListingItem(0x10, SegmentItem)];
    assert BisectFrom(s, 0x20, 1, 1) == ReadsOutside(1);
  }

  /** Searching for an address below every item moves `theend` before `begin()`. */
  lemma SearchStepsBeforeBegin()
    ensures SearchAsWritten([ListingItem(0x10, SegmentItem)], 0x0, SegmentItem) == StepsBeforeBegin
  {
  }

  /**
   * On `[(0, Segment), (0, Function), (0, AllItems)]` the offset from the
   * function item to `AllItems` is negative, so the scan runs away from the
   * present `(0, AllItems)`: the code misses it.
   */
  lemma AllItemsKindIsMissed()
    ensures SearchAsWritten([ListingItem(0, SegmentItem), ListingItem(0, FunctionItem), ListingItem(0, AllItems)], 0, AllItems) == Miss
  {
    var s := [ListingItem(0, SegmentItem), ListingItem(0, FunctionItem), ListingItem(0, AllItems)];
    assert Offset(AllItems, FunctionItem) == -3;
    assert AdjustFrom(s, 0, AllItems, -3, 0) == Miss;
  }

  /**
   * A stored `AllItems` beside a segment item: bisection lands on it, the
   * offset to the segment item is positive, and the scan steps off the end.
   */
  lemma StoredAllItemsHidesSegment()
    ensures SearchAsWritten([ListingItem(0, SegmentItem), ListingItem(0, AllItems)], 0, SegmentItem) == ReadsOutside(2)
  {
    var s := [ListingItem(0, SegmentItem), ListingItem(0, AllItems)];
    assert BisectAsWritten(s, 0) == Hit(1);
    assert Offset(SegmentItem, AllItems) == 2;
    assert AdjustFrom(s, 2, SegmentItem, 2, 0) == ReadsOutside(2);
  }
}
