/**
 * The algorithms of the `Listing` namespace over a container of listing
 * items: the insertion point (`std::lower_bound` under the comparator), the
 * binary search on the address and its same-address scan, and `indexOf`.
 *
 * The searches are the code's loops with the bound tests that keep every
 * read inside the container; wherever the code as written is defined they
 * return what it returns (see `ListingAsWritten`).
 */
module Listing {
  import opened ListingItems
  import opened ListingAsWritten

  /** The container order: strictly increasing, hence without duplicates. */
  predicate Sorted(s: seq<ListingItem>) {
    forall i, j {:trigger Less(s[i], s[j])} :: 0 <= i < j < |s| ==> Less(s[i], s[j])
  }

  /** What `std::lower_bound` needs: the items less than `v` come first. */
  predicate Partitioned(s: seq<ListingItem>, v: ListingItem) {
    forall i, j {:trigger Less(s[i], v), Less(s[j], v)} :: 0 <= i < j < |s| && Less(s[j], v) ==> Less(s[i], v)
  }

  /** `r` is the first index whose item is not less than `v`. */
  predicate IsLowerBound(s: seq<ListingItem>, v: ListingItem, r: nat) {
    && r <= |s|
    && (forall i :: 0 <= i < r ==> Less(s[i], v))
    && (forall i :: r <= i < |s| ==> !Less(s[i], v))
  }

  /**
   * The scan direction `_adjustSearch` takes agrees with the order of the
   * kinds: no kind reaches the sign bit of the offset.
   */
  predicate SignSafe(s: seq<ListingItem>, want: u32) {
    want < SignBit && forall i :: 0 <= i < |s| ==> s[i].kind < SignBit
  }

  /** `v` inserted before index `p`. */
  function Insert(s: seq<ListingItem>, p: nat, v: ListingItem): seq<ListingItem>
    requires p <= |s|
  {
    s[..p] + [v] + s[p..]
  }

  /** The item at index `p` erased. */
  function Erase(s: seq<ListingItem>, p: nat): seq<ListingItem>
    requires p < |s|
  {
    s[..p] + s[p + 1..]
  }

  /** Reference definition of a row: the first index holding `x`, or -1. */
  function Find(s: seq<ListingItem>, x: ListingItem): (r: int)
    ensures -1 <= r < |s|
    ensures r == -1 <==> x !in s
    ensures 0 <= r ==> s[r] == x && forall k :: 0 <= k < r ==> s[k] != x
  {
    if |s| == 0 then -1
    else if s[0] == x then 0
    else
      var k := Find(s[1..], x);
      if k == -1 then -1 else k + 1
  }

  /** Any two items of a sorted container compare in index order. */
  lemma SortedPairIsLess(s: seq<ListingItem>, i: nat, j: nat)
    requires Sorted(s)
    requires i < j < |s|
    ensures Less(s[i], s[j])
  {
  }

  lemma SortedIsPartitioned(s: seq<ListingItem>, v: ListingItem)
    requires Sorted(s)
    ensures Partitioned(s, v)
  {
    forall i, j | 0 <= i < j < |s| && Less(s[j], v)
      ensures Less(s[i], v)
    {
      assert Less(s[i], s[j]);
    }
  }

  /** Items sharing an address form one contiguous run. */
  lemma RunIsContiguous(s: seq<ListingItem>, i: nat, k: nat, j: nat)
    requires Sorted(s)
    requires i <= k <= j < |s|
    requires s[i].address == s[j].address
    ensures s[k].address == s[i].address
  {
    if i < k < j {
      assert Less(s[i], s[k]) && Less(s[k], s[j]);
    }
  }

  /**
   * `std::lower_bound(first, first + count, v, ListingComparator)`: halve
   * the range, keeping the part that holds the first item not less than `v`.
   */
  function LowerBound(s: seq<ListingItem>, v: ListingItem, first: nat, count: nat): (r: nat)
    requires first + count <= |s|
    ensures first <= r <= first + count
    ensures Partitioned(s, v) ==>
      && (forall i :: first <= i < r ==> Less(s[i], v))
      && (forall i :: r <= i < first + count ==> !Less(s[i], v))
    decreases count
  {
    if count == 0 then first
    else
      var step := count / 2;
      if Less(s[first + step], v) then LowerBound(s, v, first + step + 1, count - step - 1)
      else LowerBound(s, v, first, step)
  }

  /** `insertionPoint(container, val)`. */
  function InsertionPoint(s: seq<ListingItem>, v: ListingItem): (r: nat)
    ensures r <= |s|
    ensures Partitioned(s, v) ==> IsLowerBound(s, v, r)
  {
    LowerBound(s, v, 0, |s|)
  }

  /** There is one lower bound, so any correct `lower_bound` returns the same index. */
  lemma LowerBoundIsUnique(s: seq<ListingItem>, v: ListingItem, r1: nat, r2: nat)
    requires IsLowerBound(s, v, r1) && IsLowerBound(s, v, r2)
    ensures r1 == r2
  {
    if r1 != r2 {
      var k := if r1 < r2 then r1 else r2;
      LowerBoundSplits(s, v, r1, k);
      LowerBoundSplits(s, v, r2, k);
      assert false;
    }
  }

  /** A lower bound splits the container into the items less than `v` and the rest. */
  lemma LowerBoundSplits(s: seq<ListingItem>, v: ListingItem, r: nat, i: nat)
    requires IsLowerBound(s, v, r)
    requires i < |s|
    ensures i < r <==> Less(s[i], v)
  {
  }

  /** On a sorted container an item equal to `v` sits exactly at the insertion point. */
  lemma InsertionPointLocates(s: seq<ListingItem>, v: ListingItem)
    requires Sorted(s)
    ensures var p := InsertionPoint(s, v); v in s <==> p < |s| && s[p] == v
  {
    SortedIsPartitioned(s, v);
    var p := InsertionPoint(s, v);
    if v in s {
      var k :| 0 <= k < |s| && s[k] == v;
      assert !Less(s[k], v);
    }
  }

  /** An item that fits between index `p - 1` and index `p` has insertion point `p`. */
  lemma InsertionPointBetween(s: seq<ListingItem>, v: ListingItem, p: nat)
    requires Sorted(s)
    requires p <= |s|
    requires forall i :: 0 <= i < p ==> Less(s[i], v)
    requires forall i :: p <= i < |s| ==> Less(v, s[i])
    ensures InsertionPoint(s, v) == p
  {
    SortedIsPartitioned(s, v);
    assert IsLowerBound(s, v, p);
    LowerBoundIsUnique(s, v, InsertionPoint(s, v), p);
  }

  /** An item above every item of a sorted container goes at its end. */
  lemma InsertionPointAfterLast(s: seq<ListingItem>, v: ListingItem)
    requires Sorted(s)
    requires forall i :: 0 <= i < |s| ==> Less(s[i], v)
    ensures InsertionPoint(s, v) == |s|
  {
    SortedIsPartitioned(s, v);
    assert IsLowerBound(s, v, |s|);
    LowerBoundIsUnique(s, v, InsertionPoint(s, v), |s|);
  }

  /** Inserting an absent item at the insertion point keeps the container sorted. */
  lemma InsertionKeepsSorted(s: seq<ListingItem>, v: ListingItem)
    requires Sorted(s)
    requires v !in s
    ensures Sorted(Insert(s, InsertionPoint(s, v), v))
  {
    SortedIsPartitioned(s, v);
    var p := InsertionPoint(s, v);
    var t := Insert(s, p, v);
    assert |t| == |s| + 1;
    assert forall k :: 0 <= k < p ==> t[k] == s[k];
    assert t[p] == v;
    assert forall k :: p < k < |t| ==> t[k] == s[k - 1];
    forall i, j | 0 <= i < j < |t|
      ensures Less(t[i], t[j])
    {
      if j < p {
        assert Less(s[i], s[j]);
      } else if j == p {
        assert Less(s[i], v);
      } else if i < p {
        assert Less(s[i], s[j - 1]);
      } else if i == p {
        assert !Less(s[j - 1], v) && s[j - 1] != v;
      } else {
        assert Less(s[i - 1], s[j - 1]);
      }
    }
  }

  /** Erasing any item keeps the container sorted and drops only that item. */
  lemma EraseKeepsSorted(s: seq<ListingItem>, p: nat)
    requires Sorted(s)
    requires p < |s|
    ensures Sorted(Erase(s, p))
    ensures s[p] !in Erase(s, p)
    ensures forall x :: x in s && x != s[p] ==> x in Erase(s, p)
  {
    var t := Erase(s, p);
    assert forall k :: 0 <= k < p ==> t[k] == s[k];
    assert forall k :: p <= k < |t| ==> t[k] == s[k + 1];
    forall i, j | 0 <= i < j < |t|
      ensures Less(t[i], t[j])
    {
      if j < p {
        assert Less(s[i], s[j]);
      } else if i < p {
        assert Less(s[i], s[j + 1]);
      } else {
        assert Less(s[i + 1], s[j + 1]);
      }
    }
    forall k | 0 <= k < |t|
      ensures t[k] != s[p]
    {
      if k < p {
        assert Less(s[k], s[p]);
      } else {
        assert Less(s[p], s[k + 1]);
      }
    }
    forall x | x in s && x != s[p]
      ensures x in t
    {
      var k :| 0 <= k < |s| && s[k] == x;
      if k < p {
        assert t[k] == x;
      } else {
        assert t[k - 1] == x;
      }
    }
  }

  /** In a sorted container the row of the item at index `i` is `i`. */
  lemma {:induction false} FindInSorted(s: seq<ListingItem>, i: nat)
    requires Sorted(s)
    requires i < |s|
    ensures Find(s, s[i]) == i
  {
    var r := Find(s, s[i]);
    if r < i {
      SortedPairIsLess(s, r, i);
      assert false;
    }
  }

  /** After inserting an absent item, its row is the insertion point. */
  lemma FindAfterInsert(s: seq<ListingItem>, v: ListingItem)
    requires Sorted(s)
    requires v !in s
    ensures var p := InsertionPoint(s, v); Find(Insert(s, p, v), v) == p
  {
    var p := InsertionPoint(s, v);
    InsertionKeepsSorted(s, v);
    var t := Insert(s, p, v);
    assert t[p] == v;
    FindInSorted(t, p);
  }

  /**
   * `_adjustSearch(container, it, type)`: from an item at the searched
   * address, walk its run in the direction of the sign of
   * `type - (*it)->type` until the item of the requested type is found.
   * The bound tests come before every read.
   */
  method AdjustSearch(s: seq<ListingItem>, it0: nat, want: u32) returns (r: nat)
    requires it0 < |s|
    ensures r <= |s|
    ensures r < |s| ==> s[r] == ListingItem(s[it0].address, want)
    ensures AdjustAsWritten(s, it0, want).Hit? ==> r == AdjustAsWritten(s, it0, want).index
    ensures AdjustAsWritten(s, it0, want).Miss? ==> r == |s|
    ensures Sorted(s) && SignSafe(s, want) ==> (r < |s| <==> ListingItem(s[it0].address, want) in s)
  {
    var offset := Offset(want, s[it0].kind);
    var address := s[it0].address;
    ghost var target := ListingItem(address, want);
    ghost var present := Sorted(s) && SignSafe(s, want) && target in s;
    ghost var j: int := it0;
    if present {
      j :| 0 <= j < |s| && s[j] == target;
      if j < it0 {
        assert Less(s[j], s[it0]);
      } else if it0 < j {
        assert Less(s[it0], s[j]);
      }
    }
    var it: int := it0;
    while 0 <= it < |s| && s[it].address == address
      invariant -1 <= it <= |s|
      invariant AdjustFrom(s, it, want, offset, address) == AdjustAsWritten(s, it0, want)
      invariant present ==> (offset > 0 ==> it0 <= it <= j) && (offset <= 0 ==> j <= it <= it0)
      decreases if offset > 0 then |s| - it else it + 1
    {
      if s[it].kind == want {
        return it;
      }
      if offset < 0 && it == 0 {
        break;
      }
      if offset > 0 {
        it := it + 1;
      } else {
        it := it - 1;
      }
    }
    if present {
      if offset > 0 {
        RunIsContiguous(s, it0, it, j);
      } else {
        RunIsContiguous(s, j, it, it0);
      }
    }
    r := |s|;
  }

  /** Addresses never decrease along a sorted container. */
  lemma AddressesAscendFrom(s: seq<ListingItem>, m: nat)
    requires Sorted(s) && m < |s|
    ensures forall i :: m <= i < |s| ==> s[m].address <= s[i].address
  {
    forall i | m < i < |s| ensures s[m].address <= s[i].address {
      assert Less(s[m], s[i]);
    }
  }

  /** Addresses never increase going back from `m`. */
  lemma AddressesAscendTo(s: seq<ListingItem>, m: nat)
    requires Sorted(s) && m < |s|
    ensures forall i :: 0 <= i <= m ==> s[i].address <= s[m].address
  {
    forall i | 0 <= i < m ensures s[i].address <= s[m].address {
      assert Less(s[i], s[m]);
    }
  }

  /** One round of the code's bisection, from inside the container. */
  lemma BisectFromStep(s: seq<ListingItem>, address: u64, b: int, e: int)
    requires 0 <= b < |s| && b <= e <= |s|
    ensures var m := b + (e - b) / 2;
      && b <= m <= e && m < |s|
      && (s[m].address == address ==> BisectFrom(s, address, b, e) == Hit(m))
      && (s[m].address > address && m == 0 ==> BisectFrom(s, address, b, e) == StepsBeforeBegin)
      && (s[m].address > address && m > 0 ==> BisectFrom(s, address, b, e) == BisectFrom(s, address, b, m - 1))
      && (s[m].address < address ==> BisectFrom(s, address, b, e) == BisectFrom(s, address, m + 1, e))
  {
  }

  /** Where the code's loop stops without a middle at `address`, it misses or reads `end()`. */
  lemma BisectFromExit(s: seq<ListingItem>, address: u64, b: int, e: int)
    requires 0 <= b <= |s| && -1 <= e <= |s|
    requires !(b <= e && b < |s|)
    ensures BisectFrom(s, address, b, e).Defined() ==> BisectFrom(s, address, b, e) == Miss
  {
  }

  /**
   * `binarySearch(container, address, type)`: bisect on the address, then
   * hand the first item met at that address to `AdjustSearch`. Returns
   * `|s|` (the container's `end()`) when nothing is found.
   */
  method BinarySearch(s: seq<ListingItem>, address: u64, want: u32) returns (r: nat)
    ensures r <= |s|
    ensures r < |s| ==> s[r] == ListingItem(address, want)
    ensures SearchAsWritten(s, address, want).Hit? ==> r == SearchAsWritten(s, address, want).index
    ensures SearchAsWritten(s, address, want).Miss? ==> r == |s|
    ensures Sorted(s) && SignSafe(s, want) ==> (r < |s| <==> ListingItem(address, want) in s)
  {
    if |s| == 0 {
      return 0;
    }
    ghost var probe := BisectAsWritten(s, address);
    ghost var sorted := Sorted(s);
    var b: int, e: int := 0, |s|;
    while b <= e && b < |s|
      invariant 0 <= b <= |s| && -1 <= e <= |s|
      invariant probe.Defined() ==> BisectFrom(s, address, b, e) == probe
      invariant sorted ==> forall i :: 0 <= i < b ==> s[i].address < address
      invariant sorted ==> forall i :: e < i < |s| ==> s[i].address > address
      decreases e - b + 1
    {
      BisectFromStep(s, address, b, e);
      var m := b + (e - b) / 2;
      if s[m].address == address {
        r := AdjustSearch(s, m, want);
        return;
      }
      if s[m].address > address {
        if sorted {
          AddressesAscendFrom(s, m);
        }
        e := m - 1;
      } else {
        if sorted {
          AddressesAscendTo(s, m);
        }
        b := m + 1;
      }
    }
    BisectFromExit(s, address, b, e);
    r := |s|;
  }

  /** `binarySearch(container, item)`: the search for the item's address and type. */
  method BinarySearchItem(s: seq<ListingItem>, item: ListingItem) returns (r: nat)
    ensures r <= |s|
    ensures r < |s| ==> s[r] == item
    ensures SearchAsWritten(s, item.address, item.kind).Hit? ==> r == SearchAsWritten(s, item.address, item.kind).index
    ensures SearchAsWritten(s, item.address, item.kind).Miss? ==> r == |s|
    ensures Sorted(s) && SignSafe(s, item.kind) ==> (r < |s| <==> item in s)
  {
    r := BinarySearch(s, item.address, item.kind);
  }

  /** `indexOf(container, item)`: the item's row, or -1 when it is not found. */
  method IndexOf(s: seq<ListingItem>, item: ListingItem) returns (r: int)
    ensures -1 <= r < |s|
    ensures r != -1 ==> s[r] == item
    ensures SearchAsWritten(s, item.address, item.kind).Hit? ==> r == SearchAsWritten(s, item.address, item.kind).index
    ensures SearchAsWritten(s, item.address, item.kind).Miss? ==> r == -1
    ensures Sorted(s) && SignSafe(s, item.kind) ==> r == Find(s, item)
  {
    var it := BinarySearchItem(s, item);
    if it == |s| {
      return -1;
    }
    r := it;
    if Sorted(s) {
      FindInSorted(s, r);
    }
  }
}
