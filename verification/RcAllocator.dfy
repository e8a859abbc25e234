/** Disk addresses and the reference counts of extents.

    Everything on disk has an address in bytes.  An extent is a row of pages; the allocator counts
    references per extent. */
module RcAllocator {
  import opened Modulo

  const AL_ONE_REF := 2
  const AL_NO_REFS := 1
  const AL_FREE := 0

  datatype Geometry = Geometry(pageSize: nat, pagesPerExtent: nat) {
    ghost predicate Valid() {
      pageSize > 0 && pagesPerExtent > 0
    }

    function ExtentSize(): (size: nat)
      ensures Valid() ==> size > 0
    {
      assert Valid() ==> pageSize * pagesPerExtent >= pageSize by {
        MultipleBounds(pagesPerExtent, if pageSize > 0 then pageSize else 1);
      }
      pageSize * pagesPerExtent
    }

    /** The address of a page of an extent. */
    function At(extent: nat, page: nat): nat {
      extent * ExtentSize() + page * pageSize
    }

    function ExtentNo(addr: nat): (extent: nat)
      requires Valid()
    {
      DivNat(addr, ExtentSize());
      addr / ExtentSize()
    }

    /** allocator_config_extent_base_addr */
    function Base(addr: nat): nat
      requires Valid()
    {
      ExtentNo(addr) * ExtentSize()
    }

    function PageNo(addr: nat): nat
      requires Valid()
    {
      DivNat(addr % ExtentSize(), pageSize);
      addr % ExtentSize() / pageSize
    }

    lemma AtFacts(extent: nat, page: nat)
      requires Valid() && page < pagesPerExtent
      ensures ExtentNo(At(extent, page)) == extent && PageNo(At(extent, page)) == page
      ensures Base(At(extent, page)) == At(extent, 0)
      ensures At(extent, page) % ExtentSize() == page * pageSize
      ensures page > 0 ==> At(extent, page) % ExtentSize() != 0
    {
      assert (pagesPerExtent - page) * pageSize == ExtentSize() - page * pageSize;
      MultipleBounds(pagesPerExtent - page, pageSize);
      if page > 0 {
        MultipleBounds(page, pageSize);
      }
      ModIs(At(extent, page), ExtentSize(), extent, page * pageSize);
      ModIs(page * pageSize, pageSize, page, 0);
    }

    lemma BaseFacts(addr: nat)
      requires Valid()
      ensures ExtentNo(Base(addr)) == ExtentNo(addr) && Base(addr) == At(ExtentNo(addr), 0)
    {
      AtFacts(ExtentNo(addr), 0);
    }

    lemma AtNext(extent: nat, page: nat)
      ensures At(extent, page) + pageSize == At(extent, page + 1)
    {
    }

    lemma AtEnd(extent: nat)
      requires Valid()
      ensures At(extent, pagesPerExtent) % ExtentSize() == 0
    {
      assert At(extent, pagesPerExtent) == (extent + 1) * ExtentSize();
      ModIs(At(extent, pagesPerExtent), ExtentSize(), extent + 1, 0);
    }

    lemma AtAligned(extent: nat, page: nat)
      requires Valid()
      ensures At(extent, page) % pageSize == 0
      ensures extent > 0 ==> At(extent, page) > 0
    {
      var pages := extent * pagesPerExtent + page;
      assert extent * (pageSize * pagesPerExtent) == extent * pagesPerExtent * pageSize;
      assert At(extent, page) == pages * pageSize;
      ModIs(At(extent, page), pageSize, pages, 0);
      if extent > 0 {
        MultipleBounds(extent, ExtentSize());
      }
    }
  }

  /** Number of extents that are not free. */
  function InUse(counts: seq<nat>): nat {
    if counts == [] then 0
    else InUse(counts[..|counts| - 1]) + if counts[|counts| - 1] == AL_FREE then 0 else 1
  }

  lemma {:induction false} InUseUpdate(counts: seq<nat>, i: nat, c: nat)
    requires i < |counts|
    ensures InUse(counts[i := c])
         == InUse(counts) - (if counts[i] == AL_FREE then 0 else 1) + (if c == AL_FREE then 0 else 1)
  {
    var n := |counts| - 1;
    if i == n {
      assert counts[i := c][..n] == counts[..n];
    } else {
      assert counts[i := c][..n] == counts[..n][i := c];
      InUseUpdate(counts[..n], i, c);
    }
  }

  class Allocator {
    const geometry: Geometry
    const capacity: nat
    const refCount: array<nat>
    var hand: nat
    var currAllocated: nat

    /** The super block lives in extent 0, which is never free. */
    ghost predicate Valid()
      reads this, refCount
    {
      && geometry.Valid() && refCount.Length == capacity
      && capacity > 0 && refCount[0] != AL_FREE
      && currAllocated == InUse(refCount[..])
    }

    ghost function Counts(): seq<nat>
      reads refCount
    {
      refCount[..]
    }

    /** The scan of rc_allocator_alloc: every extent is looked at once, from the hand on. */
    method FindFree() returns (found: bool, extent: nat)
      requires Valid()
      modifies this`hand
      ensures Valid() && extent < capacity && (found <==> refCount[extent] == AL_FREE)
      ensures !found ==> forall x | 0 <= x < capacity :: refCount[x] != AL_FREE
    {
      hide InUse, Wrap, RingAt;
      var firstHand := Wrap(hand, capacity);
      ghost var start := hand;
      extent := Wrap(hand, capacity);
      hand := hand + 1;
      ghost var seen := 0;
      StepOfHand(start, 0, capacity);
      while refCount[extent] != AL_FREE && Wrap(extent + 1, capacity) != firstHand
        invariant extent < capacity && seen < capacity && hand == start + seen + 1
        invariant extent == RingAt(firstHand, seen, capacity)
        invariant forall i | 0 <= i < seen :: refCount[RingAt(firstHand, i, capacity)] != AL_FREE
        decreases capacity - seen
      {
        RingNext(firstHand, seen, capacity);
        StepOfHand(start, seen + 1, capacity);
        extent := Wrap(hand, capacity);
        hand := hand + 1;
        seen := seen + 1;
      }
      RingNext(firstHand, seen, capacity);
      found := refCount[extent] == AL_FREE;
      if !found {
        forall x | 0 <= x < capacity ensures refCount[x] != AL_FREE {
          RingCovers(firstHand, x, capacity);
        }
      }
    }

    /** rc_allocator_alloc: fails only if no extent is free. */
    method Alloc() returns (ok: bool, addr: nat)
      requires Valid()
      modifies this`hand, this`currAllocated, refCount
      ensures Valid()
      ensures ok ==>
        var extent := geometry.ExtentNo(addr);
        && 0 < extent < |Counts()| == |old(Counts())| && addr == geometry.At(extent, 0)
        && old(Counts())[extent] == AL_FREE && Counts() == old(Counts())[extent := AL_ONE_REF]
      ensures !ok ==> Counts() == old(Counts()) && forall x | 0 <= x < |Counts()| :: Counts()[x] != AL_FREE
    {
      var extent;
      ok, extent := FindFree();
      addr := 0;
      if ok {
        InUseUpdate(refCount[..], extent, AL_ONE_REF);
        geometry.AtFacts(extent, 0);
        addr := extent * geometry.ExtentSize();
        assert addr == geometry.At(extent, 0);
        refCount[extent] := AL_ONE_REF;
        currAllocated := currAllocated + 1;
      }
    }

    /** rc_allocator_inc_ref: asserts that the extent is not free. */
    method IncRef(addr: nat) returns (ref: nat)
      requires Valid() && geometry.ExtentNo(addr) < capacity
      requires refCount[geometry.ExtentNo(addr)] != AL_FREE
      modifies refCount
      ensures Valid() && ref == old(Counts())[geometry.ExtentNo(addr)] + 1
      ensures Counts() == old(Counts())[geometry.ExtentNo(addr) := ref]
    {
      var extent := geometry.ExtentNo(addr);
      InUseUpdate(refCount[..], extent, refCount[extent] + 1);
      refCount[extent] := refCount[extent] + 1;
      ref := refCount[extent];
    }

    /** rc_allocator_dec_ref: asserts that the extent is not free. */
    method DecRef(addr: nat) returns (ref: nat)
      requires Valid() && 0 < geometry.ExtentNo(addr) < capacity
      requires refCount[geometry.ExtentNo(addr)] != AL_FREE
      modifies refCount, this`currAllocated
      ensures Valid() && ref == old(Counts())[geometry.ExtentNo(addr)] - 1
      ensures Counts() == old(Counts())[geometry.ExtentNo(addr) := ref]
    {
      var extent := geometry.ExtentNo(addr);
      InUseUpdate(refCount[..], extent, refCount[extent] - 1);
      refCount[extent] := refCount[extent] - 1;
      ref := refCount[extent];
      if ref == AL_FREE {
        currAllocated := currAllocated - 1;
      }
    }
  }

  // ----- the hand goes round

  function Wrap(hand: nat, n: nat): (k: nat)
    requires n > 0
    ensures k < n
  {
    hand % n
  }

  /** The element `i` places behind `first` on a ring of size `n`. */
  function RingAt(first: nat, i: nat, n: nat): (k: nat)
    requires first < n && i < n
    ensures k < n
  {
    if first + i < n then first + i else first + i - n
  }

  lemma RingNext(first: nat, i: nat, n: nat)
    requires first < n && i < n
    ensures Wrap(RingAt(first, i, n) + 1, n) == if i + 1 < n then RingAt(first, i + 1, n) else first
    ensures i + 1 < n ==> RingAt(first, i + 1, n) != first
  {
    var k := RingAt(first, i, n);
    if k + 1 < n {
      ModIs(k + 1, n, 0, k + 1);
    } else {
      ModIs(k + 1, n, 1, 0);
    }
  }

  lemma RingCovers(first: nat, x: nat, n: nat)
    requires first < n && x < n
    ensures exists i | 0 <= i < n :: RingAt(first, i, n) == x
  {
    var i := if x >= first then x - first else x + n - first;
    assert RingAt(first, i, n) == x;
  }

  lemma StepOfHand(start: nat, i: nat, n: nat)
    requires i < n
    ensures Wrap(start + i, n) == RingAt(Wrap(start, n), i, n)
  {
    var q, r := start / n, start % n;
    assert start == q * n + r;
    if r + i < n {
      ModIs(start + i, n, q, r + i);
    } else {
      assert (q + 1) * n == q * n + n;
      ModIs(start + i, n, q + 1, r + i - n);
    }
  }
}
