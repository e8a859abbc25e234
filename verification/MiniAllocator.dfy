/** The mini allocator hands out pages from extents, batch by batch, and keeps a list of the
    extents it has used, so that they can be given back together. */
module MiniAllocator {
  import opened RcAllocator
  import opened MiniLayout

  /** References of a mini allocator that nobody uses. */
  const MINI_NO_REFS := 2

  /** The page store, with the allocator of its extents. */
  class Cache {
    const al: Allocator
    var pages: map<nat, MetaPage>

    constructor (al: Allocator)
      ensures this.al == al
    {
      this.al := al;
      pages := map[];
    }
  }

  /** No extent is free: the one reason for which the source stops the process. */
  ghost predicate DiskFull(counts: seq<nat>) {
    forall x | 0 <= x < |counts| :: counts[x] != AL_FREE
  }

  ghost predicate HeadPage(g: Geometry, metaHead: nat)
    requires g.Valid()
  {
    g.ExtentNo(metaHead) > 0 && metaHead == g.At(g.ExtentNo(metaHead), g.PageNo(metaHead))
    && g.PageNo(metaHead) < g.pagesPerExtent
  }

  class Mini {
    const cache: Cache
    const metaHead: nat
    const numBatches: nat
    const nextAddr: array<nat>
    const nextExtent: array<nat>
    var metaTail: nat
    var numExtents: nat
    ghost var list: seq<nat>
    ghost var roles: map<nat, Role>
    ghost var current: seq<nat>
    ghost var handed: seq<nat>

    ghost function Abs(): State
      reads this, cache, cache.al.refCount, nextAddr, nextExtent
    {
      State(cache.al.Counts(), cache.pages, list, roles, nextAddr[..], nextExtent[..], current, handed)
    }

    /** The first `ready` batches are set up; one extent may not be recorded yet. */
    ghost predicate Ready(ready: nat)
      reads this, cache, cache.al, cache.al.refCount, nextAddr, nextExtent
    {
      && cache.al.Valid() && cache.al.geometry.Valid()
      && cache.al.geometry.pageSize >= META_HDR_SIZE + META_ENTRY_SIZE
      && nextAddr.Length == nextExtent.Length == numBatches == |current|
      && nextAddr != nextExtent && nextAddr != cache.al.refCount && nextExtent != cache.al.refCount
      && StateOk(cache.al.geometry, Abs(), ready)
      && list != [] && list[0] == metaHead && metaTail == list[|list| - 1] && metaTail in cache.pages
      && numExtents == |roles|
    }

    ghost predicate Valid()
      reads this, cache, cache.al, cache.al.refCount, nextAddr, nextExtent
    {
      Ready(numBatches) && NothingLoose(roles)
    }

    /** mini_init, up to the batches: the list has one empty page.  The extent of that page has
        just been allocated by the caller, and gets one reference for the user of the allocator. */
    constructor (cache: Cache, metaHead: nat, numBatches: nat)
      requires cache.al.Valid() && cache.al.geometry.pageSize >= META_HDR_SIZE + META_ENTRY_SIZE
      requires HeadPage(cache.al.geometry, metaHead) && cache.al.geometry.ExtentNo(metaHead) < cache.al.capacity
      requires cache.al.Counts()[cache.al.geometry.ExtentNo(metaHead)] == AL_ONE_REF
      modifies cache, cache.al.refCount
      ensures Ready(0) && NothingLoose(roles) && handed == []
      ensures this.cache == cache && this.metaHead == metaHead && this.numBatches == numBatches
      ensures fresh(nextAddr) && fresh(nextExtent)
      ensures var x := cache.al.geometry.ExtentNo(metaHead);
              && roles == map[x := Meta(0)] && cache.al.Counts() == old(cache.al.Counts())[x := MINI_NO_REFS + 1]
    {
      this.cache, this.metaHead, this.numBatches := cache, metaHead, numBatches;
      nextAddr, nextExtent := new nat[numBatches](i => 0), new nat[numBatches](i => 0);
      metaTail, numExtents := metaHead, 1;
      list, handed, current := [metaHead], [], seq(numBatches, i => 0);
      roles := map[cache.al.geometry.ExtentNo(metaHead) := Meta(0)];
      new;
      cache.pages := cache.pages[metaHead := MetaPage(0, META_HDR_SIZE, [])];
      hide Geometry.At, Geometry.ExtentNo, Geometry.PageNo, Geometry.Base, InUse, StateOk;
      cache.al.geometry.BaseFacts(metaHead);
      var ref := cache.al.IncRef(cache.al.geometry.Base(metaHead));
      assert ref == MINI_NO_REFS + 1;
      FreshOk(cache.al.geometry, Abs());
    }

    /** The loop of mini_init over the batches. */
    method TakeExtents() returns (ok: bool)
      requires Ready(0) && NothingLoose(roles)
      modifies this`numExtents, this`roles, cache.al, cache.al.refCount, nextExtent
      ensures !ok ==> DiskFull(cache.al.Counts())
      ensures ok ==> Valid() && OnlyTaken(old(cache.al.Counts()), cache.al.Counts(), old(roles), roles)
    {
      hide StateOk, OnlyTaken, NothingLoose, Geometry.At, Allocator.Valid;
      ghost var c, r := cache.al.Counts(), roles;
      NoneTaken(c, r);
      var batch := 0;
      while batch < numBatches
        invariant batch <= numBatches && Ready(batch) && NothingLoose(roles)
        invariant OnlyTaken(c, cache.al.Counts(), r, roles)
      {
        ghost var c', r' := cache.al.Counts(), roles;
        ok := TakeExtent(batch);
        if !ok {
          return;
        }
        TakenTwice(c, c', cache.al.Counts(), r, r', roles);
        batch := batch + 1;
      }
      ok := true;
    }

    method TakeExtent(batch: nat) returns (ok: bool)
      requires batch < numBatches && Ready(batch) && NothingLoose(roles)
      modifies this`numExtents, this`roles, cache.al, cache.al.refCount, nextExtent
      ensures !ok ==> DiskFull(cache.al.Counts())
      ensures ok ==> Ready(batch + 1) && NothingLoose(roles)
      ensures ok ==> OnlyTaken(old(cache.al.Counts()), cache.al.Counts(), old(roles), roles)
    {
      hide StateOk, OnlyTaken, NothingLoose, Geometry.At, Geometry.ExtentNo, Allocator.Valid;
      ghost var s := Abs();
      var addr;
      ok, addr := cache.al.Alloc();
      if !ok {
        return;
      }
      nextExtent[batch] := addr;
      numExtents := numExtents + 1;
      ghost var x := cache.al.geometry.ExtentNo(addr);
      TakeFirstOk(cache.al.geometry, s, batch, x);
      roles := TakeFirst(cache.al.geometry, s, batch, x).roles;
      assert Abs() == TakeFirst(cache.al.geometry, s, batch, x);
    }

    /** mini_append_entry_to_page, on a page with room. */
    method AppendToPage(ghost x: nat, ghost batch: nat, extentAddr: nat)
      requires Ready(numBatches) && OnlyLoose(roles, x) && extentAddr == cache.al.geometry.At(x, 0)
      requires cache.pages[metaTail].pos + META_ENTRY_SIZE <= cache.al.geometry.pageSize
      modifies this`roles, cache
      ensures Valid() && OnlyTaken(cache.al.Counts(), cache.al.Counts(), old(roles), roles)
      ensures roles == old(roles)[x := roles[x]]
      ensures roles[x].Data? && roles[x].batch == batch && roles[x].used == 0
    {
      hide StateOk, OnlyLoose, NothingLoose, OnlyTaken, Geometry.At, Allocator.Valid;
      ghost var s := Abs();
      RecordOk(cache.al.geometry, s, x, batch);
      var page := cache.pages[metaTail];
      cache.pages := cache.pages[metaTail :=
        MetaPage(page.next, page.pos + META_ENTRY_SIZE, page.entries + [extentAddr])];
      roles := Record(s, x, batch, extentAddr).roles;
      assert Abs() == Record(s, x, batch, extentAddr);
    }

    /** The new end of the list, in the extent of the last page or in a new one. */
    method NewMetaPage(ghost x: nat) returns (ok: bool)
      requires Ready(numBatches) && OnlyLoose(roles, x)
      modifies this`metaTail, this`numExtents, this`list, this`roles
      modifies cache, cache.al, cache.al.refCount
      ensures !ok ==> DiskFull(cache.al.Counts())
      ensures ok ==> Ready(numBatches) && OnlyLoose(roles, x)
      ensures ok ==> OnlyTaken(old(cache.al.Counts()), cache.al.Counts(), old(roles), roles)
      ensures ok ==> cache.pages[metaTail].pos == META_HDR_SIZE
    {
      hide StateOk, OnlyTaken, Geometry.At, Geometry.ExtentNo, Geometry.ExtentSize, Allocator.Valid;
      var g := cache.al.geometry;
      ghost var s := Abs();
      var newMetaTail := metaTail + g.pageSize;
      if newMetaTail % g.ExtentSize() == 0 {
        ok, newMetaTail := cache.al.Alloc();
        if !ok {
          return;
        }
        numExtents := numExtents + 1;
        ghost var y := g.ExtentNo(newMetaTail);
        ExtendToExtentOk(g, s, y);
        roles := roles[y := Meta(|list|)];
      } else {
        ExtendInExtentOk(g, s);
        NoneTaken(s.counts, s.roles);
      }
      cache.pages := cache.pages[metaTail := cache.pages[metaTail].(next := newMetaTail)];
      metaTail := newMetaTail;
      cache.pages := cache.pages[newMetaTail := MetaPage(0, META_HDR_SIZE, [])];
      list := list + [newMetaTail];
      ok := true;
      assert Abs() == Extend(s, newMetaTail).(counts := cache.al.Counts(), roles := roles);
    }

    /** mini_append_entry: the extent is recorded on the last meta page, or on a new one. */
    method AppendEntry(ghost x: nat, ghost batch: nat, extentAddr: nat) returns (ok: bool)
      requires Ready(numBatches) && OnlyLoose(roles, x) && extentAddr == cache.al.geometry.At(x, 0)
      modifies this`metaTail, this`numExtents, this`list, this`roles
      modifies cache, cache.al, cache.al.refCount
      ensures !ok ==> DiskFull(cache.al.Counts())
      ensures ok ==> Valid() && OnlyTaken(old(cache.al.Counts()), cache.al.Counts(), old(roles), roles)
      ensures ok ==> x in roles && roles[x].Data? && roles[x].batch == batch && roles[x].used == 0
    {
      hide StateOk, OnlyTaken, NothingLoose, Geometry.At, Allocator.Valid;
      ghost var c, r := cache.al.Counts(), roles;
      NoneTaken(c, r);
      ok := true;
      if cache.pages[metaTail].pos + META_ENTRY_SIZE > cache.al.geometry.pageSize {
        ok := NewMetaPage(x);
        if !ok {
          return;
        }
      }
      ghost var c', r' := cache.al.Counts(), roles;
      AppendToPage(x, batch, extentAddr);
      TakenTwice(c, c', cache.al.Counts(), r, r', roles);
    }

    /** mini_alloc: a page that has not been handed out before. */
    method Alloc(batch: nat) returns (ok: bool, addr: nat)
      requires Valid() && batch < numBatches
      modifies this, cache, cache.al, cache.al.refCount, nextAddr, nextExtent
      ensures !ok ==> DiskFull(cache.al.Counts())
      ensures ok ==> Valid() && handed == old(handed) + [addr]
      ensures ok ==> OnlyTaken(old(cache.al.Counts()), cache.al.Counts(), old(roles), roles)
    {
      hide StateOk, OnlyTaken, NothingLoose, Geometry.At, Allocator.Valid;
      ghost var c, r := cache.al.Counts(), roles;
      NoneTaken(c, r);
      ok := true;
      addr := nextAddr[batch];
      ghost var x;
      if addr % cache.al.geometry.ExtentSize() == 0 {
        ok, addr, x := NextExtent(batch);
        if !ok {
          return;
        }
      } else {
        x := current[batch];
        NotAtEnd(cache.al.geometry, Abs(), batch);
      }
      ghost var c', r' := cache.al.Counts(), roles;
      SetNextAddr(batch, x, addr);
      TakenTwice(c, c', cache.al.Counts(), r, r', roles);
    }

    /** The end of mini_alloc: the batch goes on to the page behind the one handed out. */
    method SetNextAddr(batch: nat, ghost x: nat, addr: nat)
      requires Valid() && batch < numBatches && x in roles && roles[x].Data? && roles[x].batch == batch
      requires roles[x].used < cache.al.geometry.pagesPerExtent
      requires addr == cache.al.geometry.At(x, roles[x].used)
      modifies this`roles, this`current, this`handed, nextAddr
      ensures Valid() && handed == old(handed) + [addr]
      ensures OnlyTaken(cache.al.Counts(), cache.al.Counts(), old(roles), roles)
    {
      hide StateOk, OnlyTaken, NothingLoose, Geometry.At, Allocator.Valid;
      ghost var s := Abs();
      HandOutOk(cache.al.geometry, s, batch, x);
      cache.al.geometry.AtNext(x, roles[x].used);
      var newNextAddr := addr + cache.al.geometry.pageSize;
      nextAddr[batch] := newNextAddr;
      current, handed := current[batch := x], handed + [addr];
      roles := HandOut(cache.al.geometry, s, batch, x).roles;
      assert Abs() == HandOut(cache.al.geometry, s, batch, x);
    }

    /** The batch goes on to its next extent, which is recorded; a free extent becomes the next. */
    method NextExtent(batch: nat) returns (ok: bool, extentAddr: nat, ghost x: nat)
      requires Valid() && batch < numBatches
      modifies this`metaTail, this`numExtents, this`list, this`roles
      modifies cache, cache.al, cache.al.refCount, nextExtent
      ensures !ok ==> DiskFull(cache.al.Counts())
      ensures ok ==> Valid() && OnlyTaken(old(cache.al.Counts()), cache.al.Counts(), old(roles), roles)
      ensures ok ==> x in roles && roles[x].Data? && roles[x].batch == batch && roles[x].used == 0
      ensures ok ==> extentAddr == cache.al.geometry.At(x, 0)
    {
      hide StateOk, OnlyTaken, NothingLoose, Geometry.At, Geometry.ExtentNo, Allocator.Valid;
      ghost var s, c, r := Abs(), cache.al.Counts(), roles;
      extentAddr, x := nextExtent[batch], 0;
      var addr;
      ok, addr := cache.al.Alloc();
      if !ok {
        return;
      }
      nextExtent[batch] := addr;
      numExtents := numExtents + 1;
      ghost var y := cache.al.geometry.ExtentNo(addr);
      TakeNextOk(cache.al.geometry, s, batch, y);
      x := cache.al.geometry.ExtentNo(extentAddr);
      roles := TakeNext(cache.al.geometry, s, batch, y).roles;
      assert Abs() == TakeNext(cache.al.geometry, s, batch, y);
      ghost var c', r' := cache.al.Counts(), roles;
      ok := AppendEntry(x, batch, extentAddr);
      if ok {
        TakenTwice(c, c', cache.al.Counts(), r, r', roles);
      }
    }
  }
}
