/** The end of a mini allocator: its spare extents go back at once, the recorded extents and those
    of the meta pages when the last user gives up its reference. */
module MiniRelease {
  import opened RcAllocator
  import opened MiniLayout
  import opened MiniAllocator

  /** What a released allocator still owns: the recorded extents and those of the meta pages. */
  ghost predicate Sealed(g: Geometry, counts: seq<nat>, pages: map<nat, MetaPage>, list: seq<nat>,
                         roles: map<nat, Role>)
    requires g.Valid()
  {
    && Chain(pages, list) && ListOk(g, list, roles) && RecordedOk(g, Recorded(pages, list), roles)
    && Counted(counts, roles, g.ExtentNo(list[0]))
    && forall x | x in roles :: roles[x].Meta? || roles[x].Data?
  }

  /** The extents with a role that meets the test are free; the others have their old counts. */
  ghost predicate Freed(counts: seq<nat>, counts': seq<nat>, roles: map<nat, Role>, given: Role -> bool) {
    && |counts'| == |counts|
    && forall x | 0 <= x < |counts| ::
         counts'[x] == if x in roles && given(roles[x]) then AL_FREE else counts[x]
  }

  /** The two decrements that give an extent back, with their assertions. */
  method GiveBack(al: Allocator, addr: nat, ghost x: nat)
    requires al.Valid() && 0 < x < |al.Counts()| && al.Counts()[x] == AL_ONE_REF && addr == al.geometry.At(x, 0)
    modifies al, al.refCount
    ensures al.Valid() && al.Counts() == old(al.Counts())[x := AL_FREE]
  {
    al.geometry.AtFacts(x, 0);
    hide Geometry.At, Geometry.ExtentNo;
    var ref := al.DecRef(addr);
    assert ref == AL_NO_REFS;
    ref := al.DecRef(addr);
    assert ref == AL_FREE;
  }

  function WithoutSpares(roles: map<nat, Role>): map<nat, Role> {
    map x | x in roles && !roles[x].Spare? :: roles[x]
  }

  function SpareBelow(b: nat): Role -> bool {
    (r: Role) => r.Spare? && r.batch < b
  }

  /** mini_release */
  method Release(mini: Mini)
    requires mini.Valid()
    modifies mini.cache.al, mini.cache.al.refCount
    ensures var al := mini.cache.al;
            && al.Valid() && Freed(old(al.Counts()), al.Counts(), mini.roles, SpareBelow(mini.numBatches))
            && Sealed(al.geometry, al.Counts(), mini.cache.pages, mini.list, WithoutSpares(mini.roles))
  {
    var al := mini.cache.al;
    ghost var s := mini.Abs();
    var batch := 0;
    hide Chain, ListOk, RecordedOk, HandedOk, NothingLoose, Recorded, Geometry.At, Geometry.ExtentNo;
    while batch < mini.numBatches
      invariant batch <= mini.numBatches && al.Valid()
      invariant Freed(s.counts, al.Counts(), s.roles, SpareBelow(batch))
    {
      ghost var x := al.geometry.ExtentNo(s.nextExtent[batch]);
      assert BatchOk(al.geometry, batch, s.nextAddr[batch], s.nextExtent[batch], s.current[batch], s.roles);
      GiveBack(al, mini.nextExtent[batch], x);
      SpareFreed(al.geometry, s, batch, x);
      batch := batch + 1;
    }
    SealedAfter(al.geometry, s, al.Counts());
  }

  lemma SpareFreed(g: Geometry, s: State, b: nat, x: nat)
    requires g.Valid() && BatchesOk(g, s, |s.nextAddr|) && b < |s.nextAddr|
    requires x in s.roles && s.roles[x] == Spare(b) && s.nextExtent[b] == g.At(x, 0)
    ensures forall y | y in s.roles && s.roles[y] == Spare(b) :: y == x
  {
    forall y | y in s.roles && s.roles[y] == Spare(b) ensures y == x {
      assert s.nextExtent[..|s.nextAddr|][b] == g.At(y, 0);
      g.AtFacts(y, 0);
      g.AtFacts(x, 0);
    }
  }

  lemma SealedAfter(g: Geometry, s: State, counts: seq<nat>)
    requires g.Valid() && StateOk(g, s, |s.nextAddr|) && NothingLoose(s.roles)
    requires Freed(s.counts, counts, s.roles, SpareBelow(|s.nextAddr|))
    ensures Sealed(g, counts, s.pages, s.list, WithoutSpares(s.roles))
  {
    hide Geometry.At, Geometry.ExtentNo, HandedOk;
    var roles' := WithoutSpares(s.roles);
    assert forall x | x in roles' :: roles'[x] == s.roles[x];
    ListKept(g, s.list, s.roles, roles');
    RecordedKept(g, Recorded(s.pages, s.list), s.roles, roles');
    hide ListOk, RecordedOk, Chain, Recorded;
    assert s.nextExtent[..|s.nextAddr|] == s.nextExtent;
  }

  /** mini_inc_ref: the new number of users; their documentation says the prior one. */
  method IncRef(cache: Cache, metaHead: nat) returns (users: nat)
    requires cache.al.Valid() && cache.al.geometry.ExtentNo(metaHead) < |cache.al.Counts()|
    requires cache.al.Counts()[cache.al.geometry.ExtentNo(metaHead)] >= MINI_NO_REFS
    modifies cache.al.refCount
    ensures cache.al.Valid()
    ensures var x := cache.al.geometry.ExtentNo(metaHead);
            && users == old(cache.al.Counts()[x]) + 1 - MINI_NO_REFS
            && cache.al.Counts() == old(cache.al.Counts())[x := MINI_NO_REFS + users]
  {
    cache.al.geometry.BaseFacts(metaHead);
    hide Geometry.At, Geometry.ExtentNo, Geometry.Base;
    var ref := cache.al.IncRef(cache.al.geometry.Base(metaHead));
    assert ref > MINI_NO_REFS;
    users := ref - MINI_NO_REFS;
  }

  function DataBelow(k: nat): Role -> bool {
    (r: Role) => r.Data? && r.index < k
  }

  function MetaBelow(f: nat): Role -> bool {
    (r: Role) => r.Meta? && r.first < f
  }

  /** mini_dec_ref: the number of users left; with the last one, every extent is given back. */
  method DecRef(cache: Cache, metaHead: nat, ghost list: seq<nat>, ghost roles: map<nat, Role>)
    returns (users: nat)
    requires cache.al.Valid() && Sealed(cache.al.geometry, cache.al.Counts(), cache.pages, list, roles)
    requires list[0] == metaHead
    requires cache.al.Counts()[cache.al.geometry.ExtentNo(metaHead)] > MINI_NO_REFS
    modifies cache.al, cache.al.refCount
    ensures cache.al.Valid()
    ensures users == old(cache.al.Counts()[cache.al.geometry.ExtentNo(metaHead)]) - 1 - MINI_NO_REFS
    ensures users > 0 ==>
      && cache.al.Counts() == old(cache.al.Counts())[cache.al.geometry.ExtentNo(metaHead) := MINI_NO_REFS + users]
      && Sealed(cache.al.geometry, cache.al.Counts(), cache.pages, list, roles)
    ensures users == 0 ==> Freed(old(cache.al.Counts()), cache.al.Counts(), roles, r => true)
  {
    var al := cache.al;
    al.geometry.BaseFacts(metaHead);
    hide Chain, ListOk, RecordedOk, Recorded, Geometry.At, Geometry.ExtentNo, Geometry.Base;
    var ref := al.DecRef(al.geometry.Base(metaHead));
    if ref != MINI_NO_REFS {
      assert ref != AL_NO_REFS && ref != AL_FREE;
      return ref - MINI_NO_REFS;
    }
    ghost var counts := al.Counts();
    ForEachDealloc(cache, metaHead, list, roles);
    ghost var counts' := al.Counts();
    Deinit(cache, metaHead, list, roles, counts);
    users := 0;
  }

  /** mini_for_each with mini_dealloc_extent: follows the list, and gives back what it records. */
  method ForEachDealloc(cache: Cache, metaHead: nat, ghost list: seq<nat>, ghost roles: map<nat, Role>)
    requires cache.al.Valid() && Sealed(cache.al.geometry, cache.al.Counts(), cache.pages, list, roles)
    requires list[0] == metaHead
    modifies cache.al, cache.al.refCount
    ensures cache.al.Valid()
    ensures Freed(old(cache.al.Counts()), cache.al.Counts(), roles, DataBelow(|Recorded(cache.pages, list)|))
  {
    ghost var counts := cache.al.Counts();
    var metaAddr := metaHead;
    ghost var j := 0;
    assert list[..0] == [];
    NextIs(cache.pages, list, 0);
    NoneFreed(counts, roles, cache.pages);
    assert cache.al.geometry.Valid();
    hide *;
    while metaAddr != 0
      invariant j <= |list| && if j < |list| then metaAddr == list[j] > 0 else metaAddr == 0
      invariant cache.al.Valid()
      invariant Freed(counts, cache.al.Counts(), roles, DataBelow(|Recorded(cache.pages, list[..j])|))
      decreases |list| - j
    {
      SealedList(cache.al.geometry, counts, cache.pages, list, roles);
      NextIs(cache.pages, list, j);
      OnePageMore(cache.pages, list, j);
      DeallocEntries(cache, cache.pages[metaAddr].entries, list, roles, counts, Recorded(cache.pages, list[..j]));
      metaAddr := cache.pages[metaAddr].next;
      j := j + 1;
    }
    assert list[..j] == list;
  }

  lemma NoneFreed(counts: seq<nat>, roles: map<nat, Role>, pages: map<nat, MetaPage>)
    ensures Freed(counts, counts, roles, DataBelow(|Recorded(pages, [])|))
  {
    assert Recorded(pages, []) == [];
  }

  lemma SealedList(g: Geometry, counts: seq<nat>, pages: map<nat, MetaPage>, list: seq<nat>, roles: map<nat, Role>)
    requires g.Valid() && Sealed(g, counts, pages, list, roles)
    ensures Chain(pages, list)
  {
  }

  lemma NextIs(pages: map<nat, MetaPage>, list: seq<nat>, j: nat)
    requires Chain(pages, list) && j < |list|
    ensures list[j] in pages && list[j] > 0 && (j + 1 < |list| ==> list[j + 1] > 0)
    ensures pages[list[j]].next == if j + 1 < |list| then list[j + 1] else 0
    ensures EntriesOf(pages, list[j]) == pages[list[j]].entries
  {
    assert Link(pages, list, j);
    if j + 1 < |list| {
      assert Link(pages, list, j + 1);
    }
  }

  /** mini_for_each_meta_page_func with mini_dealloc_extent: the entries of one page. */
  method DeallocEntries(cache: Cache, entries: seq<nat>, ghost list: seq<nat>, ghost roles: map<nat, Role>,
                        ghost counts: seq<nat>, ghost before: seq<nat>)
    requires cache.al.Valid() && Sealed(cache.al.geometry, counts, cache.pages, list, roles)
    requires before + entries <= Recorded(cache.pages, list)
    requires Freed(counts, cache.al.Counts(), roles, DataBelow(|before|))
    modifies cache.al, cache.al.refCount
    ensures cache.al.Valid() && Freed(counts, cache.al.Counts(), roles, DataBelow(|before + entries|))
  {
    hide Chain, ListOk, RecordedOk, Counted, Recorded, Sealed, InUse, Geometry.ExtentNo, Geometry.At;
    var i := 0;
    while i < |entries|
      invariant i <= |entries| && cache.al.Valid()
      invariant Freed(counts, cache.al.Counts(), roles, DataBelow(|before| + i))
    {
      assert (before + entries)[|before| + i] == entries[i];
      ghost var x := cache.al.geometry.ExtentNo(entries[i]);
      EntryOwned(cache.al.geometry, counts, cache.pages, list, roles, |before| + i, entries[i]);
      GiveBack(cache.al, entries[i], x);
      i := i + 1;
    }
  }

  lemma OnePageMore(pages: map<nat, MetaPage>, list: seq<nat>, j: nat)
    requires j < |list|
    ensures Recorded(pages, list[..j + 1]) == Recorded(pages, list[..j]) + EntriesOf(pages, list[j])
    ensures Recorded(pages, list[..j + 1]) <= Recorded(pages, list)
    decreases |list|
  {
    hide Recorded, EntriesOf;
    if j + 1 < |list| {
      var n := |list| - 1;
      TakeTake(list, n, j + 1);
      TakeTake(list, n, j);
      OnePageMore(pages, list[..n], j);
      LastPage(pages, list);
    } else {
      LastPage(pages, list);
      assert list[..j + 1] == list;
    }
  }

  lemma LastPage(pages: map<nat, MetaPage>, list: seq<nat>)
    requires list != []
    ensures Recorded(pages, list) == Recorded(pages, list[..|list| - 1]) + EntriesOf(pages, list[|list| - 1])
    ensures Recorded(pages, list[..|list| - 1]) <= Recorded(pages, list)
  {
  }

  lemma TakeTake(list: seq<nat>, n: nat, j: nat)
    requires j <= n <= |list|
    ensures list[..n][..j] == list[..j]
  {
  }

  lemma EntryOwned(g: Geometry, counts: seq<nat>, pages: map<nat, MetaPage>, list: seq<nat>,
                   roles: map<nat, Role>, i: nat, addr: nat)
    requires g.Valid() && Sealed(g, counts, pages, list, roles)
    requires i < |Recorded(pages, list)| && Recorded(pages, list)[i] == addr
    ensures var x := g.ExtentNo(addr);
            && addr == g.At(x, 0) && x in roles && roles[x].Data? && roles[x].index == i
            && 0 < x < |counts| && counts[x] == AL_ONE_REF
            && forall y | y in roles && roles[y].Data? && roles[y].index == i :: y == x
  {
    forall y | y in roles && roles[y].Data? && roles[y].index == i ensures y == g.ExtentNo(addr) {
      g.AtFacts(y, 0);
    }
    hide Geometry.At, Geometry.ExtentNo, Recorded;
  }

  /** mini_deinit: follows the list once more, and gives back each extent behind its last page. */
  method Deinit(cache: Cache, metaHead: nat, ghost list: seq<nat>, ghost roles: map<nat, Role>,
                ghost counts: seq<nat>)
    requires cache.al.Valid() && Sealed(cache.al.geometry, counts, cache.pages, list, roles)
    requires list[0] == metaHead && counts[cache.al.geometry.ExtentNo(metaHead)] == AL_ONE_REF
    requires Freed(counts, cache.al.Counts(), roles, DataBelow(|Recorded(cache.pages, list)|))
    modifies cache.al, cache.al.refCount
    ensures cache.al.Valid()
    ensures Freed(counts, cache.al.Counts(), roles, r => true)
  {
    var al := cache.al;
    var g := al.geometry;
    ghost var counts' := al.Counts();
    var metaAddr := metaHead;
    ghost var j := 0;
    SealedList(g, counts, cache.pages, list, roles);
    DataFreed(g, counts, counts', cache.pages, list, roles);
    hide *;
    while true
      invariant j < |list| && metaAddr == list[j]
      invariant al.Valid() && MetasFreed(counts', al.Counts(), roles, First(g, list, j))
      decreases |list| - j
    {
      var lastMetaAddr := metaAddr;
      NextIs(cache.pages, list, j);
      metaAddr := cache.pages[metaAddr].next;
      EndOfExtent(g, counts, counts', al.Counts(), cache.pages, list, roles, j);
      if g.Base(lastMetaAddr) != g.Base(metaAddr) {
        GiveBack(al, g.Base(lastMetaAddr), g.ExtentNo(lastMetaAddr));
      }
      j := j + 1;
      if metaAddr == 0 {
        break;
      }
    }
    AllFreed(g, counts, counts', al.Counts(), cache.pages, list, roles);
  }

  ghost predicate MetasFreed(counts: seq<nat>, counts': seq<nat>, roles: map<nat, Role>, f: nat) {
    Freed(counts, counts', roles, MetaBelow(f))
  }

  /** The extents that are left once the recorded ones are free. */
  ghost predicate MetasLeft(counts: seq<nat>, counts': seq<nat>, roles: map<nat, Role>) {
    && Freed(counts, counts', roles, (r: Role) => r.Data?)
    && (forall x | x in roles :: 0 < x < |counts'| && (roles[x].Meta? || roles[x].Data?))
    && forall x | x in roles && roles[x].Meta? :: counts'[x] == AL_ONE_REF
  }

  lemma DataFreed(g: Geometry, counts: seq<nat>, counts': seq<nat>, pages: map<nat, MetaPage>, list: seq<nat>,
                  roles: map<nat, Role>)
    requires g.Valid() && Sealed(g, counts, pages, list, roles)
    requires counts[g.ExtentNo(list[0])] == AL_ONE_REF
    requires Freed(counts, counts', roles, DataBelow(|Recorded(pages, list)|))
    ensures MetasLeft(counts, counts', roles) && MetasFreed(counts', counts', roles, First(g, list, 0))
  {
    hide Geometry.At, Geometry.ExtentNo, Recorded, Chain, ListOk;
  }

  /** What mini_deinit finds at a page of the list: if the next page, or the end, lies in another
      extent, the extent of this page has one reference, and all extents up to it are done then. */
  lemma EndOfExtent(g: Geometry, counts: seq<nat>, counts': seq<nat>, now: seq<nat>, pages: map<nat, MetaPage>,
                    list: seq<nat>, roles: map<nat, Role>, j: nat)
    requires g.Valid() && Sealed(g, counts, pages, list, roles) && MetasLeft(counts, counts', roles) && j < |list|
    requires MetasFreed(counts', now, roles, First(g, list, j))
    ensures var x, next := g.ExtentNo(list[j]), if j + 1 < |list| then list[j + 1] else 0;
            var f := if j + 1 < |list| then First(g, list, j + 1) else |list|;
            && 0 < x < |now| && now[x] == AL_ONE_REF && g.Base(list[j]) == g.At(x, 0)
            && if g.Base(list[j]) == g.Base(next) then MetasFreed(counts', now, roles, f)
               else MetasFreed(counts', now[x := AL_FREE], roles, f)
  {
    var x, next := g.ExtentNo(list[j]), if j + 1 < |list| then list[j + 1] else 0;
    assert Placed(g, list, roles, j);
    BasesDiffer(g, list[j], next);
    hide Geometry.At, Geometry.ExtentNo, Geometry.Base, Recorded, Chain, RecordedOk, Counted;
    forall y | y in roles && roles[y].Meta? && First(g, list, j) <= roles[y].first <= j ensures y == x {
      FirstBetween(g, list, j, roles[y].first);
    }
    hide ListOk;
  }

  lemma BasesDiffer(g: Geometry, a: nat, b: nat)
    requires g.Valid()
    ensures g.Base(a) == g.At(g.ExtentNo(a), 0)
    ensures g.Base(a) == g.Base(b) <==> g.ExtentNo(a) == g.ExtentNo(b)
    ensures g.ExtentNo(0) == 0
  {
    g.BaseFacts(a);
    g.BaseFacts(b);
    g.AtFacts(0, 0);
  }

  lemma AllFreed(g: Geometry, counts: seq<nat>, counts': seq<nat>, now: seq<nat>, pages: map<nat, MetaPage>,
                 list: seq<nat>, roles: map<nat, Role>)
    requires g.Valid() && Sealed(g, counts, pages, list, roles) && MetasLeft(counts, counts', roles)
    requires MetasFreed(counts', now, roles, |list|)
    ensures Freed(counts, now, roles, r => true)
  {
    hide Geometry.At, Geometry.ExtentNo, Geometry.Base, Recorded, Chain, RecordedOk, Counted;
  }

  // ----- from creation to the last reference

  /** A run of mini_alloc over any batches. */
  method AllocMany(mini: Mini, batches: seq<nat>) returns (ok: bool, addrs: seq<nat>)
    requires mini.Valid() && mini.handed == [] && forall i | 0 <= i < |batches| :: batches[i] < mini.numBatches
    modifies mini, mini.cache, mini.cache.al, mini.cache.al.refCount, mini.nextAddr, mini.nextExtent
    ensures !ok ==> DiskFull(mini.cache.al.Counts())
    ensures ok ==> mini.Valid() && mini.handed == addrs && |addrs| == |batches|
    ensures ok ==> OnlyTaken(old(mini.cache.al.Counts()), mini.cache.al.Counts(), old(mini.roles), mini.roles)
  {
    hide StateOk, OnlyTaken, NothingLoose, Allocator.Valid;
    ghost var c, r := mini.cache.al.Counts(), mini.roles;
    NoneTaken(c, r);
    addrs := [];
    var i := 0;
    while i < |batches|
      invariant i <= |batches| && mini.Valid() && mini.handed == addrs && |addrs| == i
      invariant OnlyTaken(c, mini.cache.al.Counts(), r, mini.roles)
    {
      ghost var c', r' := mini.cache.al.Counts(), mini.roles;
      var addr;
      ok, addr := mini.Alloc(batches[i]);
      if !ok {
        return;
      }
      TakenTwice(c, c', mini.cache.al.Counts(), r, r', mini.roles);
      addrs := addrs + [addr];
      i := i + 1;
    }
    ok := true;
  }

  /** The extent of the first meta page is allocated, then the allocator is set up. */
  method Create(cache: Cache, page: nat, numBatches: nat) returns (ok: bool, mini: Mini?, ghost x: nat)
    requires cache.al.Valid() && cache.al.geometry.pageSize >= META_HDR_SIZE + META_ENTRY_SIZE
    requires page < cache.al.geometry.pagesPerExtent
    modifies cache, cache.al, cache.al.refCount
    ensures !ok ==> DiskFull(cache.al.Counts())
    ensures ok ==> mini != null && fresh(mini) && fresh(mini.nextAddr) && fresh(mini.nextExtent)
    ensures ok ==> mini.Valid() && mini.cache == cache && mini.numBatches == numBatches && mini.handed == []
    ensures ok ==> x < |old(cache.al.Counts())| && old(cache.al.Counts())[x] == AL_FREE
    ensures ok ==> mini.list != [] && cache.al.geometry.ExtentNo(mini.list[0]) == x
    ensures ok ==> OnlyTaken(old(cache.al.Counts())[x := MINI_NO_REFS + 1], cache.al.Counts(), map[x := Meta(0)], mini.roles)
  {
    hide StateOk, OnlyTaken, NothingLoose, InUse, Geometry.At, Geometry.ExtentNo, Geometry.PageNo, HeadPage;
    var base;
    mini, x := null, 0;
    ok, base := cache.al.Alloc();
    if !ok {
      return;
    }
    x := cache.al.geometry.ExtentNo(base);
    var metaHead := base + page * cache.al.geometry.pageSize;
    PageOfExtent(cache.al.geometry, x, page, metaHead);
    mini := new Mini(cache, metaHead, numBatches);
    assert cache.al.Counts() == old(cache.al.Counts())[x := MINI_NO_REFS + 1];
    ok := mini.TakeExtents();
  }

  lemma PageOfExtent(g: Geometry, x: nat, page: nat, metaHead: nat)
    requires g.Valid() && x > 0 && page < g.pagesPerExtent && metaHead == g.At(x, 0) + page * g.pageSize
    ensures HeadPage(g, metaHead) && g.ExtentNo(metaHead) == x
  {
    assert metaHead == g.At(x, page);
    g.AtFacts(x, page);
  }

  /** What users do after the release: they take and give references. */
  datatype Call = Take | Give

  /** The number of users after some calls; the creator is the first one. */
  function Users(calls: seq<Call>): int {
    if calls == [] then 1
    else Users(calls[..|calls| - 1]) + if calls[|calls| - 1].Take? then 1 else -1
  }

  /** Only users call, and the last one gives up its reference in the end. */
  ghost predicate UntilLast(calls: seq<Call>) {
    Users(calls) == 0 && forall i | 0 <= i < |calls| :: Users(calls[..i]) > 0
  }

  function WithUsers(counts: seq<nat>, x: nat, users: nat): seq<nat>
    requires x < |counts|
  {
    counts[x := MINI_NO_REFS + users]
  }

  ghost predicate InUseBy(g: Geometry, counts0: seq<nat>, counts: seq<nat>, pages: map<nat, MetaPage>, list: seq<nat>,
                          roles: map<nat, Role>, x: nat, users: int)
    requires g.Valid()
  {
    && users >= 0 && x < |counts0|
    && (users > 0 ==> Sealed(g, counts, pages, list, roles) && counts == WithUsers(counts0, x, users))
    && (users == 0 ==> Freed(counts0, counts, roles, r => true))
  }

  /** One user more, or one less. */
  method OneCall(cache: Cache, metaHead: nat, call: Call, ghost list: seq<nat>, ghost roles: map<nat, Role>,
                 ghost counts: seq<nat>, ghost x: nat, ghost before: nat)
    returns (users: nat)
    requires cache.al.Valid() && before > 0 && x in roles && list != [] && list[0] == metaHead
    requires InUseBy(cache.al.geometry, counts, cache.al.Counts(), cache.pages, list, roles, x, before)
    requires x == cache.al.geometry.ExtentNo(metaHead)
    modifies cache.al, cache.al.refCount
    ensures cache.al.Valid()
    ensures users == before + if call.Take? then 1 else -1
    ensures InUseBy(cache.al.geometry, counts, cache.al.Counts(), cache.pages, list, roles, x, users)
  {
    hide Sealed, Freed, Geometry.ExtentNo;
    if call.Take? {
      users := IncRef(cache, metaHead);
      OneUserMore(cache.al.geometry, WithUsers(counts, x, before), cache.pages, list, roles, x, users);
    } else {
      users := DecRef(cache, metaHead, list, roles);
      if users == 0 {
        FreedAnyway(counts, x, 1, cache.al.Counts(), roles);
      }
    }
    assert WithUsers(WithUsers(counts, x, before), x, users) == WithUsers(counts, x, users);
  }

  /** References taken and given in any order, until nobody is left. */
  method Use(cache: Cache, metaHead: nat, calls: seq<Call>, ghost list: seq<nat>, ghost roles: map<nat, Role>, ghost x: nat)
    returns (results: seq<nat>)
    requires cache.al.Valid() && Sealed(cache.al.geometry, cache.al.Counts(), cache.pages, list, roles)
    requires list[0] == metaHead && x == cache.al.geometry.ExtentNo(metaHead) < |cache.al.Counts()| && x in roles
    requires cache.al.Counts()[x] == MINI_NO_REFS + 1 && UntilLast(calls)
    modifies cache.al, cache.al.refCount
    ensures cache.al.Valid() && Freed(old(cache.al.Counts()), cache.al.Counts(), roles, r => true)
    ensures |results| == |calls| && forall i | 0 <= i < |calls| :: results[i] == Users(calls[..i + 1])
  {
    ghost var counts := cache.al.Counts();
    results := [];
    FirstUser(cache.al.geometry, counts, cache.pages, list, roles, x, calls);
    hide *;
    while |results| < |calls|
      invariant |results| <= |calls| && cache.al.Valid()
      invariant forall i | 0 <= i < |results| :: results[i] == Users(calls[..i + 1])
      invariant InUseBy(cache.al.geometry, counts, cache.al.Counts(), cache.pages, list, roles, x, Users(calls[..|results|]))
    {
      var i := |results|;
      CallsBefore(calls, i);
      var users := OneCall(cache, metaHead, calls[i], list, roles, counts, x, Users(calls[..i]));
      results := results + [users];
    }
    LastUser(cache.al.geometry, counts, cache.al.Counts(), cache.pages, list, roles, x, calls);
  }

  lemma FirstUser(g: Geometry, counts: seq<nat>, pages: map<nat, MetaPage>, list: seq<nat>, roles: map<nat, Role>,
                  x: nat, calls: seq<Call>)
    requires g.Valid() && Sealed(g, counts, pages, list, roles) && x < |counts| && counts[x] == MINI_NO_REFS + 1
    ensures InUseBy(g, counts, counts, pages, list, roles, x, Users(calls[..0])) && list != []
  {
    assert WithUsers(counts, x, 1) == counts;
  }

  lemma LastUser(g: Geometry, counts: seq<nat>, final: seq<nat>, pages: map<nat, MetaPage>, list: seq<nat>,
                 roles: map<nat, Role>, x: nat, calls: seq<Call>)
    requires g.Valid() && UntilLast(calls)
    requires InUseBy(g, counts, final, pages, list, roles, x, Users(calls[..|calls|]))
    ensures Freed(counts, final, roles, r => true)
  {
    assert calls[..|calls|] == calls;
  }

  lemma CallsBefore(calls: seq<Call>, i: nat)
    requires i < |calls|
    ensures Users(calls[..i + 1]) == Users(calls[..i]) + if calls[i].Take? then 1 else -1
    ensures UntilLast(calls) ==> Users(calls[..i]) > 0
  {
    assert calls[..i + 1][..i] == calls[..i];
  }

  lemma OneUserMore(g: Geometry, counts: seq<nat>, pages: map<nat, MetaPage>, list: seq<nat>, roles: map<nat, Role>,
                    x: nat, users: nat)
    requires g.Valid() && Sealed(g, counts, pages, list, roles) && x == g.ExtentNo(list[0]) < |counts| && users > 0
    ensures Sealed(g, WithUsers(counts, x, users), pages, list, roles)
  {
    hide Chain, ListOk, RecordedOk, Geometry.ExtentNo;
  }

  /** The count of an extent that is given back does not matter. */
  lemma FreedAnyway(counts: seq<nat>, x: nat, users: nat, final: seq<nat>, roles: map<nat, Role>)
    requires x < |counts| && x in roles && Freed(WithUsers(counts, x, users), final, roles, r => true)
    ensures Freed(counts, final, roles, r => true)
  {
  }

  /** The end of the allocator, and of all its users. */
  method Destroy(mini: Mini, calls: seq<Call>, ghost x: nat) returns (results: seq<nat>)
    requires mini.Valid() && x == mini.cache.al.geometry.ExtentNo(mini.list[0])
    requires mini.cache.al.Counts()[x] == MINI_NO_REFS + 1 && UntilLast(calls)
    modifies mini.cache.al, mini.cache.al.refCount
    ensures Freed(old(mini.cache.al.Counts()), mini.cache.al.Counts(), mini.roles, r => true)
    ensures |results| == |calls| && forall i | 0 <= i < |calls| :: results[i] == Users(calls[..i + 1])
  {
    ghost var s := mini.Abs();
    ghost var al := mini.cache.al;
    HeadKept(al.geometry, s);
    Release(mini);
    ghost var released := al.Counts();
    hide StateOk, NothingLoose, InUse, Geometry.At, Geometry.ExtentNo, Sealed, UntilLast, Users;
    results := Use(mini.cache, mini.metaHead, calls, mini.list, WithoutSpares(mini.roles), x);
    FreedTwice(s.counts, released, al.Counts(), s.roles, mini.numBatches);
  }

  lemma HeadKept(g: Geometry, s: State)
    requires g.Valid() && StateOk(g, s, |s.nextAddr|)
    ensures s.list != []
    ensures var x := g.ExtentNo(s.list[0]);
            x in s.roles && s.roles[x].Meta? && x < |s.counts|
    ensures forall y | y in s.roles && s.roles[y].Spare? :: s.roles[y].batch < |s.nextAddr|
  {
  }

  lemma FreedTwice(counts: seq<nat>, released: seq<nat>, final: seq<nat>, roles: map<nat, Role>, numBatches: nat)
    requires Freed(counts, released, roles, SpareBelow(numBatches))
    requires Freed(released, final, WithoutSpares(roles), r => true)
    requires forall y | y in roles && roles[y].Spare? :: roles[y].batch < numBatches
    ensures Freed(counts, final, roles, r => true)
  {
  }

  /** The whole life of an allocator: an extent is allocated for its first meta page, pages are handed
      out from any batches, and references are taken and given by any users until the last one has
      given up its own.  All reference counts are then what they were, and every page handed out was
      the allocator's alone. */
  method Lifetime(cache: Cache, page: nat, numBatches: nat, batches: seq<nat>, calls: seq<Call>)
    returns (ok: bool, addrs: seq<nat>, results: seq<nat>, ghost metaPages: seq<nat>, ghost recorded: seq<nat>)
    requires cache.al.Valid() && cache.al.geometry.pageSize >= META_HDR_SIZE + META_ENTRY_SIZE
    requires page < cache.al.geometry.pagesPerExtent
    requires forall i | 0 <= i < |batches| :: batches[i] < numBatches
    requires UntilLast(calls)
    modifies cache, cache.al, cache.al.refCount
    ensures !ok ==> DiskFull(cache.al.Counts())
    ensures ok ==> cache.al.Counts() == old(cache.al.Counts()) && |addrs| == |batches|
    ensures ok ==> forall i | 0 <= i < |addrs| :: OwnPage(cache.al.geometry, addrs, i, metaPages, recorded)
    ensures ok ==> |results| == |calls| && forall i | 0 <= i < |calls| :: results[i] == Users(calls[..i + 1])
  {
    ghost var counts := cache.al.Counts();
    addrs, results, metaPages, recorded := [], [], [], [];
    hide StateOk, OnlyTaken, NothingLoose, InUse, Geometry.At, Geometry.ExtentNo, OwnPage, Recorded, Freed, UntilLast,
      Users;
    var mini;
    ghost var x;
    ok, mini, x := Create(cache, page, numBatches);
    if !ok {
      return;
    }
    ghost var c', r' := cache.al.Counts(), mini.roles;
    ok, addrs := AllocMany(mini, batches);
    if !ok {
      return;
    }
    ghost var s := mini.Abs();
    TakenTwice(counts[x := MINI_NO_REFS + 1], c', s.counts, map[x := Meta(0)], r', s.roles);
    metaPages, recorded := s.list, Recorded(s.pages, s.list);
    OwnPages(cache.al.geometry, s);
    HeadOnce(counts, x, s);
    results := Destroy(mini, calls, x);
    BackToStart(counts, x, s.counts, cache.al.Counts(), s.roles);
  }

  /** A page handed out: page-aligned, in a recorded extent, in no extent of a meta page, and
      different from all others. */
  ghost predicate OwnPage(g: Geometry, addrs: seq<nat>, i: nat, metaPages: seq<nat>, recorded: seq<nat>)
    requires g.Valid() && i < |addrs|
  {
    && addrs[i] % g.pageSize == 0 && g.Base(addrs[i]) in recorded
    && (forall j | 0 <= j < |metaPages| :: g.Base(metaPages[j]) != g.Base(addrs[i]))
    && forall j | 0 <= j < |addrs| && j != i :: addrs[j] != addrs[i]
  }

  lemma OwnPages(g: Geometry, s: State)
    requires g.Valid() && StateOk(g, s, |s.nextAddr|)
    ensures forall i | 0 <= i < |s.handed| :: OwnPage(g, s.handed, i, s.list, Recorded(s.pages, s.list))
  {
    hide StateOk, Recorded, Geometry.Base;
    forall i | 0 <= i < |s.handed| ensures OwnPage(g, s.handed, i, s.list, Recorded(s.pages, s.list)) {
      HandedOut(g, s, |s.nextAddr|, i);
    }
  }

  lemma HeadOnce(counts: seq<nat>, x: nat, s: State)
    requires x < |counts| && OnlyTaken(counts[x := MINI_NO_REFS + 1], s.counts, map[x := Meta(0)], s.roles)
    ensures x < |s.counts| && s.counts[x] == MINI_NO_REFS + 1
  {
  }

  /** Extents were taken when free, and all of them are free again. */
  lemma BackToStart(counts: seq<nat>, x: nat, used: seq<nat>, final: seq<nat>, roles: map<nat, Role>)
    requires x < |counts| && counts[x] == AL_FREE
    requires OnlyTaken(counts[x := MINI_NO_REFS + 1], used, map[x := Meta(0)], roles)
    requires Freed(used, final, roles, r => true)
    ensures final == counts
  {
    assert x in roles;
    forall y | 0 <= y < |counts| ensures final[y] == counts[y] {
    }
  }
}
