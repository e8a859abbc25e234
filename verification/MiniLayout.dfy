/** What a mini allocator owns: the roles of its extents, and its list of meta pages. */
module MiniLayout {
  import opened Modulo
  import opened RcAllocator

  const META_HDR_SIZE := 20
  const META_ENTRY_SIZE := 8

  /** A page of the list of recorded extents; `next` is 0 on the last one. */
  datatype MetaPage = MetaPage(next: nat, pos: nat, entries: seq<nat>)

  /** The part that an extent plays: the list of meta pages enters it with page number `first`; it
      is the recorded extent number `index` and `used` of its pages have been handed out; it is
      kept as the next extent of a batch; or it has just left that place and is not yet recorded. */
  datatype Role = Meta(first: nat) | Data(index: nat, batch: nat, used: nat) | Spare(batch: nat) | Loose

  /** The index of the first page of the list that lies in the same extent, without a gap. */
  ghost function First(g: Geometry, list: seq<nat>, j: nat): (f: nat)
    requires g.Valid() && j < |list|
    ensures f <= j && g.ExtentNo(list[f]) == g.ExtentNo(list[j])
  {
    if j > 0 && g.ExtentNo(list[j - 1]) == g.ExtentNo(list[j]) then First(g, list, j - 1) else j
  }

  lemma {:induction false} FirstBetween(g: Geometry, list: seq<nat>, j: nat, i: nat)
    requires g.Valid() && j < |list| && First(g, list, j) <= i <= j
    ensures First(g, list, i) == First(g, list, j)
  {
    if i < j {
      FirstBetween(g, list, j - 1, i);
    }
  }

  lemma {:induction false} FirstPrefix(g: Geometry, list: seq<nat>, addr: nat, j: nat)
    requires g.Valid() && j < |list|
    ensures First(g, list + [addr], j) == First(g, list, j)
  {
    if j > 0 {
      FirstPrefix(g, list, addr, j - 1);
    }
  }

  /** The pages of the list in the order of their `next` links. */
  ghost predicate Chain(pages: map<nat, MetaPage>, list: seq<nat>) {
    && list != []
    && forall j | 0 <= j < |list| :: Link(pages, list, j)
  }

  ghost predicate Link(pages: map<nat, MetaPage>, list: seq<nat>, j: nat)
    requires j < |list|
  {
    && list[j] > 0 && list[j] in pages
    && pages[list[j]].next == (if j + 1 < |list| then list[j + 1] else 0)
    && pages[list[j]].pos == META_HDR_SIZE + META_ENTRY_SIZE * |pages[list[j]].entries|
  }

  /** All recorded extents, in the order in which the list holds them. */
  ghost function Recorded(pages: map<nat, MetaPage>, list: seq<nat>): seq<nat>
  {
    if list == [] then []
    else Recorded(pages, list[..|list| - 1]) + EntriesOf(pages, list[|list| - 1])
  }

  ghost function EntriesOf(pages: map<nat, MetaPage>, addr: nat): seq<nat> {
    if addr in pages then pages[addr].entries else []
  }

  /** A page of the list lies in an extent with the matching role, and the pages in one extent
      follow each other. */
  ghost predicate Placed(g: Geometry, list: seq<nat>, roles: map<nat, Role>, j: nat)
    requires g.Valid() && j < |list|
  {
    var x, f := g.ExtentNo(list[j]), First(g, list, j);
    && x in roles && roles[x] == Meta(f)
    && g.PageNo(list[j]) == g.PageNo(list[f]) + j - f < g.pagesPerExtent
    && list[j] == g.At(x, g.PageNo(list[j]))
  }

  ghost predicate ListOk(g: Geometry, list: seq<nat>, roles: map<nat, Role>)
    requires g.Valid()
  {
    && (forall j | 0 <= j < |list| :: Placed(g, list, roles, j))
    && forall x | x in roles && roles[x].Meta? ::
         roles[x].first < |list| && First(g, list, roles[x].first) == roles[x].first
         && g.ExtentNo(list[roles[x].first]) == x
  }

  lemma ListDistinct(g: Geometry, list: seq<nat>, roles: map<nat, Role>, i: nat, j: nat)
    requires g.Valid() && ListOk(g, list, roles) && i < |list| && j < |list| && list[i] == list[j]
    ensures i == j
  {
    assert Placed(g, list, roles, i) && Placed(g, list, roles, j);
  }

  ghost predicate RecordedOk(g: Geometry, recorded: seq<nat>, roles: map<nat, Role>)
    requires g.Valid()
  {
    && (forall i | 0 <= i < |recorded| ::
          var x := g.ExtentNo(recorded[i]);
          x in roles && roles[x].Data? && roles[x].index == i && recorded[i] == g.At(x, 0))
    && forall x | x in roles && roles[x].Data? ::
         && roles[x].index < |recorded| && recorded[roles[x].index] == g.At(x, 0)
         && roles[x].used <= g.pagesPerExtent
  }

  /** The owned extents hold one reference each; the first meta extent holds those of the users of
      the allocator besides. */
  ghost predicate Counted(counts: seq<nat>, roles: map<nat, Role>, head: nat) {
    && head in roles && roles[head].Meta?
    && forall x | x in roles ::
         0 < x < |counts| && if x == head then counts[x] >= AL_ONE_REF else counts[x] == AL_ONE_REF
  }

  /** The extents that `roles'` has beyond `roles` were free and are taken; no other count moved. */
  ghost predicate OnlyTaken(counts: seq<nat>, counts': seq<nat>, roles: map<nat, Role>, roles': map<nat, Role>) {
    && |counts'| == |counts| && roles.Keys <= roles'.Keys
    && (forall x | x in roles' && x !in roles && x < |counts| :: counts[x] == AL_FREE)
    && forall x | 0 <= x < |counts| && (x in roles || x !in roles') :: counts'[x] == counts[x]
  }

  lemma NoneTaken(counts: seq<nat>, roles: map<nat, Role>)
    ensures OnlyTaken(counts, counts, roles, roles)
  {
  }

  lemma TakenTwice(c: seq<nat>, c': seq<nat>, c'': seq<nat>, roles: map<nat, Role>, roles': map<nat, Role>,
                   roles'': map<nat, Role>)
    requires OnlyTaken(c, c', roles, roles') && OnlyTaken(c', c'', roles', roles'')
    ensures OnlyTaken(c, c'', roles, roles'')
  {
  }

  ghost predicate BatchOk(g: Geometry, b: nat, nextAddr: nat, nextExtent: nat, current: nat, roles: map<nat, Role>)
    requires g.Valid()
  {
    && (var x := g.ExtentNo(nextExtent);
        x in roles && roles[x] == Spare(b) && nextExtent == g.At(x, 0))
    && (nextAddr != 0 ==>
          && current in roles && roles[current].Data? && roles[current].batch == b
          && roles[current].used > 0 && nextAddr == g.At(current, roles[current].used))
  }

  ghost predicate SparesOk(g: Geometry, nextExtent: seq<nat>, roles: map<nat, Role>) {
    forall x | x in roles && roles[x].Spare? ::
      roles[x].batch < |nextExtent| && nextExtent[roles[x].batch] == g.At(x, 0)
  }

  /** The addresses handed out so far are pages of recorded extents, below the number of used ones. */
  ghost predicate HandedOk(g: Geometry, handed: seq<nat>, roles: map<nat, Role>)
    requires g.Valid()
  {
    && (forall i | 0 <= i < |handed| :: PageHanded(g, handed[i], roles))
    && forall i, j | 0 <= i < j < |handed| :: handed[i] != handed[j]
  }

  ghost predicate PageHanded(g: Geometry, addr: nat, roles: map<nat, Role>)
    requires g.Valid()
  {
    var x := g.ExtentNo(addr);
    && x in roles && roles[x].Data? && g.PageNo(addr) < roles[x].used
    && addr == g.At(x, g.PageNo(addr))
  }

  // ----- the list of meta pages

  /** One more entry on the last page. */
  lemma EntryAppended(g: Geometry, pages: map<nat, MetaPage>, list: seq<nat>, roles: map<nat, Role>, entry: nat)
    requires g.Valid() && Chain(pages, list) && ListOk(g, list, roles) && list[|list| - 1] in pages
    ensures var tail := list[|list| - 1];
            var page := pages[tail];
            var pages' := pages[tail := MetaPage(page.next, page.pos + META_ENTRY_SIZE, page.entries + [entry])];
            Chain(pages', list) && Recorded(pages', list) == Recorded(pages, list) + [entry]
  {
    var n := |list| - 1;
    var tail := list[n];
    assert Link(pages, list, n);
    var page := pages[tail];
    var pages' := pages[tail := MetaPage(page.next, page.pos + META_ENTRY_SIZE, page.entries + [entry])];
    forall j | 0 <= j < |list| ensures Link(pages', list, j) && (j < n ==> pages'[list[j]] == pages[list[j]]) {
      assert Link(pages, list, j);
      if list[j] == tail {
        ListDistinct(g, list, roles, j, n);
      }
    }
    RecordedSame(pages, pages', list[..n]);
  }

  lemma {:induction false} RecordedSame(pages: map<nat, MetaPage>, pages': map<nat, MetaPage>, list: seq<nat>)
    requires forall j | 0 <= j < |list| :: EntriesOf(pages', list[j]) == EntriesOf(pages, list[j])
    ensures Recorded(pages', list) == Recorded(pages, list)
  {
    if list != [] {
      RecordedSame(pages, pages', list[..|list| - 1]);
    }
  }

  /** A new empty page behind the last one. */
  lemma PageAppended(g: Geometry, pages: map<nat, MetaPage>, list: seq<nat>, roles: map<nat, Role>, addr: nat)
    requires g.Valid() && Chain(pages, list) && ListOk(g, list, roles) && list[|list| - 1] in pages
    requires addr > 0 && addr !in list
    ensures var tail := list[|list| - 1];
            var pages' := pages[tail := pages[tail].(next := addr)][addr := MetaPage(0, META_HDR_SIZE, [])];
            Chain(pages', list + [addr]) && Recorded(pages', list + [addr]) == Recorded(pages, list)
  {
    var n := |list| - 1;
    var tail := list[n];
    assert Link(pages, list, n);
    var pages' := pages[tail := pages[tail].(next := addr)][addr := MetaPage(0, META_HDR_SIZE, [])];
    var list' := list + [addr];
    forall j | 0 <= j < |list'| ensures Link(pages', list', j) {
      if j < |list| {
        assert Link(pages, list, j);
        if list[j] == tail {
          ListDistinct(g, list, roles, j, n);
        }
      }
    }
    assert list'[..|list|] == list;
    RecordedSame(pages, pages', list);
  }

  lemma NextPage(g: Geometry, x: nat, p: nat)
    requires g.Valid() && p < g.pagesPerExtent && (g.At(x, p) + g.pageSize) % g.ExtentSize() != 0
    ensures var addr := g.At(x, p) + g.pageSize;
            && p + 1 < g.pagesPerExtent && addr == g.At(x, p + 1) && addr > 0
            && g.ExtentNo(addr) == x && g.PageNo(addr) == p + 1
  {
    g.AtNext(x, p);
    if p + 1 == g.pagesPerExtent {
      g.AtEnd(x);
    }
    g.AtFacts(x, p + 1);
  }

  /** The next page lies in the extent of the last one. */
  lemma ListGrowsInExtent(g: Geometry, list: seq<nat>, roles: map<nat, Role>)
    requires g.Valid() && list != [] && ListOk(g, list, roles)
    requires (list[|list| - 1] + g.pageSize) % g.ExtentSize() != 0
    ensures var addr := list[|list| - 1] + g.pageSize;
            addr > 0 && addr !in list && ListOk(g, list + [addr], roles)
  {
    var n := |list| - 1;
    var addr := list[n] + g.pageSize;
    assert Placed(g, list, roles, n);
    NextPage(g, g.ExtentNo(list[n]), g.PageNo(list[n]));
    hide Geometry.At, Geometry.ExtentNo, Geometry.PageNo, ListOk;
    FirstPrefix(g, list, addr, n);
    FirstOfNext(g, list, addr);
    ListGrows(g, list, roles, addr, roles);
    NotYetListed(g, list, roles, addr);
  }

  lemma FirstOfNext(g: Geometry, list: seq<nat>, addr: nat)
    requires g.Valid() && list != []
    ensures First(g, list + [addr], |list|)
         == if g.ExtentNo(addr) == g.ExtentNo(list[|list| - 1]) then First(g, list, |list| - 1) else |list|
  {
    FirstPrefix(g, list, addr, |list| - 1);
  }

  lemma NotYetListed(g: Geometry, list: seq<nat>, roles: map<nat, Role>, addr: nat)
    requires g.Valid() && ListOk(g, list + [addr], roles)
    ensures addr !in list
  {
    hide ListOk;
    forall j | 0 <= j < |list| ensures list[j] != addr {
      if list[j] == addr {
        ListDistinct(g, list + [addr], roles, j, |list|);
      }
    }
  }

  lemma ListGrowsToExtent(g: Geometry, list: seq<nat>, roles: map<nat, Role>, x: nat)
    requires g.Valid() && list != [] && ListOk(g, list, roles) && x !in roles && x > 0
    ensures var addr := g.At(x, 0);
            addr > 0 && addr !in list && ListOk(g, list + [addr], roles[x := Meta(|list|)])
  {
    var addr := g.At(x, 0);
    g.AtFacts(x, 0);
    g.AtAligned(x, 0);
    assert Placed(g, list, roles, |list| - 1);
    hide Geometry.At, Geometry.ExtentNo, Geometry.PageNo, ListOk;
    FirstOfNext(g, list, addr);
    ListGrows(g, list, roles, addr, roles[x := Meta(|list|)]);
    NotYetListed(g, list, roles[x := Meta(|list|)], addr);
  }

  /** The pages that were in the list stay placed. */
  lemma ListGrows(g: Geometry, list: seq<nat>, roles: map<nat, Role>, addr: nat, roles': map<nat, Role>)
    requires g.Valid() && list != [] && ListOk(g, list, roles)
    requires forall x | x in roles :: x in roles' && roles'[x] == roles[x]
    requires forall x | x in roles' && x !in roles && roles'[x].Meta? ::
               x == g.ExtentNo(addr) && roles'[x].first == |list|
    requires Placed(g, list + [addr], roles', |list|)
    ensures ListOk(g, list + [addr], roles')
  {
    var list' := list + [addr];
    forall j | 0 <= j < |list'| ensures Placed(g, list', roles', j) {
      if j < |list| {
        assert Placed(g, list, roles, j);
        FirstPrefix(g, list, addr, j);
      }
    }
    forall x | x in roles' && roles'[x].Meta?
      ensures roles'[x].first < |list'| && First(g, list', roles'[x].first) == roles'[x].first
      ensures g.ExtentNo(list'[roles'[x].first]) == x
    {
      if x in roles {
        FirstPrefix(g, list, addr, roles[x].first);
      }
    }
  }

  // ----- the state of a mini allocator

  /** What a mini allocator and the allocator of extents hold: the counts of all extents, the meta
      pages, and for each batch the next address and the next extent.  `list`, `roles`, `current`
      (the extent a batch takes pages from) and `handed` (all addresses given out) record how this
      came about. */
  datatype State = State(counts: seq<nat>, pages: map<nat, MetaPage>, list: seq<nat>, roles: map<nat, Role>,
                               nextAddr: seq<nat>, nextExtent: seq<nat>, current: seq<nat>, handed: seq<nat>)

  /** The meta pages and the extents. */
  ghost predicate Owned(g: Geometry, s: State)
    requires g.Valid()
  {
    && Chain(s.pages, s.list)
    && ListOk(g, s.list, s.roles)
    && RecordedOk(g, Recorded(s.pages, s.list), s.roles)
    && Counted(s.counts, s.roles, g.ExtentNo(s.list[0]))
  }

  ghost predicate BatchesOk(g: Geometry, s: State, ready: nat)
    requires g.Valid()
  {
    && |s.nextAddr| == |s.nextExtent| == |s.current| && ready <= |s.nextAddr|
    && (forall b | 0 <= b < ready :: BatchOk(g, b, s.nextAddr[b], s.nextExtent[b], s.current[b], s.roles))
    && (forall b | ready <= b < |s.nextAddr| :: s.nextAddr[b] == 0)
    && SparesOk(g, s.nextExtent[..ready], s.roles)
  }

  /** The state with the first `ready` batches set up. */
  ghost predicate StateOk(g: Geometry, s: State, ready: nat)
    requires g.Valid()
  {
    Owned(g, s) && BatchesOk(g, s, ready) && HandedOk(g, s.handed, s.roles)
  }

  ghost predicate NothingLoose(roles: map<nat, Role>) {
    forall x | x in roles :: !roles[x].Loose?
  }

  ghost predicate OnlyLoose(roles: map<nat, Role>, x: nat) {
    x in roles && roles[x].Loose? && forall y | y in roles && y != x :: !roles[y].Loose?
  }

  /** A list of one empty page. */
  lemma FreshOk(g: Geometry, s: State)
    requires g.Valid() && |s.list| == 1 && s.handed == []
    requires var x := g.ExtentNo(s.list[0]);
             && s.roles == map[x := Meta(0)] && 0 < x < |s.counts| && s.counts[x] > AL_ONE_REF
             && g.PageNo(s.list[0]) < g.pagesPerExtent && s.list[0] == g.At(x, g.PageNo(s.list[0]))
    requires s.list[0] in s.pages && s.pages[s.list[0]] == MetaPage(0, META_HDR_SIZE, [])
    requires |s.nextAddr| == |s.nextExtent| == |s.current|
    requires forall b | 0 <= b < |s.nextAddr| :: s.nextAddr[b] == 0
    ensures StateOk(g, s, 0)
  {
    g.AtAligned(g.ExtentNo(s.list[0]), g.PageNo(s.list[0]));
    hide Geometry.At, Geometry.ExtentNo, Geometry.PageNo;
    assert Link(s.pages, s.list, 0);
    assert Placed(g, s.list, s.roles, 0);
    assert s.list[..0] == [] && Recorded(s.pages, []) == [];
    assert Recorded(s.pages, s.list) == [];
  }

  // ----- what a change of roles keeps

  lemma ListKept(g: Geometry, list: seq<nat>, roles: map<nat, Role>, roles': map<nat, Role>)
    requires g.Valid() && ListOk(g, list, roles)
    requires forall x | x in roles && roles[x].Meta? :: x in roles' && roles'[x] == roles[x]
    requires forall x | x in roles' && roles'[x].Meta? :: x in roles && roles'[x] == roles[x]
    ensures ListOk(g, list, roles')
  {
    forall j | 0 <= j < |list| ensures Placed(g, list, roles', j) {
      assert Placed(g, list, roles, j);
    }
  }

  lemma HandedKept(g: Geometry, handed: seq<nat>, roles: map<nat, Role>, roles': map<nat, Role>)
    requires g.Valid() && HandedOk(g, handed, roles)
    requires forall x | x in roles && roles[x].Data? ::
               x in roles' && roles'[x].Data? && roles'[x].used >= roles[x].used
    ensures HandedOk(g, handed, roles')
  {
    forall i | 0 <= i < |handed| ensures PageHanded(g, handed[i], roles') {
      assert PageHanded(g, handed[i], roles);
    }
  }

  // ----- the steps

  /** A free extent becomes the next one of a batch; the one that was next is to be recorded. */
  ghost function TakeNext(g: Geometry, s: State, b: nat, x: nat): State
    requires g.Valid() && b < |s.nextExtent| && x < |s.counts|
  {
    s.(counts := s.counts[x := AL_ONE_REF], nextExtent := s.nextExtent[b := g.At(x, 0)],
       roles := s.roles[g.ExtentNo(s.nextExtent[b]) := Loose][x := Spare(b)])
  }

  lemma TakeNextOk(g: Geometry, s: State, b: nat, x: nat)
    requires g.Valid() && StateOk(g, s, |s.nextAddr|) && NothingLoose(s.roles)
    requires b < |s.nextExtent| && 0 < x < |s.counts| && s.counts[x] == AL_FREE
    ensures var s' := TakeNext(g, s, b, x);
            var y := g.ExtentNo(s.nextExtent[b]);
            && StateOk(g, s', |s.nextAddr|) && OnlyLoose(s'.roles, y) && s.nextExtent[b] == g.At(y, 0)
            && OnlyTaken(s.counts, s'.counts, s.roles, s'.roles) && |s'.roles| == |s.roles| + 1
  {
    var s' := TakeNext(g, s, b, x);
    var y := g.ExtentNo(s.nextExtent[b]);
    assert BatchOk(g, b, s.nextAddr[b], s.nextExtent[b], s.current[b], s.roles);
    assert x !in s.roles;
    assert s'.roles.Keys == s.roles.Keys + {x};
    assert s'.roles[y] == Loose && s'.roles[x] == Spare(b) && x != y;
    assert forall z | z in s.roles && z != y :: s'.roles[z] == s.roles[z];
    TakeNextBatches(g, s, b, x);
    hide Geometry.At, Geometry.ExtentNo, Geometry.PageNo, Recorded, ListOk, HandedOk, Chain, BatchesOk;
    ListKept(g, s.list, s.roles, s'.roles);
    HandedKept(g, s.handed, s.roles, s'.roles);
    RecordedKept(g, Recorded(s.pages, s.list), s.roles, s'.roles);
    hide RecordedOk;
  }

  lemma TakeNextBatches(g: Geometry, s: State, b: nat, x: nat)
    requires g.Valid() && BatchesOk(g, s, |s.nextAddr|)
    requires b < |s.nextExtent| && x < |s.counts| && x !in s.roles
    ensures BatchesOk(g, TakeNext(g, s, b, x), |s.nextAddr|)
  {
    var s' := TakeNext(g, s, b, x);
    var y := g.ExtentNo(s.nextExtent[b]);
    g.AtFacts(x, 0);
    hide Geometry.At, Geometry.ExtentNo, Geometry.PageNo;
    assert BatchOk(g, b, s.nextAddr[b], s.nextExtent[b], s.current[b], s.roles);
    assert s.nextExtent[..|s.nextAddr|] == s.nextExtent && s'.nextExtent[..|s.nextAddr|] == s'.nextExtent;
    TakeNextSpares(g, s.nextExtent, s.roles, b, x, y);
    hide SparesOk;
    forall c | 0 <= c < |s'.nextAddr|
      ensures BatchOk(g, c, s'.nextAddr[c], s'.nextExtent[c], s'.current[c], s'.roles)
    {
      assert BatchOk(g, c, s.nextAddr[c], s.nextExtent[c], s.current[c], s.roles);
    }
  }

  lemma TakeNextSpares(g: Geometry, nextExtent: seq<nat>, roles: map<nat, Role>, b: nat, x: nat, y: nat)
    requires g.Valid() && SparesOk(g, nextExtent, roles) && b < |nextExtent| && x !in roles
    requires y in roles && roles[y] == Spare(b) && nextExtent[b] == g.At(y, 0) && y == g.ExtentNo(nextExtent[b])
    ensures SparesOk(g, nextExtent[b := g.At(x, 0)], roles[y := Loose][x := Spare(b)])
  {
    forall z | z in roles && z != y ensures roles[z] != Spare(b) {
      g.AtFacts(z, 0);
    }
    hide Geometry.At, Geometry.ExtentNo, Geometry.PageNo;
  }

  /** The first next extent of a batch. */
  ghost function TakeFirst(g: Geometry, s: State, b: nat, x: nat): State
    requires g.Valid() && b < |s.nextExtent| && x < |s.counts|
  {
    s.(counts := s.counts[x := AL_ONE_REF], nextExtent := s.nextExtent[b := g.At(x, 0)],
       roles := s.roles[x := Spare(b)])
  }

  lemma TakeFirstOk(g: Geometry, s: State, b: nat, x: nat)
    requires g.Valid() && StateOk(g, s, b) && NothingLoose(s.roles)
    requires b < |s.nextExtent| && 0 < x < |s.counts| && s.counts[x] == AL_FREE
    ensures var s' := TakeFirst(g, s, b, x);
            && StateOk(g, s', b + 1) && NothingLoose(s'.roles)
            && OnlyTaken(s.counts, s'.counts, s.roles, s'.roles) && |s'.roles| == |s.roles| + 1
  {
    var s' := TakeFirst(g, s, b, x);
    assert x !in s.roles;
    assert s'.roles.Keys == s.roles.Keys + {x};
    TakeFirstBatches(g, s, b, x);
    hide Geometry.At, Geometry.ExtentNo, Geometry.PageNo, Recorded, ListOk, HandedOk, Chain, BatchesOk;
    ListKept(g, s.list, s.roles, s'.roles);
    HandedKept(g, s.handed, s.roles, s'.roles);
    RecordedKept(g, Recorded(s.pages, s.list), s.roles, s'.roles);
    hide RecordedOk;
  }

  lemma TakeFirstBatches(g: Geometry, s: State, b: nat, x: nat)
    requires g.Valid() && BatchesOk(g, s, b)
    requires b < |s.nextExtent| && x < |s.counts| && x !in s.roles
    ensures BatchesOk(g, TakeFirst(g, s, b, x), b + 1)
  {
    var s' := TakeFirst(g, s, b, x);
    g.AtFacts(x, 0);
    hide Geometry.At, Geometry.ExtentNo, Geometry.PageNo;
    assert s'.nextExtent[..b] == s.nextExtent[..b];
    forall c | 0 <= c < b + 1
      ensures BatchOk(g, c, s'.nextAddr[c], s'.nextExtent[c], s'.current[c], s'.roles)
    {
      if c < b {
        assert BatchOk(g, c, s.nextAddr[c], s.nextExtent[c], s.current[c], s.roles);
      }
    }
    forall z | z in s'.roles && s'.roles[z].Spare?
      ensures s'.roles[z].batch < b + 1 && s'.nextExtent[..b + 1][s'.roles[z].batch] == g.At(z, 0)
    {
      if z != x {
        assert s.nextExtent[..b][s.roles[z].batch] == g.At(z, 0);
      }
    }
  }

  /** The loose extent is recorded on the last meta page. */
  ghost function Record(s: State, x: nat, b: nat, addr: nat): State
    requires s.list != [] && s.list[|s.list| - 1] in s.pages
  {
    var tail := s.list[|s.list| - 1];
    var page := s.pages[tail];
    s.(pages := s.pages[tail := MetaPage(page.next, page.pos + META_ENTRY_SIZE, page.entries + [addr])],
       roles := s.roles[x := Data(|Recorded(s.pages, s.list)|, b, 0)])
  }

  lemma RecordOk(g: Geometry, s: State, x: nat, b: nat)
    requires g.Valid() && StateOk(g, s, |s.nextAddr|) && OnlyLoose(s.roles, x)
    requires s.list[|s.list| - 1] in s.pages
    ensures var s' := Record(s, x, b, g.At(x, 0));
            && StateOk(g, s', |s.nextAddr|) && NothingLoose(s'.roles)
            && OnlyTaken(s.counts, s'.counts, s.roles, s'.roles) && |s'.roles| == |s.roles|
  {
    var s' := Record(s, x, b, g.At(x, 0));
    RecordBatches(g, s, x, b, g.At(x, 0));
    RecordLists(g, s, x, b);
    RecordRoles(g, s, x, b);
    hide Geometry.At, Geometry.ExtentNo, Geometry.PageNo, Recorded, ListOk, HandedOk, Chain, BatchesOk, RecordedOk,
      Counted, NothingLoose, OnlyTaken, OnlyLoose;
  }

  lemma RecordLists(g: Geometry, s: State, x: nat, b: nat)
    requires g.Valid() && StateOk(g, s, |s.nextAddr|) && OnlyLoose(s.roles, x)
    requires s.list[|s.list| - 1] in s.pages
    ensures var s' := Record(s, x, b, g.At(x, 0));
            && Chain(s'.pages, s'.list) && ListOk(g, s'.list, s'.roles) && HandedOk(g, s'.handed, s'.roles)
            && RecordedOk(g, Recorded(s'.pages, s'.list), s'.roles)
  {
    var s' := Record(s, x, b, g.At(x, 0));
    EntryAppended(g, s.pages, s.list, s.roles, g.At(x, 0));
    OneMoreRecorded(g, Recorded(s.pages, s.list), s.roles, x, b);
    ListKept(g, s.list, s.roles, s'.roles);
    HandedKept(g, s.handed, s.roles, s'.roles);
    hide Geometry.At, Geometry.ExtentNo, Geometry.PageNo, Recorded, ListOk, HandedOk, Chain, BatchesOk, RecordedOk;
  }

  lemma RecordRoles(g: Geometry, s: State, x: nat, b: nat)
    requires g.Valid() && StateOk(g, s, |s.nextAddr|) && OnlyLoose(s.roles, x)
    requires s.list[|s.list| - 1] in s.pages
    ensures var s' := Record(s, x, b, g.At(x, 0));
            && NothingLoose(s'.roles) && Counted(s'.counts, s'.roles, g.ExtentNo(s'.list[0]))
            && OnlyTaken(s.counts, s'.counts, s.roles, s'.roles) && |s'.roles| == |s.roles|
  {
    var s' := Record(s, x, b, g.At(x, 0));
    hide Geometry.At, Geometry.ExtentNo, Geometry.PageNo, Recorded, ListOk, HandedOk, Chain, BatchesOk, RecordedOk;
    assert s'.roles.Keys == s.roles.Keys;
  }

  lemma OneMoreRecorded(g: Geometry, recorded: seq<nat>, roles: map<nat, Role>, x: nat, b: nat)
    requires g.Valid() && RecordedOk(g, recorded, roles) && x in roles && roles[x].Loose?
    ensures RecordedOk(g, recorded + [g.At(x, 0)], roles[x := Data(|recorded|, b, 0)])
  {
    g.AtFacts(x, 0);
    hide Geometry.At, Geometry.ExtentNo, Geometry.PageNo;
  }

  lemma RecordBatches(g: Geometry, s: State, x: nat, b: nat, addr: nat)
    requires g.Valid() && BatchesOk(g, s, |s.nextAddr|) && x in s.roles && s.roles[x].Loose?
    requires s.list != [] && s.list[|s.list| - 1] in s.pages
    ensures BatchesOk(g, Record(s, x, b, addr), |s.nextAddr|)
  {
    hide Geometry.At, Geometry.ExtentNo, Geometry.PageNo, Recorded;
    var s' := Record(s, x, b, addr);
    forall c | 0 <= c < |s'.nextAddr|
      ensures BatchOk(g, c, s'.nextAddr[c], s'.nextExtent[c], s'.current[c], s'.roles)
    {
      assert BatchOk(g, c, s.nextAddr[c], s.nextExtent[c], s.current[c], s.roles);
    }
  }

  /** A new meta page, behind the last one. */
  ghost function Extend(s: State, addr: nat): State
    requires s.list != [] && s.list[|s.list| - 1] in s.pages
  {
    var tail := s.list[|s.list| - 1];
    s.(pages := s.pages[tail := s.pages[tail].(next := addr)][addr := MetaPage(0, META_HDR_SIZE, [])],
       list := s.list + [addr])
  }

  lemma ExtendInExtentOk(g: Geometry, s: State)
    requires g.Valid() && StateOk(g, s, |s.nextAddr|) && s.list[|s.list| - 1] in s.pages
    requires (s.list[|s.list| - 1] + g.pageSize) % g.ExtentSize() != 0
    ensures StateOk(g, Extend(s, s.list[|s.list| - 1] + g.pageSize), |s.nextAddr|)
  {
    ListGrowsInExtent(g, s.list, s.roles);
    hide Geometry.At, Geometry.ExtentNo, Geometry.PageNo, Geometry.ExtentSize, Recorded, ListOk, HandedOk, Chain,
      RecordedOk, Counted;
    PageAppended(g, s.pages, s.list, s.roles, s.list[|s.list| - 1] + g.pageSize);
  }

  lemma ExtendToExtentOk(g: Geometry, s: State, x: nat)
    requires g.Valid() && StateOk(g, s, |s.nextAddr|) && s.list[|s.list| - 1] in s.pages
    requires 0 < x < |s.counts| && s.counts[x] == AL_FREE
    ensures var s' := Extend(s, g.At(x, 0)).(counts := s.counts[x := AL_ONE_REF],
                                             roles := s.roles[x := Meta(|s.list|)]);
            && StateOk(g, s', |s.nextAddr|)
            && OnlyTaken(s.counts, s'.counts, s.roles, s'.roles) && |s'.roles| == |s.roles| + 1
  {
    var s' := Extend(s, g.At(x, 0)).(counts := s.counts[x := AL_ONE_REF], roles := s.roles[x := Meta(|s.list|)]);
    assert x !in s.roles;
    assert s'.roles.Keys == s.roles.Keys + {x};
    ListGrowsToExtent(g, s.list, s.roles, x);
    RecordedKept(g, Recorded(s.pages, s.list), s.roles, s'.roles);
    HandedKept(g, s.handed, s.roles, s'.roles);
    BatchesKept(g, s, s');
    hide Geometry.At, Geometry.ExtentNo, Geometry.PageNo, Geometry.ExtentSize, Recorded, ListOk, HandedOk, Chain,
      RecordedOk, BatchesOk;
    PageAppended(g, s.pages, s.list, s.roles, g.At(x, 0));
  }

  lemma RecordedKept(g: Geometry, recorded: seq<nat>, roles: map<nat, Role>, roles': map<nat, Role>)
    requires g.Valid() && RecordedOk(g, recorded, roles)
    requires forall x | x in roles && roles[x].Data? :: x in roles' && roles'[x] == roles[x]
    requires forall x | x in roles' && roles'[x].Data? :: x in roles && roles'[x] == roles[x]
    ensures RecordedOk(g, recorded, roles')
  {
    hide Geometry.At, Geometry.ExtentNo;
  }

  lemma BatchesKept(g: Geometry, s: State, s': State)
    requires g.Valid() && BatchesOk(g, s, |s.nextAddr|)
    requires s'.nextAddr == s.nextAddr && s'.nextExtent == s.nextExtent && s'.current == s.current
    requires forall x | x in s.roles :: x in s'.roles && s'.roles[x] == s.roles[x]
    requires forall x | x in s'.roles && x !in s.roles :: !s'.roles[x].Spare?
    ensures BatchesOk(g, s', |s.nextAddr|)
  {
    hide Geometry.At, Geometry.ExtentNo;
    forall c | 0 <= c < |s'.nextAddr|
      ensures BatchOk(g, c, s'.nextAddr[c], s'.nextExtent[c], s'.current[c], s'.roles)
    {
      assert BatchOk(g, c, s.nextAddr[c], s.nextExtent[c], s.current[c], s.roles);
    }
  }

  /** A page of a recorded extent of the batch is handed out. */
  ghost function HandOut(g: Geometry, s: State, b: nat, x: nat): State
    requires b < |s.nextAddr| == |s.current| && x in s.roles && s.roles[x].Data?
  {
    var used := s.roles[x].used;
    s.(nextAddr := s.nextAddr[b := g.At(x, used + 1)], current := s.current[b := x],
       roles := s.roles[x := s.roles[x].(used := used + 1)], handed := s.handed + [g.At(x, used)])
  }

  lemma HandOutOk(g: Geometry, s: State, b: nat, x: nat)
    requires g.Valid() && StateOk(g, s, |s.nextAddr|) && NothingLoose(s.roles)
    requires b < |s.nextAddr| && x in s.roles && s.roles[x].Data?
    requires s.roles[x].batch == b && s.roles[x].used < g.pagesPerExtent
    ensures var s' := HandOut(g, s, b, x);
            && StateOk(g, s', |s.nextAddr|) && NothingLoose(s'.roles)
            && OnlyTaken(s.counts, s'.counts, s.roles, s'.roles) && |s'.roles| == |s.roles|
  {
    var s' := HandOut(g, s, b, x);
    assert s'.roles.Keys == s.roles.Keys;
    HandOutBatches(g, s, b, x);
    HandOutPage(g, s.handed, s.roles, x);
    hide Geometry.At, Geometry.ExtentNo, Geometry.PageNo, Recorded, ListOk, HandedOk, Chain, BatchesOk;
    ListKept(g, s.list, s.roles, s'.roles);
    MoreUsed(g, Recorded(s.pages, s.list), s.roles, x);
  }

  /** A batch whose next address is not at the start of an extent has a page left. */
  lemma NotAtEnd(g: Geometry, s: State, b: nat)
    requires g.Valid() && StateOk(g, s, |s.nextAddr|) && b < |s.nextAddr|
    requires s.nextAddr[b] % g.ExtentSize() != 0
    ensures var x := s.current[b];
            && x in s.roles && s.roles[x].Data? && s.roles[x].batch == b
            && s.roles[x].used < g.pagesPerExtent && s.nextAddr[b] == g.At(x, s.roles[x].used)
  {
    assert BatchOk(g, b, s.nextAddr[b], s.nextExtent[b], s.current[b], s.roles);
    ZeroMod(g.ExtentSize());
    g.AtEnd(s.current[b]);
  }

  lemma ZeroMod(p: nat)
    requires p > 0
    ensures 0 % p == 0
  {
    ModIs(0, p, 0, 0);
  }

  lemma MoreUsed(g: Geometry, recorded: seq<nat>, roles: map<nat, Role>, x: nat)
    requires g.Valid() && RecordedOk(g, recorded, roles)
    requires x in roles && roles[x].Data? && roles[x].used < g.pagesPerExtent
    ensures RecordedOk(g, recorded, roles[x := roles[x].(used := roles[x].used + 1)])
  {
    hide Geometry.At, Geometry.ExtentNo;
  }

  lemma HandOutPage(g: Geometry, handed: seq<nat>, roles: map<nat, Role>, x: nat)
    requires g.Valid() && HandedOk(g, handed, roles)
    requires x in roles && roles[x].Data? && roles[x].used < g.pagesPerExtent
    ensures HandedOk(g, handed + [g.At(x, roles[x].used)], roles[x := roles[x].(used := roles[x].used + 1)])
  {
    var addr := g.At(x, roles[x].used);
    var roles' := roles[x := roles[x].(used := roles[x].used + 1)];
    g.AtFacts(x, roles[x].used);
    hide Geometry.At, Geometry.ExtentNo, Geometry.PageNo;
    HandedKept(g, handed, roles, roles');
    assert PageHanded(g, addr, roles');
    forall i | 0 <= i < |handed| ensures handed[i] != addr && PageHanded(g, handed[i], roles') {
      assert PageHanded(g, handed[i], roles);
    }
  }

  lemma HandOutBatches(g: Geometry, s: State, b: nat, x: nat)
    requires g.Valid() && BatchesOk(g, s, |s.nextAddr|)
    requires b < |s.nextAddr| && x in s.roles && s.roles[x].Data? && s.roles[x].batch == b
    ensures BatchesOk(g, HandOut(g, s, b, x), |s.nextAddr|)
  {
    hide Geometry.At, Geometry.ExtentNo, Geometry.PageNo;
    var s' := HandOut(g, s, b, x);
    forall c | 0 <= c < |s'.nextAddr|
      ensures BatchOk(g, c, s'.nextAddr[c], s'.nextExtent[c], s'.current[c], s'.roles)
    {
      assert BatchOk(g, c, s.nextAddr[c], s.nextExtent[c], s.current[c], s.roles);
    }
  }

  /** What the state says about the addresses handed out: they are distinct pages, each in a
      recorded extent, and no meta page lies in one of these extents. */
  lemma HandedOut(g: Geometry, s: State, ready: nat, i: nat)
    requires g.Valid() && StateOk(g, s, ready) && i < |s.handed|
    ensures s.handed[i] % g.pageSize == 0
    ensures g.Base(s.handed[i]) in Recorded(s.pages, s.list)
    ensures forall j | 0 <= j < |s.list| :: g.Base(s.list[j]) != g.Base(s.handed[i])
    ensures forall j | 0 <= j < |s.handed| && j != i :: s.handed[j] != s.handed[i]
  {
    var x := g.ExtentNo(s.handed[i]);
    assert PageHanded(g, s.handed[i], s.roles);
    g.AtAligned(x, g.PageNo(s.handed[i]));
    g.BaseFacts(s.handed[i]);
    assert Recorded(s.pages, s.list)[s.roles[x].index] == g.At(x, 0);
    forall j | 0 <= j < |s.list| ensures g.Base(s.list[j]) != g.Base(s.handed[i]) {
      assert Placed(g, s.list, s.roles, j);
      g.BaseFacts(s.list[j]);
    }
  }
}
