/** A memtable's B-tree as it is stored, and the insertion into it.

    Every node is a page with its address.  All questions of room are decided by the bytes of the
    pages, as in the source.  Keys have at most `limit` bytes; the source asks for an eighth of a
    page, and that is not short enough: a node that was just split, and then got a new least key, may
    have no room for the pivot of its child (see module FullParent).  The source then fails an
    assertion, or loses a node.  The insertion here ends with NoRoom, and never does so if all keys
    are short. */
module PageTree {
  import opened Messages
  import opened Lookup
  import opened MergeSpec
  import opened Slotted
  import opened LeafPage
  import opened LeafNode
  import opened LeafSplit
  import opened IndexNode
  import I = IndexSplit
  import opened SortedRuns
  import B = BTree

  // ----- the pages

  ghost predicate TuplesWithin(cfg: TreeConfig, limit: nat, tuples: Run) {
    forall i | 0 <= i < |tuples| ::
      cfg.keyLength(tuples[i].key) <= limit && MessageLength(tuples[i].msg) <= cfg.MaxInlineMessage()
  }

  ghost predicate PivotsWithin(cfg: TreeConfig, limit: nat, pivots: seq<Pivot>) {
    forall i | 0 <= i < |pivots| :: cfg.keyLength(pivots[i].key) <= limit
  }

  ghost predicate LeafOk(cfg: TreeConfig, limit: nat, page: Image<Tuple>) {
    && ImageOk(cfg.LeafLayout(), page) && TuplesWithin(cfg, limit, EntriesOf(page))
    && (EntriesOf(page) == [] ==> page.nextEntry == cfg.pageSize)
  }

  ghost predicate IndexOk(cfg: TreeConfig, limit: nat, page: Image<Pivot>) {
    && ImageOk(IndexLayout(cfg), page) && PivotsWithin(cfg, limit, EntriesOf(page))
  }

  /** What the insertion is given: a tuple within the limits, and callbacks that keep to them. */
  ghost predicate Given(cfg: TreeConfig, limit: nat, k: Key, msg: Message) {
    && cfg.Valid() && limit <= cfg.MaxInlineKey() && cfg.keyLength(k) <= limit
    && MessageLength(msg) <= cfg.MaxInlineMessage() && MergesFit(cfg)
  }

  ghost predicate MergesFit(cfg: TreeConfig) {
    forall k, a, b {:trigger MergeTuples(cfg.data, k, a, b)} ::
      MessageLength(a) <= cfg.MaxInlineMessage() && MessageLength(b) <= cfg.MaxInlineMessage() ==>
      MessageLength(MergeTuples(cfg.data, k, a, b)) <= cfg.MaxInlineMessage()
  }

  lemma {:induction false} PutWithinLimits(cfg: TreeConfig, limit: nat, run: Run, k: Key, msg: Message)
    requires Given(cfg, limit, k, msg) && TuplesWithin(cfg, limit, run)
    ensures TuplesWithin(cfg, limit, Put(cfg.data, run, k, msg))
  {
    hide MergeTuples;
    if run != [] && run[0].key < k {
      PutWithinLimits(cfg, limit, run[1..], k, msg);
    }
  }

  lemma SpecWithin(cfg: TreeConfig, limit: nat, tuples: Run, spec: IncorporateSpec)
    requires cfg.Valid() && limit <= cfg.MaxInlineKey()
    requires SpecFits(tuples, spec) && TuplesWithin(cfg, limit, tuples)
    requires TuplesWithin(cfg, limit, Incorporated(tuples, spec))
    ensures WithinLimits(cfg, spec.tuple) && AllWithinLimits(cfg, tuples) && Incorporated(tuples, spec) != []
  {
    IncorporatedAt(tuples, spec);
    assert Incorporated(tuples, spec)[spec.idx] == spec.tuple;
  }

  lemma PartsWithin(cfg: TreeConfig, limit: nat, left: Run, right: Run)
    requires TuplesWithin(cfg, limit, left + right)
    ensures TuplesWithin(cfg, limit, left) && TuplesWithin(cfg, limit, right)
  {
    assert forall i | 0 <= i < |left| :: (left + right)[i] == left[i];
    assert forall i | 0 <= i < |right| :: (left + right)[|left| + i] == right[i];
  }

  /** The insertion into a leaf below an index node: the tuple fits, perhaps after a
      defragmentation, or the leaf is split. */
  method LeafInsert(cfg: TreeConfig, ghost limit: nat, page: Image<Tuple>, k: Key, msg: Message)
    returns (left: Image<Tuple>, right: Option<Image<Tuple>>, pivot: Key, wasUnique: bool)
    requires Given(cfg, limit, k, msg) && LeafOk(cfg, limit, page) && Increasing(EntriesOf(page))
    ensures LeafOk(cfg, limit, left) && EntriesOf(left) != []
    ensures wasUnique <==> k !in MapOf(EntriesOf(page))
    ensures right.None? ==> EntriesOf(left) == Put(cfg.data, EntriesOf(page), k, msg)
    ensures right.Some? ==>
      && LeafOk(cfg, limit, right.value) && EntriesOf(right.value) != [] && pivot == EntriesOf(right.value)[0].key
      && EntriesOf(left) + EntriesOf(right.value) == Put(cfg.data, EntriesOf(page), k, msg)
      && cfg.keyLength(pivot) <= limit
  {
    hide PageOk, EntrySize, Put, MapOf, Increasing, MergeTuples, EntriesOf, MergesFit;
    var leaf := new Leaf.Load(cfg, page);
    var spec := leaf.CreateSpec(k, msg);
    ghost var tuples := leaf.Contents();
    IncorporatedIsPut(cfg.data, tuples, spec, msg);
    PutWithinLimits(cfg, limit, tuples, k, msg);
    SpecWithin(cfg, limit, tuples, spec);
    wasUnique := spec.state.DidNotExist?;
    right, pivot := None, k;
    if leaf.CanPerform(spec) {
      var incorporated := leaf.TryPerform(spec);
    } else {
      var other: Leaf?;
      other, pivot := DefragmentOrSplit(leaf, spec);
      if other != null {
        PartsWithin(cfg, limit, leaf.Contents(), other.Contents());
        right := Some(other.Stored());
      }
    }
    left := leaf.Stored();
  }

  // ----- index pages

  /** The pivots of a node once its least key is right for the insertion of `k`. */
  function Lowered(pivots: seq<Pivot>, idx: int, k: Key): (r: seq<Pivot>)
    requires pivots != []
    ensures |r| == |pivots|
  {
    if idx < 0 then pivots[0 := Pivot(k, pivots[0].child)] else pivots
  }

  function First(idx: int): nat {
    if idx < 0 then 0 else idx
  }

  /** The page takes one more pivot with a key within the limit. */
  predicate TakesPivot(cfg: TreeConfig, page: Image<Pivot>, limit: nat) {
    I.Takes(cfg, page.nextEntry, |page.offsets|, limit)
  }

  /** What happens to an index node on the way down: its least key is lowered if need be, at once or
      after the node was defragmented or split; and it is defragmented or split if it is full.  The
      part that the insertion goes on in takes one more pivot, if the least key was right already or
      all keys are short. */
  method PrepareIndex(cfg: TreeConfig, ghost limit: nat, page: Image<Pivot>, k: Key, idx: int)
    returns (left: Image<Pivot>, right: Option<Image<Pivot>>, cut: nat)
    requires cfg.Valid() && limit <= cfg.MaxInlineKey() && cfg.keyLength(k) <= limit
    requires IndexOk(cfg, limit, page) && EntriesOf(page) != [] && -1 <= idx < |EntriesOf(page)|
    ensures IndexOk(cfg, limit, left)
    ensures right.None? ==> EntriesOf(left) == Lowered(EntriesOf(page), idx, k)
    ensures right.Some? ==>
      && IndexOk(cfg, limit, right.value) && 0 < cut < |EntriesOf(page)|
      && EntriesOf(left) == Lowered(EntriesOf(page), idx, k)[..cut]
      && EntriesOf(right.value) == Lowered(EntriesOf(page), idx, k)[cut..]
    ensures right.None? || First(idx) < cut ==> limit <= I.ShortKey(cfg) || idx >= 0 ==> TakesPivot(cfg, left, limit)
    ensures right.Some? && First(idx) >= cut ==> TakesPivot(cfg, right.value, limit)
  {
    hide PageOk, EntrySize, EntriesOf;
    var node := new Index.Load(cfg, page);
    LimitsHold(cfg, limit, node.Contents(), idx, k);
    right, cut := None, 0;
    var needToSetMinKey := false;
    var least := Pivot(k, node.EntryAt(0).child);
    KeySize(cfg, least);
    if idx < 0 {
      var done := node.Set(0, least);
      needToSetMinKey := !done;
    }
    if node.IsFull() {
      var other: Index?;
      other, cut := MakeRoom(node, limit, least, needToSetMinKey);
      if other != null {
        right := Some(other.Stored());
      }
    }
    left := node.Stored();
  }

  /** A full node is defragmented or split; a least key that could not be set before is set then. */
  method MakeRoom(node: Index, ghost limit: nat, least: Pivot, needToSetMinKey: bool)
    returns (right: Index?, cut: nat)
    requires node.Valid() && AllPivotsWithinLimits(node.cfg, node.Contents()) && node.Contents() != []
    requires limit <= node.cfg.MaxInlineKey() && node.cfg.keyLength(least.key) <= limit
    modifies node
    ensures node.Valid()
    ensures var all := if needToSetMinKey then old(node.Contents())[0 := least] else old(node.Contents());
            && (right == null ==> node.Contents() == all)
            && (right != null ==>
                  && fresh(right) && right.Valid() && right.cfg == node.cfg && 0 < cut < |all|
                  && node.Contents() == all[..cut] && right.Contents() == all[cut..] && !right.IsFull())
    ensures !needToSetMinKey ==> !node.IsFull()
    ensures limit <= I.ShortKey(node.cfg) ==> I.Takes(node.cfg, node.nextEntry, |node.offsets|, limit)
  {
    hide PageOk, EntrySize, I.IsCut, LiveBytes, I.LeastOffset;
    ghost var pivots := node.Contents();
    right, cut := I.DefragmentOrSplit(node);
    assert |node.Contents()| > 0;
    if needToSetMinKey {
      ghost var before := node.nextEntry;
      assert right != null ==> pivots[..cut][0 := least] == pivots[0 := least][..cut];
      assert right != null ==> pivots[cut..] == pivots[0 := least][cut..];
      assert PivotWithinLimits(node.cfg, least);
      I.SetMinKey(node, least);
      KeySize(node.cfg, least);
      if limit <= I.ShortKey(node.cfg) {
        I.ShortKeyFits(node.cfg, before, node.nextEntry, |node.offsets|, limit);
      }
    }
  }

  lemma KeySize(cfg: TreeConfig, p: Pivot)
    ensures EntrySize(IndexLayout(cfg), p) == INDEX_ENTRY + cfg.keyLength(p.key)
  {
  }

  lemma LimitsHold(cfg: TreeConfig, limit: nat, pivots: seq<Pivot>, idx: int, k: Key)
    requires limit <= cfg.MaxInlineKey() && cfg.keyLength(k) <= limit
    requires PivotsWithin(cfg, limit, pivots) && pivots != []
    ensures AllPivotsWithinLimits(cfg, pivots) && AllPivotsWithinLimits(cfg, Lowered(pivots, idx, k))
    ensures PivotsWithin(cfg, limit, Lowered(pivots, idx, k))
  {
  }

  // ----- the tree

  datatype Tree =
    | LeafTree(addr: nat, leaf: Image<Tuple>)
    | IndexTree(addr: nat, index: Image<Pivot>, children: seq<Tree>)

  function Keys(pivots: seq<Pivot>): (keys: seq<Key>)
    ensures |keys| == |pivots| && forall i | 0 <= i < |keys| :: keys[i] == pivots[i].key
  {
    seq(|pivots|, i requires 0 <= i < |pivots| => pivots[i].key)
  }

  /** What the pages say. */
  ghost function Abs(t: Tree): B.Node
    decreases t
  {
    match t
    case LeafTree(_, leaf) => B.Node.Leaf(EntriesOf(leaf))
    case IndexTree(_, index, children) => B.Node.Index(Keys(EntriesOf(index)), AbsAll(children))
  }

  ghost function AbsAll(ts: seq<Tree>): (nodes: seq<B.Node>)
    ensures |nodes| == |ts| && forall i | 0 <= i < |ts| :: nodes[i] == Abs(ts[i])
    decreases ts
  {
    seq(|ts|, i requires 0 <= i < |ts| => Abs(ts[i]))
  }

  /** Every page is well formed, and every pivot leads to its child. */
  ghost predicate PagesOk(cfg: TreeConfig, limit: nat, t: Tree)
    decreases t
  {
    match t
    case LeafTree(_, leaf) => LeafOk(cfg, limit, leaf)
    case IndexTree(_, index, children) =>
      && IndexOk(cfg, limit, index) && |children| == |EntriesOf(index)|
      && forall i | 0 <= i < |children| ::
           EntriesOf(index)[i].child == children[i].addr && PagesOk(cfg, limit, children[i])
  }

  /** The node of the tree and what it should say may differ in one respect: the first pivot of the
      child may have been lowered to the new key already. */
  ghost predicate Matches(parent: Tree, p: B.Node, ci: nat, k: Key) {
    && parent.IndexTree? && p.Index? && Keys(EntriesOf(parent.index)) == p.pivots
    && |parent.children| == |p.children| == |p.pivots| && ci < |p.children|
    && (forall i | 0 <= i < |p.children| && i != ci :: Abs(parent.children[i]) == p.children[i])
    && ChildMatches(parent.children[ci], p.children[ci], k)
  }

  ghost predicate ChildMatches(c: Tree, n: B.Node, k: Key) {
    || Abs(c) == n
    || (n.Index? && n.pivots != [] && k < n.pivots[0] && Abs(c) == n.(pivots := n.pivots[0 := k]))
  }

  /** The child of a node is replaced by one or two trees. */
  function Replace(parent: Tree, index: Image<Pivot>, ci: nat, trees: seq<Tree>): (r: Tree)
    requires parent.IndexTree? && ci < |parent.children|
    ensures r.IndexTree? && r.addr == parent.addr
  {
    IndexTree(parent.addr, index, parent.children[..ci] + trees + parent.children[ci + 1..])
  }

  lemma Replaced(cfg: TreeConfig, limit: nat, parent: Tree, p: B.Node, ci: nat, k: Key, index: Image<Pivot>,
                 news: seq<Pivot>, trees: seq<Tree>)
    requires PagesOk(cfg, limit, parent) && Matches(parent, p, ci, k)
    requires IndexOk(cfg, limit, index)
    requires ci < |EntriesOf(parent.index)|
    requires EntriesOf(index) == EntriesOf(parent.index)[..ci] + news + EntriesOf(parent.index)[ci + 1..]
    requires |news| == |trees|
    requires forall i | 0 <= i < |news| :: news[i].child == trees[i].addr && PagesOk(cfg, limit, trees[i])
    ensures PagesOk(cfg, limit, Replace(parent, index, ci, trees))
    ensures Abs(Replace(parent, index, ci, trees)) == B.WithChild(p, ci, Keys(news), AbsAll(trees))
  {
    hide EntriesOf, IndexOk, Abs, AbsAll;
    KeysReplaced(EntriesOf(parent.index), ci, news);
    AbsReplaced(parent.children, p.children, ci, trees);
    AbsIs(Replace(parent, index, ci, trees));
    hide Matches;
    PagesReplaced(cfg, limit, parent, ci, index, news, trees);
  }

  lemma AbsIs(t: Tree)
    requires t.IndexTree?
    ensures Abs(t) == B.Node.Index(Keys(EntriesOf(t.index)), AbsAll(t.children))
  {
  }

  lemma KeysReplaced(pivots: seq<Pivot>, ci: nat, news: seq<Pivot>)
    requires ci < |pivots|
    ensures Keys(pivots[..ci] + news + pivots[ci + 1..])
         == Keys(pivots)[..ci] + Keys(news) + Keys(pivots)[ci + 1..]
  {
  }

  lemma AbsReplaced(children: seq<Tree>, nodes: seq<B.Node>, ci: nat, trees: seq<Tree>)
    requires |children| == |nodes| && ci < |nodes|
    requires forall i | 0 <= i < |nodes| && i != ci :: Abs(children[i]) == nodes[i]
    ensures AbsAll(children[..ci] + trees + children[ci + 1..]) == nodes[..ci] + AbsAll(trees) + nodes[ci + 1..]
  {
    hide Abs;
  }

  lemma PagesReplaced(cfg: TreeConfig, limit: nat, parent: Tree, ci: nat, index: Image<Pivot>,
                      news: seq<Pivot>, trees: seq<Tree>)
    requires parent.IndexTree? && PagesOk(cfg, limit, parent) && IndexOk(cfg, limit, index)
    requires ci < |EntriesOf(parent.index)|
    requires EntriesOf(index) == EntriesOf(parent.index)[..ci] + news + EntriesOf(parent.index)[ci + 1..]
    requires |news| == |trees|
    requires forall i | 0 <= i < |news| :: news[i].child == trees[i].addr && PagesOk(cfg, limit, trees[i])
    ensures PagesOk(cfg, limit, Replace(parent, index, ci, trees))
  {
    hide EntriesOf, IndexOk;
    var t := Replace(parent, index, ci, trees);
    var n := |trees|;
    forall i | 0 <= i < |t.children|
      ensures EntriesOf(index)[i].child == t.children[i].addr && PagesOk(cfg, limit, t.children[i])
    {
      if ci <= i < ci + n {
        assert t.children[i] == trees[i - ci];
      } else if i >= ci + n {
        assert t.children[i] == parent.children[i - n + 1];
      }
    }
  }

  // ----- addresses

  /** The addresses of all pages of a tree. */
  ghost function Addrs(t: Tree): multiset<nat>
    decreases t
  {
    match t
    case LeafTree(addr, _) => multiset{addr}
    case IndexTree(addr, _, children) => multiset{addr} + AddrsAll(children)
  }

  ghost function AddrsAll(ts: seq<Tree>): multiset<nat>
    decreases ts
  {
    if ts == [] then multiset{} else Addrs(ts[0]) + AddrsAll(ts[1..])
  }

  lemma {:induction false} AddrsConcat(a: seq<Tree>, b: seq<Tree>)
    ensures AddrsAll(a + b) == AddrsAll(a) + AddrsAll(b)
  {
    if a == [] {
      assert a + b == b;
    } else {
      assert (a + b)[1..] == a[1..] + b;
      AddrsConcat(a[1..], b);
    }
  }

  lemma AddrsFew(a: Tree, b: Tree)
    ensures AddrsAll([a]) == Addrs(a) && AddrsAll([a, b]) == Addrs(a) + Addrs(b)
  {
    hide Addrs;
    assert [a][1..] == [] && [b][1..] == [] && [a, b][1..] == [b];
    assert AddrsAll([b]) == Addrs(b);
  }

  lemma AddrsReplaced(parent: Tree, index: Image<Pivot>, ci: nat, trees: seq<Tree>)
    requires parent.IndexTree? && ci < |parent.children|
    ensures Addrs(Replace(parent, index, ci, trees)) + Addrs(parent.children[ci]) == Addrs(parent) + AddrsAll(trees)
  {
    var a, c, b := parent.children[..ci], parent.children[ci], parent.children[ci + 1..];
    SplitAt(parent.children, ci);
    AddrsConcat(a + trees, b);
    AddrsConcat(a, trees);
    AddrsConcat(a + [c], b);
    AddrsConcat(a, [c]);
    AddrsFew(c, c);
  }

  /** The addresses that are handed out while the next one goes from `a` to `b`. */
  ghost function Taken(a: nat, b: nat): (m: multiset<nat>)
    ensures forall x: nat :: m[x] == if a <= x < b then 1 else 0
  {
    if b <= a then multiset{} else Taken(a, b - 1) + multiset{b - 1}
  }

  lemma TakenJoin(a: nat, b: nat, c: nat)
    requires a <= b <= c
    ensures Taken(a, c) == Taken(a, b) + Taken(b, c) && Taken(a, a + 1) == multiset{a} && Taken(a, a) == multiset{}
  {
    hide Taken;
  }

  /** Every page is in the tree once, and the addresses from `next` on are free. */
  ghost predicate OwnsPages(t: Tree, next: nat) {
    forall a: nat :: Addrs(t)[a] <= (if a < next then 1 else 0)
  }

  lemma StillOwns(t: Tree, next: nat, t': Tree, next': nat)
    requires OwnsPages(t, next) && next <= next' && Addrs(t') == Addrs(t) + Taken(next, next')
    ensures OwnsPages(t', next')
  {
    hide Addrs;
    forall a: nat ensures Addrs(t')[a] <= (if a < next' then 1 else 0) {
      assert Addrs(t)[a] <= (if a < next then 1 else 0);
    }
  }

  lemma ReplacedAddrs(parent: Tree, index: Image<Pivot>, ci: nat, trees: seq<Tree>, next: nat, next': nat)
    requires parent.IndexTree? && ci < |parent.children| && next <= next'
    requires AddrsAll(trees) == Addrs(parent.children[ci]) + Taken(next, next')
    ensures Addrs(Replace(parent, index, ci, trees)) == Addrs(parent) + Taken(next, next')
  {
    hide *;
    AddrsReplaced(parent, index, ci, trees);
    Cancel(Addrs(Replace(parent, index, ci, trees)), Addrs(parent.children[ci]), Addrs(parent), Taken(next, next'));
  }

  lemma Cancel(x: multiset<nat>, c: multiset<nat>, p: multiset<nat>, t: multiset<nat>)
    requires x + c == p + (c + t)
    ensures x == p + t
  {
    forall a: nat ensures x[a] == (p + t)[a] {
      assert (x + c)[a] == (p + (c + t))[a];
    }
  }

  lemma Gathered(l: multiset<nat>, r: multiset<nat>, c: multiset<nat>, n: multiset<nat>, t: multiset<nat>, all: multiset<nat>)
    requires l + r == c + n && (all == (l + t) + r || all == l + (r + t))
    ensures all == c + (n + t)
  {
    forall a: nat ensures all[a] == (c + (n + t))[a] {
      assert (l + r)[a] == (c + n)[a];
    }
  }

  lemma SameAddrs(a: Tree, b: Tree)
    requires a.IndexTree? && b.IndexTree? && a.addr == b.addr && a.children == b.children
    ensures Addrs(a) == Addrs(b)
  {
  }

  lemma CutAddrs(c: Tree, cut: nat, left: Image<Pivot>, right: Image<Pivot>, next: nat)
    requires c.IndexTree? && cut <= |c.children|
    ensures Addrs(IndexTree(c.addr, left, c.children[..cut])) + Addrs(IndexTree(next, right, c.children[cut..]))
         == Addrs(c) + multiset{next}
  {
    AddrsConcat(c.children[..cut], c.children[cut..]);
    assert c.children == c.children[..cut] + c.children[cut..];
  }

  // ----- the descent

  datatype Status = Done | BadParam | NoRoom

  /** Inserts a pivot into a page, if it takes it. */
  method AddPivot(cfg: TreeConfig, ghost limit: nat, page: Image<Pivot>, k: nat, p: Pivot)
    returns (ok: bool, page': Image<Pivot>)
    requires cfg.Valid() && limit <= cfg.MaxInlineKey() && IndexOk(cfg, limit, page) && k <= |EntriesOf(page)|
    requires cfg.keyLength(p.key) <= limit
    ensures IndexOk(cfg, limit, page')
    ensures EntriesOf(page') == if ok then EntriesOf(page)[..k] + [p] + EntriesOf(page)[k..] else EntriesOf(page)
    ensures TakesPivot(cfg, page, limit) ==> ok
  {
    hide PageOk, EntrySize, EntriesOf;
    var node := new Index.Load(cfg, page);
    ok := I.InsertPivot(node, k, p);
    page' := node.Stored();
  }

  lemma OneMore(pivots: seq<Pivot>, ci: nat, p: Pivot)
    requires ci < |pivots|
    ensures pivots[..ci + 1] + [p] + pivots[ci + 1..] == pivots[..ci] + [pivots[ci], p] + pivots[ci + 1..]
    ensures pivots == pivots[..ci] + [pivots[ci]] + pivots[ci + 1..]
  {
  }

  /** The insertion below an index node at height 1. */
  method IntoLeaf(cfg: TreeConfig, ghost limit: nat, parent: Tree, ghost p: B.Node, ci: nat, k: Key, msg: Message,
                  next: nat)
    returns (ok: bool, parent': Tree, wasUnique: bool, next': nat)
    requires Given(cfg, limit, k, msg) && PagesOk(cfg, limit, parent) && Matches(parent, p, ci, k)
    requires B.Descending(p, 1, ci, k) && parent.children[ci].LeafTree?
    ensures TakesPivot(cfg, parent.index, limit) ==> ok
    ensures ok ==> parent'.IndexTree? && parent'.addr == parent.addr && PagesOk(cfg, limit, parent')
    ensures ok ==> next <= next' && Addrs(parent') == Addrs(parent) + Taken(next, next')
    ensures ok ==> B.Shape(Abs(parent'), 1) && B.InOrder(Abs(parent')) == Put(cfg.data, B.InOrder(p), k, msg)
    ensures ok ==> (wasUnique <==> k !in MapOf(B.InOrder(p)))
  {
    hide *;
    PivotKey(parent, p, ci, k);
    LeafChild(cfg, limit, parent, p, ci, k, msg);
    var child := parent.children[ci];
    var left, right, pivot;
    left, right, pivot, wasUnique := LeafInsert(cfg, limit, child.leaf, k, msg);
    GivenLimits(cfg, limit, k, msg);
    next', ok := next, true;
    var index := parent.index;
    if right.Some? {
      ok, index := AddPivot(cfg, limit, parent.index, ci + 1, Pivot(pivot, next));
      if !ok {
        parent' := parent;
        return;
      }
      next' := next + 1;
    }
    var trees := LeafTrees(child.addr, left, right, next);
    parent' := Replace(parent, index, ci, trees);
    LeafAddrs(child.addr, child.leaf, left, right, next);
    ReplacedAddrs(parent, index, ci, trees, next, next');
    LeafDone(cfg, limit, parent, p, ci, k, msg, index, left, right, pivot, next);
  }

  lemma GivenLimits(cfg: TreeConfig, limit: nat, k: Key, msg: Message)
    requires Given(cfg, limit, k, msg)
    ensures cfg.Valid() && limit <= cfg.MaxInlineKey() && cfg.keyLength(k) <= limit
  {
  }

  function LeafTrees(addr: nat, left: Image<Tuple>, right: Option<Image<Tuple>>, next: nat): seq<Tree> {
    if right.Some? then [LeafTree(addr, left), LeafTree(next, right.value)] else [LeafTree(addr, left)]
  }

  lemma LeafAddrs(addr: nat, page: Image<Tuple>, left: Image<Tuple>, right: Option<Image<Tuple>>, next: nat)
    ensures AddrsAll(LeafTrees(addr, left, right, next))
         == Addrs(LeafTree(addr, page)) + Taken(next, if right.Some? then next + 1 else next)
  {
    TakenJoin(next, next, next + 1);
    AddrsFew(LeafTree(addr, left), LeafTree(next, if right.Some? then right.value else left));
    hide Taken, AddrsAll;
  }

  lemma LeafDone(cfg: TreeConfig, limit: nat, parent: Tree, p: B.Node, ci: nat, k: Key, msg: Message,
                 index: Image<Pivot>, left: Image<Tuple>, right: Option<Image<Tuple>>, pivot: Key, next: nat)
    requires PagesOk(cfg, limit, parent) && Matches(parent, p, ci, k) && B.Descending(p, 1, ci, k)
    requires parent.children[ci].LeafTree? && p.children[ci] == B.Node.Leaf(EntriesOf(parent.children[ci].leaf))
    requires LeafOk(cfg, limit, left) && EntriesOf(left) != [] && IndexOk(cfg, limit, index)
    requires var rest := if right.Some? then EntriesOf(right.value) else [];
             EntriesOf(left) + rest == Put(cfg.data, p.children[ci].tuples, k, msg)
    requires right.None? ==> index == parent.index
    requires ci < |EntriesOf(parent.index)|
    requires right.Some? ==>
      && LeafOk(cfg, limit, right.value) && EntriesOf(right.value) != [] && pivot == EntriesOf(right.value)[0].key
      && EntriesOf(index) == EntriesOf(parent.index)[..ci + 1] + [Pivot(pivot, next)] + EntriesOf(parent.index)[ci + 1..]
    ensures var t := Replace(parent, index, ci, LeafTrees(parent.children[ci].addr, left, right, next));
            && PagesOk(cfg, limit, t) && B.Shape(Abs(t), 1) && B.InOrder(Abs(t)) == Put(cfg.data, B.InOrder(p), k, msg)
    ensures k in MapOf(B.InOrder(p)) <==> k in MapOf(p.children[ci].tuples)
  {
    hide *;
    PivotKey(parent, p, ci, k);
    var entries := EntriesOf(parent.index);
    var trees := LeafTrees(parent.children[ci].addr, left, right, next);
    var news := if right.Some? then [entries[ci], Pivot(pivot, next)] else [entries[ci]];
    ChildAddr(cfg, limit, parent, ci);
    OneMore(entries, ci, Pivot(pivot, next));
    LeafTreesAre(cfg, limit, parent.children[ci].addr, left, right, next);
    NewKeys(entries[ci], Pivot(pivot, next), p.pivots[ci]);
    OneKey(entries[ci]);
    Replaced(cfg, limit, parent, p, ci, k, index, news, trees);
    B.LeafPut(cfg.data, p, ci, k, msg, EntriesOf(left), if right.Some? then EntriesOf(right.value) else []);
  }

  lemma ChildAddr(cfg: TreeConfig, limit: nat, parent: Tree, ci: nat)
    requires PagesOk(cfg, limit, parent) && parent.IndexTree? && ci < |parent.children|
    ensures ci < |EntriesOf(parent.index)| && EntriesOf(parent.index)[ci].child == parent.children[ci].addr
    ensures PagesOk(cfg, limit, parent.children[ci]) && IndexOk(cfg, limit, parent.index)
  {
  }

  lemma LeafTreesAre(cfg: TreeConfig, limit: nat, addr: nat, left: Image<Tuple>, right: Option<Image<Tuple>>, next: nat)
    requires LeafOk(cfg, limit, left) && (right.Some? ==> LeafOk(cfg, limit, right.value))
    ensures var trees := LeafTrees(addr, left, right, next);
            && |trees| == (if right.Some? then 2 else 1) && trees[0].addr == addr
            && (right.Some? ==> trees[1].addr == next)
            && (forall i | 0 <= i < |trees| :: PagesOk(cfg, limit, trees[i]))
            && AbsAll(trees) == if right.Some? then [B.Node.Leaf(EntriesOf(left)), B.Node.Leaf(EntriesOf(right.value))]
                                else [B.Node.Leaf(EntriesOf(left))]
  {
  }

  lemma LeafChild(cfg: TreeConfig, limit: nat, parent: Tree, p: B.Node, ci: nat, k: Key, msg: Message)
    requires PagesOk(cfg, limit, parent) && Matches(parent, p, ci, k)
    requires B.Descending(p, 1, ci, k) && parent.children[ci].LeafTree?
    ensures var page := parent.children[ci].leaf;
            && LeafOk(cfg, limit, page) && Increasing(EntriesOf(page)) && p.children[ci] == B.Node.Leaf(EntriesOf(page))
    ensures ci < |EntriesOf(parent.index)| && EntriesOf(parent.index)[ci].child == parent.children[ci].addr
    ensures EntriesOf(parent.index)[ci].key == p.pivots[ci] && IndexOk(cfg, limit, parent.index)
  {
    hide Put, MapOf, Increasing;
    B.PivotStays(cfg.data, p, 1, ci, k, msg);
    assert PagesOk(cfg, limit, parent.children[ci]);
  }

  // ----- index nodes below index nodes

  /** The pivots of the child and where the insertion goes on below it. */
  lemma IndexChild(cfg: TreeConfig, limit: nat, parent: Tree, p: B.Node, height: nat, ci: nat, k: Key, msg: Message)
    requires PagesOk(cfg, limit, parent) && Matches(parent, p, ci, k)
    requires B.Descending(p, height, ci, k) && parent.children[ci].IndexTree?
    ensures height > 1 && p.children[ci].Index? && B.SearchTree(p.children[ci], height - 1)
    ensures var c, n := parent.children[ci], p.children[ci];
            && PagesOk(cfg, limit, c) && IndexOk(cfg, limit, c.index) && AbsAll(c.children) == n.children
            && |c.children| == |EntriesOf(c.index)| == |n.pivots| > 0
            && B.KeysIncreasing(n.pivots) && PivotsOrLowered(Keys(EntriesOf(c.index)), n.pivots, k)
  {
    B.PivotStays(cfg.data, p, height, ci, k, msg);
    assert PagesOk(cfg, limit, parent.children[ci]);
    hide Put, MapOf, Increasing, B.Descending;
    B.NodePivots(p.children[ci], height - 1);
  }

  ghost predicate PivotsOrLowered(keys: seq<Key>, pivots: seq<Key>, k: Key) {
    keys == pivots || (pivots != [] && k < pivots[0] && keys == pivots[0 := k])
  }

  lemma StillIncreasing(keys: seq<Key>, pivots: seq<Key>, k: Key)
    requires B.KeysIncreasing(pivots) && PivotsOrLowered(keys, pivots, k)
    ensures B.KeysIncreasing(keys)
  {
  }

  lemma LoweredFirst(keys: seq<Key>, pivots: seq<Key>, k: Key, idx: int)
    requires B.KeysIncreasing(pivots) && PivotsOrLowered(keys, pivots, k) && keys != pivots
    requires -1 <= idx < |keys| && (forall i | 0 <= i <= idx :: keys[i] <= k) && (forall i | idx < i < |keys| :: k < keys[i])
    ensures idx == 0
  {
    assert keys[0] == k && forall i | 0 < i < |keys| :: k < keys[i];
    assert keys[First(idx)] <= k <==> idx >= 0;
  }

  lemma ChildReady(n: B.Node, height: nat, pivots: seq<Pivot>, idx: int, k: Key)
    requires n.Index? && B.SearchTree(n, height) && B.KeysIncreasing(n.pivots)
    requires |pivots| == |n.pivots| > 0 && PivotsOrLowered(Keys(pivots), n.pivots, k)
    requires -1 <= idx < |pivots|
    requires forall i | 0 <= i <= idx :: Keys(pivots)[i] <= k
    requires forall i | idx < i < |pivots| :: k < Keys(pivots)[i]
    ensures B.Descending(B.Node.Index(Keys(Lowered(pivots, idx, k)), n.children), height, First(idx), k)
  {
    hide B.Descending, B.SearchTree;
    var lowered := Keys(pivots) != n.pivots;
    if lowered {
      LoweredFirst(Keys(pivots), n.pivots, k, idx);
    }
    B.PrepareChild(n, height, if lowered then -1 else idx, k);
    var t := B.Node.Index(Keys(Lowered(pivots, idx, k)), n.children);
    if idx < 0 || lowered {
      assert t.pivots == n.pivots[0 := k];
      assert t == n.(pivots := n.pivots[0 := k]);
    }
  }

  /** A piece of a node is a node again. */
  lemma PieceOk(cfg: TreeConfig, limit: nat, c: Tree, idx: int, k: Key, addr: nat, page: Image<Pivot>, lo: nat, hi: nat)
    requires c.IndexTree? && PagesOk(cfg, limit, c) && IndexOk(cfg, limit, page)
    requires EntriesOf(c.index) != [] && lo <= hi <= |EntriesOf(c.index)|
    requires EntriesOf(page) == Lowered(EntriesOf(c.index), idx, k)[lo..hi]
    ensures |c.children| == |EntriesOf(c.index)|
    ensures var piece := IndexTree(addr, page, c.children[lo..hi]);
            && PagesOk(cfg, limit, piece)
            && Abs(piece) == B.Node.Index(Keys(Lowered(EntriesOf(c.index), idx, k))[lo..hi], AbsAll(c.children)[lo..hi])
  {
    hide EntriesOf, IndexOk;
    var children := c.children[lo..hi];
    forall i | 0 <= i < |children|
      ensures EntriesOf(page)[i].child == children[i].addr && PagesOk(cfg, limit, children[i])
    {
      assert children[i] == c.children[lo + i];
    }
  }

  lemma MatchesItself(cfg: TreeConfig, limit: nat, t: Tree, ci: nat, k: Key)
    requires t.IndexTree? && PagesOk(cfg, limit, t) && ci < |t.children|
    ensures Matches(t, Abs(t), ci, k)
  {
  }

  lemma ChildDone(cfg: TreeConfig, limit: nat, parent: Tree, p: B.Node, height: nat, ci: nat, k: Key, msg: Message,
                  t: B.Node, t': Tree)
    requires PagesOk(cfg, limit, parent) && Matches(parent, p, ci, k) && B.Descending(p, height, ci, k) && height > 1
    requires p.children[ci].Index? && t.Index? && t.children == p.children[ci].children
    requires PagesOk(cfg, limit, t') && t'.addr == parent.children[ci].addr
    requires B.Shape(Abs(t'), height - 1) && B.InOrder(Abs(t')) == Put(cfg.data, B.InOrder(t), k, msg)
    ensures var r := Replace(parent, parent.index, ci, [t']);
            && PagesOk(cfg, limit, r) && B.Shape(Abs(r), height) && B.InOrder(Abs(r)) == Put(cfg.data, B.InOrder(p), k, msg)
    ensures k in MapOf(B.InOrder(p)) <==> k in MapOf(B.InOrder(t))
  {
    var entries := EntriesOf(parent.index);
    ChildAddr(cfg, limit, parent, ci);
    OneMore(entries, ci, Pivot(k, 0));
    assert Keys([entries[ci]]) == [p.pivots[ci]] && AbsAll([t']) == [Abs(t')];
    hide EntriesOf, Put, MapOf, Increasing, B.Descending, B.Shape, PagesOk, Matches, IndexOk, Abs, AbsAll, B.InOrder;
    Replaced(cfg, limit, parent, p, ci, k, parent.index, [entries[ci]], [t']);
    B.ChildPut(cfg.data, p, height, ci, k, msg, t, Abs(t'));
  }

  lemma PivotKey(parent: Tree, p: B.Node, ci: nat, k: Key)
    requires Matches(parent, p, ci, k)
    ensures parent.IndexTree? && ci < |parent.children| && p.Index? && ci < |p.children| == |p.pivots|
    ensures ci < |EntriesOf(parent.index)| && EntriesOf(parent.index)[ci].key == p.pivots[ci]
  {
    assert p.pivots[ci] == Keys(EntriesOf(parent.index))[ci];
  }

  lemma NewKeys(a: Pivot, b: Pivot, key: Key)
    requires a.key == key
    ensures Keys([a, b]) == [key, b.key]
  {
  }

  lemma AbsTwo(a: Tree, b: Tree)
    ensures AbsAll([a, b]) == [Abs(a), Abs(b)]
  {
  }

  lemma PartsDone(cfg: TreeConfig, limit: nat, parent: Tree, p: B.Node, height: nat, ci: nat, k: Key, msg: Message,
                  t: B.Node, first: nat, cut: nat, index: Image<Pivot>, left: Tree, right: Tree)
    requires PagesOk(cfg, limit, parent) && Matches(parent, p, ci, k) && B.Descending(p, height, ci, k) && height > 1
    requires p.children[ci].Index? && t.Index? && t.children == p.children[ci].children
    requires B.Descending(t, height - 1, first, k) && 0 < cut < |t.pivots|
    requires PagesOk(cfg, limit, left) && PagesOk(cfg, limit, right) && left.addr == parent.children[ci].addr
    requires IndexOk(cfg, limit, index) && ci < |EntriesOf(parent.index)|
    requires EntriesOf(index)
          == EntriesOf(parent.index)[..ci + 1] + [Pivot(t.pivots[cut], right.addr)] + EntriesOf(parent.index)[ci + 1..]
    requires first < cut ==>
      && B.Shape(Abs(left), height - 1) && Abs(right) == B.RightPart(t, cut)
      && B.InOrder(Abs(left)) == Put(cfg.data, B.InOrder(B.LeftPart(t, cut)), k, msg)
    requires first >= cut ==>
      && B.Shape(Abs(right), height - 1) && Abs(left) == B.LeftPart(t, cut)
      && B.InOrder(Abs(right)) == Put(cfg.data, B.InOrder(B.RightPart(t, cut)), k, msg)
    ensures var r := Replace(parent, index, ci, [left, right]);
            && PagesOk(cfg, limit, r) && B.Shape(Abs(r), height) && B.InOrder(Abs(r)) == Put(cfg.data, B.InOrder(p), k, msg)
    ensures k in MapOf(B.InOrder(p))
       <==> k in MapOf(B.InOrder(if first < cut then B.LeftPart(t, cut) else B.RightPart(t, cut)))
  {
    hide *;
    PivotKey(parent, p, ci, k);
    var entries := EntriesOf(parent.index);
    var news := [entries[ci], Pivot(t.pivots[cut], right.addr)];
    ChildAddr(cfg, limit, parent, ci);
    OneMore(entries, ci, news[1]);
    NewKeys(entries[ci], news[1], p.pivots[ci]);
    Replaced(cfg, limit, parent, p, ci, k, index, news, [left, right]);
    AbsTwo(left, right);
    B.PartsPut(cfg.data, p, height, ci, k, msg, t, first, cut, Abs(left), Abs(right));
  }

  /** The key is not below all keys of the tree. */
  ghost predicate Reached(n: B.Node, k: Key) {
    B.InOrder(n) != [] && B.InOrder(n)[0].key <= k
  }

  /** No node that is descended into gets a new least key, or all keys are short. */
  ghost predicate Sure(cfg: TreeConfig, limit: nat, n: B.Node, k: Key) {
    limit <= I.ShortKey(cfg) || Reached(n, k)
  }

  lemma ReachedChild(cfg: DataConfig, p: B.Node, height: nat, ci: nat, k: Key, msg: Message)
    requires B.Descending(p, height, ci, k) && Reached(p, k)
    ensures height > 0 && p.Index? && ci < |p.children| && Reached(p.children[ci], k)
  {
    B.PivotStays(cfg, p, height, ci, k, msg);
    hide Put;
    if ci == 0 {
      B.InOrderCons(p.children);
    } else {
      assert B.ChildOk(p.children[ci], p.pivots[ci], height);
    }
  }

  lemma LeastPivot(n: B.Node, height: nat)
    requires n.Index? && B.Shape(n, height)
    ensures n.pivots != [] && B.InOrder(n) != [] && n.pivots[0] == B.InOrder(n)[0].key
  {
    assert B.ChildOk(n.children[0], n.pivots[0], height);
    B.InOrderCons(n.children);
  }

  /** Then the least key of the child is right already. */
  lemma SureBelow(cfg: TreeConfig, limit: nat, p: B.Node, height: nat, ci: nat, k: Key, msg: Message,
                  pivots: seq<Pivot>, idx: int)
    requires B.Descending(p, height, ci, k) && height > 1 && Sure(cfg, limit, p, k)
    requires p.Index? && ci < |p.children| && p.children[ci].Index? && B.SearchTree(p.children[ci], height - 1)
    requires PivotsOrLowered(Keys(pivots), p.children[ci].pivots, k) && |pivots| == |p.children[ci].pivots|
    requires -1 <= idx < |pivots| && forall i | idx < i < |pivots| :: k < Keys(pivots)[i]
    ensures limit <= I.ShortKey(cfg) || idx >= 0
    ensures Sure(cfg, limit, p.children[ci], k)
  {
    if Reached(p, k) {
      ReachedChild(cfg.data, p, height, ci, k, msg);
      LeastPivot(p.children[ci], height - 1);
      hide *;
      NotLowered(Keys(pivots), p.children[ci].pivots, k);
    }
  }

  lemma NotLowered(keys: seq<Key>, pivots: seq<Key>, k: Key)
    requires PivotsOrLowered(keys, pivots, k) && pivots != [] && pivots[0] <= k
    ensures keys == pivots
  {
  }

  lemma SameSure(cfg: TreeConfig, limit: nat, a: B.Node, b: B.Node, k: Key)
    requires a.Index? && b.Index? && a.children == b.children
    ensures Sure(cfg, limit, a, k) <==> Sure(cfg, limit, b, k)
  {
    B.SameInOrder(a, b);
  }

  lemma SurePieces(cfg: TreeConfig, limit: nat, t: B.Node, height: nat, first: nat, k: Key, cut: nat)
    requires B.Descending(t, height, first, k) && t.Index? && 0 < cut < |t.pivots| == |t.children|
    requires Sure(cfg, limit, t, k)
    ensures Sure(cfg, limit, if first < cut then B.LeftPart(t, cut) else B.RightPart(t, cut), k)
  {
    B.CutChild(t, height, first, k, cut);
    hide B.InOrder, B.Descending, B.LeftPart, B.RightPart;
  }

  /** The descent below an index node.  It ends without success only if a parent has no room for the
      pivot of a child that was split; and never if the first parent has room, and all keys are short
      or the new one is not below all others. */
  method Descend(cfg: TreeConfig, ghost limit: nat, parent: Tree, ghost p: B.Node, ghost height: nat, ci: nat,
                 k: Key, msg: Message, next: nat)
    returns (ok: bool, parent': Tree, wasUnique: bool, next': nat)
    requires Given(cfg, limit, k, msg) && PagesOk(cfg, limit, parent) && Matches(parent, p, ci, k)
    requires B.Descending(p, height, ci, k)
    ensures TakesPivot(cfg, parent.index, limit) && (height == 1 || Sure(cfg, limit, p, k)) ==> ok
    ensures ok ==> parent'.IndexTree? && parent'.addr == parent.addr && PagesOk(cfg, limit, parent')
    ensures ok ==> next <= next' && Addrs(parent') == Addrs(parent) + Taken(next, next')
    ensures ok ==> B.Shape(Abs(parent'), height) && B.InOrder(Abs(parent')) == Put(cfg.data, B.InOrder(p), k, msg)
    ensures ok ==> (wasUnique <==> k !in MapOf(B.InOrder(p)))
    decreases height
  {
    hide *;
    PivotKey(parent, p, ci, k);
    var child := parent.children[ci];
    if child.LeafTree? {
      LeafBelow(cfg.data, parent, p, height, ci, k, msg);
      ok, parent', wasUnique, next' := IntoLeaf(cfg, limit, parent, p, ci, k, msg, next);
      return;
    }
    IndexChild(cfg, limit, parent, p, height, ci, k, msg);
    GivenLimits(cfg, limit, k, msg);
    var pivots := EntriesOf(child.index);
    StillIncreasing(Keys(pivots), p.children[ci].pivots, k);
    var idx := B.FindPivot(Keys(pivots), k);
    ChildReady(p.children[ci], height - 1, pivots, idx, k);
    if Sure(cfg, limit, p, k) {
      SureBelow(cfg, limit, p, height, ci, k, msg, pivots, idx);
    }
    var left, right, cut := PrepareIndex(cfg, limit, child.index, k, idx);
    ok, parent', wasUnique, next' := BelowChild(cfg, limit, parent, p, height, ci, k, msg, next, idx, left, right, cut);
  }

  lemma LeafBelow(cfg: DataConfig, parent: Tree, p: B.Node, height: nat, ci: nat, k: Key, msg: Message)
    requires Matches(parent, p, ci, k) && B.Descending(p, height, ci, k) && parent.children[ci].LeafTree?
    ensures height == 1
  {
    B.PivotStays(cfg, p, height, ci, k, msg);
  }

  /** The rest of the descent once the child is ready: `left` is its page, `right` that of its new
      neighbour. */
  method BelowChild(cfg: TreeConfig, ghost limit: nat, parent: Tree, ghost p: B.Node, ghost height: nat, ci: nat,
                    k: Key, msg: Message, next: nat, idx: int, left: Image<Pivot>, right: Option<Image<Pivot>>, cut: nat)
    returns (ok: bool, parent': Tree, wasUnique: bool, next': nat)
    requires Given(cfg, limit, k, msg) && PagesOk(cfg, limit, parent) && Matches(parent, p, ci, k)
    requires B.Descending(p, height, ci, k) && height > 1
    requires parent.children[ci].IndexTree? && p.children[ci].Index?
    requires PagesOk(cfg, limit, parent.children[ci]) && AbsAll(parent.children[ci].children) == p.children[ci].children
    requires EntriesOf(parent.children[ci].index) != []
    requires var t := B.Node.Index(Keys(Lowered(EntriesOf(parent.children[ci].index), idx, k)), p.children[ci].children);
             B.Descending(t, height - 1, First(idx), k)
    requires IndexOk(cfg, limit, left)
    requires var lowered := Lowered(EntriesOf(parent.children[ci].index), idx, k);
             && (right.None? ==> EntriesOf(left) == lowered)
             && (right.Some? ==>
                   && IndexOk(cfg, limit, right.value) && 0 < cut < |lowered|
                   && EntriesOf(left) == lowered[..cut] && EntriesOf(right.value) == lowered[cut..])
    ensures
      && TakesPivot(cfg, parent.index, limit) && Sure(cfg, limit, p.children[ci], k)
      && (if right.None? || First(idx) < cut then TakesPivot(cfg, left, limit) else TakesPivot(cfg, right.value, limit))
      ==> ok
    ensures ok ==> parent'.IndexTree? && parent'.addr == parent.addr && PagesOk(cfg, limit, parent')
    ensures ok ==> next <= next' && Addrs(parent') == Addrs(parent) + Taken(next, next')
    ensures ok ==> B.Shape(Abs(parent'), height) && B.InOrder(Abs(parent')) == Put(cfg.data, B.InOrder(p), k, msg)
    ensures ok ==> (wasUnique <==> k !in MapOf(B.InOrder(p)))
    decreases height, 0
  {
    hide *;
    PivotKey(parent, p, ci, k);
    GivenLimits(cfg, limit, k, msg);
    var child := parent.children[ci];
    ghost var t := B.Node.Index(Keys(Lowered(EntriesOf(child.index), idx, k)), p.children[ci].children);
    if right.None? {
      var below := IndexTree(child.addr, left, child.children);
      Whole(cfg, limit, child, t, height - 1, idx, k, left);
      SameAddrs(below, child);
      SameSure(cfg, limit, t, p.children[ci], k);
      ok, below, wasUnique, next' := Descend(cfg, limit, below, t, height - 1, First(idx), k, msg, next);
      parent' := parent;
      if ok {
        AddrsFew(below, below);
        ReplacedAddrs(parent, parent.index, ci, [below], next, next');
        ChildDone(cfg, limit, parent, p, height, ci, k, msg, t, below);
        parent' := Replace(parent, parent.index, ci, [below]);
      }
      return;
    }
    var index;
    ChildAddr(cfg, limit, parent, ci);
    TwoPieces(cfg, limit, child, t, height - 1, idx, k, cut, left, right.value, next);
    SameSure(cfg, limit, t, p.children[ci], k);
    if Sure(cfg, limit, t, k) {
      SurePieces(cfg, limit, t, height - 1, First(idx), k, cut);
    }
    ok, index := AddPivot(cfg, limit, parent.index, ci + 1, Pivot(EntriesOf(child.index)[cut].key, next));
    parent', wasUnique, next' := parent, false, next;
    if !ok {
      return;
    }
    var l := IndexTree(child.addr, left, child.children[..cut]);
    var r := IndexTree(next, right.value, child.children[cut..]);
    CutAddrs(child, cut, left, right.value, next);
    ghost var l0, r0 := Addrs(l), Addrs(r);
    if First(idx) < cut {
      ok, l, wasUnique, next' := Descend(cfg, limit, l, B.LeftPart(t, cut), height - 1, First(idx), k, msg, next + 1);
    } else {
      ok, r, wasUnique, next' := Descend(cfg, limit, r, B.RightPart(t, cut), height - 1, First(idx) - cut, k, msg, next + 1);
    }
    if ok {
      AddrsFew(l, r);
      TakenJoin(next, next + 1, next');
      Gathered(l0, r0, Addrs(child), multiset{next}, Taken(next + 1, next'), Addrs(l) + Addrs(r));
      ReplacedAddrs(parent, index, ci, [l, r], next, next');
      PartsDone(cfg, limit, parent, p, height, ci, k, msg, t, First(idx), cut, index, l, r);
      parent' := Replace(parent, index, ci, [l, r]);
    }
  }

  /** The child as a whole, its least key lowered if need be. */
  lemma Whole(cfg: TreeConfig, limit: nat, c: Tree, t: B.Node, height: nat, idx: int, k: Key, page: Image<Pivot>)
    requires c.IndexTree? && PagesOk(cfg, limit, c) && IndexOk(cfg, limit, page) && EntriesOf(c.index) != []
    requires EntriesOf(page) == Lowered(EntriesOf(c.index), idx, k)
    requires t == B.Node.Index(Keys(Lowered(EntriesOf(c.index), idx, k)), AbsAll(c.children))
    requires B.Descending(t, height, First(idx), k)
    ensures PagesOk(cfg, limit, IndexTree(c.addr, page, c.children))
    ensures Matches(IndexTree(c.addr, page, c.children), t, First(idx), k)
  {
    hide EntriesOf, Abs, PagesOk, IndexOk;
    var n := |EntriesOf(c.index)|;
    PieceOk(cfg, limit, c, idx, k, c.addr, page, 0, n);
    assert c.children[0..n] == c.children;
    MatchesItself(cfg, limit, IndexTree(c.addr, page, c.children), First(idx), k);
  }

  /** The two parts of a child that was split. */
  lemma TwoPieces(cfg: TreeConfig, limit: nat, c: Tree, t: B.Node, height: nat, idx: int, k: Key, cut: nat,
                  left: Image<Pivot>, right: Image<Pivot>, next: nat)
    requires c.IndexTree? && PagesOk(cfg, limit, c) && IndexOk(cfg, limit, left) && IndexOk(cfg, limit, right)
    requires EntriesOf(c.index) != [] && 0 < cut < |Lowered(EntriesOf(c.index), idx, k)|
    requires EntriesOf(left) == Lowered(EntriesOf(c.index), idx, k)[..cut]
    requires EntriesOf(right) == Lowered(EntriesOf(c.index), idx, k)[cut..]
    requires t == B.Node.Index(Keys(Lowered(EntriesOf(c.index), idx, k)), AbsAll(c.children))
    requires B.Descending(t, height, First(idx), k)
    ensures |c.children| == |t.children| == |t.pivots| == |EntriesOf(c.index)| > cut
    ensures t.pivots[cut] == EntriesOf(c.index)[cut].key && cfg.keyLength(t.pivots[cut]) <= limit
    ensures var l, r := IndexTree(c.addr, left, c.children[..cut]), IndexTree(next, right, c.children[cut..]);
            && PagesOk(cfg, limit, l) && PagesOk(cfg, limit, r)
            && Abs(l) == B.LeftPart(t, cut) && Abs(r) == B.RightPart(t, cut)
            && (First(idx) < cut ==>
                  B.Descending(B.LeftPart(t, cut), height, First(idx), k) && Matches(l, B.LeftPart(t, cut), First(idx), k))
            && (First(idx) >= cut ==>
                  && B.Descending(B.RightPart(t, cut), height, First(idx) - cut, k)
                  && Matches(r, B.RightPart(t, cut), First(idx) - cut, k))
  {
    hide *;
    CutKey(cfg, limit, c, idx, k, cut);
    InRange(t, height, First(idx), k);
    var n := |EntriesOf(c.index)|;
    var l, r := IndexTree(c.addr, left, c.children[..cut]), IndexTree(next, right, c.children[cut..]);
    assert |t.pivots| == n && t.children == AbsAll(c.children) && |t.children| == |c.children|;
    PieceOk(cfg, limit, c, idx, k, c.addr, left, 0, cut);
    PieceOk(cfg, limit, c, idx, k, next, right, cut, n);
    PartsAre(t, cut);
    assert c.children[0..cut] == c.children[..cut] && c.children[cut..n] == c.children[cut..];
    assert EntriesOf(left) == Lowered(EntriesOf(c.index), idx, k)[0..cut];
    B.CutChild(t, height, First(idx), k, cut);
    if First(idx) < cut {
      MatchesItself(cfg, limit, l, First(idx), k);
    } else {
      MatchesItself(cfg, limit, r, First(idx) - cut, k);
    }
  }

  lemma PartsAre(t: B.Node, cut: nat)
    requires t.Index? && |t.pivots| == |t.children| && cut <= |t.pivots|
    ensures B.LeftPart(t, cut) == B.Node.Index(t.pivots[0..cut], t.children[0..cut])
    ensures B.RightPart(t, cut) == B.Node.Index(t.pivots[cut..|t.pivots|], t.children[cut..|t.pivots|])
  {
  }

  lemma InRange(t: B.Node, height: nat, ci: nat, k: Key)
    requires B.Descending(t, height, ci, k)
    ensures t.Index? && |t.pivots| == |t.children| > ci
  {
  }

  lemma CutKey(cfg: TreeConfig, limit: nat, c: Tree, idx: int, k: Key, cut: nat)
    requires c.IndexTree? && PagesOk(cfg, limit, c) && EntriesOf(c.index) != [] && 0 < cut < |EntriesOf(c.index)|
    ensures cfg.keyLength(EntriesOf(c.index)[cut].key) <= limit
    ensures Keys(Lowered(EntriesOf(c.index), idx, k))[cut] == EntriesOf(c.index)[cut].key
  {
    hide EntriesOf;
  }

  // ----- the root

  ghost predicate ValidTree(cfg: TreeConfig, limit: nat, root: Tree, height: nat) {
    PagesOk(cfg, limit, root) && B.ValidRoot(Abs(root), height)
  }

  ghost function Contents(root: Tree): Run {
    B.InOrder(Abs(root))
  }

  /** A root page with its first pivot. */
  ghost predicate JustGrown(cfg: TreeConfig, limit: nat, page: Image<Pivot>) {
    |page.offsets| == 1 && page.nextEntry + INDEX_ENTRY + limit >= cfg.pageSize
  }

  /** btree_grow_root: the page of the new root, with the old one as its only child. */
  method GrowRoot(cfg: TreeConfig, ghost limit: nat, pivot: Key, child: nat) returns (page: Image<Pivot>)
    requires cfg.Valid() && limit <= cfg.MaxInlineKey() && cfg.keyLength(pivot) <= limit
    ensures IndexOk(cfg, limit, page) && EntriesOf(page) == [Pivot(pivot, child)]
    ensures JustGrown(cfg, limit, page) && TakesPivot(cfg, page, limit)
  {
    hide PageOk, EntriesOf;
    var node := new Index(cfg);
    var succeeded := node.Set(0, Pivot(pivot, child));
    page := node.Stored();
  }

  /** What happens to an index node at the root: its least key is lowered if need be, and it gets a
      new root above it if it is full.  A least key that could not be set before is then set in the
      new root only. */
  method PrepareRoot(cfg: TreeConfig, ghost limit: nat, page: Image<Pivot>, k: Key, idx: int, next: nat)
    returns (root: Image<Pivot>, child: Option<Image<Pivot>>)
    requires cfg.Valid() && limit <= cfg.MaxInlineKey() && cfg.keyLength(k) <= limit
    requires IndexOk(cfg, limit, page) && EntriesOf(page) != [] && -1 <= idx < |EntriesOf(page)|
    ensures IndexOk(cfg, limit, root) && TakesPivot(cfg, root, limit)
    ensures JustGrown(cfg, limit, page) ==> child.None?
    ensures child.None? ==> EntriesOf(root) == Lowered(EntriesOf(page), idx, k)
    ensures child.Some? ==>
      && IndexOk(cfg, limit, child.value)
      && (EntriesOf(child.value) == EntriesOf(page) || EntriesOf(child.value) == Lowered(EntriesOf(page), idx, k))
      && EntriesOf(root) == [Pivot(Lowered(EntriesOf(page), idx, k)[0].key, next)]
  {
    hide PageOk, EntrySize, EntriesOf;
    var node := new Index.Load(cfg, page);
    LimitsHold(cfg, limit, node.Contents(), idx, k);
    child := None;
    var needToSetMinKey := false;
    var least := Pivot(k, node.EntryAt(0).child);
    KeySize(cfg, least);
    if idx < 0 {
      var done := node.Set(0, least);
      needToSetMinKey := !done;
    }
    root := node.Stored();
    if node.IsFull() {
      child := Some(node.Stored());
      root := GrowRoot(cfg, limit, node.EntryAt(0).key, next);
      if needToSetMinKey {
        root := LowerRoot(cfg, limit, root, Pivot(k, next));
      }
    }
  }

  /** Setting the only pivot of a new root. */
  method LowerRoot(cfg: TreeConfig, ghost limit: nat, page: Image<Pivot>, least: Pivot) returns (root: Image<Pivot>)
    requires cfg.Valid() && limit <= cfg.MaxInlineKey() && cfg.keyLength(least.key) <= limit
    requires IndexOk(cfg, limit, page) && |EntriesOf(page)| == 1 && JustGrown(cfg, limit, page)
    ensures IndexOk(cfg, limit, root) && EntriesOf(root) == [least] && TakesPivot(cfg, root, limit)
  {
    hide PageOk, EntriesOf;
    var node := new Index.Load(cfg, page);
    assert |node.offsets| == 1;
    I.SetMinKey(node, least);
    root := node.Stored();
  }

  /** The insertion into a leaf that is the root, unless there is no room. */
  method RootLeaf(cfg: TreeConfig, ghost limit: nat, page: Image<Tuple>, k: Key, msg: Message)
    returns (ok: bool, page': Image<Tuple>, wasUnique: bool)
    requires Given(cfg, limit, k, msg) && LeafOk(cfg, limit, page) && Increasing(EntriesOf(page))
    ensures ok ==> LeafOk(cfg, limit, page') && EntriesOf(page') == Put(cfg.data, EntriesOf(page), k, msg)
    ensures ok ==> EntriesOf(page') != [] && (wasUnique <==> k !in MapOf(EntriesOf(page)))
    ensures !ok ==> EntriesOf(page) != []
  {
    hide PageOk, EntrySize, Put, MapOf, Increasing, MergeTuples, EntriesOf, MergesFit;
    var leaf := new Leaf.Load(cfg, page);
    var spec := leaf.CreateSpec(k, msg);
    ghost var tuples := leaf.Contents();
    IncorporatedIsPut(cfg.data, tuples, spec, msg);
    PutWithinLimits(cfg, limit, tuples, k, msg);
    SpecWithin(cfg, limit, tuples, spec);
    EmptyTakes(leaf, spec);
    ok := leaf.TryPerform(spec);
    page', wasUnique := leaf.Stored(), spec.state.DidNotExist?;
  }

  lemma EmptyTakes(leaf: Leaf, spec: IncorporateSpec)
    requires leaf.Valid() && SpecFits(leaf.Contents(), spec) && WithinLimits(leaf.cfg, spec.tuple)
    requires leaf.Contents() == [] ==> leaf.nextEntry == leaf.cfg.pageSize
    ensures leaf.Contents() == [] ==> leaf.CanPerform(spec)
  {
  }

  lemma LeafRoot(cfg: TreeConfig, limit: nat, root: Tree, height: nat)
    requires ValidTree(cfg, limit, root, height) && root.LeafTree?
    ensures LeafOk(cfg, limit, root.leaf) && Increasing(EntriesOf(root.leaf)) && Contents(root) == EntriesOf(root.leaf)
    ensures EntriesOf(root.leaf) != [] ==> height == 0 && cfg.keyLength(EntriesOf(root.leaf)[0].key) <= limit
  {
  }

  lemma LeafIs(cfg: TreeConfig, limit: nat, addr: nat, page: Image<Tuple>)
    requires LeafOk(cfg, limit, page) && EntriesOf(page) != []
    ensures PagesOk(cfg, limit, LeafTree(addr, page)) && Contents(LeafTree(addr, page)) == EntriesOf(page)
    ensures B.Shape(Abs(LeafTree(addr, page)), 0)
  {
  }

  /** A root leaf that became the only child of a new root. */
  lemma GrownLeaf(cfg: TreeConfig, limit: nat, root: Tree, height: nat, index: Image<Pivot>, next: nat)
    requires ValidTree(cfg, limit, root, height) && root.LeafTree? && EntriesOf(root.leaf) != []
    requires IndexOk(cfg, limit, index) && EntriesOf(index) == [Pivot(EntriesOf(root.leaf)[0].key, next)]
    ensures var grown := IndexTree(root.addr, index, [LeafTree(next, root.leaf)]);
            ValidTree(cfg, limit, grown, 1) && Contents(grown) == Contents(root)
  {
    assert PagesOk(cfg, limit, LeafTree(next, root.leaf)) && Abs(LeafTree(next, root.leaf)) == Abs(root);
    assert B.SearchTree(Abs(root), 0) && Contents(root) == EntriesOf(root.leaf);
    hide EntriesOf, IndexOk, LeafOk, Abs, PagesOk, B.InOrder, B.SearchTree;
    OneChild(cfg, limit, root.addr, index, LeafTree(next, root.leaf));
    B.GrownRoot(Abs(root), 0, EntriesOf(root.leaf)[0].key);
  }

  /** A node with one child. */
  lemma OneChild(cfg: TreeConfig, limit: nat, addr: nat, index: Image<Pivot>, child: Tree)
    requires IndexOk(cfg, limit, index) && PagesOk(cfg, limit, child)
    requires |EntriesOf(index)| == 1 && EntriesOf(index)[0].child == child.addr
    ensures PagesOk(cfg, limit, IndexTree(addr, index, [child]))
    ensures Abs(IndexTree(addr, index, [child])) == B.Node.Index([EntriesOf(index)[0].key], [Abs(child)])
  {
    hide EntriesOf, IndexOk;
    OneKey(EntriesOf(index)[0]);
    assert EntriesOf(index) == [EntriesOf(index)[0]] && AbsAll([child]) == [Abs(child)];
  }

  lemma OneKey(p: Pivot)
    ensures Keys([p]) == [p.key]
  {
  }

  lemma RootIndex(cfg: TreeConfig, limit: nat, root: Tree, height: nat)
    requires ValidTree(cfg, limit, root, height) && root.IndexTree?
    ensures height > 0 && B.SearchTree(Abs(root), height) && PagesOk(cfg, limit, root) && IndexOk(cfg, limit, root.index)
    ensures Abs(root) == B.Node.Index(Keys(EntriesOf(root.index)), AbsAll(root.children))
    ensures |root.children| == |EntriesOf(root.index)| > 0 && B.KeysIncreasing(Keys(EntriesOf(root.index)))
  {
    B.NodePivots(Abs(root), height);
  }

  /** A full root that became the only child of a new one. */
  lemma GrownIndex(cfg: TreeConfig, limit: nat, root: Tree, height: nat, idx: int, k: Key, index: Image<Pivot>,
                   child: Image<Pivot>, next: nat)
    requires PagesOk(cfg, limit, root) && root.IndexTree? && B.SearchTree(Abs(root), height)
    requires EntriesOf(root.index) != [] && -1 <= idx < |EntriesOf(root.index)|
    requires if idx < 0 then k < EntriesOf(root.index)[0].key else EntriesOf(root.index)[0].key <= k
    requires IndexOk(cfg, limit, index) && IndexOk(cfg, limit, child)
    requires EntriesOf(child) == EntriesOf(root.index) || EntriesOf(child) == Lowered(EntriesOf(root.index), idx, k)
    requires EntriesOf(index) == [Pivot(Lowered(EntriesOf(root.index), idx, k)[0].key, next)]
    ensures var grown := IndexTree(root.addr, index, [IndexTree(next, child, root.children)]);
            var p := B.Node.Index([EntriesOf(index)[0].key], [Abs(root)]);
            && PagesOk(cfg, limit, grown) && Matches(grown, p, 0, k)
            && B.Descending(p, height + 1, 0, k) && B.InOrder(p) == B.InOrder(Abs(root))
  {
    hide *;
    var inner := IndexTree(next, child, root.children);
    var key := EntriesOf(index)[0].key;
    LoweredPage(cfg, limit, root, idx, k, inner);
    OneChild(cfg, limit, root.addr, index, inner);
    GrownNode(Abs(root), Keys(EntriesOf(root.index)), height, key, k, B.Node.Index([key], [Abs(root)]));
    GrownMatches(IndexTree(root.addr, index, [inner]), Abs(root), key, k);
  }

  /** The old root below a new one, its least key lowered or not. */
  lemma LoweredPage(cfg: TreeConfig, limit: nat, root: Tree, idx: int, k: Key, inner: Tree)
    requires root.IndexTree? && PagesOk(cfg, limit, root) && EntriesOf(root.index) != []
    requires if idx < 0 then k < EntriesOf(root.index)[0].key else EntriesOf(root.index)[0].key <= k
    requires inner.IndexTree? && IndexOk(cfg, limit, inner.index) && inner.children == root.children
    requires EntriesOf(inner.index) == EntriesOf(root.index) || EntriesOf(inner.index) == Lowered(EntriesOf(root.index), idx, k)
    ensures PagesOk(cfg, limit, inner) && ChildMatches(inner, Abs(root), k)
    ensures Abs(root).Index? && Abs(root).pivots == Keys(EntriesOf(root.index))
    ensures var key := Lowered(EntriesOf(root.index), idx, k)[0].key;
            key <= k && (key == Abs(root).pivots[0] || key == k < Abs(root).pivots[0])
  {
    hide EntriesOf, IndexOk;
    assert idx < 0 ==> Keys(Lowered(EntriesOf(root.index), idx, k)) == Keys(EntriesOf(root.index))[0 := k];
  }

  lemma GrownNode(n: B.Node, keys: seq<Key>, height: nat, key: Key, k: Key, p: B.Node)
    requires n.Index? && n.pivots == keys && keys != [] && B.SearchTree(n, height)
    requires p == B.Node.Index([key], [n])
    requires key <= k && (key == keys[0] || key == k < keys[0])
    ensures B.Descending(p, height + 1, 0, k) && B.InOrder(p) == B.InOrder(n)
  {
    hide Increasing, B.Descending;
    assert B.ChildOk(n.children[0], n.pivots[0], height);
    B.InOrderCons(n.children);
    B.GrownDescending(n, height, k, p);
  }

  lemma GrownMatches(grown: Tree, n: B.Node, key: Key, k: Key)
    requires grown.IndexTree? && |grown.children| == 1 && ChildMatches(grown.children[0], n, k)
    requires Abs(grown) == B.Node.Index([key], [Abs(grown.children[0])])
    ensures Matches(grown, B.Node.Index([key], [n]), 0, k)
  {
    AbsIs(grown);
    hide Abs, EntriesOf;
  }

  lemma RootReady(n: B.Node, height: nat, pivots: seq<Pivot>, idx: int, k: Key)
    requires n.Index? && B.SearchTree(n, height) && n.pivots == Keys(pivots) && B.KeysIncreasing(n.pivots)
    requires pivots != [] && -1 <= idx < |pivots|
    requires forall i | 0 <= i <= idx :: Keys(pivots)[i] <= k
    requires forall i | idx < i < |pivots| :: k < Keys(pivots)[i]
    ensures B.Descending(B.Node.Index(Keys(Lowered(pivots, idx, k)), n.children), height, First(idx), k)
  {
    hide B.Descending, B.SearchTree, B.KeysIncreasing;
    ChildReady(n, height, pivots, idx, k);
  }

  lemma FirstAgainst(pivots: seq<Pivot>, idx: int, k: Key)
    requires pivots != [] && -1 <= idx < |pivots|
    requires forall i | 0 <= i <= idx :: Keys(pivots)[i] <= k
    requires forall i | idx < i < |pivots| :: k < Keys(pivots)[i]
    ensures if idx < 0 then k < pivots[0].key else pivots[0].key <= k
  {
    assert Keys(pivots)[0] == pivots[0].key;
  }

  /** The insertion into a tree whose root is an index node. */
  method InsertBelow(cfg: TreeConfig, ghost limit: nat, root: Tree, ghost height: nat, k: Key, msg: Message, next: nat)
    returns (ok: bool, root': Tree, ghost height': nat, wasUnique: bool, next': nat)
    requires Given(cfg, limit, k, msg) && ValidTree(cfg, limit, root, height) && root.IndexTree?
    ensures Sure(cfg, limit, Abs(root), k) || (height == 1 && JustGrown(cfg, limit, root.index)) ==> ok
    ensures ok ==>
      && PagesOk(cfg, limit, root') && B.Shape(Abs(root'), height') && root'.addr == root.addr
      && next <= next' && Addrs(root') == Addrs(root) + Taken(next, next')
      && B.InOrder(Abs(root')) == Put(cfg.data, B.InOrder(Abs(root)), k, msg)
      && (wasUnique <==> k !in MapOf(B.InOrder(Abs(root))))
  {
    hide *;
    GivenLimits(cfg, limit, k, msg);
    RootIndex(cfg, limit, root, height);
    var pivots := EntriesOf(root.index);
    var idx := B.FindPivot(Keys(pivots), k);
    var index, child := PrepareRoot(cfg, limit, root.index, k, idx, next);
    if child.None? {
      var below := IndexTree(root.addr, index, root.children);
      ghost var t := B.Node.Index(Keys(Lowered(pivots, idx, k)), Abs(root).children);
      RootReady(Abs(root), height, pivots, idx, k);
      Whole(cfg, limit, root, t, height, idx, k, index);
      B.SameInOrder(t, Abs(root));
      SameAddrs(below, root);
      SameSure(cfg, limit, t, Abs(root), k);
      height' := height;
      ok, root', wasUnique, next' := Descend(cfg, limit, below, t, height, First(idx), k, msg, next);
    } else {
      var grown := IndexTree(root.addr, index, [IndexTree(next, child.value, root.children)]);
      FirstAgainst(pivots, idx, k);
      GrownIndex(cfg, limit, root, height, idx, k, index, child.value, next);
      GrownAddrs(root, index, IndexTree(next, child.value, root.children), next);
      height' := height + 1;
      ghost var p := B.Node.Index([EntriesOf(index)[0].key], [Abs(root)]);
      SameReach(cfg, limit, p, Abs(root), k);
      ok, root', wasUnique, next' := Descend(cfg, limit, grown, p, height + 1, 0, k, msg, next + 1);
      if ok {
        TakenJoin(next, next + 1, next');
      }
    }
  }

  lemma SameReach(cfg: TreeConfig, limit: nat, a: B.Node, b: B.Node, k: Key)
    requires B.InOrder(a) == B.InOrder(b)
    ensures Sure(cfg, limit, a, k) <==> Sure(cfg, limit, b, k)
  {
  }

  lemma GrownAddrs(root: Tree, index: Image<Pivot>, child: Tree, next: nat)
    requires child.addr == next
    requires if root.IndexTree? then child.IndexTree? && child.children == root.children else child.LeafTree?
    ensures Addrs(IndexTree(root.addr, index, [child])) == Addrs(root) + multiset{next}
  {
    AddrsFew(child, child);
  }

  /** btree_insert.  Sizes over the limits are refused.  Otherwise the tuple is in the tree
      afterwards, merged with what was there; unless a node has no room for a pivot, which happens only
      to a key below all others, and not if all keys are short. */
  method Insert(cfg: TreeConfig, ghost limit: nat, root: Tree, ghost height: nat, k: Key, msg: Message, next: nat)
    returns (status: Status, root': Tree, ghost height': nat, wasUnique: bool, next': nat)
    requires cfg.Valid() && MergesFit(cfg) && limit <= cfg.MaxInlineKey() && ValidTree(cfg, limit, root, height)
    requires cfg.keyLength(k) <= limit || cfg.keyLength(k) > cfg.MaxInlineKey()
    requires OwnsPages(root, next)
    ensures status.BadParam? <==> !WithinLimits(cfg, Tuple(k, msg))
    ensures status.BadParam? ==> root' == root && height' == height && next' == next
    ensures status.NoRoom? ==> root.IndexTree? && limit > I.ShortKey(cfg) && Contents(root) != [] && k < Contents(root)[0].key
    ensures status.Done? ==>
      && ValidTree(cfg, limit, root', height') && root'.addr == root.addr && OwnsPages(root', next')
      && MapOf(Contents(root')) == MapOf(Contents(root))[k := PutMessage(cfg.data, Contents(root), k, msg)]
      && (wasUnique <==> k !in MapOf(Contents(root)))
  {
    hide *;
    status, root', height', wasUnique, next' := BadParam, root, height, false, next;
    if !WithinLimits(cfg, Tuple(k, msg)) {
      return;
    }
    MayInsert(cfg, limit, k, msg);
    SameContents(root);
    var node := root;
    if root.LeafTree? {
      LeafRoot(cfg, limit, root, height);
      var ok, page, unique := RootLeaf(cfg, limit, root.leaf, k, msg);
      if ok {
        status, root', height', wasUnique := Done, LeafTree(root.addr, page), 0, unique;
        LeafIs(cfg, limit, root.addr, page);
        SameContents(root');
        SameLeaf(root, page, next);
        Finished(cfg, limit, root, height, root', 0, k, msg);
        return;
      }
      var index := GrowRoot(cfg, limit, EntriesOf(root.leaf)[0].key, next);
      GrownLeaf(cfg, limit, root, height, index, next);
      GrownAddrs(root, index, LeafTree(next, root.leaf), next);
      node, height', next' := IndexTree(root.addr, index, [LeafTree(next, root.leaf)]), 1, next + 1;
    }
    var ok;
    SameContents(node);
    ghost var h, taken := height', next';
    ok, root', height', wasUnique, next' := InsertBelow(cfg, limit, node, h, k, msg, next');
    status := if ok then Done else NoRoom;
    if ok {
      Finished(cfg, limit, node, h, root', height', k, msg);
      TakenJoin(next, taken, next');
      TakenJoin(next, next + 1, next + 1);
      StillOwns(root, next, root', next');
    } else {
      BelowAll(cfg, limit, node, h, k);
    }
  }

  lemma BelowAll(cfg: TreeConfig, limit: nat, node: Tree, height: nat, k: Key)
    requires ValidTree(cfg, limit, node, height) && node.IndexTree? && !Sure(cfg, limit, Abs(node), k)
    ensures limit > I.ShortKey(cfg) && Contents(node) != [] && k < Contents(node)[0].key
  {
    RootIndex(cfg, limit, node, height);
    hide PagesOk, EntriesOf, Abs, Increasing;
    LeastPivot(Abs(node), height);
  }

  lemma MayInsert(cfg: TreeConfig, limit: nat, k: Key, msg: Message)
    requires cfg.Valid() && MergesFit(cfg) && limit <= cfg.MaxInlineKey() && WithinLimits(cfg, Tuple(k, msg))
    requires cfg.keyLength(k) <= limit || cfg.keyLength(k) > cfg.MaxInlineKey()
    ensures Given(cfg, limit, k, msg)
  {
  }

  lemma SameContents(root: Tree)
    ensures Contents(root) == B.InOrder(Abs(root))
  {
  }

  lemma SameLeaf(root: Tree, page: Image<Tuple>, next: nat)
    requires root.LeafTree? && OwnsPages(root, next)
    ensures OwnsPages(LeafTree(root.addr, page), next)
  {
    assert Addrs(LeafTree(root.addr, page)) == Addrs(root);
  }

  lemma Finished(cfg: TreeConfig, limit: nat, root: Tree, height: nat, root': Tree, height': nat, k: Key, msg: Message)
    requires ValidTree(cfg, limit, root, height)
    requires PagesOk(cfg, limit, root') && B.Shape(Abs(root'), height')
    requires B.InOrder(Abs(root')) == Put(cfg.data, B.InOrder(Abs(root)), k, msg)
    ensures ValidTree(cfg, limit, root', height')
    ensures MapOf(Contents(root')) == MapOf(Contents(root))[k := PutMessage(cfg.data, Contents(root), k, msg)]
  {
    hide Put, MapOf, MergeTuples, EntriesOf, Abs, PagesOk, B.Shape;
    assert B.ValidRoot(Abs(root), height) ==> Increasing(B.InOrder(Abs(root)));
    hide B.InOrder, Increasing;
    PutMeans(cfg.data, Contents(root), k, msg);
  }

  /** btree_create: the root is an empty leaf. */
  method Create(cfg: TreeConfig, ghost limit: nat, addr: nat) returns (root: Tree)
    requires cfg.Valid()
    ensures ValidTree(cfg, limit, root, 0) && Contents(root) == [] && root.addr == addr && OwnsPages(root, addr + 1)
  {
    var leaf := new Leaf(cfg);
    root := LeafTree(addr, leaf.Stored());
  }

  /** No tuple after the first one is below all that came before it. */
  ghost predicate NeverLower(tuples: seq<Tuple>) {
    forall i | 0 < i < |tuples| :: SomeNotAbove(tuples, i)
  }

  ghost predicate SomeNotAbove(tuples: seq<Tuple>, i: nat)
    requires i < |tuples|
  {
    exists j | 0 <= j < i :: tuples[j].key <= tuples[i].key
  }

  lemma {:induction false} FirstIsLeast(tuples: seq<Tuple>, i: nat)
    requires NeverLower(tuples) && i < |tuples|
    ensures tuples[0].key <= tuples[i].key
  {
    if i > 0 {
      assert SomeNotAbove(tuples, i);
      var j :| 0 <= j < i && tuples[j].key <= tuples[i].key;
      FirstIsLeast(tuples, j);
    }
  }

  lemma {:induction false} InTree(cfg: DataConfig, tuples: seq<Tuple>)
    requires tuples != []
    ensures tuples[0].key in Lookup.Tree(cfg, tuples)
  {
    if |tuples| > 1 {
      InTree(cfg, tuples[..|tuples| - 1]);
    }
  }

  lemma LeastIsFirst(cfg: TreeConfig, limit: nat, root: Tree, height: nat, k: Key)
    requires ValidTree(cfg, limit, root, height) && k in MapOf(Contents(root))
    ensures Contents(root) != [] && Contents(root)[0].key <= k
  {
    assert Increasing(Contents(root));
    hide MapOf, Abs;
    var i := MapOfKey(Contents(root), k);
  }

  /** A memtable filled by insertions takes all of them, and holds for every key its messages merged in
      order; if all keys are short, or no tuple after the first one is below all that came before. */
  method InsertAll(cfg: TreeConfig, ghost limit: nat, tuples: seq<Tuple>) returns (root: Tree, ghost height: nat)
    requires cfg.Valid() && MergesFit(cfg)
    requires limit <= cfg.MaxInlineKey() && TuplesWithin(cfg, limit, tuples)
    requires limit <= I.ShortKey(cfg) || NeverLower(tuples)
    ensures ValidTree(cfg, limit, root, height) && MapOf(Contents(root)) == Lookup.Tree(cfg.data, tuples)
  {
    assert MapOf([]) == Lookup.Tree(cfg.data, []);
    hide MapOf, Increasing, MergesFit, ValidTree, Contents, OwnsPages, NeverLower, Lookup.Tree;
    root := Create(cfg, limit, 0);
    var next := 1;
    height := 0;
    var i := 0;
    while i < |tuples|
      invariant 0 <= i <= |tuples| && ValidTree(cfg, limit, root, height) && OwnsPages(root, next)
      invariant MapOf(Contents(root)) == Lookup.Tree(cfg.data, tuples[..i])
    {
      Inserted(cfg, tuples, i, Contents(root));
      if i > 0 && NeverLower(tuples) {
        InTree(cfg.data, tuples[..i]);
        LeastIsFirst(cfg, limit, root, height, tuples[0].key);
        FirstIsLeast(tuples, i);
      }
      var status, wasUnique;
      status, root, height, wasUnique, next := Insert(cfg, limit, root, height, tuples[i].key, tuples[i].msg, next);
      i := i + 1;
    }
    assert tuples[..i] == tuples;
  }

  lemma Inserted(cfg: TreeConfig, tuples: seq<Tuple>, i: nat, run: Run)
    requires i < |tuples| && MapOf(run) == Lookup.Tree(cfg.data, tuples[..i])
    ensures MapOf(run)[tuples[i].key := PutMessage(cfg.data, run, tuples[i].key, tuples[i].msg)]
         == Lookup.Tree(cfg.data, tuples[..i + 1])
    ensures i == 0 ==> run == []
  {
    hide MapOf, MergeTuples;
    assert tuples[..i + 1][..i] == tuples[..i];
    if i == 0 && run != [] {
      RunInMap(run);
    }
  }

  lemma RunInMap(run: Run)
    requires run != []
    ensures MapOf(run) != map[]
  {
    assert run[|run| - 1].key in MapOf(run);
  }
}
