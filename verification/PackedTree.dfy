/** The trees that packing builds: nodes with pivots and statistics of their subtrees. */
module PackedTree {
  import opened Messages
  import opened Lookup
  import opened MergeSpec
  import opened LeafPage
  import opened Slotted
  import opened Words

  datatype Stats = Stats(kvs: nat, keyBytes: nat, messageBytes: nat)

  const NO_STATS := Stats(0, 0, 0)

  function Plus(a: Stats, b: Stats): Stats {
    Stats(a.kvs + b.kvs, a.keyBytes + b.keyBytes, a.messageBytes + b.messageBytes)
  }

  function StatsOfTuple(cfg: TreeConfig, t: Tuple): Stats {
    Stats(1, cfg.keyLength(t.key), MessageLength(t.msg))
  }

  /** Number and bytes of the tuples. */
  function StatsOf(cfg: TreeConfig, tuples: Run): (s: Stats)
    ensures s.kvs == |tuples|
  {
    if tuples == [] then NO_STATS
    else Plus(StatsOf(cfg, tuples[..|tuples| - 1]), StatsOfTuple(cfg, tuples[|tuples| - 1]))
  }

  lemma {:induction false} StatsConcat(cfg: TreeConfig, a: Run, b: Run)
    ensures StatsOf(cfg, a + b) == Plus(StatsOf(cfg, a), StatsOf(cfg, b))
  {
    if b == [] {
      assert a + b == a;
    } else {
      var n := |b| - 1;
      var r := a + b;
      hide StatsOfTuple;
      assert r[..|r| - 1] == a + b[..n] && r[|r| - 1] == b[n];
      StatsConcat(cfg, a, b[..n]);
      assert StatsOf(cfg, b) == Plus(StatsOf(cfg, b[..n]), StatsOfTuple(cfg, b[n]));
      assert StatsOf(cfg, r) == Plus(StatsOf(cfg, a + b[..n]), StatsOfTuple(cfg, b[n]));
    }
  }

  // ----- counters

  const UNKNOWN := 0x7fffffff

  /** add_unknown, on uint32 */
  function AddUnknown(a: nat, b: nat): nat {
    if a != UNKNOWN && b != UNKNOWN then (a + b) % 0x1_0000_0000 else UNKNOWN
  }

  /** btree_accumulate_pivot_stats */
  function Accumulate(dest: Stats, src: Stats): Stats {
    Stats(AddUnknown(dest.kvs, src.kvs), AddUnknown(dest.keyBytes, src.keyBytes),
          AddUnknown(dest.messageBytes, src.messageBytes))
  }

  /** A counter is right as long as the number it counts is below the marker for unknown ones. */
  ghost predicate Counts(counter: nat, number: nat) {
    number < UNKNOWN ==> counter == number
  }

  ghost predicate CountsAll(s: Stats, exact: Stats) {
    Counts(s.kvs, exact.kvs) && Counts(s.keyBytes, exact.keyBytes) && Counts(s.messageBytes, exact.messageBytes)
  }

  /** Adding keeps it so: what is right is added exactly, and never runs into the marker on the way. */
  lemma AddCounts(a: nat, b: nat, m: nat, n: nat)
    requires Counts(a, m) && Counts(b, n)
    ensures Counts(AddUnknown(a, b), m + n) && Counts((a + b) % 0x1_0000_0000, m + n)
  {
  }

  lemma AccumulateCounts(a: Stats, b: Stats, x: Stats, y: Stats)
    requires CountsAll(a, x) && CountsAll(b, y)
    ensures CountsAll(Accumulate(a, b), Plus(x, y))
  {
    AddCounts(a.kvs, b.kvs, x.kvs, y.kvs);
    AddCounts(a.keyBytes, b.keyBytes, x.keyBytes, y.keyBytes);
    AddCounts(a.messageBytes, b.messageBytes, x.messageBytes, y.messageBytes);
  }

  /** The counters of a leaf while it is filled. */
  function AddTuple(cfg: TreeConfig, s: Stats, t: Tuple): Stats {
    Stats((s.kvs + 1) % 0x1_0000_0000, (s.keyBytes + cfg.keyLength(t.key)) % 0x1_0000_0000,
          (s.messageBytes + MessageLength(t.msg)) % 0x1_0000_0000)
  }

  lemma AddTupleCounts(cfg: TreeConfig, s: Stats, t: Tuple, x: Stats)
    requires CountsAll(s, x)
    ensures CountsAll(AddTuple(cfg, s, t), Plus(x, StatsOfTuple(cfg, t)))
  {
  }

  // ----- trees

  /** A page address: the extent and the page in it. */
  datatype Addr = NoAddr | Addr(extent: nat, page: nat)

  datatype PivotEntry = PivotEntry(pivot: Key, child: Node, stats: Stats)

  /** A node of height 0 has tuples, any other has entries. */
  datatype Node = Node(addr: Addr, prev: Addr, next: Addr, nextExtent: Addr, tuples: Run, entries: seq<PivotEntry>)

  function TuplesOf(node: Node): Run
    decreases node
  {
    node.tuples + TuplesOfEntries(node.entries)
  }

  function TuplesOfEntries(entries: seq<PivotEntry>): Run
    decreases entries
  {
    if entries == [] then []
    else TuplesOfEntries(entries[..|entries| - 1]) + TuplesOfEntry(entries[|entries| - 1])
  }

  function TuplesOfEntry(e: PivotEntry): Run
    decreases e
  {
    TuplesOf(e.child)
  }

  function TuplesOfNodes(nodes: seq<Node>): Run {
    if nodes == [] then []
    else TuplesOfNodes(nodes[..|nodes| - 1]) + TuplesOf(nodes[|nodes| - 1])
  }

  /** The sibling links of the leaves, in order. */
  datatype Link = Link(addr: Addr, prev: Addr, next: Addr)

  function LinksOf(node: Node): seq<Link>
    decreases node
  {
    (if node.tuples != [] then [Link(node.addr, node.prev, node.next)] else []) + LinksOfEntries(node.entries)
  }

  function LinksOfEntries(entries: seq<PivotEntry>): seq<Link>
    decreases entries
  {
    if entries == [] then []
    else LinksOfEntries(entries[..|entries| - 1]) + LinksOfEntry(entries[|entries| - 1])
  }

  function LinksOfEntry(e: PivotEntry): seq<Link>
    decreases e
  {
    LinksOf(e.child)
  }

  function LinksOfNodes(nodes: seq<Node>): seq<Link> {
    if nodes == [] then []
    else LinksOfNodes(nodes[..|nodes| - 1]) + LinksOf(nodes[|nodes| - 1])
  }

  function EntryLayout(cfg: TreeConfig): Layout<PivotEntry> {
    Layout(cfg.pageSize, INDEX_ENTRY, (e: PivotEntry) => cfg.keyLength(e.pivot))
  }

  predicate TuplesFit(cfg: TreeConfig, tuples: Run) {
    HEADER + Footprint(cfg.LeafLayout(), tuples) <= cfg.pageSize
  }

  predicate EntriesFitPage(cfg: TreeConfig, entries: seq<PivotEntry>) {
    HEADER + Footprint(EntryLayout(cfg), entries) <= cfg.pageSize
  }

  /** A tree of uniform height whose nodes fit their pages, whose pivots are the least keys and whose
      counters are the totals of the subtrees. */
  ghost predicate Packed(cfg: TreeConfig, node: Node, height: nat)
    decreases node
  {
    && TuplesFit(cfg, node.tuples) && EntriesFitPage(cfg, node.entries)
    && if height == 0 then node.tuples != [] && node.entries == []
    else
      && node.tuples == [] && node.entries != []
      && forall i | 0 <= i < |node.entries| :: PackedEntry(cfg, node.entries[i], height)
  }

  ghost predicate PackedEntry(cfg: TreeConfig, e: PivotEntry, height: nat)
    requires height > 0
    decreases e
  {
    && Packed(cfg, e.child, height - 1)
    && TuplesOf(e.child) != [] && e.pivot == TuplesOf(e.child)[0].key
    && CountsAll(e.stats, StatsOf(cfg, TuplesOf(e.child)))
  }

  /** The leaves are linked to their neighbours. */
  ghost predicate Chained(links: seq<Link>) {
    && (forall i | 0 <= i < |links| - 1 :: links[i].next == links[i + 1].addr && links[i + 1].prev == links[i].addr)
    && (links != [] ==> links[0].prev == NoAddr && links[|links| - 1].next == NoAddr)
  }

  // ----- sizes: nodes that were filled before the next one was begun

  ghost predicate Complete(node: Node, height: nat) {
    |TuplesOf(node)| >= Pow2(height)
  }

  /** All children are complete. */
  ghost predicate Clean(node: Node, height: nat) {
    height > 0 ==> forall i | 0 <= i < |node.entries| :: Complete(node.entries[i].child, height - 1)
  }

  lemma {:induction false} EntriesConcat(a: seq<PivotEntry>, b: seq<PivotEntry>)
    ensures TuplesOfEntries(a + b) == TuplesOfEntries(a) + TuplesOfEntries(b)
    ensures LinksOfEntries(a + b) == LinksOfEntries(a) + LinksOfEntries(b)
  {
    hide TuplesOfEntry, LinksOfEntry;
    if b == [] {
      assert a + b == a;
    } else {
      var n := |b| - 1;
      var all := a + b;
      assert all[..|all| - 1] == a + b[..n] && all[|all| - 1] == b[n];
      EntriesConcat(a, b[..n]);
      EntriesEnd(all);
      EntriesEnd(b);
      hide *;
    }
  }

  lemma EntriesEnd(entries: seq<PivotEntry>)
    requires entries != []
    ensures var n := |entries| - 1;
            && TuplesOfEntries(entries) == TuplesOfEntries(entries[..n]) + TuplesOfEntry(entries[n])
            && LinksOfEntries(entries) == LinksOfEntries(entries[..n]) + LinksOfEntry(entries[n])
  {
  }

  lemma OneEntry(e: PivotEntry)
    ensures TuplesOfEntries([e]) == TuplesOf(e.child) && LinksOfEntries([e]) == LinksOf(e.child)
  {
    assert [e][..0] == [];
  }

  lemma {:induction false} NodesConcat(a: seq<Node>, b: seq<Node>)
    ensures TuplesOfNodes(a + b) == TuplesOfNodes(a) + TuplesOfNodes(b)
    ensures LinksOfNodes(a + b) == LinksOfNodes(a) + LinksOfNodes(b)
  {
    hide TuplesOf, LinksOf;
    if b == [] {
      assert a + b == a;
    } else {
      var n := |b| - 1;
      assert (a + b)[..|a + b| - 1] == a + b[..n];
      NodesConcat(a, b[..n]);
    }
  }

  lemma OneNode(node: Node)
    ensures TuplesOfNodes([node]) == TuplesOf(node) && LinksOfNodes([node]) == LinksOf(node)
  {
    assert [node][..0] == [];
  }

  /** An index node with at least two complete children is complete. */
  lemma TwoChildren(node: Node, height: nat)
    requires height > 0 && Clean(node, height) && |node.entries| >= 2
    ensures Complete(node, height)
  {
    hide Pow2;
    var n := |node.entries|;
    var front := node.entries[..n - 1];
    assert node.entries == front + [node.entries[n - 1]];
    EntriesConcat(front, [node.entries[n - 1]]);
    OneEntry(node.entries[n - 1]);
    assert front == front[..n - 2] + [node.entries[n - 2]];
    EntriesConcat(front[..n - 2], [node.entries[n - 2]]);
    OneEntry(node.entries[n - 2]);
    assert Complete(node.entries[n - 1].child, height - 1) && Complete(node.entries[n - 2].child, height - 1);
    Pow2Step(height);
  }

  lemma Pow2Step(n: nat)
    requires n > 0
    ensures Pow2(n) == 2 * Pow2(n - 1)
  {
  }
}
