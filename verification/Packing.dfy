/** btree_pack: a packed tree is built bottom up.  At each height the nodes of one extent are kept
    until the next extent is begun, and then linked into their parents. */
module Packing {
  import opened Messages
  import opened Lookup
  import opened MergeSpec
  import opened LeafPage
  import opened LeafNode
  import opened IndexNode
  import opened Slotted
  import opened Words
  import opened PackedTree

  // ----- what fits a page that was filled from one end to the other

  /** btree_set_leaf_entry behind the last entry of such a page succeeds exactly if this does. */
  lemma LeafTakes(leaf: Leaf, t: Tuple)
    requires leaf.Valid() && leaf.Compact()
    ensures leaf.CanSet(|leaf.offsets|, t) <==> TuplesFit(leaf.cfg, leaf.Contents() + [t])
  {
    FootprintConcat(leaf.cfg.LeafLayout(), leaf.Contents(), [t]);
    FootprintOne(leaf.cfg.LeafLayout(), t);
  }

  /** The same for btree_set_index_entry. */
  lemma IndexTakes(node: IndexNode.Index, entries: seq<PivotEntry>, e: PivotEntry, addr: nat)
    requires node.Valid() && node.Compact() && |entries| == |node.Contents()|
    requires forall i | 0 <= i < |entries| :: node.Contents()[i].key == entries[i].pivot
    ensures node.CanSet(|node.offsets|, Pivot(e.pivot, addr)) <==> EntriesFitPage(node.cfg, entries + [e])
  {
    FootprintConcat(EntryLayout(node.cfg), entries, [e]);
    FootprintOne(EntryLayout(node.cfg), e);
    SameBytes(node.cfg, node.Contents(), entries);
  }

  lemma {:induction false} SameBytes(cfg: TreeConfig, pivots: seq<Pivot>, entries: seq<PivotEntry>)
    requires |entries| == |pivots| && forall i | 0 <= i < |entries| :: pivots[i].key == entries[i].pivot
    ensures LiveBytes(IndexLayout(cfg), pivots) == LiveBytes(EntryLayout(cfg), entries)
  {
    if entries != [] {
      SameBytes(cfg, pivots[..|pivots| - 1], entries[..|entries| - 1]);
    }
  }

  /** The tuples in the nodes of height h and above; higher nodes hold earlier tuples. */
  ghost function Upper(edge: seq<seq<Node>>, h: nat): Run
    decreases |edge| - h
  {
    if h >= |edge| then [] else Upper(edge, h + 1) + TuplesOfNodes(edge[h])
  }

  ghost function UpperLinks(edge: seq<seq<Node>>, h: nat): seq<Link>
    decreases |edge| - h
  {
    if h >= |edge| then [] else UpperLinks(edge, h + 1) + LinksOfNodes(edge[h])
  }

  lemma {:induction false} UpperSame(a: seq<seq<Node>>, b: seq<seq<Node>>, h: nat)
    requires |a| == |b| && forall k | h <= k < |a| :: a[k] == b[k]
    ensures Upper(a, h) == Upper(b, h) && UpperLinks(a, h) == UpperLinks(b, h)
    decreases |a| - h
  {
    hide TuplesOfNodes, LinksOfNodes;
    if h < |a| {
      UpperSame(a, b, h + 1);
      assert a[h] == b[h];
    }
  }

  function ExtentOf(nodes: seq<Node>): nat {
    if nodes != [] && nodes[0].addr.Addr? then nodes[0].addr.extent else 0
  }

  /** The nodes follow one another in one extent. */
  ghost predicate InOneExtent(nodes: seq<Node>, pagesPerExtent: nat) {
    forall i | 0 <= i < |nodes| ::
      nodes[i].addr.Addr? && nodes[i].addr == Addr(ExtentOf(nodes), i) && i < pagesPerExtent
  }

  ghost predicate NodeOk(cfg: TreeConfig, node: Node, stats: Stats, h: nat) {
    && Packed(cfg, node, h) && CountsAll(stats, StatsOf(cfg, TuplesOf(node)))
    && AllWithinLimits(cfg, TuplesOf(node))
  }

  /** The nodes of one height.  All but the last were filled before the next was begun. */
  ghost predicate LevelOk(cfg: TreeConfig, pagesPerExtent: nat, nodes: seq<Node>, stats: seq<Stats>, h: nat,
                          clean: bool) {
    && nodes != [] && |stats| == |nodes|
    && InOneExtent(nodes, pagesPerExtent)
    && (forall i | 0 <= i < |nodes| :: NodeOk(cfg, nodes[i], stats[i], h))
    && (forall i | 0 <= i < |nodes| - 1 :: Complete(nodes[i], h))
    && (clean ==> Clean(nodes[|nodes| - 1], h))
  }

  class Packer {
    const cfg: TreeConfig
    const pagesPerExtent: nat
    var edge: seq<seq<Node>>         // edge[h] are the nodes of height h that have no parent yet
    var edgeStats: seq<seq<Stats>>
    var nextExtent: nat

    ghost predicate AboveOk(h: nat)
      reads this
    {
      && cfg.Valid() && pagesPerExtent > 0 && |edge| == |edgeStats|
      && forall k | h <= k < |edge| :: LevelOk(cfg, pagesPerExtent, edge[k], edgeStats[k], k, true)
    }

    /** The highest nodes hold enough tuples to bound their height. */
    ghost predicate TopOk(h: nat)
      reads this
    {
      |edge| >= 2 && |edge| > h ==> |TuplesOfNodes(edge[|edge| - 1])| >= Pow2(|edge| - 2)
    }

    /** The page that mini_alloc hands out for a height: the next one of the extent, or the first
        one of a new extent. */
    method Alloc(h: nat) returns (addr: Addr)
      requires pagesPerExtent > 0
      requires h < |edge| && edge[h] != [] ==> InOneExtent(edge[h], pagesPerExtent)
      modifies this`nextExtent
      ensures addr.Addr?
      ensures h < |edge| && edge[h] != [] && |edge[h]| < pagesPerExtent ==>
                addr == Addr(ExtentOf(edge[h]), |edge[h]|)
      ensures !(h < |edge| && edge[h] != [] && |edge[h]| < pagesPerExtent) ==>
                addr == Addr(old(nextExtent), 0) && nextExtent == old(nextExtent) + 1
    {
      if h < |edge| && edge[h] != [] && edge[h][|edge[h]| - 1].addr.page + 1 < pagesPerExtent {
        var last := edge[h][|edge[h]| - 1].addr;
        return Addr(last.extent, last.page + 1);
      }
      addr := Addr(nextExtent, 0);
      nextExtent := nextExtent + 1;
    }

    /** btree_pack_link_extent: the nodes of a height go into their parents. */
    method LinkExtent(h: nat, nextExtentAddr: Addr, ghost limit: nat, ghost allComplete: bool)
      requires h < |edge| && AboveOk(h + 1) && TopOk(h + 1)
      requires LevelOk(cfg, pagesPerExtent, edge[h], edgeStats[h], h, false)
      requires allComplete ==> Complete(edge[h][|edge[h]| - 1], h)
      requires h + 1 == |edge| ==> Complete(edge[h][0], h)
      requires |Upper(edge, h)| < Pow2(limit)
      modifies this
      ensures h + 1 < |edge| && AboveOk(h + 2) && TopOk(h + 1)
      ensures LevelOk(cfg, pagesPerExtent, edge[h + 1], edgeStats[h + 1], h + 1, allComplete)
      ensures edge[..h] == old(edge)[..h] && edgeStats[..h] == old(edgeStats)[..h] && edge[h] == []
      ensures Upper(edge, h + 1) == old(Upper(edge, h)) && UpperLinks(edge, h + 1) == old(UpperLinks(edge, h))
      decreases limit + 2 - h, 0
    {
      hide Upper, UpperLinks, TuplesOf, LinksOf, TuplesOfNodes, LinksOfNodes, NodeOk, StatsOf, Complete, Clean,
        InOneExtent, Pow2;
      var nodes, stats := edge[h], edgeStats[h];
      ghost var before := edge;
      UpperUnfolds(before, h);
      edge, edgeStats := edge[h := []], edgeStats[h := []];
      UpperSame(before, edge, h + 1);
      ghost var lower, lowerStats := edge[..h + 1], edgeStats[..h + 1];
      NoNodes();
      LevelBelowLimit(before, h, limit);
      var i := 0;
      while i < |nodes|
        invariant 0 <= i <= |nodes| && h < |edge| && |edge| == |edgeStats|
        invariant edge[..h + 1] == lower && edgeStats[..h + 1] == lowerStats
        invariant AboveOk(h + 2) && TopOk(h + 1)
        invariant if h + 1 < |edge|
                  then LevelOk(cfg, pagesPerExtent, edge[h + 1], edgeStats[h + 1], h + 1, i < |nodes| || allComplete)
                  else i == 0 && h + 1 == |before|
        invariant Upper(edge, h + 1) == Upper(before, h + 1) + TuplesOfNodes(nodes[..i])
        invariant UpperLinks(edge, h + 1) == UpperLinks(before, h + 1) + LinksOfNodes(nodes[..i])
      {
        FirstNodes(nodes, i);
        assert NodeOk(cfg, nodes[i], stats[i], h);
        assert i < |nodes| - 1 ==> Complete(nodes[i], h);
        LinkNode(h, nodes[i], stats[i], nextExtentAddr, limit, i < |nodes| - 1 || allComplete);
        i := i + 1;
      }
      assert nodes[..i] == nodes;
      assert edge[h] == lower[h];
      assert edge[..h] == lower[..h] && edgeStats[..h] == lowerStats[..h];
    }

    /** btree_pack_link_node: the node becomes the last child of the current node above it, or the
        first one of a new node. */
    method LinkNode(h: nat, edgeNode: Node, stats: Stats, nextExtentAddr: Addr, ghost limit: nat,
                    ghost complete: bool)
      requires h < |edge| && AboveOk(h + 1) && TopOk(h + 1)
      requires NodeOk(cfg, edgeNode, stats, h) && (complete ==> Complete(edgeNode, h))
      requires h + 1 == |edge| ==> Complete(edgeNode, h)
      requires |Upper(edge, h + 1)| + |TuplesOf(edgeNode)| < Pow2(limit)
      modifies this
      ensures h + 1 < |edge| && AboveOk(h + 2) && TopOk(h + 1)
      ensures LevelOk(cfg, pagesPerExtent, edge[h + 1], edgeStats[h + 1], h + 1, complete)
      ensures edge[..h + 1] == old(edge)[..h + 1] && edgeStats[..h + 1] == old(edgeStats)[..h + 1]
      ensures Upper(edge, h + 1) == old(Upper(edge, h + 1)) + TuplesOf(edgeNode)
      ensures UpperLinks(edge, h + 1) == old(UpperLinks(edge, h + 1)) + LinksOf(edgeNode)
      decreases limit + 1 - h, 4
    {
      hide Upper, UpperLinks, TuplesOf, LinksOf, TuplesOfNodes, LinksOfNodes, Packed, StatsOf, Complete, Clean,
        InOneExtent, Pow2, LevelOk;
      PackedTuples(cfg, edgeNode, h);
      var child := edgeNode.(nextExtent := nextExtentAddr);
      var pivot := if h > 0 then edgeNode.entries[0].pivot else edgeNode.tuples[0].key;
      var entry := PivotEntry(pivot, child, stats);
      LinkedEntry(cfg, edgeNode, child, h, entry);
      FirstEntryNode(cfg, entry, h + 1, complete);
      var fits := false;
      if h + 1 < |edge| {
        LevelNonEmpty(cfg, pagesPerExtent, edge[h + 1], edgeStats[h + 1], h + 1);
        var parent := edge[h + 1][|edge[h + 1]| - 1];
        fits := EntriesFitPage(cfg, parent.entries + [entry]);
        if !fits {
          TwoFit(cfg, parent, edgeStats[h + 1][|edge[h + 1]| - 1], h + 1, entry);
          TwoChildren(parent, h + 1);
        }
      } else {
        CompleteIs(edgeNode, h);
      }
      if fits {
        AddEntry(h + 1, entry, complete);
      } else {
        CreateNextNode(h + 1, [], [entry], Accumulate(NO_STATS, stats), limit, complete);
      }
    }

    /** The current node of a height gets one more entry. */
    method AddEntry(h: nat, entry: PivotEntry, ghost complete: bool)
      requires 0 < h < |edge| && AboveOk(h) && TopOk(h)
      requires PackedEntry(cfg, entry, h) && (complete ==> Complete(entry.child, h - 1))
      requires AllWithinLimits(cfg, TuplesOf(entry.child))
      requires edge[h] != [] && EntriesFitPage(cfg, edge[h][|edge[h]| - 1].entries + [entry])
      modifies this`edge, this`edgeStats
      ensures h < |edge| && AboveOk(h + 1) && TopOk(h)
      ensures LevelOk(cfg, pagesPerExtent, edge[h], edgeStats[h], h, complete)
      ensures edge[..h] == old(edge)[..h] && edgeStats[..h] == old(edgeStats)[..h]
      ensures Upper(edge, h) == old(Upper(edge, h)) + TuplesOf(entry.child)
      ensures UpperLinks(edge, h) == old(UpperLinks(edge, h)) + LinksOf(entry.child)
    {
      hide Upper, UpperLinks, TuplesOf, LinksOf, TuplesOfNodes, LinksOfNodes, StatsOf, Complete, Pow2;
      var n := |edge[h]| - 1;
      var parent := edge[h][n];
      var parent' := parent.(entries := parent.entries + [entry]);
      var stats := Accumulate(edgeStats[h][n], entry.stats);
      assert LevelOk(cfg, pagesPerExtent, edge[h], edgeStats[h], h, true);
      assert NodeOk(cfg, parent, edgeStats[h][n], h);
      EntryAdded(cfg, parent, edgeStats[h][n], h, entry, complete);
      ReplaceLast(h, parent', stats, complete, TuplesOf(entry.child), LinksOf(entry.child));
    }

    /** The current node of a height is updated. */
    method ReplaceLast(h: nat, last: Node, stats: Stats, ghost clean: bool, ghost more: Run, ghost moreLinks: seq<Link>)
      requires h < |edge| && AboveOk(h) && TopOk(h)
      requires edge[h] != [] && last.addr == edge[h][|edge[h]| - 1].addr
      requires NodeOk(cfg, last, stats, h) && (clean ==> Clean(last, h))
      requires TuplesOf(last) == TuplesOf(edge[h][|edge[h]| - 1]) + more
      requires LinksOf(last) == LinksOf(edge[h][|edge[h]| - 1]) + moreLinks
      modifies this`edge, this`edgeStats
      ensures h < |edge| && AboveOk(h + 1) && TopOk(h)
      ensures LevelOk(cfg, pagesPerExtent, edge[h], edgeStats[h], h, clean)
      ensures edge[..h] == old(edge)[..h] && edgeStats[..h] == old(edgeStats)[..h]
      ensures Upper(edge, h) == old(Upper(edge, h)) + more
      ensures UpperLinks(edge, h) == old(UpperLinks(edge, h)) + moreLinks
    {
      hide Upper, UpperLinks, TuplesOf, LinksOf, TuplesOfNodes, LinksOfNodes, NodeOk, Complete, Clean, Pow2;
      var n := |edge[h]| - 1;
      ghost var before := edge;
      assert LevelOk(cfg, pagesPerExtent, edge[h], edgeStats[h], h, true);
      LevelReplaced(cfg, pagesPerExtent, edge[h], edgeStats[h], h, last, stats, clean);
      hide LevelOk;
      LastReplaced(edge[h], last, more, moreLinks);
      UpperUnfolds(before, h);
      edge := edge[h := edge[h][n := last]];
      edgeStats := edgeStats[h := edgeStats[h][n := stats]];
      UpperSame(before, edge, h + 1);
      UpperUnfolds(edge, h);
    }

    /** btree_pack_create_next_node, with its first contents.  If the new node begins an extent,
        the nodes of the previous one go into their parents. */
    method CreateNextNode(h: nat, tuples: Run, entries: seq<PivotEntry>, stats: Stats, ghost limit: nat,
                          ghost clean: bool)
      requires h <= |edge| && AboveOk(h) && TopOk(h)
      requires var content := Node(NoAddr, NoAddr, NoAddr, NoAddr, tuples, entries);
               && NodeOk(cfg, content, stats, h) && (clean ==> Clean(content, h))
               && (h == |edge| > 0 ==> |TuplesOf(content)| >= Pow2(h - 1))
      requires h < |edge| ==> edge[h] != [] && Complete(edge[h][|edge[h]| - 1], h)
      requires |Upper(edge, h)| < Pow2(limit)
      modifies this
      ensures h < |edge| && AboveOk(h + 1) && TopOk(h)
      ensures LevelOk(cfg, pagesPerExtent, edge[h], edgeStats[h], h, clean)
      ensures edge[..h] == old(edge)[..h] && edgeStats[..h] == old(edgeStats)[..h]
      ensures Upper(edge, h) == old(Upper(edge, h)) + (tuples + TuplesOfEntries(entries))
      ensures h > 0 ==> UpperLinks(edge, h) == old(UpperLinks(edge, h)) + LinksOfEntries(entries)
      ensures h == 0 ==> Extended(old(UpperLinks(edge, 0)), UpperLinks(edge, 0))
      decreases limit + 2 - h, 3
    {
      hide Upper, UpperLinks, TuplesOf, LinksOf, TuplesOfNodes, LinksOfNodes, StatsOf, Complete, Clean, Pow2,
        NodeOk, Extended, Relinked;
      var newNode := Node(NoAddr, NoAddr, NoAddr, NoAddr, tuples, entries);
      if h < |edge| {
        NextInLevel(h, newNode, stats, limit, clean);
      } else {
        var addr := Alloc(h);
        newNode := newNode.(addr := addr);
        ContentKept(cfg, tuples, entries, newNode, stats, h);
        NewLevel(edge, newNode);
        NewLevelOk(cfg, pagesPerExtent, newNode, stats, h, clean);
        ghost var before := edge;
        edge, edgeStats := edge + [[newNode]], edgeStats + [[stats]];
        if h == 0 {
          LinkAppended(UpperLinks(before, 0), UpperLinks(before, 0), UpperLinks(edge, 0), newNode);
        }
      }
    }

    /** A new node beside others of its height. */
    method NextInLevel(h: nat, content: Node, stats: Stats, ghost limit: nat, ghost clean: bool)
      requires h < |edge| && AboveOk(h) && TopOk(h)
      requires content == Node(NoAddr, NoAddr, NoAddr, NoAddr, content.tuples, content.entries)
      requires NodeOk(cfg, content, stats, h) && (clean ==> Clean(content, h))
      requires edge[h] != [] && Complete(edge[h][|edge[h]| - 1], h)
      requires |Upper(edge, h)| < Pow2(limit)
      modifies this
      ensures h < |edge| && AboveOk(h + 1) && TopOk(h)
      ensures LevelOk(cfg, pagesPerExtent, edge[h], edgeStats[h], h, clean)
      ensures edge[..h] == old(edge)[..h] && edgeStats[..h] == old(edgeStats)[..h]
      ensures Upper(edge, h) == old(Upper(edge, h)) + (content.tuples + TuplesOfEntries(content.entries))
      ensures h > 0 ==> UpperLinks(edge, h) == old(UpperLinks(edge, h)) + LinksOfEntries(content.entries)
      ensures h == 0 ==> Extended(old(UpperLinks(edge, 0)), UpperLinks(edge, 0))
      decreases limit + 2 - h, 2
    {
      hide Upper, UpperLinks, TuplesOf, LinksOf, TuplesOfNodes, LinksOfNodes, StatsOf, Complete, Clean, Pow2,
        NodeOk, Extended, Relinked;
      ghost var before := edge;
      LevelFacts(cfg, pagesPerExtent, edge[h], edgeStats[h], h);
      LastLeafLink(edge, h, cfg, edgeStats);
      var addr := Alloc(h);
      var oldNode := edge[h][|edge[h]| - 1];
      var newNode := content.(addr := addr, prev := oldNode.addr);
      RelinkLast(h, addr);
      ghost var links := UpperLinks(edge, h);
      MakeRoom(h, addr, limit);
      hide InOneExtent, LevelOk;
      ContentKept(cfg, content.tuples, content.entries, newNode, stats, h);
      PushNode(h, newNode, stats, clean);
      if h == 0 {
        LinkAppended(UpperLinks(before, 0), links, UpperLinks(edge, 0), newNode);
      }
    }

    /** If the new node begins an extent, the nodes of the old one are linked into their parents. */
    method MakeRoom(h: nat, addr: Addr, ghost limit: nat)
      requires h < |edge| && AboveOk(h) && TopOk(h) && edge[h] != [] && Complete(edge[h][|edge[h]| - 1], h)
      requires addr.Addr? && |Upper(edge, h)| < Pow2(limit)
      requires if |edge[h]| < pagesPerExtent then addr == Addr(ExtentOf(edge[h]), |edge[h]|) else addr.page == 0
      modifies this
      ensures h < |edge| && AboveOk(h + 1) && pagesPerExtent > 0
      ensures edge[h] == [] ==> h + 1 < |edge| && TopOk(h + 1) && addr.page == 0
      ensures edge[h] != [] ==>
        && AboveOk(h) && TopOk(h) && Complete(edge[h][|edge[h]| - 1], h)
        && addr == Addr(ExtentOf(edge[h]), |edge[h]|) && |edge[h]| < pagesPerExtent
      ensures edge[..h] == old(edge)[..h] && edgeStats[..h] == old(edgeStats)[..h]
      ensures Upper(edge, h) == old(Upper(edge, h)) && UpperLinks(edge, h) == old(UpperLinks(edge, h))
      decreases limit + 2 - h, 1
    {
      hide Upper, UpperLinks, TuplesOf, LinksOf, TuplesOfNodes, LinksOfNodes, StatsOf, Complete, Clean, Pow2,
        NodeOk, InOneExtent;
      LevelFacts(cfg, pagesPerExtent, edge[h], edgeStats[h], h);
      hide LevelOk;
      if addr.page == 0 {
        AllComplete(cfg, pagesPerExtent, edge[h], edgeStats[h], h);
        LinkExtent(h, addr, limit, true);
        UpperEmptied(edge, h);
      }
    }

    /** The last node of the height is linked to its new neighbour. */
    method RelinkLast(h: nat, addr: Addr)
      requires h < |edge| && AboveOk(h) && TopOk(h) && edge[h] != []
      modifies this`edge
      ensures |edge| == |old(edge)| && edge[..h] == old(edge)[..h] && AboveOk(h) && TopOk(h)
      ensures |edge[h]| == |old(edge)[h]| && ExtentOf(edge[h]) == ExtentOf(old(edge)[h])
      ensures Complete(old(edge)[h][|edge[h]| - 1], h) ==> Complete(edge[h][|edge[h]| - 1], h)
      ensures Upper(edge, h) == old(Upper(edge, h))
      ensures h > 0 ==> UpperLinks(edge, h) == old(UpperLinks(edge, h))
      ensures h == 0 ==> Relinked(old(UpperLinks(edge, 0)), UpperLinks(edge, 0), addr)
    {
      hide Upper, UpperLinks, TuplesOf, LinksOf, TuplesOfNodes, LinksOfNodes, StatsOf, Complete, Clean, Pow2,
        NodeOk, Relinked;
      var n := |edge[h]| - 1;
      var last := edge[h][n];
      var last' := last.(next := addr);
      ghost var before := edge;
      assert LevelOk(cfg, pagesPerExtent, edge[h], edgeStats[h], h, true);
      assert NodeOk(cfg, last, edgeStats[h][n], h);
      NextChanged(cfg, last, last', edgeStats[h][n], h);
      LevelReplaced(cfg, pagesPerExtent, edge[h], edgeStats[h], h, last', edgeStats[h][n], true);
      assert edgeStats[h][n := edgeStats[h][n]] == edgeStats[h];
      TuplesReplaced(before[h], last');
      UpperUnfolds(before, h);
      edge := edge[h := edge[h][n := last']];
      UpperSame(before, edge, h + 1);
      UpperUnfolds(edge, h);
      if h == 0 {
        LinkReplaced(UpperLinks(before, 1), before[0], last', addr);
      } else {
        LinksReplaced(before[h], last');
      }
    }

    /** The node becomes the current node of its height. */
    method PushNode(h: nat, node: Node, stats: Stats, ghost clean: bool)
      requires h < |edge| && AboveOk(h + 1) && pagesPerExtent > 0
      requires edge[h] == [] ==> h + 1 < |edge| && TopOk(h + 1) && node.addr.Addr? && node.addr.page == 0
      requires edge[h] != [] ==>
        && AboveOk(h) && TopOk(h) && Complete(edge[h][|edge[h]| - 1], h)
        && node.addr == Addr(ExtentOf(edge[h]), |edge[h]|) && |edge[h]| < pagesPerExtent
      requires NodeOk(cfg, node, stats, h) && (clean ==> Clean(node, h))
      modifies this`edge, this`edgeStats
      ensures h < |edge| && AboveOk(h + 1) && TopOk(h)
      ensures LevelOk(cfg, pagesPerExtent, edge[h], edgeStats[h], h, clean)
      ensures edge[..h] == old(edge)[..h] && edgeStats[..h] == old(edgeStats)[..h]
      ensures Upper(edge, h) == old(Upper(edge, h)) + TuplesOf(node)
      ensures UpperLinks(edge, h) == old(UpperLinks(edge, h)) + LinksOf(node)
    {
      hide Upper, UpperLinks, TuplesOf, LinksOf, TuplesOfNodes, LinksOfNodes, StatsOf, Complete, Clean, Pow2, NodeOk;
      PushedUpper(edge, h, node);
      if edge[h] == [] {
        NewLevelOk(cfg, pagesPerExtent, node, stats, h, clean);
        assert edge[h] + [node] == [node];
        edgeStats := edgeStats[h := [stats]];
      } else {
        assert LevelOk(cfg, pagesPerExtent, edge[h], edgeStats[h], h, true);
        LevelPushed(cfg, pagesPerExtent, edge[h], edgeStats[h], h, node, stats, clean);
        edgeStats := edgeStats[h := edgeStats[h] + [stats]];
      }
      edge := edge[h := edge[h] + [node]];
      hide LevelOk;
    }

    /** What has been packed so far. */
    ghost predicate Holds(tuples: Run)
      reads this
    {
      && AboveOk(0) && TopOk(0)
      && Upper(edge, 0) == tuples && (edge == [] <==> tuples == [])
      && Chained(UpperLinks(edge, 0))
    }

    /** btree_pack_setup_start; the root that is created here is filled at the end. */
    constructor (cfg: TreeConfig, pagesPerExtent: nat)
      requires cfg.Valid() && pagesPerExtent > 0
      ensures Holds([]) && this.cfg == cfg
    {
      this.cfg, this.pagesPerExtent := cfg, pagesPerExtent;
      edge, edgeStats, nextExtent := [], [], 1;
    }

    /** btree_pack_loop: the tuple goes to the current leaf if it fits, or to a new one. */
    method PackLoop(t: Tuple, ghost tuples: Run)
      requires Holds(tuples) && WithinLimits(cfg, t)
      modifies this
      ensures Holds(tuples + [t])
    {
      hide Upper, UpperLinks, TuplesOf, LinksOf, TuplesOfNodes, LinksOfNodes, StatsOf, Complete, Clean, Pow2,
        InOneExtent, NodeOk, Chained, Extended;
      FirstTuple(cfg, t);
      ghost var links := UpperLinks(edge, 0);
      var fits := false;
      if edge != [] {
        LevelFacts(cfg, pagesPerExtent, edge[0], edgeStats[0], 0);
        fits := TuplesFit(cfg, edge[0][|edge[0]| - 1].tuples + [t]);
      }
      if fits {
        var n := |edge[0]| - 1;
        var leaf := edge[0][n];
        assert NodeOk(cfg, leaf, edgeStats[0][n], 0);
        TupleAdded(cfg, leaf, edgeStats[0][n], t);
        ReplaceLast(0, leaf.(tuples := leaf.tuples + [t]), AddTuple(cfg, edgeStats[0][n], t), true, [t], []);
        assert UpperLinks(edge, 0) == links;
      } else {
        if edge != [] {
          LeafComplete(cfg, edge[0][|edge[0]| - 1], edgeStats[0][|edge[0]| - 1]);
        } else {
          NothingPacked(edge);
        }
        CountBelowPow2(|tuples|);
        CreateNextNode(0, [t], [], AddTuple(cfg, NO_STATS, t), |tuples|, true);
        ExtendedChain(links, UpperLinks(edge, 0));
      }
    }

    /** btree_pack_post_loop: all heights are linked, and the topmost node becomes the root. */
    method PostLoop(rootAddr: Addr, ghost tuples: Run) returns (root: Node, ghost height: nat)
      requires Holds(tuples) && tuples != []
      modifies this
      ensures Packed(cfg, root, height) && TuplesOf(root) == tuples && Chained(LinksOf(root))
    {
      hide Upper, UpperLinks, TuplesOf, LinksOf, TuplesOfNodes, LinksOfNodes, StatsOf, Complete, Clean, Pow2,
        InOneExtent, NodeOk, Chained, Packed;
      ghost var links := UpperLinks(edge, 0);
      ghost var limit := |tuples|;
      CountBelowPow2(limit);
      LevelFacts(cfg, pagesPerExtent, edge[0], edgeStats[0], 0);
      var h := 0;
      while h + 1 < |edge| || 1 < |edge[h]|
        invariant h < |edge| && AboveOk(h + 1) && TopOk(h + 1)
        invariant LevelOk(cfg, pagesPerExtent, edge[h], edgeStats[h], h, false)
        invariant Upper(edge, h) == tuples && UpperLinks(edge, h) == links
        invariant h <= limit + 1
        decreases limit + 1 - h
      {
        if h + 1 == |edge| {
          FirstComplete(cfg, pagesPerExtent, edge[h], edgeStats[h], h);
        }
        LevelNotEmpty(cfg, pagesPerExtent, edge[h], edgeStats[h], h);
        LevelBelowLimit(edge, h, limit);
        LinkExtent(h, NoAddr, limit, false);
        h := h + 1;
      }
      height := h;
      LevelNotEmpty(cfg, pagesPerExtent, edge[h], edgeStats[h], h);
      UpperUnfolds(edge, h);
      TopmostOnly(edge, h);
      root := edge[h][0].(addr := rootAddr, nextExtent := NoAddr);
      RootCopied(cfg, edge[h][0], edgeStats[h][0], h, root);
    }
  }

  /** One more leaf follows, and the last one before is linked to it. */
  ghost predicate Extended(before: seq<Link>, after: seq<Link>) {
    var n := |before|;
    && |after| == n + 1
    && (n > 0 ==> after[..n] == before[n - 1 := before[n - 1].(next := after[n].addr)])
    && after[n].prev == (if n > 0 then before[n - 1].addr else NoAddr)
    && after[n].next == NoAddr
  }

  ghost predicate Relinked(before: seq<Link>, after: seq<Link>, addr: Addr) {
    before != [] && after == before[|before| - 1 := before[|before| - 1].(next := addr)]
  }

  lemma LinkAppended(before: seq<Link>, relinked: seq<Link>, after: seq<Link>, leaf: Node)
    requires leaf.tuples != [] && leaf.entries == [] && leaf.next == NoAddr
    requires after == relinked + LinksOf(leaf)
    requires if before == [] then relinked == [] && leaf.prev == NoAddr
             else Relinked(before, relinked, leaf.addr) && leaf.prev == before[|before| - 1].addr
    ensures Extended(before, after)
  {
    assert LinksOf(leaf) == [Link(leaf.addr, leaf.prev, leaf.next)] + LinksOfEntries([]);
    assert LinksOfEntries([]) == [];
  }

  /** The last link is that of the current leaf. */
  lemma LastLeafLink(edge: seq<seq<Node>>, h: nat, cfg: TreeConfig, edgeStats: seq<seq<Stats>>)
    requires h < |edge| && edge[h] != [] && |edgeStats| == |edge| && |edgeStats[h]| == |edge[h]|
    requires forall i | 0 <= i < |edge[h]| :: NodeOk(cfg, edge[h][i], edgeStats[h][i], h)
    ensures h == 0 ==> UpperLinks(edge, 0) != []
                       && UpperLinks(edge, 0)[|UpperLinks(edge, 0)| - 1].addr == edge[0][|edge[0]| - 1].addr
  {
    if h == 0 {
      var n := |edge[0]| - 1;
      assert NodeOk(cfg, edge[0][n], edgeStats[0][n], 0);
      UpperUnfolds(edge, 0);
      LeafLink(edge[0][n]);
      assert edge[0] == edge[0][..n] + [edge[0][n]];
      NodesConcat(edge[0][..n], [edge[0][n]]);
      OneNode(edge[0][n]);
    }
  }

  lemma LeafLink(leaf: Node)
    requires leaf.tuples != [] && leaf.entries == []
    ensures LinksOf(leaf) == [Link(leaf.addr, leaf.prev, leaf.next)]
  {
    assert LinksOfEntries([]) == [];
  }

  lemma LinkReplaced(front: seq<Link>, nodes: seq<Node>, last: Node, addr: Addr)
    requires nodes != [] && last == nodes[|nodes| - 1].(next := addr)
    requires last.tuples != [] && last.entries == []
    ensures Relinked(front + LinksOfNodes(nodes), front + LinksOfNodes(nodes[|nodes| - 1 := last]), addr)
  {
    var n := |nodes| - 1;
    var nodes' := nodes[n := last];
    LeafLink(nodes[n]);
    LeafLink(last);
    assert nodes'[..n] == nodes[..n];
    var a := front + LinksOfNodes(nodes[..n]);
    assert front + LinksOfNodes(nodes) == a + LinksOf(nodes[n]);
    assert front + LinksOfNodes(nodes') == a + LinksOf(last);
  }

  lemma LinksReplaced(nodes: seq<Node>, last: Node)
    requires nodes != [] && LinksOf(last) == LinksOf(nodes[|nodes| - 1])
    ensures LinksOfNodes(nodes[|nodes| - 1 := last]) == LinksOfNodes(nodes)
  {
    hide LinksOf;
    assert nodes[|nodes| - 1 := last][..|nodes| - 1] == nodes[..|nodes| - 1];
  }

  lemma TuplesReplaced(nodes: seq<Node>, last: Node)
    requires nodes != [] && TuplesOf(last) == TuplesOf(nodes[|nodes| - 1])
    ensures TuplesOfNodes(nodes[|nodes| - 1 := last]) == TuplesOfNodes(nodes)
  {
    hide TuplesOf;
    assert nodes[|nodes| - 1 := last][..|nodes| - 1] == nodes[..|nodes| - 1];
  }

  /** Links to siblings are no part of what makes a node well formed. */
  lemma NextChanged(cfg: TreeConfig, last: Node, last': Node, stats: Stats, h: nat)
    requires NodeOk(cfg, last, stats, h) && last' == last.(next := last'.next)
    ensures NodeOk(cfg, last', stats, h) && TuplesOf(last') == TuplesOf(last)
    ensures h > 0 ==> LinksOf(last') == LinksOf(last)
    ensures h == 0 ==> last'.tuples != [] && last'.entries == []
    ensures Clean(last, h) ==> Clean(last', h)
    ensures Complete(last, h) ==> Complete(last', h)
  {
  }

  lemma ContentKept(cfg: TreeConfig, tuples: Run, entries: seq<PivotEntry>, node: Node, stats: Stats, h: nat)
    requires node.tuples == tuples && node.entries == entries
    requires NodeOk(cfg, Node(NoAddr, NoAddr, NoAddr, NoAddr, tuples, entries), stats, h)
    ensures NodeOk(cfg, node, stats, h) && TuplesOf(node) == tuples + TuplesOfEntries(entries)
    ensures TuplesOf(Node(NoAddr, NoAddr, NoAddr, NoAddr, tuples, entries)) == TuplesOf(node)
    ensures h > 0 ==> LinksOf(node) == LinksOfEntries(entries)
    ensures h == 0 ==> tuples != [] && entries == []
    ensures Clean(Node(NoAddr, NoAddr, NoAddr, NoAddr, tuples, entries), h) ==> Clean(node, h)
  {
  }

  lemma LevelFacts(cfg: TreeConfig, pagesPerExtent: nat, nodes: seq<Node>, stats: seq<Stats>, h: nat)
    requires LevelOk(cfg, pagesPerExtent, nodes, stats, h, true)
    ensures nodes != [] && |stats| == |nodes| <= pagesPerExtent && InOneExtent(nodes, pagesPerExtent)
    ensures forall i | 0 <= i < |nodes| :: NodeOk(cfg, nodes[i], stats[i], h)
    ensures LevelOk(cfg, pagesPerExtent, nodes, stats, h, false)
    ensures nodes[|nodes| - 1].addr == Addr(ExtentOf(nodes), |nodes| - 1)
  {
    hide NodeOk, Clean, Complete;
    assert nodes[|nodes| - 1].addr.Addr?;
  }

  lemma AllComplete(cfg: TreeConfig, pagesPerExtent: nat, nodes: seq<Node>, stats: seq<Stats>, h: nat)
    requires LevelOk(cfg, pagesPerExtent, nodes, stats, h, true) && Complete(nodes[|nodes| - 1], h)
    ensures Complete(nodes[0], h)
  {
  }

  lemma NewLevelOk(cfg: TreeConfig, pagesPerExtent: nat, node: Node, stats: Stats, h: nat, clean: bool)
    requires NodeOk(cfg, node, stats, h) && (clean ==> Clean(node, h)) && pagesPerExtent > 0
    requires node.addr.Addr? && node.addr.page == 0
    ensures LevelOk(cfg, pagesPerExtent, [node], [stats], h, clean)
  {
    hide NodeOk, Clean, Complete;
  }

  lemma LevelPushed(cfg: TreeConfig, pagesPerExtent: nat, nodes: seq<Node>, stats: seq<Stats>, h: nat,
                    node: Node, nodeStats: Stats, clean: bool)
    requires LevelOk(cfg, pagesPerExtent, nodes, stats, h, true) && Complete(nodes[|nodes| - 1], h)
    requires node.addr == Addr(ExtentOf(nodes), |nodes|) && |nodes| < pagesPerExtent
    requires NodeOk(cfg, node, nodeStats, h) && (clean ==> Clean(node, h))
    ensures LevelOk(cfg, pagesPerExtent, nodes + [node], stats + [nodeStats], h, clean)
  {
    hide NodeOk, Clean, Complete;
    var all, allStats := nodes + [node], stats + [nodeStats];
    assert ExtentOf(all) == ExtentOf(nodes);
    forall i | 0 <= i < |all| ensures NodeOk(cfg, all[i], allStats[i], h) {
      assert i < |nodes| ==> NodeOk(cfg, nodes[i], stats[i], h);
    }
  }

  lemma UpperEmptied(edge: seq<seq<Node>>, h: nat)
    requires h < |edge| && edge[h] == []
    ensures Upper(edge, h) == Upper(edge, h + 1) && UpperLinks(edge, h) == UpperLinks(edge, h + 1)
  {
  }

  lemma NewLevel(edge: seq<seq<Node>>, node: Node)
    ensures Upper(edge, |edge|) == [] && UpperLinks(edge, |edge|) == []
    ensures Upper(edge + [[node]], |edge|) == TuplesOf(node)
    ensures UpperLinks(edge + [[node]], |edge|) == LinksOf(node)
    ensures TuplesOfNodes([node]) == TuplesOf(node)
  {
    OneNode(node);
    var all := edge + [[node]];
    UpperUnfolds(all, |edge|);
    assert all[|edge|] == [node];
    assert Upper(all, |edge| + 1) == [] && UpperLinks(all, |edge| + 1) == [];
  }

  lemma PushedUpper(edge: seq<seq<Node>>, h: nat, node: Node)
    requires h < |edge|
    ensures var pushed := edge[h := edge[h] + [node]];
            && Upper(pushed, h) == Upper(edge, h) + TuplesOf(node)
            && UpperLinks(pushed, h) == UpperLinks(edge, h) + LinksOf(node)
    ensures TuplesOfNodes(edge[h] + [node]) == TuplesOfNodes(edge[h]) + TuplesOf(node)
  {
    var pushed := edge[h := edge[h] + [node]];
    hide *;
    UpperUnfolds(edge, h);
    NodesConcat(edge[h], [node]);
    OneNode(node);
    UpperSame(edge, pushed, h + 1);
    UpperUnfolds(pushed, h);
    Associative(Upper(edge, h + 1), TuplesOfNodes(edge[h]), TuplesOf(node));
    Associative(UpperLinks(edge, h + 1), LinksOfNodes(edge[h]), LinksOf(node));
  }

  lemma Associative<T>(a: seq<T>, b: seq<T>, c: seq<T>)
    ensures a + (b + c) == (a + b) + c
  {
  }

  lemma UpperUnfolds(edge: seq<seq<Node>>, h: nat)
    requires h < |edge|
    ensures Upper(edge, h) == Upper(edge, h + 1) + TuplesOfNodes(edge[h])
    ensures UpperLinks(edge, h) == UpperLinks(edge, h + 1) + LinksOfNodes(edge[h])
  {
  }

  lemma NoNodes()
    ensures TuplesOfNodes([]) == [] && LinksOfNodes([]) == []
  {
  }

  lemma FirstNodes(nodes: seq<Node>, i: nat)
    requires i < |nodes|
    ensures TuplesOfNodes(nodes[..i + 1]) == TuplesOfNodes(nodes[..i]) + TuplesOf(nodes[i])
    ensures LinksOfNodes(nodes[..i + 1]) == LinksOfNodes(nodes[..i]) + LinksOf(nodes[i])
    ensures |TuplesOfNodes(nodes[..i])| + |TuplesOf(nodes[i])| <= |TuplesOfNodes(nodes)|
  {
    assert nodes[..i + 1] == nodes[..i] + [nodes[i]];
    assert nodes == nodes[..i + 1] + nodes[i + 1..];
    NodesConcat(nodes[..i], [nodes[i]]);
    OneNode(nodes[i]);
    NodesConcat(nodes[..i + 1], nodes[i + 1..]);
  }

  lemma LastReplaced(nodes: seq<Node>, last: Node, more: Run, moreLinks: seq<Link>)
    requires nodes != []
    requires TuplesOf(last) == TuplesOf(nodes[|nodes| - 1]) + more
    requires LinksOf(last) == LinksOf(nodes[|nodes| - 1]) + moreLinks
    ensures TuplesOfNodes(nodes[|nodes| - 1 := last]) == TuplesOfNodes(nodes) + more
    ensures LinksOfNodes(nodes[|nodes| - 1 := last]) == LinksOfNodes(nodes) + moreLinks
  {
    hide TuplesOf, LinksOf;
    var n := |nodes| - 1;
    assert nodes[n := last][..n] == nodes[..n];
  }

  lemma LevelReplaced(cfg: TreeConfig, pagesPerExtent: nat, nodes: seq<Node>, stats: seq<Stats>, h: nat,
                      last: Node, lastStats: Stats, clean: bool)
    requires LevelOk(cfg, pagesPerExtent, nodes, stats, h, true)
    requires last.addr == nodes[|nodes| - 1].addr
    requires NodeOk(cfg, last, lastStats, h) && (clean ==> Clean(last, h))
    ensures LevelOk(cfg, pagesPerExtent, nodes[|nodes| - 1 := last], stats[|nodes| - 1 := lastStats], h, clean)
  {
    hide NodeOk, Clean, Complete;
  }

  lemma LevelNonEmpty(cfg: TreeConfig, pagesPerExtent: nat, nodes: seq<Node>, stats: seq<Stats>, h: nat)
    requires LevelOk(cfg, pagesPerExtent, nodes, stats, h, true)
    ensures nodes != [] && |stats| == |nodes| && Clean(nodes[|nodes| - 1], h)
    ensures NodeOk(cfg, nodes[|nodes| - 1], stats[|nodes| - 1], h)
  {
  }

  lemma EntryAdded(cfg: TreeConfig, parent: Node, stats: Stats, h: nat, entry: PivotEntry, complete: bool)
    requires h > 0 && NodeOk(cfg, parent, stats, h) && Clean(parent, h)
    requires PackedEntry(cfg, entry, h) && (complete ==> Complete(entry.child, h - 1))
    requires AllWithinLimits(cfg, TuplesOf(entry.child)) && EntriesFitPage(cfg, parent.entries + [entry])
    ensures var r := parent.(entries := parent.entries + [entry]);
            && NodeOk(cfg, r, Accumulate(stats, entry.stats), h)
            && (complete ==> Clean(r, h))
            && TuplesOf(r) == TuplesOf(parent) + TuplesOf(entry.child)
            && LinksOf(r) == LinksOf(parent) + LinksOf(entry.child)
  {
    hide Accumulate, CountsAll, TuplesFit, EntriesFitPage;
    TuplesAdded(parent, entry);
    StatsConcat(cfg, TuplesOf(parent), TuplesOf(entry.child));
    assert CountsAll(entry.stats, StatsOf(cfg, TuplesOf(entry.child)));
    AccumulateCounts(stats, entry.stats, StatsOf(cfg, TuplesOf(parent)), StatsOf(cfg, TuplesOf(entry.child)));
    hide TuplesOf, LinksOf, StatsOf, PackedEntry, Complete;
    var r := parent.(entries := parent.entries + [entry]);
    assert forall i | 0 <= i < |r.entries| :: r.entries[i] == if i < |parent.entries| then parent.entries[i] else entry;
  }

  /** A page has room for two entries of any legal length. */
  lemma TwoFit(cfg: TreeConfig, parent: Node, stats: Stats, h: nat, entry: PivotEntry)
    requires cfg.Valid() && h > 0 && NodeOk(cfg, parent, stats, h)
    requires PackedEntry(cfg, entry, h) && AllWithinLimits(cfg, TuplesOf(entry.child))
    requires !EntriesFitPage(cfg, parent.entries + [entry])
    ensures |parent.entries| >= 2
  {
    FirstKey(cfg, parent, h);
    assert WithinLimits(cfg, TuplesOf(parent)[0]) && WithinLimits(cfg, TuplesOf(entry.child)[0]);
    hide TuplesOf, Packed, PackedEntry, StatsOf;
    if |parent.entries| < 2 {
      assert parent.entries == [parent.entries[0]];
      EntryBytes(cfg, parent.entries[0]);
      EntryBytes(cfg, entry);
      FootprintConcat(EntryLayout(cfg), [parent.entries[0]], [entry]);
    }
  }

  lemma EntryBytes(cfg: TreeConfig, e: PivotEntry)
    ensures Footprint(EntryLayout(cfg), [e]) == TABLE_ENTRY + INDEX_ENTRY + cfg.keyLength(e.pivot)
  {
    FootprintOne(EntryLayout(cfg), e);
  }

  lemma TuplesAdded(parent: Node, entry: PivotEntry)
    requires parent.tuples == []
    ensures var r := parent.(entries := parent.entries + [entry]);
            TuplesOf(r) == TuplesOf(parent) + TuplesOf(entry.child) && LinksOf(r) == LinksOf(parent) + LinksOf(entry.child)
  {
    EntriesConcat(parent.entries, [entry]);
    OneEntry(entry);
    hide TuplesOfEntries, LinksOfEntries;
    var r := parent.(entries := parent.entries + [entry]);
    assert TuplesOf(r) == [] + TuplesOfEntries(r.entries);
    assert TuplesOf(parent) == [] + TuplesOfEntries(parent.entries);
    assert LinksOf(r) == [] + LinksOfEntries(r.entries);
    assert LinksOf(parent) == [] + LinksOfEntries(parent.entries);
  }

  /** A linked node becomes an entry: its pivot is its least key. */
  lemma LinkedEntry(cfg: TreeConfig, node: Node, child: Node, h: nat, entry: PivotEntry)
    requires Packed(cfg, node, h) && child == node.(nextExtent := child.nextExtent)
    requires entry.child == child && CountsAll(entry.stats, StatsOf(cfg, TuplesOf(node)))
    requires if h > 0 then entry.pivot == node.entries[0].pivot else entry.pivot == node.tuples[0].key
    ensures PackedEntry(cfg, entry, h + 1) && TuplesOf(child) == TuplesOf(node) && LinksOf(child) == LinksOf(node)
    ensures Complete(node, h) ==> Complete(child, h)
  {
    FirstKey(cfg, node, h);
  }

  lemma {:induction false} FirstKey(cfg: TreeConfig, node: Node, h: nat)
    requires Packed(cfg, node, h)
    ensures TuplesOf(node) != []
    ensures TuplesOf(node)[0].key == if h > 0 then node.entries[0].pivot else node.tuples[0].key
  {
    if h > 0 {
      assert PackedEntry(cfg, node.entries[0], h);
      var first := [node.entries[0]];
      assert node.entries == first + node.entries[1..];
      EntriesConcat(first, node.entries[1..]);
      OneEntry(node.entries[0]);
    }
  }

  lemma CompleteIs(node: Node, h: nat)
    ensures Complete(node, h) <==> |TuplesOf(node)| >= Pow2(h)
  {
  }

  lemma FirstEntryNode(cfg: TreeConfig, entry: PivotEntry, h: nat, complete: bool)
    requires h > 0 && PackedEntry(cfg, entry, h) && (complete ==> Complete(entry.child, h - 1))
    requires cfg.Valid() && AllWithinLimits(cfg, TuplesOf(entry.child))
    ensures var content := Node(NoAddr, NoAddr, NoAddr, NoAddr, [], [entry]);
            && NodeOk(cfg, content, Accumulate(NO_STATS, entry.stats), h) && (complete ==> Clean(content, h))
            && TuplesOf(content) == TuplesOf(entry.child)
    ensures TuplesOfEntries([entry]) == TuplesOf(entry.child) && LinksOfEntries([entry]) == LinksOf(entry.child)
    ensures [] + TuplesOfEntries([entry]) == TuplesOfEntries([entry])
  {
    hide Accumulate, CountsAll, Complete, StatsOf, TuplesFit, EntriesFitPage;
    OneEntry(entry);
    OneFits(cfg, entry, h);
    FirstCounts(cfg, entry, h);
    var content := Node(NoAddr, NoAddr, NoAddr, NoAddr, [], [entry]);
    hide TuplesOfEntries, LinksOfEntries;
    assert TuplesOf(content) == [] + TuplesOfEntries([entry]);
    hide TuplesOf, PackedEntry;
    assert content.entries == [entry];
  }

  lemma FirstCounts(cfg: TreeConfig, entry: PivotEntry, h: nat)
    requires h > 0 && PackedEntry(cfg, entry, h)
    ensures CountsAll(Accumulate(NO_STATS, entry.stats), StatsOf(cfg, TuplesOf(entry.child)))
  {
    assert CountsAll(entry.stats, StatsOf(cfg, TuplesOf(entry.child)));
    hide StatsOf, TuplesOf;
    AccumulateCounts(NO_STATS, entry.stats, NO_STATS, StatsOf(cfg, TuplesOf(entry.child)));
  }

  lemma OneFits(cfg: TreeConfig, entry: PivotEntry, h: nat)
    requires h > 0 && PackedEntry(cfg, entry, h) && cfg.Valid() && AllWithinLimits(cfg, TuplesOf(entry.child))
    ensures EntriesFitPage(cfg, [entry]) && TuplesFit(cfg, [])
  {
    assert WithinLimits(cfg, TuplesOf(entry.child)[0]);
    EntryBytes(cfg, entry);
  }

  lemma PackedTuples(cfg: TreeConfig, node: Node, h: nat)
    requires Packed(cfg, node, h)
    ensures if h > 0 then node.entries != [] else node.tuples != []
  {
  }

  lemma {:induction false} Pow2Strict(a: nat, b: nat)
    requires Pow2(a) < Pow2(b)
    ensures a < b
  {
    if b <= a {
      Pow2Monotone(b, a);
    }
  }

  lemma {:induction false} LevelCount(edge: seq<seq<Node>>, h: nat, k: nat)
    requires h <= k < |edge|
    ensures |TuplesOfNodes(edge[k])| <= |Upper(edge, h)|
    decreases k - h
  {
    if h < k {
      LevelCount(edge, h + 1, k);
    }
  }

  /** The number of tuples bounds the height. */
  lemma LevelBelowLimit(edge: seq<seq<Node>>, h: nat, limit: nat)
    requires h < |edge| && edge[h] != [] && |Upper(edge, h)| < Pow2(limit)
    requires |edge| > h + 1 ==> |TuplesOfNodes(edge[|edge| - 1])| >= Pow2(|edge| - 2)
    requires h + 1 == |edge| ==> Complete(edge[h][0], h)
    ensures h < limit
  {
    hide Upper, TuplesOf;
    LevelCount(edge, h, |edge| - 1);
    if |edge| > h + 1 {
      Pow2Strict(|edge| - 2, limit);
    } else {
      FirstNodes(edge[h], 0);
      Pow2Strict(h, limit);
    }
  }

  lemma TopmostOnly(edge: seq<seq<Node>>, h: nat)
    requires h + 1 == |edge| && |edge[h]| == 1
    ensures Upper(edge, h) == TuplesOf(edge[h][0]) && UpperLinks(edge, h) == LinksOf(edge[h][0])
  {
    OneNode(edge[h][0]);
    assert edge[h] == [edge[h][0]];
    UpperUnfolds(edge, h);
    assert Upper(edge, h + 1) == [] && UpperLinks(edge, h + 1) == [];
  }

  lemma {:induction false} CountBelowPow2(n: nat)
    ensures n < Pow2(n)
  {
    if n > 0 {
      CountBelowPow2(n - 1);
    }
  }

  lemma NothingPacked(edge: seq<seq<Node>>)
    ensures edge == [] ==> Upper(edge, 0) == [] && UpperLinks(edge, 0) == []
  {
  }

  lemma FirstTuple(cfg: TreeConfig, t: Tuple)
    requires cfg.Valid() && WithinLimits(cfg, t)
    ensures var leaf := Node(NoAddr, NoAddr, NoAddr, NoAddr, [t], []);
            NodeOk(cfg, leaf, AddTuple(cfg, NO_STATS, t), 0) && Clean(leaf, 0) && TuplesOf(leaf) == [t]
    ensures [t] + TuplesOfEntries([]) == [t]
  {
    assert [t][..0] == [];
    assert StatsOf(cfg, [t]) == Plus(NO_STATS, StatsOfTuple(cfg, t));
    AddTupleCounts(cfg, NO_STATS, t, NO_STATS);
    FootprintOne(cfg.LeafLayout(), t);
    assert TuplesOf(Node(NoAddr, NoAddr, NoAddr, NoAddr, [t], [])) == [t] + TuplesOfEntries([]);
  }

  lemma TupleAdded(cfg: TreeConfig, leaf: Node, stats: Stats, t: Tuple)
    requires NodeOk(cfg, leaf, stats, 0) && WithinLimits(cfg, t) && TuplesFit(cfg, leaf.tuples + [t])
    ensures var r := leaf.(tuples := leaf.tuples + [t]);
            && NodeOk(cfg, r, AddTuple(cfg, stats, t), 0) && Clean(r, 0)
            && TuplesOf(r) == TuplesOf(leaf) + [t] && LinksOf(r) == LinksOf(leaf) + []
  {
    var r := leaf.(tuples := leaf.tuples + [t]);
    hide AddTuple, CountsAll, TuplesFit, EntriesFitPage;
    LeafTuples(leaf);
    LeafTuples(r);
    LeafLink(leaf);
    LeafLink(r);
    AddTupleCounts(cfg, stats, t, StatsOf(cfg, leaf.tuples));
    hide TuplesOf, LinksOf;
    assert r.tuples[..|r.tuples| - 1] == leaf.tuples;
  }

  lemma LeafTuples(leaf: Node)
    requires leaf.entries == []
    ensures TuplesOf(leaf) == leaf.tuples
  {
    assert TuplesOfEntries([]) == [];
  }

  lemma LeafComplete(cfg: TreeConfig, leaf: Node, stats: Stats)
    requires NodeOk(cfg, leaf, stats, 0)
    ensures Complete(leaf, 0)
  {
    LeafTuples(leaf);
    assert Pow2(0) == 1;
  }

  lemma ExtendedChain(before: seq<Link>, after: seq<Link>)
    requires Chained(before) && Extended(before, after)
    ensures Chained(after)
  {
    var n := |before|;
    assert forall i | 0 <= i < n :: after[i] == after[..n][i];
  }

  lemma LevelNotEmpty(cfg: TreeConfig, pagesPerExtent: nat, nodes: seq<Node>, stats: seq<Stats>, h: nat)
    requires LevelOk(cfg, pagesPerExtent, nodes, stats, h, false)
    ensures nodes != [] && |stats| == |nodes| && NodeOk(cfg, nodes[0], stats[0], h)
  {
  }

  lemma FirstComplete(cfg: TreeConfig, pagesPerExtent: nat, nodes: seq<Node>, stats: seq<Stats>, h: nat)
    requires LevelOk(cfg, pagesPerExtent, nodes, stats, h, false) && |nodes| > 1
    ensures Complete(nodes[0], h)
  {
  }

  lemma RootCopied(cfg: TreeConfig, node: Node, stats: Stats, h: nat, root: Node)
    requires NodeOk(cfg, node, stats, h) && Chained(LinksOf(node))
    requires root == node.(addr := root.addr, nextExtent := root.nextExtent)
    ensures Packed(cfg, root, h) && TuplesOf(root) == TuplesOf(node) && Chained(LinksOf(root))
  {
    if h == 0 {
      LeafLink(node);
      LeafLink(root);
    }
  }

  lemma LimitAt(cfg: TreeConfig, input: Run, i: nat)
    requires AllWithinLimits(cfg, input) && i < |input|
    ensures WithinLimits(cfg, input[i])
  {
  }

  datatype Status = Ok | LimitExceeded

  /** btree_pack.  The whole input ends up in a tree of uniform height whose leaves hold it in
      order and are linked to their neighbours, whose nodes fit their pages, and whose pivots carry the
      least key and the totals of their subtrees, each exact if it is below the marker for unknown
      ones.  An empty input gives no tree. */
  method Pack(cfg: TreeConfig, pagesPerExtent: nat, input: Run, maxTuples: nat)
    returns (status: Status, root: Option<Node>, ghost height: nat)
    requires cfg.Valid() && pagesPerExtent > 0 && AllWithinLimits(cfg, input)
    ensures status == if |input| > maxTuples then LimitExceeded else Ok
    ensures root.Some? <==> status.Ok? && input != []
    ensures root.Some? ==>
      Packed(cfg, root.value, height) && TuplesOf(root.value) == input && Chained(LinksOf(root.value))
  {
    hide *;
    var packer := new Packer(cfg, pagesPerExtent);
    height := 0;
    assert input[..0] == [];
    var numTuples := 0;
    while numTuples < |input|
      invariant 0 <= numTuples <= |input| && numTuples <= maxTuples
      invariant fresh(packer) && packer.cfg == cfg && packer.Holds(input[..numTuples])
    {
      if numTuples >= maxTuples {
        return LimitExceeded, None, 0;
      }
      assert input[..numTuples + 1] == input[..numTuples] + [input[numTuples]];
      LimitAt(cfg, input, numTuples);
      packer.PackLoop(input[numTuples], input[..numTuples]);
      numTuples := numTuples + 1;
    }
    assert input[..numTuples] == input;
    if numTuples == 0 {
      return Ok, None, 0;
    }
    var node;
    node, height := packer.PostLoop(Addr(0, 0), input);
    status, root := Ok, Some(node);
  }
}
