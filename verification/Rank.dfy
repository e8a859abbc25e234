/** Lookups, ranks and range counts in packed trees. */
module Rank {
  import opened Messages
  import opened Lookup
  import opened MergeSpec
  import opened LeafPage
  import opened LeafNode
  import opened SortedRuns
  import opened PackedTree

  /** A search key; the infinite ones lie before and behind all others. */
  datatype Bound = NegInf | At(key: Key) | PosInf

  predicate KeyBelow(k: Key, b: Bound) {
    match b
    case NegInf => false
    case At(key) => k < key
    case PosInf => true
  }

  predicate KeyAbove(k: Key, b: Bound) {
    match b
    case NegInf => true
    case At(key) => k > key
    case PosInf => false
  }

  ghost predicate RunBelow(run: Run, b: Bound) {
    forall i | 0 <= i < |run| :: KeyBelow(run[i].key, b)
  }

  ghost predicate RunAbove(run: Run, b: Bound) {
    forall i | 0 <= i < |run| :: KeyAbove(run[i].key, b)
  }

  ghost predicate PivotsIncrease(entries: seq<PivotEntry>) {
    forall i, j | 0 <= i < j < |entries| :: entries[i].pivot < entries[j].pivot
  }

  /** btree_find_pivot */
  method FindPivot(entries: seq<PivotEntry>, target: Bound) returns (idx: int)
    requires PivotsIncrease(entries)
    ensures -1 <= idx < |entries|
    ensures forall i | 0 <= i <= idx :: !KeyAbove(entries[i].pivot, target)
    ensures forall i | idx < i < |entries| :: KeyAbove(entries[i].pivot, target)
  {
    var lo, hi := 0, |entries|;
    while lo < hi
      invariant 0 <= lo <= hi <= |entries|
      invariant forall i | 0 <= i < lo :: !KeyAbove(entries[i].pivot, target)
      invariant forall i | hi <= i < |entries| :: KeyAbove(entries[i].pivot, target)
    {
      var mid := (lo + hi) / 2;
      if target == At(entries[mid].pivot) {
        return mid;
      } else if KeyBelow(entries[mid].pivot, target) {
        lo := mid + 1;
      } else {
        hi := mid;
      }
    }
    idx := lo - 1;
  }

  /** btree_find_tuple, and the rank in the leaf: one more if the key was not found. */
  method RankInLeaf(tuples: Run, target: Bound) returns (rank: nat)
    requires Increasing(tuples)
    ensures rank <= |tuples| && RunBelow(tuples[..rank], target)
    ensures forall i | rank <= i < |tuples| :: !KeyBelow(tuples[i].key, target)
  {
    var lo, hi := 0, |tuples|;
    while lo < hi
      invariant 0 <= lo <= hi <= |tuples|
      invariant forall i | 0 <= i < lo :: KeyBelow(tuples[i].key, target)
      invariant forall i | hi <= i < |tuples| :: !KeyBelow(tuples[i].key, target)
    {
      var mid := (lo + hi) / 2;
      if target == At(tuples[mid].key) {
        return mid;
      } else if KeyBelow(tuples[mid].key, target) {
        lo := mid + 1;
      } else {
        hi := mid;
      }
    }
    rank := lo;
  }

  /** accumulate_node_ranks, at an index node and at a leaf. */
  method AccumulateEntries(cfg: TreeConfig, entries: seq<PivotEntry>, to: nat, stats0: Stats, ghost height: nat,
                           ghost before: Run)
    returns (stats: Stats)
    requires height > 0 && to <= |entries|
    requires forall i | 0 <= i < |entries| :: PackedEntry(cfg, entries[i], height)
    requires CountsAll(stats0, StatsOf(cfg, before))
    ensures CountsAll(stats, StatsOf(cfg, before + TuplesOfEntries(entries[..to])))
  {
    stats := stats0;
    var i := 0;
    NoEntries(before);
    assert entries[..0] == [];
    hide *;
    while i < to
      invariant 0 <= i <= to && CountsAll(stats, StatsOf(cfg, before + TuplesOfEntries(entries[..i])))
    {
      EntryAdds(cfg, entries, i, stats, height, before);
      stats := Accumulate(stats, entries[i].stats);
      i := i + 1;
    }
  }

  /** The counters of an entry add those of its subtree. */
  lemma EntryAdds(cfg: TreeConfig, entries: seq<PivotEntry>, i: nat, stats: Stats, height: nat, before: Run)
    requires height > 0 && i < |entries| && PackedEntry(cfg, entries[i], height)
    requires CountsAll(stats, StatsOf(cfg, before + TuplesOfEntries(entries[..i])))
    ensures CountsAll(Accumulate(stats, entries[i].stats), StatsOf(cfg, before + TuplesOfEntries(entries[..i + 1])))
  {
    hide *;
    EntryCounts(cfg, entries[i], height);
    var done, child := TuplesOfEntries(entries[..i]), TuplesOf(entries[i].child);
    assert entries[..i + 1] == entries[..i] + [entries[i]];
    EntriesConcat(entries[..i], [entries[i]]);
    OneEntry(entries[i]);
    assert before + (done + child) == before + done + child;
    StatsConcat(cfg, before + done, child);
    AccumulateCounts(stats, entries[i].stats, StatsOf(cfg, before + done), StatsOf(cfg, child));
  }

  lemma EntryCounts(cfg: TreeConfig, e: PivotEntry, height: nat)
    requires height > 0 && PackedEntry(cfg, e, height)
    ensures CountsAll(e.stats, StatsOf(cfg, TuplesOf(e.child)))
  {
    hide StatsOf, TuplesOf, CountsAll;
  }

  lemma NoEntries(before: Run)
    ensures before + TuplesOfEntries([]) == before
  {
  }

  method AccumulateTuples(cfg: TreeConfig, tuples: Run, to: nat, stats0: Stats, ghost before: Run)
    returns (stats: Stats)
    requires to <= |tuples| && CountsAll(stats0, StatsOf(cfg, before))
    ensures CountsAll(stats, StatsOf(cfg, before + tuples[..to]))
  {
    stats := stats0;
    var i := 0;
    assert before + tuples[..0] == before;
    hide StatsOf, Counts, AddUnknown;
    while i < to
      invariant 0 <= i <= to && stats.kvs == stats0.kvs
      invariant Counts(stats.keyBytes, StatsOf(cfg, before + tuples[..i]).keyBytes)
      invariant Counts(stats.messageBytes, StatsOf(cfg, before + tuples[..i]).messageBytes)
    {
      var keyBytes, messageBytes := cfg.keyLength(tuples[i].key), MessageLength(tuples[i].msg);
      assert before + tuples[..i + 1] == before + tuples[..i] + [tuples[i]];
      StatsConcat(cfg, before + tuples[..i], [tuples[i]]);
      StatsOfOne(cfg, tuples[i]);
      Itself(keyBytes);
      Itself(messageBytes);
      AddCounts(stats.keyBytes, keyBytes, StatsOf(cfg, before + tuples[..i]).keyBytes, keyBytes);
      AddCounts(stats.messageBytes, messageBytes, StatsOf(cfg, before + tuples[..i]).messageBytes, messageBytes);
      stats := stats.(keyBytes := AddUnknown(stats.keyBytes, keyBytes),
                      messageBytes := AddUnknown(stats.messageBytes, messageBytes));
      i := i + 1;
    }
    Itself(to);
    AddCounts(stats.kvs, to, |before|, to);
    stats := stats.(kvs := (stats.kvs + to) % 0x1_0000_0000);
  }

  lemma Itself(n: nat)
    ensures Counts(n, n)
  {
  }

  lemma StatsOfOne(cfg: TreeConfig, t: Tuple)
    ensures StatsOf(cfg, [t]) == StatsOfTuple(cfg, t)
  {
    assert [t][..0] == [];
    assert StatsOf(cfg, [t]) == Plus(NO_STATS, StatsOfTuple(cfg, t));
  }

  // ----- the descent

  lemma AroundEntry(entries: seq<PivotEntry>, i: nat)
    requires i < |entries|
    ensures TuplesOfEntries(entries)
         == TuplesOfEntries(entries[..i]) + TuplesOf(entries[i].child) + TuplesOfEntries(entries[i + 1..])
  {
    var a, b, c := entries[..i], [entries[i]], entries[i + 1..];
    SplitAt(entries, i);
    hide *;
    EntriesConcat(a + b, c);
    EntriesConcat(a, b);
    OneEntry(entries[i]);
  }

  lemma EntriesIncrease(cfg: TreeConfig, entries: seq<PivotEntry>, height: nat)
    requires height > 0 && Increasing(TuplesOfEntries(entries))
    requires forall i | 0 <= i < |entries| :: PackedEntry(cfg, entries[i], height)
    ensures PivotsIncrease(entries)
  {
    hide TuplesOf, TuplesOfEntries, Increasing;
    forall i, j | 0 <= i < j < |entries| ensures entries[i].pivot < entries[j].pivot {
      assert PackedEntry(cfg, entries[i], height) && PackedEntry(cfg, entries[j], height);
      AroundEntry(entries, j);
      var before := entries[..j];
      AroundEntry(before, i);
      var a, b := TuplesOfEntries(before), TuplesOf(entries[j].child);
      IncreasingParts(a + b, TuplesOfEntries(entries[j + 1..]));
      IncreasingParts(a, b);
      assert a[|TuplesOfEntries(before[..i])|] == TuplesOf(entries[i].child)[0];
    }
  }

  /** What lies in front of the chosen child is below the target, what lies behind it is above. */
  lemma Surrounded(cfg: TreeConfig, entries: seq<PivotEntry>, height: nat, ci: nat, target: Bound)
    requires height > 0 && ci < |entries| && Increasing(TuplesOfEntries(entries))
    requires forall i | 0 <= i < |entries| :: PackedEntry(cfg, entries[i], height)
    requires ci > 0 ==> !KeyAbove(entries[ci].pivot, target)
    requires ci + 1 < |entries| ==> KeyAbove(entries[ci + 1].pivot, target)
    ensures RunBelow(TuplesOfEntries(entries[..ci]), target)
    ensures RunAbove(TuplesOfEntries(entries[ci + 1..]), target)
    ensures Packed(cfg, entries[ci].child, height - 1) && Increasing(TuplesOf(entries[ci].child))
  {
    hide TuplesOf, Increasing;
    var a, mid := TuplesOfEntries(entries[..ci]), TuplesOf(entries[ci].child);
    var b := TuplesOfEntries(entries[ci + 1..]);
    AroundEntry(entries, ci);
    NoEntries([]);
    hide TuplesOfEntries;
    IncreasingParts(a + mid, b);
    IncreasingParts(a, mid);
    assert PackedEntry(cfg, entries[ci], height);
    if ci + 1 < |entries| {
      var after := entries[ci + 1..];
      assert PackedEntry(cfg, entries[ci + 1], height) && after[0] == entries[ci + 1];
      AroundEntry(after, 0);
      BackIsAbove(after[0].pivot, b, target);
    }
    if ci == 0 {
      assert entries[..0] == [];
    }
  }

  lemma BackIsAbove(pivot: Key, b: Run, target: Bound)
    requires Increasing(b) && b != [] && b[0].key == pivot && KeyAbove(pivot, target)
    ensures RunAbove(b, target)
  {
  }

  /** btree_lookup_node down to height 0, with statistics of what was passed on the left. */
  method LookupNode(cfg: TreeConfig, root: Node, ghost height: nat, target: Bound)
    returns (leaf: Node, stats: Stats, ghost before: Run, ghost after: Run)
    requires Packed(cfg, root, height) && Increasing(TuplesOf(root))
    ensures leaf.entries == [] && Increasing(leaf.tuples)
    ensures TuplesOf(root) == before + leaf.tuples + after
    ensures RunBelow(before, target) && RunAbove(after, target)
    ensures CountsAll(stats, StatsOf(cfg, before))
  {
    hide *;
    leaf, before, after, stats := root, [], [], NO_STATS;
    ghost var all := TuplesOf(root);
    ghost var h := height;
    NothingPassed(cfg, all, target);
    while leaf.entries != []
      invariant Packed(cfg, leaf, h) && Increasing(TuplesOf(leaf))
      invariant all == before + TuplesOf(leaf) + after
      invariant RunBelow(before, target) && RunAbove(after, target)
      invariant CountsAll(stats, StatsOf(cfg, before))
      decreases leaf
    {
      leaf, stats, before, after := LookupChild(cfg, leaf, h, target, stats, before, after, all);
      h := h - 1;
    }
    OnlyLeafTuples(leaf);
  }

  lemma NothingPassed(cfg: TreeConfig, all: Run, target: Bound)
    ensures all == [] + all + [] && CountsAll(NO_STATS, StatsOf(cfg, [])) && RunBelow([], target) && RunAbove([], target)
  {
  }

  lemma OnlyLeafTuples(leaf: Node)
    requires leaf.entries == []
    ensures TuplesOf(leaf) == leaf.tuples
  {
    assert TuplesOfEntries([]) == [];
  }

  /** The choice of the child to go to: the last one whose pivot is not above the target, or the
      first one. */
  method ChildIndex(entries: seq<PivotEntry>, target: Bound) returns (childIdx: nat)
    requires entries != [] && PivotsIncrease(entries)
    ensures childIdx < |entries|
    ensures childIdx > 0 ==> !KeyAbove(entries[childIdx].pivot, target)
    ensures childIdx + 1 < |entries| ==> KeyAbove(entries[childIdx + 1].pivot, target)
  {
    if target.PosInf? {
      return |entries| - 1;
    }
    var found := FindPivot(entries, target);
    childIdx := if found < 0 then 0 else found;
  }

  method LookupChild(cfg: TreeConfig, node: Node, ghost height: nat, target: Bound, stats0: Stats,
                     ghost before: Run, ghost after: Run, ghost all: Run)
    returns (child: Node, stats: Stats, ghost before': Run, ghost after': Run)
    requires Packed(cfg, node, height) && node.entries != [] && Increasing(TuplesOf(node))
    requires all == before + TuplesOf(node) + after
    requires RunBelow(before, target) && RunAbove(after, target) && CountsAll(stats0, StatsOf(cfg, before))
    ensures height > 0 && child < node && Packed(cfg, child, height - 1) && Increasing(TuplesOf(child))
    ensures all == before' + TuplesOf(child) + after'
    ensures RunBelow(before', target) && RunAbove(after', target) && CountsAll(stats, StatsOf(cfg, before'))
  {
    var entries := node.entries;
    OnlyEntryTuples(cfg, node, height);
    hide *;
    EntriesIncrease(cfg, entries, height);
    var childIdx := ChildIndex(entries, target);
    AroundEntry(entries, childIdx);
    Surrounded(cfg, entries, height, childIdx, target);
    child := entries[childIdx].child;
    ghost var a, b := TuplesOfEntries(entries[..childIdx]), TuplesOfEntries(entries[childIdx + 1..]);
    before', after' := before + a, b + after;
    BelowAndAbove(before, a, b, after, target);
    Reassociate(before, a, TuplesOf(child), b, after);
    stats := AccumulateEntries(cfg, entries, childIdx, stats0, height, before);
    ChildIsLess(node, childIdx);
  }

  lemma OnlyEntryTuples(cfg: TreeConfig, node: Node, height: nat)
    requires Packed(cfg, node, height) && node.entries != []
    ensures height > 0 && TuplesOf(node) == TuplesOfEntries(node.entries)
    ensures forall i | 0 <= i < |node.entries| :: PackedEntry(cfg, node.entries[i], height)
  {
    hide TuplesOfEntries;
    assert TuplesOf(node) == [] + TuplesOfEntries(node.entries) == TuplesOfEntries(node.entries);
  }

  lemma Reassociate(before: Run, a: Run, mid: Run, b: Run, after: Run)
    ensures before + (a + mid + b) + after == (before + a + mid) + (b + after)
    ensures (before + a + mid) + (b + after) == (before + a) + mid + (b + after)
  {
    assert before + (a + mid + b) == before + a + mid + b;
  }

  lemma BelowAndAbove(before: Run, a: Run, b: Run, after: Run, target: Bound)
    requires RunBelow(before, target) && RunBelow(a, target) && RunAbove(b, target) && RunAbove(after, target)
    ensures RunBelow(before + a, target) && RunAbove(b + after, target)
  {
    hide KeyBelow, KeyAbove;
  }

  lemma ChildIsLess(node: Node, i: nat)
    requires i < |node.entries|
    ensures node.entries[i].child < node
  {
    var e := node.entries[i];
    assert e < node;
  }

  predicate KeyInRange(k: Key, minKey: Bound, maxKey: Bound) {
    !KeyBelow(k, minKey) && KeyBelow(k, maxKey)
  }

  /** The tuples of a run with keys in [minKey, maxKey). */
  function InRange(run: Run, minKey: Bound, maxKey: Bound): Run {
    if run == [] then []
    else
      var last := run[|run| - 1];
      InRange(run[..|run| - 1], minKey, maxKey) + if KeyInRange(last.key, minKey, maxKey) then [last] else []
  }

  lemma {:induction false} InRangeIs(run: Run, minKey: Bound, maxKey: Bound, from: nat, to: nat)
    requires from <= to <= |run|
    requires forall i | 0 <= i < |run| :: from <= i < to <==> KeyInRange(run[i].key, minKey, maxKey)
    ensures InRange(run, minKey, maxKey) == run[from..to]
  {
    hide KeyInRange;
    if run != [] {
      var n := |run| - 1;
      var prefix := run[..n];
      assert forall i | 0 <= i < n :: prefix[i] == run[i];
      var from', to' := if from < n then from else n, if to < n then to else n;
      InRangeIs(prefix, minKey, maxKey, from', to');
      SliceGrows(run, from, to);
    }
  }

  lemma SliceGrows(run: Run, from: nat, to: nat)
    requires run != [] && from <= to <= |run|
    ensures var n := |run| - 1;
            var from', to' := if from < n then from else n, if to < n then to else n;
            run[from..to] == run[..n][from'..to'] + if from <= n < to then [run[n]] else []
  {
  }

  lemma NothingInRange(run: Run, minKey: Bound, maxKey: Bound)
    requires forall i | 0 <= i < |run| :: !KeyInRange(run[i].key, minKey, maxKey)
    ensures InRange(run, minKey, maxKey) == []
  {
    InRangeIs(run, minKey, maxKey, 0, 0);
  }

  /** btree_get_rank: number and bytes of the tuples strictly below the target. */
  method GetRank(cfg: TreeConfig, root: Node, ghost height: nat, target: Bound)
    returns (stats: Stats, ghost rank: nat)
    requires Packed(cfg, root, height) && Increasing(TuplesOf(root))
    ensures CountsAll(stats, StatsOf(cfg, InRange(TuplesOf(root), NegInf, target)))
    ensures rank <= |TuplesOf(root)| && InRange(TuplesOf(root), NegInf, target) == TuplesOf(root)[..rank]
    ensures forall i | 0 <= i < |TuplesOf(root)| :: i < rank <==> KeyBelow(TuplesOf(root)[i].key, target)
  {
    var leaf;
    ghost var before, after;
    leaf, stats, before, after := LookupNode(cfg, root, height, target);
    hide TuplesOf, StatsOf, Increasing, InRange, CountsAll;
    var inLeaf := RankInLeaf(leaf.tuples, target);
    ghost var all := TuplesOf(root);
    rank := |before| + inLeaf;
    RankOverall(all, before, leaf.tuples, after, inLeaf, target);
    BelowIsPrefix(all, rank, target);
    stats := AccumulateTuples(cfg, leaf.tuples, inLeaf, stats, before);
  }

  lemma BelowIsPrefix(all: Run, n: nat, target: Bound)
    requires n <= |all| && RunBelow(all[..n], target)
    requires forall i | n <= i < |all| :: !KeyBelow(all[i].key, target)
    ensures InRange(all, NegInf, target) == all[..n]
    ensures forall i | 0 <= i < |all| :: i < n <==> KeyBelow(all[i].key, target)
  {
    assert forall i | 0 <= i < n :: all[i] == all[..n][i];
    hide KeyBelow;
    assert forall k :: !KeyBelow(k, NegInf) by { NoneBelow(); }
    InRangeIs(all, NegInf, target, 0, n);
  }

  lemma NoneBelow()
    ensures forall k :: !KeyBelow(k, NegInf)
  {
  }

  lemma RankOverall(all: Run, before: Run, tuples: Run, after: Run, rank: nat, target: Bound)
    requires all == before + tuples + after
    requires RunBelow(before, target) && RunAbove(after, target)
    requires rank <= |tuples| && RunBelow(tuples[..rank], target)
    requires forall i | rank <= i < |tuples| :: !KeyBelow(tuples[i].key, target)
    ensures var n := |before| + rank;
            && n <= |all| && all[..n] == before + tuples[..rank]
            && RunBelow(all[..n], target)
            && forall i | n <= i < |all| :: !KeyBelow(all[i].key, target)
  {
    var n := |before| + rank;
    assert all[..n] == before + tuples[..rank];
    forall i | n <= i < |all| ensures !KeyBelow(all[i].key, target) {
      if i < |before| + |tuples| {
        assert all[i] == tuples[i - |before|];
      } else {
        assert all[i] == after[i - |before| - |tuples|];
      }
    }
  }

  /** The counts are right as far as the totals of the tree are below the marker. */
  ghost predicate CountsWithin(s: Stats, exact: Stats, total: Stats) {
    total.kvs < UNKNOWN ==>
      && s.kvs == exact.kvs
      && (total.keyBytes < UNKNOWN ==> s.keyBytes == exact.keyBytes)
      && (total.messageBytes < UNKNOWN ==> s.messageBytes == exact.messageBytes)
  }

  /** btree_count_in_range: number and bytes of the tuples in [min, max); nothing if the range is
      empty. */
  method CountInRange(cfg: TreeConfig, root: Node, ghost height: nat, minKey: Bound, maxKey: Bound)
    returns (stats: Stats)
    requires Packed(cfg, root, height) && Increasing(TuplesOf(root))
    ensures CountsWithin(stats, StatsOf(cfg, InRange(TuplesOf(root), minKey, maxKey)), StatsOf(cfg, TuplesOf(root)))
  {
    hide TuplesOf, Increasing, StatsOf, InRange, KeyBelow;
    ghost var all := TuplesOf(root);
    var minStats;
    ghost var from, to;
    minStats, from := GetRank(cfg, root, height, minKey);
    stats, to := GetRank(cfg, root, height, maxKey);
    PartOf(cfg, all, from);
    PartOf(cfg, all, to);
    if from < to {
      InRangeIs(all, minKey, maxKey, from, to);
      assert all[..to] == all[..from] + all[from..to];
      StatsConcat(cfg, all[..from], all[from..to]);
    } else {
      NothingInRange(all, minKey, maxKey);
      NoStats(cfg);
    }
    if minStats.kvs < stats.kvs {
      stats := Stats((stats.kvs - minStats.kvs) % 0x1_0000_0000, (stats.keyBytes - minStats.keyBytes) % 0x1_0000_0000,
                     (stats.messageBytes - minStats.messageBytes) % 0x1_0000_0000);
    } else {
      stats := NO_STATS;
    }
  }

  lemma PartOf(cfg: TreeConfig, all: Run, n: nat)
    requires n <= |all|
    ensures var s, t := StatsOf(cfg, all[..n]), StatsOf(cfg, all);
            s.kvs == n <= t.kvs && s.keyBytes <= t.keyBytes && s.messageBytes <= t.messageBytes
  {
    assert all == all[..n] + all[n..];
    StatsConcat(cfg, all[..n], all[n..]);
  }

  lemma NoStats(cfg: TreeConfig)
    ensures StatsOf(cfg, []) == NO_STATS
  {
  }

  /** btree_lookup on a packed tree agrees with its contents for every key. */
  method Find(cfg: TreeConfig, root: Node, ghost height: nat, k: Key) returns (found: Option<Message>)
    requires Packed(cfg, root, height) && Increasing(TuplesOf(root))
    ensures found == if k in MapOf(TuplesOf(root)) then Some(MapOf(TuplesOf(root))[k]) else None
  {
    var leaf, stats;
    ghost var before, after;
    leaf, stats, before, after := LookupNode(cfg, root, height, At(k));
    hide TuplesOf, StatsOf, Increasing, MapOf;
    var idx := RankInLeaf(leaf.tuples, At(k));
    ghost var all := TuplesOf(root);
    if idx < |leaf.tuples| && leaf.tuples[idx].key == k {
      assert all[|before| + idx] == leaf.tuples[idx];
      MapOfAt(all, |before| + idx);
      return Some(leaf.tuples[idx].msg);
    }
    NotAnywhere(all, before, leaf.tuples, after, k, idx);
    found := None;
  }

  lemma NotAnywhere(all: Run, before: Run, tuples: Run, after: Run, k: Key, idx: nat)
    requires all == before + tuples + after && RunBelow(before, At(k)) && RunAbove(after, At(k))
    requires idx <= |tuples| && RunBelow(tuples[..idx], At(k)) && Increasing(tuples)
    requires forall i | idx <= i < |tuples| :: !KeyBelow(tuples[i].key, At(k))
    requires idx < |tuples| ==> tuples[idx].key != k
    ensures k !in MapOf(all)
  {
    hide MapOf;
    forall i | 0 <= i < |all| ensures all[i].key != k {
      if i < |before| {
        assert all[i] == before[i];
      } else if i < |before| + idx {
        assert all[i] == tuples[..idx][i - |before|];
      } else if i < |before| + |tuples| {
        assert all[i] == tuples[i - |before|];
      } else {
        assert all[i] == after[i - |before| - |tuples|];
      }
    }
    if k in MapOf(all) {
      var i := MapOfKey(all, k);
    }
  }
}
