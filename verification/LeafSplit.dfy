/** Splitting a leaf so that a tuple can be incorporated: the plan by bytes, and its execution. */
module LeafSplit {
  import opened Messages
  import opened Lookup
  import opened Slotted
  import opened LeafPage
  import opened LeafNode

  /** `splitIdx`: entries below it go left.  `goesLeft`: so does the tuple to be incorporated. */
  datatype Plan = Plan(splitIdx: nat, goesLeft: bool)

  ghost predicate PlanShape(tuples: seq<Tuple>, spec: IncorporateSpec, plan: Plan) {
    && SpecFits(tuples, spec) && plan.splitIdx <= |tuples|
    && (plan.goesLeft ==> SpecFits(tuples[..plan.splitIdx], spec))
    && (!plan.goesLeft ==> plan.splitIdx <= spec.idx)
  }

  function RightSpec(spec: IncorporateSpec, plan: Plan): IncorporateSpec
    requires plan.splitIdx <= spec.idx
  {
    spec.(idx := spec.idx - plan.splitIdx)
  }

  function LeftOf(tuples: seq<Tuple>, spec: IncorporateSpec, plan: Plan): seq<Tuple>
    requires PlanShape(tuples, spec, plan)
  {
    var part := tuples[..plan.splitIdx];
    if plan.goesLeft then Incorporated(part, spec) else part
  }

  function RightOf(tuples: seq<Tuple>, spec: IncorporateSpec, plan: Plan): seq<Tuple>
    requires PlanShape(tuples, spec, plan)
  {
    var part := tuples[plan.splitIdx..];
    if plan.goesLeft then part else Incorporated(part, RightSpec(spec, plan))
  }

  /** Left and right are the old contents with the tuple incorporated. */
  lemma HalvesJoin(tuples: seq<Tuple>, spec: IncorporateSpec, plan: Plan)
    requires PlanShape(tuples, spec, plan)
    ensures LeftOf(tuples, spec, plan) + RightOf(tuples, spec, plan) == Incorporated(tuples, spec)
  {
  }

  /** Both halves are non-empty and fit a page. */
  ghost predicate PlanOk(cfg: TreeConfig, tuples: seq<Tuple>, spec: IncorporateSpec, plan: Plan) {
    && PlanShape(tuples, spec, plan)
    && LeftOf(tuples, spec, plan) != [] && RightOf(tuples, spec, plan) != []
    && Footprint(cfg.LeafLayout(), LeftOf(tuples, spec, plan)) <= cfg.pageSize - HEADER
    && Footprint(cfg.LeafLayout(), RightOf(tuples, spec, plan)) <= cfg.pageSize - HEADER
  }

  /** most_of_entry_is_on_left_side */
  predicate MostOnLeft(totalBytes: nat, leftBytes: nat, entrySize: nat) {
    leftBytes + TABLE_ENTRY + entrySize < (totalBytes + TABLE_ENTRY + entrySize) / 2
  }

  function MaxEntrySpace(cfg: TreeConfig): nat {
    LEAF_ENTRY + cfg.MaxInlineKey() + cfg.MaxInlineMessage() + TABLE_ENTRY
  }

  /** The left half is still less than half, up to one entry. */
  ghost predicate Balanced(cfg: TreeConfig, totalBytes: nat, leftBytes: nat) {
    leftBytes < totalBytes && 2 * leftBytes + 2 <= totalBytes + MaxEntrySpace(cfg)
  }

  lemma MovedIsBalanced(cfg: TreeConfig, totalBytes: nat, leftBytes: nat, t: Tuple)
    requires WithinLimits(cfg, t) && MostOnLeft(totalBytes, leftBytes, EntrySize(cfg.LeafLayout(), t))
    ensures Balanced(cfg, totalBytes, leftBytes + TABLE_ENTRY + EntrySize(cfg.LeafLayout(), t))
  {
  }

  /** plan_move_more_entries_to_left */
  method MoveMore(leaf: Leaf, maxEntries: nat, totalBytes: nat, leftBytes0: nat, splitIdx0: nat)
    returns (leftBytes: nat, splitIdx: nat)
    requires leaf.Valid() && AllWithinLimits(leaf.cfg, leaf.Contents())
    requires splitIdx0 <= maxEntries <= |leaf.Contents()|
    ensures splitIdx0 <= splitIdx <= maxEntries
    ensures leftBytes == leftBytes0 + Footprint(leaf.cfg.LeafLayout(), leaf.Contents()[splitIdx0..splitIdx])
    ensures leftBytes == leftBytes0 || Balanced(leaf.cfg, totalBytes, leftBytes)
    ensures splitIdx < maxEntries ==>
              !MostOnLeft(totalBytes, leftBytes, EntrySize(leaf.cfg.LeafLayout(), leaf.Contents()[splitIdx]))
  {
    hide PageOk;
    leftBytes, splitIdx := leftBytes0, splitIdx0;
    ghost var tuples := leaf.Contents();
    NoFootprint(leaf.cfg.LeafLayout(), tuples[splitIdx0..splitIdx]);
    hide EntrySize, Footprint, MostOnLeft, Balanced;
    while splitIdx < maxEntries && MostOnLeft(totalBytes, leftBytes, EntrySize(leaf.cfg.LeafLayout(), leaf.EntryAt(splitIdx)))
      invariant splitIdx0 <= splitIdx <= maxEntries
      invariant leftBytes == leftBytes0 + Footprint(leaf.cfg.LeafLayout(), tuples[splitIdx0..splitIdx])
      invariant leftBytes == leftBytes0 || Balanced(leaf.cfg, totalBytes, leftBytes)
    {
      var t := leaf.EntryAt(splitIdx);
      MovedIsBalanced(leaf.cfg, totalBytes, leftBytes, t);
      assert tuples[splitIdx0..splitIdx + 1] == tuples[splitIdx0..splitIdx] + [t];
      FootprintConcat(leaf.cfg.LeafLayout(), tuples[splitIdx0..splitIdx], [t]);
      FootprintOne(leaf.cfg.LeafLayout(), t);
      leftBytes := leftBytes + TABLE_ENTRY + EntrySize(leaf.cfg.LeafLayout(), t);
      splitIdx := splitIdx + 1;
    }
  }

  /** Enough to know when the plan stops: the next entry would not have most of its bytes left. */
  lemma StoppedPlanIsOk(cfg: TreeConfig, tuples: seq<Tuple>, spec: IncorporateSpec, plan: Plan,
                        totalBytes: nat, leftBytes: nat)
    requires cfg.Valid() && PlanShape(tuples, spec, plan)
    requires AllWithinLimits(cfg, tuples) && WithinLimits(cfg, spec.tuple)
    requires Footprint(cfg.LeafLayout(), tuples) <= cfg.pageSize - HEADER && |Incorporated(tuples, spec)| >= 2
    requires totalBytes == Footprint(cfg.LeafLayout(), Incorporated(tuples, spec))
    requires leftBytes == Footprint(cfg.LeafLayout(), LeftOf(tuples, spec, plan))
    requires leftBytes == 0 || Balanced(cfg, totalBytes, leftBytes)
    requires var right := RightOf(tuples, spec, plan);
             right != [] ==> !MostOnLeft(totalBytes, leftBytes, EntrySize(cfg.LeafLayout(), right[0]))
    ensures PlanOk(cfg, tuples, spec, plan)
  {
    var left, right := LeftOf(tuples, spec, plan), RightOf(tuples, spec, plan);
    var all := Incorporated(tuples, spec);
    HalvesJoin(tuples, spec, plan);
    FootprintConcat(cfg.LeafLayout(), left, right);
    IncorporatedLimits(cfg, tuples, spec);
    IncorporatedBytes(cfg, tuples, spec);
    FootprintBounds(cfg.LeafLayout(), left);
    FirstAndRest(cfg.LeafLayout(), all);
    hide Footprint, LiveBytes, Incorporated, LeftOf, RightOf, Balanced, MostOnLeft, EntrySize, AllWithinLimits, PlanShape;
    assert right == [] ==> left == all;
    if right == [] {
      NotAllLeft(cfg, totalBytes, leftBytes);
    } else {
      assert all[|left|] == right[0];
      LimitedSpace(cfg, right[0]);
      LimitedSpace(cfg, spec.tuple);
      StopArithmetic(cfg, totalBytes, leftBytes, EntrySize(cfg.LeafLayout(), right[0]));
      assert left == [] ==> right == all;
    }
  }

  lemma FirstAndRest(l: Layout<Tuple>, all: seq<Tuple>)
    requires all != []
    ensures Footprint(l, all) == TABLE_ENTRY + EntrySize(l, all[0]) + Footprint(l, all[1..])
    ensures |all| > 1 ==> Footprint(l, all[1..]) > 0
  {
    assert all == [all[0]] + all[1..];
    FootprintConcat(l, [all[0]], all[1..]);
    FootprintOne(l, all[0]);
    FootprintBounds(l, all[1..]);
  }

  lemma LimitedSpace(cfg: TreeConfig, t: Tuple)
    requires WithinLimits(cfg, t)
    ensures EntrySize(cfg.LeafLayout(), t) + TABLE_ENTRY <= MaxEntrySpace(cfg)
  {
  }

  lemma NotAllLeft(cfg: TreeConfig, totalBytes: nat, leftBytes: nat)
    requires totalBytes > 0 && (leftBytes == 0 || Balanced(cfg, totalBytes, leftBytes))
    ensures leftBytes != totalBytes
  {
  }

  lemma StopArithmetic(cfg: TreeConfig, totalBytes: nat, leftBytes: nat, entrySize: nat)
    requires cfg.Valid() && entrySize + TABLE_ENTRY <= MaxEntrySpace(cfg)
    requires !MostOnLeft(totalBytes, leftBytes, entrySize)
    requires totalBytes <= cfg.pageSize - HEADER + MaxEntrySpace(cfg)
    requires leftBytes == 0 || Balanced(cfg, totalBytes, leftBytes)
    ensures leftBytes <= cfg.pageSize - HEADER && totalBytes - leftBytes <= cfg.pageSize - HEADER
    ensures leftBytes == 0 ==> totalBytes < entrySize + 2 * TABLE_ENTRY
  {
    ConfigCheckHolds(cfg);
  }

  lemma IncorporatedLimits(cfg: TreeConfig, tuples: seq<Tuple>, spec: IncorporateSpec)
    requires SpecFits(tuples, spec) && AllWithinLimits(cfg, tuples) && WithinLimits(cfg, spec.tuple)
    ensures AllWithinLimits(cfg, Incorporated(tuples, spec))
  {
    IncorporatedAt(tuples, spec);
  }

  /** The bytes of the incorporated tuples are those of the remaining ones and of the new one. */
  lemma IncorporatedBytes(cfg: TreeConfig, tuples: seq<Tuple>, spec: IncorporateSpec)
    requires SpecFits(tuples, spec)
    ensures LiveBytes(cfg.LeafLayout(), Incorporated(tuples, spec))
         == LiveBytes(cfg.LeafLayout(), Remaining(tuples, spec)) + EntrySize(cfg.LeafLayout(), spec.tuple)
    ensures |Incorporated(tuples, spec)| == |Remaining(tuples, spec)| + 1
    ensures Footprint(cfg.LeafLayout(), Remaining(tuples, spec)) <= Footprint(cfg.LeafLayout(), tuples)
    ensures Footprint(cfg.LeafLayout(), Incorporated(tuples, spec))
         == Footprint(cfg.LeafLayout(), Remaining(tuples, spec)) + EntrySize(cfg.LeafLayout(), spec.tuple) + TABLE_ENTRY
  {
    var a := tuples[..spec.idx];
    var b := if spec.state.StillExists? then tuples[spec.idx + 1..] else tuples[spec.idx..];
    assert Incorporated(tuples, spec) == a + [spec.tuple] + b;
    assert Remaining(tuples, spec) == a + b;
    LiveConcat(cfg.LeafLayout(), a + [spec.tuple], b);
    LiveConcat(cfg.LeafLayout(), a, [spec.tuple]);
    LiveOne(cfg.LeafLayout(), spec.tuple);
    LiveConcat(cfg.LeafLayout(), a, b);
    if spec.state.StillExists? {
      assert tuples == a + [tuples[spec.idx]] + b;
      LiveConcat(cfg.LeafLayout(), a + [tuples[spec.idx]], b);
      LiveConcat(cfg.LeafLayout(), a, [tuples[spec.idx]]);
      LiveOne(cfg.LeafLayout(), tuples[spec.idx]);
    }
  }

  // ----- btree_build_leaf_splitting_plan

  /** The bytes of all entries after the incorporation, table entries included. */
  method TotalBytes(leaf: Leaf, spec: IncorporateSpec) returns (liveBytes: nat, totalBytes: nat)
    requires leaf.Valid() && SpecFits(leaf.Contents(), spec)
    ensures liveBytes == LiveBytes(leaf.cfg.LeafLayout(), Remaining(leaf.Contents(), spec))
    ensures totalBytes == Footprint(leaf.cfg.LeafLayout(), Incorporated(leaf.Contents(), spec))
  {
    hide PageOk;
    ghost var tuples := leaf.Contents();
    IncorporatedBytes(leaf.cfg, tuples, spec);
    RemainingEnds(tuples, spec);
    hide EntrySize, LiveBytes, RemainingOf, Remaining, Incorporated;
    var numEntries := |leaf.offsets|;
    liveBytes := 0;
    NoBytes(leaf.cfg.LeafLayout());
    var i := 0;
    while i < numEntries
      invariant 0 <= i <= numEntries
      invariant liveBytes == LiveBytes(leaf.cfg.LeafLayout(), RemainingOf(tuples[..i], spec))
    {
      if i != spec.idx || !spec.state.StillExists? {
        var t := leaf.EntryAt(i);
        RemainingPrefix(leaf.cfg, tuples, spec, i + 1);
        LiveConcat(leaf.cfg.LeafLayout(), RemainingOf(tuples[..i], spec), [t]);
        LiveOne(leaf.cfg.LeafLayout(), t);
        liveBytes := liveBytes + EntrySize(leaf.cfg.LeafLayout(), t);
      } else {
        RemovedHere(tuples, spec);
      }
      i := i + 1;
    }
    assert tuples[..i] == tuples;
    var newNumEntries := numEntries + if spec.state.StillExists? then 0 else 1;
    IncorporatedAt(tuples, spec);
    totalBytes := liveBytes + EntrySize(leaf.cfg.LeafLayout(), spec.tuple) + newNumEntries * TABLE_ENTRY;
  }

  /** Splits the entries as evenly as possible by bytes, the new tuple included. */
  method BuildPlan(leaf: Leaf, spec: IncorporateSpec) returns (plan: Plan)
    requires leaf.Valid() && SpecFits(leaf.Contents(), spec) && !spec.state.HasBeenRemoved?
    requires AllWithinLimits(leaf.cfg, leaf.Contents()) && WithinLimits(leaf.cfg, spec.tuple)
    requires |Incorporated(leaf.Contents(), spec)| >= 2
    ensures PlanOk(leaf.cfg, leaf.Contents(), spec, plan)
  {
    ghost var tuples := leaf.Contents();
    EntriesFit(leaf.cfg.LeafLayout(), leaf.offsets, leaf.nextEntry, leaf.memory);
    hide PageOk, AllWithinLimits, EntrySize, LiveBytes, Footprint, MostOnLeft, Balanced, PlanOk;
    var liveBytes, totalBytes := TotalBytes(leaf, spec);
    var entrySize := EntrySize(leaf.cfg.LeafLayout(), spec.tuple);
    var leftBytes, splitIdx := MoveMore(leaf, spec.idx, totalBytes, 0, 0);
    plan := Plan(splitIdx, false);
    assert tuples[0..splitIdx] == tuples[..splitIdx];
    if !(splitIdx == spec.idx && MostOnLeft(totalBytes, leftBytes, entrySize)) {
      StoppedEarly(tuples, spec, splitIdx);
      StoppedPlanIsOk(leaf.cfg, tuples, spec, plan, totalBytes, leftBytes);
      return;
    }
    hide PlanShape, LeftOf, RightOf;
    MovedIsBalanced(leaf.cfg, totalBytes, leftBytes, spec.tuple);
    leftBytes := leftBytes + TABLE_ENTRY + entrySize;
    if spec.state.StillExists? {
      splitIdx := splitIdx + 1;
    }
    ghost var before, splitIdx0 := leftBytes, splitIdx;
    leftBytes, splitIdx := MoveMore(leaf, |leaf.offsets|, totalBytes, leftBytes, splitIdx);
    plan := Plan(splitIdx, true);
    LeftBytes(leaf.cfg, tuples, spec, splitIdx0, splitIdx);
    StoppedPlanIsOk(leaf.cfg, tuples, spec, plan, totalBytes, leftBytes);
  }

  lemma StoppedEarly(tuples: seq<Tuple>, spec: IncorporateSpec, splitIdx: nat)
    requires SpecFits(tuples, spec) && splitIdx <= spec.idx
    ensures var plan := Plan(splitIdx, false);
            && PlanShape(tuples, spec, plan)
            && LeftOf(tuples, spec, plan) == tuples[..splitIdx]
            && RightOf(tuples, spec, plan)[0] == if splitIdx < spec.idx then tuples[splitIdx] else spec.tuple
  {
  }

  lemma LeftBytes(cfg: TreeConfig, tuples: seq<Tuple>, spec: IncorporateSpec, from: nat, to: nat)
    requires SpecFits(tuples, spec) && from == spec.idx + (if spec.state.StillExists? then 1 else 0) <= to <= |tuples|
    ensures PlanShape(tuples, spec, Plan(to, true))
    ensures Footprint(cfg.LeafLayout(), LeftOf(tuples, spec, Plan(to, true)))
         == Footprint(cfg.LeafLayout(), tuples[..spec.idx]) + TABLE_ENTRY + EntrySize(cfg.LeafLayout(), spec.tuple)
            + Footprint(cfg.LeafLayout(), tuples[from..to])
    ensures RightOf(tuples, spec, Plan(to, true)) == tuples[to..]
  {
    var a, b := tuples[..spec.idx], tuples[from..to];
    assert LeftOf(tuples, spec, Plan(to, true)) == a + [spec.tuple] + b;
    FootprintConcat(cfg.LeafLayout(), a + [spec.tuple], b);
    FootprintConcat(cfg.LeafLayout(), a, [spec.tuple]);
    FootprintOne(cfg.LeafLayout(), spec.tuple);
  }

  // ----- executing the plan

  /** btree_splitting_pivot */
  method SplittingPivot(leaf: Leaf, spec: IncorporateSpec, plan: Plan) returns (pivot: Key)
    requires leaf.Valid() && PlanShape(leaf.Contents(), spec, plan) && RightOf(leaf.Contents(), spec, plan) != []
    requires spec.state.StillExists? ==> leaf.Contents()[spec.idx].key == spec.tuple.key
    ensures pivot == RightOf(leaf.Contents(), spec, plan)[0].key
  {
    hide PageOk;
    if plan.splitIdx == spec.idx && !spec.state.StillExists? && !plan.goesLeft {
      pivot := spec.tuple.key;
    } else {
      pivot := leaf.EntryAt(plan.splitIdx).key;
    }
  }

  /** A compact page that has room for everything has room for the new tuple. */
  lemma CompactHasRoom(leaf: Leaf, spec: IncorporateSpec)
    requires leaf.Valid() && leaf.Compact() && SpecFits(leaf.Contents(), spec) && !spec.state.StillExists?
    requires Footprint(leaf.cfg.LeafLayout(), Incorporated(leaf.Contents(), spec)) <= leaf.cfg.pageSize - HEADER
    ensures leaf.CanPerform(spec)
  {
    IncorporatedBytes(leaf.cfg, leaf.Contents(), spec);
  }

  /** btree_split_leaf_build_right_node */
  method BuildRight(left: Leaf, spec: IncorporateSpec, plan: Plan, right: Leaf) returns (spec': IncorporateSpec)
    requires left.Valid() && right.Valid() && left != right && left.cfg == right.cfg
    requires right.Compact() && right.Contents() == []
    requires PlanOk(left.cfg, left.Contents(), spec, plan) && !spec.state.HasBeenRemoved?
    modifies right
    ensures right.Valid() && right.Contents() == RightOf(left.Contents(), spec, plan)
    ensures plan.goesLeft ==> spec' == spec
  {
    hide PageOk, EntrySize, LiveBytes, Footprint;
    ghost var tuples := left.Contents();
    ghost var part := tuples[plan.splitIdx..];
    if plan.goesLeft {
      CopyEntries(left, plan.splitIdx, right);
      spec' := spec;
    } else {
      var rightSpec := RightSpec(spec, plan);
      EntriesFit(left.cfg.LeafLayout(), left.offsets, left.nextEntry, left.memory);
      SuffixFits(left.cfg.LeafLayout(), tuples, plan.splitIdx);
      StoredEntries(left.cfg.LeafLayout(), left.offsets, left.nextEntry, left.memory);
      var scratch := EntriesAt(left.offsets, left.memory)[plan.splitIdx..];
      spec' := right.Refill(scratch, rightSpec);
      RemovedThenIncorporated(scratch, rightSpec);
      CompactHasRoom(right, spec');
      var incorporated := right.TryPerform(spec');
    }
  }

  /** The copying loop, for a plan that moves no part of the spec. */
  method CopyEntries(left: Leaf, from: nat, right: Leaf)
    requires left.Valid() && right.Valid() && left != right && left.cfg == right.cfg
    requires right.Compact() && right.Contents() == [] && from <= |left.Contents()|
    modifies right`offsets, right`nextEntry, right`memory
    ensures right.Valid() && right.Compact() && right.Contents() == left.Contents()[from..]
  {
    hide PageOk, EntrySize, LiveBytes, Footprint;
    ghost var tuples := left.Contents();
    EntriesFit(left.cfg.LeafLayout(), left.offsets, left.nextEntry, left.memory);
    var i := from;
    while i < |left.offsets|
      invariant from <= i <= |tuples|
      invariant right.Valid() && right.Compact() && right.Contents() == tuples[from..i]
    {
      assert tuples[from..i + 1] == tuples[from..i] + [tuples[i]];
      MiddleFits(left.cfg.LeafLayout(), tuples, from, i + 1);
      right.AppendCompact(left.EntryAt(i));
      i := i + 1;
    }
    assert tuples[from..i] == tuples[from..];
  }

  /** btree_split_leaf_cleanup_left_node, and the incorporation on the left that may follow. */
  method CleanupLeft(left: Leaf, spec: IncorporateSpec, plan: Plan) returns (spec': IncorporateSpec)
    requires left.Valid() && PlanOk(left.cfg, left.Contents(), spec, plan) && !spec.state.HasBeenRemoved?
    modifies left
    ensures left.Valid() && left.Contents() == LeftOf(old(left.Contents()), spec, plan)
  {
    hide PageOk, EntrySize, LiveBytes, Footprint;
    left.Truncate(plan.splitIdx);
    left.generation := left.generation + 1;
    spec' := spec;
    if plan.goesLeft {
      if !left.CanPerform(spec) {
        RemovedThenIncorporated(left.Contents(), spec);
        spec' := left.Defragment(spec);
        CompactHasRoom(left, spec');
      }
      var incorporated := left.TryPerform(spec');
    }
  }

  /** The part of btree_split_child_leaf that concerns the two leaves: together they hold the old
      tuples with the new one incorporated, in order, and the pivot is the least key of the right
      one. */
  method SplitLeaf(left: Leaf, spec: IncorporateSpec) returns (right: Leaf, pivot: Key)
    requires left.Valid() && SpecFits(left.Contents(), spec) && !spec.state.HasBeenRemoved?
    requires spec.state.StillExists? ==> left.Contents()[spec.idx].key == spec.tuple.key
    requires AllWithinLimits(left.cfg, left.Contents()) && WithinLimits(left.cfg, spec.tuple)
    requires |Incorporated(left.Contents(), spec)| >= 2
    modifies left
    ensures fresh(right) && left.Valid() && right.Valid() && right.cfg == left.cfg
    ensures left.Contents() + right.Contents() == Incorporated(old(left.Contents()), spec)
    ensures left.Contents() != [] && right.Contents() != [] && pivot == right.Contents()[0].key
  {
    hide PageOk, EntrySize, LiveBytes, Footprint, AllWithinLimits;
    var plan := BuildPlan(left, spec);
    right := new Leaf(left.cfg);
    pivot := SplittingPivot(left, spec, plan);
    HalvesJoin(left.Contents(), spec, plan);
    var spec' := BuildRight(left, spec, plan, right);
    spec' := CleanupLeft(left, spec, plan);
  }

  // ----- defragment or split

  /** The numbers that C gives the states. */
  function StateCode(state: OldEntryState): nat {
    match state
    case DidNotExist => 0
    case StillExists => 1
    case HasBeenRemoved => 2
  }

  /** `(nentries + old_entry_state == ENTRY_STILL_EXISTS ? 0 : 1) * sizeof(index_entry)`: by the
      precedence of C, the sum is compared. */
  function TableSpaceAsWritten(numEntries: nat, state: OldEntryState): nat {
    (if numEntries + StateCode(state) == StateCode(StillExists) then 0 else 1) * INDEX_ENTRY
  }

  /** btree_defragment_or_split_child_leaf, with `right` null if the leaf was defragmented.
      Although the space for the table is miscounted, the insertion after a defragmentation
      always succeeds, and a leaf is only split if both halves can be non-empty. */
  method DefragmentOrSplit(leaf: Leaf, spec: IncorporateSpec) returns (right: Leaf?, pivot: Key)
    requires leaf.Valid() && SpecFits(leaf.Contents(), spec) && !spec.state.HasBeenRemoved?
    requires spec.state.StillExists? ==> leaf.Contents()[spec.idx].key == spec.tuple.key
    requires AllWithinLimits(leaf.cfg, leaf.Contents()) && WithinLimits(leaf.cfg, spec.tuple)
    modifies leaf
    ensures leaf.Valid() && leaf.Contents() != []
    ensures right == null ==> leaf.Contents() == Incorporated(old(leaf.Contents()), spec)
    ensures right != null ==>
      && fresh(right) && right.Valid() && right.cfg == leaf.cfg
      && leaf.Contents() + right.Contents() == Incorporated(old(leaf.Contents()), spec)
      && right.Contents() != [] && pivot == right.Contents()[0].key
  {
    hide PageOk, EntrySize, LiveBytes, Footprint, AllWithinLimits;
    var liveBytes, totalBytes := TotalBytes(leaf, spec);
    var totalSpaceRequired :=
      liveBytes + EntrySize(leaf.cfg.LeafLayout(), spec.tuple) + TableSpaceAsWritten(|leaf.offsets|, spec.state);
    RemovedThenIncorporated(leaf.Contents(), spec);
    ChoiceIsSound(leaf.cfg, leaf.Contents(), spec);
    if totalSpaceRequired < leaf.cfg.pageSize / 2 {
      var spec' := leaf.Defragment(spec);
      CompactHasRoom(leaf, spec');
      var incorporated := leaf.TryPerform(spec');
      right, pivot := null, 0;
    } else {
      right, pivot := SplitLeaf(leaf, spec);
    }
  }

  /** The choice made with the miscounted table space. */
  lemma ChoiceIsSound(cfg: TreeConfig, tuples: seq<Tuple>, spec: IncorporateSpec)
    requires cfg.Valid() && SpecFits(tuples, spec) && WithinLimits(cfg, spec.tuple)
    requires !spec.state.HasBeenRemoved?
    ensures var required := LiveBytes(cfg.LeafLayout(), Remaining(tuples, spec)) + EntrySize(cfg.LeafLayout(), spec.tuple)
                            + TableSpaceAsWritten(|tuples|, spec.state);
            && (required < cfg.pageSize / 2 ==>
                  Footprint(cfg.LeafLayout(), Incorporated(tuples, spec)) <= cfg.pageSize - HEADER)
            && (required >= cfg.pageSize / 2 ==> |Incorporated(tuples, spec)| >= 2)
  {
    IncorporatedBytes(cfg, tuples, spec);
    IncorporatedAt(tuples, spec);
    LiveAtLeast(cfg.LeafLayout(), Incorporated(tuples, spec));
    LimitedSpace(cfg, spec.tuple);
    if |Remaining(tuples, spec)| == 0 {
      NoBytes(cfg.LeafLayout());
    }
  }
}
