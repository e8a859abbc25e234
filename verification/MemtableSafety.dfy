/** Safety of the memtable protocol over all its runs. */
module MemtableSafety {
  import opened Ring
  import opened MemtableProtocol

  // ----- what the tuples of the trunk and of the newer generations amount to

  /** The tuples in the trunk followed by those of the generations up to `hi`, in order. */
  ghost function Upto<T>(s: State<T>, hi: int): seq<T>
    requires |s.mt| > 0
    decreases if hi <= s.trunkUpto then 0 else hi - s.trunkUpto
  {
    if hi <= s.trunkUpto then s.trunk else Upto(s, hi - 1) + At(s, hi).contents
  }

  lemma {:induction false} UptoFrame<T>(s: State<T>, r: State<T>, hi: int)
    requires 0 < |s.mt| == |r.mt|
    requires r.trunk == s.trunk && r.trunkUpto == s.trunkUpto
    requires forall g | s.trunkUpto < g <= hi :: At(r, g).contents == At(s, g).contents
    ensures Upto(r, hi) == Upto(s, hi)
    decreases if hi <= s.trunkUpto then 0 else hi - s.trunkUpto
  {
    if hi > s.trunkUpto {
      UptoFrame(s, r, hi - 1);
    }
  }

  lemma {:induction false} UptoMonotone<T>(s: State<T>, lo: int, hi: int)
    requires |s.mt| > 0
    requires lo <= hi
    ensures Upto(s, lo) <= Upto(s, hi)
    decreases hi - lo
  {
    if lo < hi && hi > s.trunkUpto {
      UptoMonotone(s, lo, hi - 1);
    }
  }

  // ----- the invariant

  ghost predicate PreRetire(phase: Phase) {
    phase.Start? || phase.Prepared? || phase.LookupsBlocked? || phase.DidMark? || phase.DidIncorporate?
  }

  ghost predicate WasCompacted(pc: JobPc) {
    pc.DidCompact? || pc.Incorporate? || pc.JobDone?
  }

  ghost predicate Shape<T>(s: State<T>) {
    && |s.mt| >= 2
    && s.retired >= -1
    && 1 <= s.generation - s.retired <= |s.mt|
    && s.retired <= s.toIncorporate <= s.retired + 1
    && |s.jobs| == s.generation
    && -1 <= s.incorporator < |s.jobs|
  }

  /** A generation that lookups search in the ring. */
  ghost predicate ActiveSlot<T>(s: State<T>, g: int)
    requires Shape(s) && s.retired < g <= s.generation
  {
    var m := At(s, g);
    && m.generation == g
    && m.owner.Owned?
    && m.refs == 1 + s.iterRefs[g]
    && if g == s.generation then
         m.state.Ready? || m.state.Finalized?
       else
         match s.jobs[g]
         case Unqueued => m.state.Finalized?
         case Queued => m.state.Finalized?
         case Packing => m.state.Compacting?
         case DidPack => m.state.Compacting? && m.branch == m.contents
         case _ => m.branch == m.contents && m.state == CompactedState(s, g)
                   && (m.state.Compacted? && g == s.toIncorporate ==> s.jobs[g].DidCompact?)
  }

  /** How far the incorporation of the compacted generation `g` has come. */
  ghost function CompactedState<T>(s: State<T>, g: int): MtState
    requires Shape(s)
  {
    if s.incorporator >= 0 && s.jobs[s.incorporator].Incorporate? && s.jobs[s.incorporator].gen == g then
      match s.jobs[s.incorporator].phase
      case DidMark => Incorporating
      case DidIncorporate => Incorporated
      case _ => IncorporationAssigned
    else
      Compacted
  }

  /** A slot whose next generation is `g`: recycled already, or still waiting for that. */
  ghost predicate FreeSlot<T>(s: State<T>, g: int)
    requires Shape(s)
  {
    var m := At(s, g);
    var old_ := g - |s.mt|;
    || (&& m.generation == g
        && m.contents == [] && m.refs == 1
        && s.iterRefs[g] == 0 && s.iterRefs[old_] == 0
        && ((m.state.Ready? && m.owner.Owned?) || (m.state.Incorporated? && m.owner.Renumbered?)))
    || (&& m.generation == old_
        && m.state.Incorporated?
        && s.iterRefs[g] == 0
        && match m.owner
           case Owned => m.refs == 1 + s.iterRefs[old_]
           case Shared => m.refs == s.iterRefs[old_] > 0
           case Freed(_) => m.refs == 1 && m.contents == [] && s.iterRefs[old_] == 0
           case Renumbered(_) => false)
  }

  ghost predicate Slots<T>(s: State<T>)
    requires Shape(s)
  {
    && (forall g | s.retired < g <= s.generation :: ActiveSlot(s, g))
    && (forall g | s.generation < g <= s.retired + |s.mt| :: FreeSlot(s, g))
  }

  ghost predicate NextReady<T>(s: State<T>)
    requires Shape(s)
  {
    && s.generation + 1 <= s.retired + |s.mt|
    && At(s, s.generation + 1).state.Ready?
    && At(s, s.generation + 1).generation == s.generation + 1
  }

  ghost predicate InserterOk<T>(s: State<T>, pc: InserterPc<T>)
    requires Shape(s)
  {
    match pc
    case SawReady(g) => g == s.generation && At(s, g).state.Ready?
    case SawNextReady(g) => g == s.generation && At(s, g).state.Ready? && NextReady(s)
    case MayInsert(g) => g == s.generation && At(s, g).state.Ready?
    case DidInsert(g, _) => g == s.generation
    case Claimed(g) => g == s.generation && At(s, g).state.Ready? && NextReady(s)
    case WriteLocked(g) => g == s.generation && At(s, g).state.Ready? && NextReady(s)
    case DidFinalize(g) => g == s.generation && At(s, g).state.Finalized? && NextReady(s)
    case _ => true
  }

  ghost predicate Inserters<T>(s: State<T>)
    requires Shape(s)
  {
    && (forall t | 0 <= t < |s.inserters| :: InserterOk(s, s.inserters[t]))
    && (forall t, u | 0 <= t < |s.inserters| && 0 <= u < |s.inserters| ::
          HoldsInsertClaim(s.inserters[t]) && HoldsInsertClaim(s.inserters[u]) ==> t == u)
    && (forall t, u | 0 <= t < |s.inserters| && 0 <= u < |s.inserters| ::
          !(HoldsInsertWrite(s.inserters[t]) && HoldsInsertRead(s.inserters[u])))
  }

  ghost predicate IncorporatorOk<T>(s: State<T>, g: int, phase: Phase)
    requires Shape(s)
  {
    var m := At(s, g);
    && (PreRetire(phase) ==> g == s.retired + 1 == s.toIncorporate && g < s.generation && WasCompacted(s.jobs[g]))
    && (!PreRetire(phase) ==> g == s.retired == s.toIncorporate)
    && match phase
       case Start => true
       case Prepared => s.prepared == s.trunk + m.branch
       case LookupsBlocked => s.prepared == s.trunk + m.branch
       case DidMark => s.prepared == s.trunk + m.branch
       case DidIncorporate => s.prepared == s.trunk + m.branch
       case DidRetire =>
         && m.generation == g && m.owner.Owned? && m.state.Incorporated?
         && m.branch == m.contents && s.prepared == s.trunk + m.branch
       case DidCommit => m.generation == g && m.owner.Owned? && m.state.Incorporated?
       case LookupsUnblocked => m.generation == g && m.owner.Owned? && m.state.Incorporated?
       case RefFreed => m.generation == g && m.owner == Freed(ByJob)
       case GenBumped =>
         && m.generation == g + |s.mt| && m.owner == Renumbered(ByJob) && m.state.Incorporated?
       case TryNext => true
  }

  ghost predicate Jobs<T>(s: State<T>)
    requires Shape(s)
  {
    && (forall j | 0 <= j < |s.jobs| :: s.jobs[j].Incorporate? <==> j == s.incorporator)
    && (forall j | 0 <= j < |s.jobs| ::
          s.jobs[j].Unqueued? || s.jobs[j].Queued? || s.jobs[j].Packing? || s.jobs[j].DidPack?
          ==> j > s.retired)
    && if s.incorporator >= 0 then
         var pc := s.jobs[s.incorporator];
         && s.incorporator <= pc.gen
         && IncorporatorOk(s, pc.gen, pc.phase)
         && s.trunkUpto == (if pc.phase.DidRetire? then s.retired - 1 else s.retired)
       else
         s.toIncorporate == s.retired + 1 && s.trunkUpto == s.retired
  }

  ghost predicate LookupOk<T>(s: State<T>, pc: LookupPc<T>)
    requires Shape(s)
  {
    match pc
    case LkIdle => true
    case LkLocked(start) => start <= s.log
    case LkGeneration(start, first) => s.retired < first <= s.generation && start <= Upto(s, first)
    case LkScan(start, first, retired, next, view) =>
      && s.retired == retired <= next <= first <= s.generation
      && start <= Upto(s, next) + view <= s.log
    case LkRead(start, first, retired, next, compacted, view) =>
      && s.retired == retired < next <= first <= s.generation
      && start <= Upto(s, next) + view <= s.log
      && (compacted ==> LookupCompacted(At(s, next).state))
    case LkStopped(start, view) => start <= s.log && EndsLate(s.log, view, |start|)
    case LkDone(start, view) => start <= view <= s.log
  }

  ghost predicate ViewAt<T>(log: seq<T>, view: seq<T>, p: nat) {
    p + |view| <= |log| && log[p..p + |view|] == view
  }

  /** The log has the tuples one after the other, and the last of them is not before `length`. */
  ghost predicate EndsLate<T>(log: seq<T>, view: seq<T>, length: nat) {
    exists p: nat :: ViewAt(log, view, p) && length <= p + |view|
  }

  lemma LateStays<T>(log: seq<T>, more: seq<T>, view: seq<T>, length: nat)
    requires log <= more && EndsLate(log, view, length)
    ensures EndsLate(more, view, length)
  {
    var p: nat :| ViewAt(log, view, p) && length <= p + |view|;
    assert ViewAt(more, view, p);
  }

  ghost predicate Lookups<T>(s: State<T>)
    requires Shape(s)
  {
    && (forall i | 0 <= i < |s.lookups| :: LookupOk(s, s.lookups[i]))
    && (forall i, j | 0 <= i < |s.lookups| && 0 <= j < |s.jobs| ::
          !(HoldsLookupRead(s.lookups[i]) && HoldsLookupWrite(s.jobs[j])))
  }

  ghost predicate DropperOk<T>(s: State<T>, d: nat, pc: DropperPc)
    requires Shape(s)
  {
    match pc
    case DropIdle => true
    case DropFreed(g) =>
      && s.generation < g + |s.mt| <= s.retired + |s.mt|
      && At(s, g).generation == g && At(s, g).owner == Freed(ByDropper(d))
    case DropBumped(g) =>
      && s.generation < g + |s.mt| <= s.retired + |s.mt|
      && At(s, g).generation == g + |s.mt| && At(s, g).owner == Renumbered(ByDropper(d))
      && At(s, g).state.Incorporated?
  }

  ghost predicate Refs<T>(s: State<T>)
    requires Shape(s)
  {
    && (forall g | g in s.iterRefs :: s.generation - |s.mt| < g <= s.generation)
    && (forall d | 0 <= d < |s.droppers| :: DropperOk(s, d, s.droppers[d]))
  }

  ghost predicate Inv<T>(s: State<T>) {
    && Shape(s)
    && Slots(s)
    && Inserters(s)
    && Jobs(s)
    && Refs(s)
    && Lookups(s)
    && s.log == Upto(s, s.generation)
  }

  // ----- ring facts

  lemma RingFacts<T>(s: State<T>)
    requires Shape(s)
    ensures forall g, h | s.retired < g < h <= s.retired + |s.mt| :: Slot(g, |s.mt|) != Slot(h, |s.mt|)
  {
    forall g, h | s.retired < g < h <= s.retired + |s.mt|
      ensures Slot(g, |s.mt|) != Slot(h, |s.mt|)
    {
      if Slot(g, |s.mt|) == Slot(h, |s.mt|) {
        SlotInjective(g, h, |s.mt|);
      }
    }
  }

  lemma UptoFrameAll<T>(s: State<T>, r: State<T>)
    requires 0 < |s.mt| == |r.mt|
    requires r.trunk == s.trunk && r.trunkUpto == s.trunkUpto
    requires r.generation >= s.generation
    requires forall g | s.trunkUpto < g <= s.generation :: At(r, g).contents == At(s, g).contents
    ensures forall hi | hi <= s.generation :: Upto(r, hi) == Upto(s, hi)
  {
    forall hi | hi <= s.generation ensures Upto(r, hi) == Upto(s, hi) {
      UptoFrame(s, r, hi);
    }
  }

  /** Slots depend on the ring, the counters and the jobs only. */
  lemma SlotsFrame<T>(s: State<T>, r: State<T>)
    requires Shape(s) && Shape(r) && Slots(s)
    requires r.mt == s.mt && r.generation == s.generation && r.retired == s.retired
    requires r.toIncorporate == s.toIncorporate && r.iterRefs == s.iterRefs
    requires r.jobs == s.jobs && r.incorporator == s.incorporator
    ensures Slots(r)
  {
    forall g | r.retired < g <= r.generation ensures ActiveSlot(r, g) { assert ActiveSlot(s, g); }
    forall g | r.generation < g <= r.retired + |r.mt| ensures FreeSlot(r, g) { assert FreeSlot(s, g); }
  }

  /** `r` differs from `s` in the inserters, in the log and in the state and contents of the
      current memtable, which stays usable. */
  ghost predicate InserterFrame<T>(s: State<T>, r: State<T>)
    requires Shape(s)
  {
    && r == s.(inserters := r.inserters, log := r.log, mt := r.mt)
    && s.log <= r.log
    && |r.mt| == |s.mt|
    && var c, d := At(s, s.generation), At(r, s.generation);
       && r.mt == s.mt[Slot(s.generation, |s.mt|) := c.(state := d.state, contents := d.contents)]
       && (d.state.Ready? || d.state.Finalized?)
       && c.contents <= d.contents
  }

  lemma InserterFrameSlots<T>(s: State<T>, r: State<T>)
    requires Inv(s) && InserterFrame(s, r)
    ensures Shape(r) && Slots(r)
  {
    hide Slot, Upto, Jobs, Refs, Lookups, Inserters;
    RingFacts(s);
    forall g | r.retired < g <= r.generation ensures ActiveSlot(r, g) { assert ActiveSlot(s, g); }
    forall g | r.generation < g <= r.retired + |r.mt| ensures FreeSlot(r, g) { assert FreeSlot(s, g); }
  }

  lemma InserterFrameJobs<T>(s: State<T>, r: State<T>)
    requires Inv(s) && InserterFrame(s, r)
    ensures Shape(r) && Jobs(r) && Refs(r)
  {
    hide Slot, Upto, Lookups, Inserters;
    RingFacts(s);
    assert ActiveSlot(s, s.generation);
  }

  /** Lookups go on undisturbed when the searched generations only grow at their end. */
  lemma LookupsFrame<T>(s: State<T>, r: State<T>)
    requires Inv(s) && Shape(r)
    requires r.lookups == s.lookups
    requires forall j | 0 <= j < |r.jobs| && HoldsLookupWrite(r.jobs[j]) ::
               j < |s.jobs| && HoldsLookupWrite(s.jobs[j])
    requires r.retired == s.retired || forall i | 0 <= i < |s.lookups| :: !HoldsLookupRead(s.lookups[i])
    requires s.generation <= r.generation
    requires s.log <= r.log
    requires forall g | s.retired <= g < s.generation :: Upto(r, g) == Upto(s, g)
    requires Upto(s, s.generation) <= Upto(r, s.generation) <= r.log
    requires forall g | s.retired < g <= s.generation ::
               LookupCompacted(At(s, g).state) ==> LookupCompacted(At(r, g).state)
    ensures Lookups(r)
  {
    hide Slot, Upto, Slots, Inserters, Jobs, Refs, EndsLate;
    forall i | 0 <= i < |r.lookups| ensures LookupOk(r, r.lookups[i]) {
      assert LookupOk(s, s.lookups[i]);
      if s.lookups[i].LkStopped? {
        LateStays(s.log, r.log, s.lookups[i].view, |s.lookups[i].start|);
      }
    }
  }

  lemma InserterFrameRest<T>(s: State<T>, r: State<T>)
    requires Inv(s) && InserterFrame(s, r)
    requires r.log == s.log + At(r, s.generation).contents[|At(s, s.generation).contents|..]
    ensures r.log == Upto(r, r.generation)
    ensures Shape(r) && Lookups(r)
  {
    hide Slot, Inserters, Refs;
    RingFacts(s);
    var g := s.generation;
    assert ActiveSlot(s, g);
    forall hi | hi < g ensures Upto(r, hi) == Upto(s, hi) {
      UptoFrame(s, r, hi);
    }
    assert s.log == Upto(s, g - 1) + At(s, g).contents;
    assert r.log == Upto(r, g - 1) + At(r, g).contents;
    LookupsFrame(s, r);
  }

  /** Inserter steps that only move one program counter. */
  lemma InsMovePreserves<T>(s: State<T>, step: Step<T>)
    requires Inv(s) && InsEnabled(s, step)
    requires !step.InsFinalize? && !step.InsIncrement? && !step.InsTuple?
    ensures InsAsserts(s, step)
    ensures Inv(InsApply(s, step))
  {
    hide Slot, Upto, Jobs, Refs, Lookups;
    var r := InsApply(s, step);
    InsMoveInserters(s, step);
    assert ActiveSlot(s, s.generation);
    assert s.mt[Slot(s.generation, |s.mt|) := At(s, s.generation)] == s.mt;
    hide Inserters;
    InserterFrameJobs(s, r);
    InserterFrameSlots(s, r);
    InserterFrameRest(s, r);
  }

  lemma InsMoveInserters<T>(s: State<T>, step: Step<T>)
    requires Inv(s) && InsEnabled(s, step)
    requires !step.InsFinalize? && !step.InsIncrement? && !step.InsTuple?
    ensures Inserters(InsApply(s, step))
  {
    hide Slot, Upto, Jobs, Refs, Lookups;
    if step.InsIsFull? {
      NextReadyIsNext(s);
    }
    hide Slots;
    var r := InsApply(s, step);
    var t := step.t;
    assert forall u | 0 <= u < |s.inserters| && u != t :: r.inserters[u] == s.inserters[u];
    InsertersUpdate(s, t, r.inserters[t]);
  }

  lemma InsertersUpdate<T>(s: State<T>, t: nat, pc: InserterPc<T>)
    requires Shape(s) && Inserters(s) && t < |s.inserters|
    requires InserterOk(s, pc)
    requires HoldsInsertRead(pc) && !HoldsInsertRead(s.inserters[t]) ==>
               forall u | 0 <= u < |s.inserters| :: !HoldsInsertWrite(s.inserters[u])
    requires HoldsInsertWrite(pc) && !HoldsInsertWrite(s.inserters[t]) ==>
               forall u | 0 <= u < |s.inserters| :: !HoldsInsertRead(s.inserters[u])
    requires HoldsInsertClaim(pc) && !HoldsInsertClaim(s.inserters[t]) ==>
               forall u | 0 <= u < |s.inserters| :: !HoldsInsertClaim(s.inserters[u])
    requires !(HoldsInsertRead(pc) && HoldsInsertWrite(pc))
    ensures Inserters(s.(inserters := s.inserters[t := pc]))
  {
    hide Slot, InserterOk;
    var r := s.(inserters := s.inserters[t := pc]);
    forall u | 0 <= u < |r.inserters| ensures InserterOk(r, r.inserters[u]) {
      InserterOkFrame(s, r, r.inserters[u]);
    }
  }

  lemma InserterOkFrame<T>(s: State<T>, r: State<T>, pc: InserterPc<T>)
    requires Shape(s) && r == s.(inserters := r.inserters)
    requires InserterOk(s, pc)
    ensures InserterOk(r, pc)
  {
    hide Slot;
  }

  /** A READY slot after the current one has been recycled for the next generation. */
  lemma NextReadyIsNext<T>(s: State<T>)
    requires Shape(s) && Slots(s)
    ensures At(s, s.generation + 1).state.Ready? ==> NextReady(s)
  {
    hide Slot;
    SlotPeriodic(s.retired + 1, |s.mt|);
    assert ActiveSlot(s, s.retired + 1);
    assert s.generation < s.retired + |s.mt| ==> FreeSlot(s, s.generation + 1);
  }

  lemma FinalizePreserves<T>(s: State<T>, t: nat)
    requires Inv(s) && InsEnabled(s, InsFinalize(t))
    ensures InsAsserts(s, InsFinalize(t))
    ensures Inv(InsApply(s, InsFinalize(t)))
  {
    hide Slot, Upto, Jobs, Refs, Lookups;
    var r := InsApply(s, InsFinalize(t));
    assert ActiveSlot(s, s.generation);
    InserterFrameJobs(s, r);
    InserterFrameSlots(s, r);
    InserterFrameRest(s, r);
    RingFacts(s);
    assert Inserters(r);
  }

  lemma TuplePreserves<T>(s: State<T>, t: nat, tuple: T)
    requires Inv(s) && InsEnabled(s, InsTuple(t, tuple))
    ensures InsAsserts(s, InsTuple(t, tuple))
    ensures Inv(InsApply(s, InsTuple(t, tuple)))
  {
    hide Slot, Upto, Jobs, Refs, Lookups;
    var r := InsApply(s, InsTuple(t, tuple));
    assert ActiveSlot(s, s.generation);
    InserterFrameJobs(s, r);
    InserterFrameSlots(s, r);
    InserterFrameRest(s, r);
    RingFacts(s);
    assert Inserters(r);
  }

  lemma IncrementPreserves<T>(s: State<T>, t: nat)
    requires Inv(s) && InsEnabled(s, InsIncrement(t))
    ensures InsAsserts(s, InsIncrement(t))
    ensures Inv(InsApply(s, InsIncrement(t)))
  {
    hide Slot, Upto;
    var r := InsApply(s, InsIncrement(t));
    assert Shape(r);
    IncrementSlots(s, t);
    IncrementRefs(s, t);
    UptoFrameAll(s, r);
    IncrementHistory(s, t);
    assert Lookups(r) by { LookupsFrame(s, r); }
    assert Inserters(r) && Jobs(r) by { hide Lookups, Refs, Slots; }
  }

  lemma IncrementHistory<T>(s: State<T>, t: nat)
    requires Inv(s) && InsEnabled(s, InsIncrement(t))
    ensures var r := InsApply(s, InsIncrement(t)); Upto(r, r.generation) == Upto(s, s.generation)
  {
    hide Slot, Jobs, Refs, Lookups;
    var r := InsApply(s, InsIncrement(t));
    UptoFrameAll(s, r);
    assert FreeSlot(s, s.generation + 1);
    assert Upto(r, r.generation) == Upto(r, s.generation) + [];
  }

  lemma IncrementSlots<T>(s: State<T>, t: nat)
    requires Inv(s) && InsEnabled(s, InsIncrement(t))
    ensures Slots(InsApply(s, InsIncrement(t)))
  {
    hide Slot, Upto, Refs, Lookups;
    var r := InsApply(s, InsIncrement(t));
    assert FreeSlot(s, s.generation + 1);
    forall g | r.retired < g <= r.generation ensures ActiveSlot(r, g) {
      if g <= s.generation { assert ActiveSlot(s, g); }
    }
    forall g | r.generation < g <= r.retired + |r.mt| ensures FreeSlot(r, g) { assert FreeSlot(s, g); }
  }

  lemma IncrementRefs<T>(s: State<T>, t: nat)
    requires Inv(s) && InsEnabled(s, InsIncrement(t))
    ensures Refs(InsApply(s, InsIncrement(t)))
  {
    hide Slot, Upto, Jobs, Lookups;
    var r := InsApply(s, InsIncrement(t));
    assert FreeSlot(s, s.generation + 1);
    SlotPeriodic(s.generation + 1 - |s.mt|, |s.mt|);
    forall d | 0 <= d < |r.droppers| ensures DropperOk(r, d, r.droppers[d]) {
      assert DropperOk(s, d, s.droppers[d]);
    }
  }

  // ----- flush jobs

  lemma InsertersFrame<T>(s: State<T>, r: State<T>)
    requires Inv(s) && Shape(r)
    requires r.inserters == s.inserters && r.generation == s.generation
    requires At(r, s.generation).state == At(s, s.generation).state
    requires NextReady(s) ==> NextReady(r)
    ensures Inserters(r)
  {
    hide Slot, Upto, Jobs, Refs, Lookups, Slots;
  }

  /** Droppers do not notice a step on a memtable that no dropper is recycling. */
  lemma RefsFrame<T>(s: State<T>, r: State<T>, h: int, m: Memtable<T>)
    requires Inv(s) && Shape(r)
    requires r.mt == s.mt[Slot(h, |s.mt|) := m]
    requires At(s, h).owner.Owned? || At(s, h).owner.Shared? || At(s, h).owner.who.ByJob?
    requires r.droppers == s.droppers && r.iterRefs == s.iterRefs
    requires r.generation == s.generation && r.retired >= s.retired
    ensures Refs(r)
  {
    hide Slot, Upto, Jobs, Lookups, Slots, Inserters;
    forall d | 0 <= d < |r.droppers| ensures DropperOk(r, d, r.droppers[d]) {
      assert DropperOk(s, d, s.droppers[d]);
    }
  }

  lemma RefsUnmoved<T>(s: State<T>, r: State<T>)
    requires Inv(s) && Shape(r)
    requires r.mt == s.mt && r.droppers == s.droppers && r.iterRefs == s.iterRefs
    requires r.generation == s.generation && r.retired >= s.retired
    ensures Refs(r)
  {
    hide Slot, Upto, Jobs, Lookups, Slots, Inserters;
  }

  /** Enqueueing, compacting and packing generation `j`. */
  lemma CompactPreserves<T>(s: State<T>, j: nat)
    requires Inv(s) && JobEnabled(s, j)
    requires s.jobs[j].Unqueued? || s.jobs[j].Queued? || s.jobs[j].Packing? || s.jobs[j].DidPack?
    ensures JobAsserts(s, j)
    ensures Inv(JobApply(s, j))
  {
    hide Slot, Upto, Inserters, Lookups, Refs;
    var r := JobApply(s, j);
    var m := At(r, j);
    assert ActiveSlot(s, j);
    assert r.mt == s.mt[Slot(j, |s.mt|) := m];
    RingFacts(s);
    CompactSlots(s, j);
    CompactJobs(s, j);
    hide Slots, Jobs;
    UptoFrameAll(s, r);
    InsertersFrame(s, r);
    RefsFrame(s, r, j, m);
    LookupsFrame(s, r);
  }

  lemma CompactSlots<T>(s: State<T>, j: nat)
    requires Inv(s) && JobEnabled(s, j)
    requires s.jobs[j].Unqueued? || s.jobs[j].Queued? || s.jobs[j].Packing? || s.jobs[j].DidPack?
    ensures Slots(JobApply(s, j))
  {
    hide Slot, Upto, Inserters, Lookups, Refs;
    var r := JobApply(s, j);
    RingFacts(s);
    assert ActiveSlot(s, j);
    forall g | r.retired < g <= r.generation ensures ActiveSlot(r, g) { assert ActiveSlot(s, g); }
    forall g | r.generation < g <= r.retired + |r.mt| ensures FreeSlot(r, g) { assert FreeSlot(s, g); }
  }

  lemma CompactJobs<T>(s: State<T>, j: nat)
    requires Inv(s) && JobEnabled(s, j)
    requires s.jobs[j].Unqueued? || s.jobs[j].Queued? || s.jobs[j].Packing? || s.jobs[j].DidPack?
    ensures Jobs(JobApply(s, j))
  {
    hide Slot, Upto, Inserters, Lookups, Refs;
    RingFacts(s);
    assert ActiveSlot(s, j);
  }

  /** core_try_start_incorporate. */
  lemma TryStartPreserves<T>(s: State<T>, j: nat)
    requires Inv(s) && JobEnabled(s, j) && s.jobs[j].DidCompact?
    ensures Inv(JobApply(s, j))
  {
    hide Slot, Upto, Inserters, Lookups, Refs;
    var r := JobApply(s, j);
    var m := At(r, j);
    if At(s, j).generation == j == s.toIncorporate && At(s, j).state.Compacted? {
      TryStartGeneration(s, j);
      assert ActiveSlot(s, j);
    } else {
      assert r.mt == s.mt;
    }
    RingFacts(s);
    TryStartSlots(s, j);
    TryStartJobs(s, j);
    hide Slots, Jobs;
    UptoFrameAll(s, r);
    InsertersFrame(s, r);
    assert Refs(r) by {
      if r.mt == s.mt { RefsUnmoved(s, r); } else { RefsFrame(s, r, j, m); }
    }
    LookupsFrame(s, r);
  }

  /** The test of try_start succeeds only for the generation to incorporate, and only if no
      other thread is incorporating. */
  lemma TryStartGeneration<T>(s: State<T>, j: nat)
    requires Inv(s) && j < |s.jobs|
    requires At(s, j).generation == j == s.toIncorporate && At(s, j).state.Compacted?
    ensures j == s.retired + 1 && s.incorporator == -1
  {
    hide Slot, Upto, Inserters, Lookups, Refs;
    SlotPeriodic(s.retired, |s.mt|);
    if s.retired + |s.mt| > s.generation { assert FreeSlot(s, s.retired + |s.mt|); }
    else { assert ActiveSlot(s, s.generation); }
    if j > s.retired { assert ActiveSlot(s, j); }
  }

  lemma TryStartSlots<T>(s: State<T>, j: nat)
    requires Inv(s) && JobEnabled(s, j) && s.jobs[j].DidCompact?
    requires At(s, j).generation == j == s.toIncorporate && At(s, j).state.Compacted? ==>
               j == s.retired + 1 && s.incorporator == -1
    ensures Slots(JobApply(s, j))
  {
    hide Slot, Upto, Inserters, Lookups, Refs;
    var r := JobApply(s, j);
    RingFacts(s);
    forall g | r.retired < g <= r.generation ensures ActiveSlot(r, g) { assert ActiveSlot(s, g); }
    forall g | r.generation < g <= r.retired + |r.mt| ensures FreeSlot(r, g) { assert FreeSlot(s, g); }
  }

  lemma TryStartJobs<T>(s: State<T>, j: nat)
    requires Inv(s) && JobEnabled(s, j) && s.jobs[j].DidCompact?
    requires At(s, j).generation == j == s.toIncorporate && At(s, j).state.Compacted? ==>
               j == s.retired + 1 && s.incorporator == -1
    ensures Jobs(JobApply(s, j))
  {
    hide Slot, Upto, Inserters, Lookups, Refs, Slots;
  }

  // ----- the incorporating thread

  ghost predicate AtPhase<T>(s: State<T>, j: nat, phase: Phase) {
    && Inv(s) && JobEnabled(s, j)
    && s.jobs[j].Incorporate? && s.jobs[j].phase == phase
  }

  /** Building the new trunk root, and taking and releasing the write lock on lookups. */
  lemma PrepareOrLockPreserves<T>(s: State<T>, j: nat, phase: Phase)
    requires AtPhase(s, j, phase)
    requires phase.Start? || phase.Prepared? || phase.DidCommit?
    ensures JobAsserts(s, j)
    ensures Inv(JobApply(s, j))
  {
    hide Slot, Upto, Inserters, Lookups, Refs;
    var r := JobApply(s, j);
    var g := s.jobs[j].gen;
    assert PreRetire(phase) ==> ActiveSlot(s, g);
    PrepareOrLockSlots(s, j, phase);
    hide Slots;
    assert Jobs(r);
    hide Jobs;
    UptoFrameAll(s, r);
    InsertersFrame(s, r);
    RefsUnmoved(s, r);
    assert Lookups(r) by {
      if phase.Prepared? { BlockLookups(s, r); } else { LookupsFrame(s, r); }
    }
  }

  lemma PrepareOrLockSlots<T>(s: State<T>, j: nat, phase: Phase)
    requires AtPhase(s, j, phase)
    requires phase.Start? || phase.Prepared? || phase.DidCommit?
    ensures Slots(JobApply(s, j))
  {
    hide Slot, Upto, Inserters, Lookups, Refs;
    var r := JobApply(s, j);
    forall g | r.retired < g <= r.generation ensures ActiveSlot(r, g) { assert ActiveSlot(s, g); }
    forall g | r.generation < g <= r.retired + |r.mt| ensures FreeSlot(r, g) { assert FreeSlot(s, g); }
  }

  /** With no lookup under way the write lock may be held. */
  lemma BlockLookups<T>(s: State<T>, r: State<T>)
    requires Inv(s) && Shape(r)
    requires r.lookups == s.lookups && r.log == s.log
    requires forall i | 0 <= i < |s.lookups| :: !HoldsLookupRead(s.lookups[i])
    ensures Lookups(r)
  {
    hide Slot, Upto, Slots, Inserters, Jobs, Refs, EndsLate;
    forall i | 0 <= i < |r.lookups| ensures LookupOk(r, r.lookups[i]) {
      assert LookupOk(s, s.lookups[i]);
      if s.lookups[i].LkStopped? {
        LateStays(s.log, r.log, s.lookups[i].view, |s.lookups[i].start|);
      }
    }
  }

  /** ASSIGNED to INCORPORATING to INCORPORATED, under the write lock on lookups. */
  lemma MarkPreserves<T>(s: State<T>, j: nat, phase: Phase)
    requires AtPhase(s, j, phase)
    requires phase.LookupsBlocked? || phase.DidMark?
    ensures JobAsserts(s, j)
    ensures Inv(JobApply(s, j))
  {
    hide Slot, Upto, Inserters, Lookups, Refs;
    var r := JobApply(s, j);
    var g := s.jobs[j].gen;
    RingFacts(s);
    assert ActiveSlot(s, g);
    MarkSlots(s, j, phase);
    hide Slots;
    assert Jobs(r);
    UptoFrameAll(s, r);
    InsertersFrame(s, r);
    RefsFrame(s, r, g, At(r, g));
    BlockedByWriter(s, j);
    BlockLookups(s, r);
  }

  lemma BlockedByWriter<T>(s: State<T>, j: nat)
    requires Inv(s) && j < |s.jobs| && HoldsLookupWrite(s.jobs[j])
    ensures forall i | 0 <= i < |s.lookups| :: !HoldsLookupRead(s.lookups[i])
  {
    hide Slot, Upto, Slots, Inserters, Jobs, Refs;
  }

  lemma MarkSlots<T>(s: State<T>, j: nat, phase: Phase)
    requires AtPhase(s, j, phase)
    requires phase.LookupsBlocked? || phase.DidMark?
    ensures Slots(JobApply(s, j))
  {
    hide Slot, Upto, Inserters, Lookups, Refs;
    var r := JobApply(s, j);
    RingFacts(s);
    forall g | r.retired < g <= r.generation ensures ActiveSlot(r, g) { assert ActiveSlot(s, g); }
    forall g | r.generation < g <= r.retired + |r.mt| ensures FreeSlot(r, g) { assert FreeSlot(s, g); }
  }

  /** Incrementing generation_retired. */
  lemma RetirePreserves<T>(s: State<T>, j: nat)
    requires AtPhase(s, j, DidIncorporate)
    ensures JobAsserts(s, j)
    ensures Inv(JobApply(s, j))
  {
    hide Slot, Upto, Inserters, Lookups, Refs;
    var r := JobApply(s, j);
    var g := s.jobs[j].gen;
    RingFacts(s);
    assert ActiveSlot(s, g);
    RetireSlots(s, j);
    assert Jobs(r);
    UptoFrameAll(s, r);
    assert NextReady(s) ==> NextReady(r);
    hide Slots;
    InsertersFrame(s, r);
    RefsUnmoved(s, r);
    BlockedByWriter(s, j);
    BlockLookups(s, r);
  }

  lemma RetireSlots<T>(s: State<T>, j: nat)
    requires AtPhase(s, j, DidIncorporate)
    ensures Slots(JobApply(s, j))
  {
    hide Slot, Upto, Inserters, Lookups;
    var r := JobApply(s, j);
    assert ActiveSlot(s, s.retired + 1);
    SlotPeriodic(s.retired + 1, |s.mt|);
    assert s.iterRefs[s.retired + 1 + |s.mt|] == 0;
    forall g | r.retired < g <= r.generation ensures ActiveSlot(r, g) { assert ActiveSlot(s, g); }
    forall g | r.generation < g <= r.retired + |r.mt| ensures FreeSlot(r, g) {
      if g <= s.retired + |s.mt| { assert FreeSlot(s, g); }
    }
  }

  /** Switching to the new trunk root. */
  lemma CommitPreserves<T>(s: State<T>, j: nat)
    requires AtPhase(s, j, DidRetire)
    ensures JobAsserts(s, j)
    ensures Inv(JobApply(s, j))
  {
    hide Slot, Upto, Inserters, Lookups, Refs;
    var r := JobApply(s, j);
    CommitSlots(s, j);
    assert Jobs(r);
    hide Slots;
    CommitHistory(s, r, r.generation);
    InsertersFrame(s, r);
    RefsUnmoved(s, r);
    BlockedByWriter(s, j);
    BlockLookups(s, r);
  }

  lemma CommitSlots<T>(s: State<T>, j: nat)
    requires AtPhase(s, j, DidRetire)
    ensures Slots(JobApply(s, j))
  {
    hide Slot, Upto, Inserters, Lookups, Refs;
    var r := JobApply(s, j);
    forall g | r.retired < g <= r.generation ensures ActiveSlot(r, g) { assert ActiveSlot(s, g); }
    forall g | r.generation < g <= r.retired + |r.mt| ensures FreeSlot(r, g) { assert FreeSlot(s, g); }
  }

  /** The new root holds what the old root and the retired memtable held. */
  lemma {:induction false} CommitHistory<T>(s: State<T>, r: State<T>, hi: int)
    requires 0 < |s.mt| && r.mt == s.mt
    requires r.trunkUpto == s.trunkUpto + 1
    requires r.trunk == s.trunk + At(s, s.trunkUpto + 1).contents
    requires hi > s.trunkUpto
    ensures Upto(r, hi) == Upto(s, hi)
    decreases hi - s.trunkUpto
  {
    hide Slot;
    if hi > r.trunkUpto {
      CommitHistory(s, r, hi - 1);
    }
  }

  // ----- recycling

  /** The slot of a retired generation that is not yet renumbered. */
  lemma RetiredSlot<T>(s: State<T>, g: int)
    requires Inv(s) && s.generation - |s.mt| <= g <= s.retired
    requires At(s, g).generation == g
    ensures s.generation < g + |s.mt| && Slot(g + |s.mt|, |s.mt|) == Slot(g, |s.mt|)
    ensures FreeSlot(s, g + |s.mt|)
  {
    hide Slot, Upto, Inserters, Lookups, Refs, Jobs;
    SlotPeriodic(g, |s.mt|);
    assert ActiveSlot(s, s.generation);
  }

  /** The slot of a retired generation that was renumbered but is not READY again. */
  lemma RenumberedSlot<T>(s: State<T>, g: int)
    requires Inv(s) && s.generation - |s.mt| <= g <= s.retired
    requires At(s, g).owner.Renumbered?
    ensures s.generation < g + |s.mt| && Slot(g + |s.mt|, |s.mt|) == Slot(g, |s.mt|)
    ensures FreeSlot(s, g + |s.mt|)
  {
    hide Slot, Upto, Inserters, Lookups, Refs, Jobs;
    SlotPeriodic(g, |s.mt|);
    assert ActiveSlot(s, s.generation);
  }

  /** `r` differs from `s` only in the memtable of the retired generation `g`, in the
      references to it and in which thread is recycling. */
  ghost predicate RecycleFrame<T>(s: State<T>, r: State<T>, g: int)
    requires Shape(s)
  {
    && Shape(r)
    && r == s.(mt := r.mt, jobs := r.jobs, droppers := r.droppers, iterRefs := r.iterRefs)
    && s.generation < g + |s.mt| <= s.retired + |s.mt|
    && r.mt == s.mt[Slot(g, |s.mt|) := At(r, g)]
    && (forall h | h != g :: r.iterRefs[h] == s.iterRefs[h])
    && (r.jobs == s.jobs
        || (s.incorporator >= 0 && s.jobs[s.incorporator].Incorporate?
            && !PreRetire(s.jobs[s.incorporator].phase)
            && exists phase | !PreRetire(phase) ::
                 r.jobs == s.jobs[s.incorporator := Incorporate(s.jobs[s.incorporator].gen, phase)]))
  }

  lemma RecycleSlots<T>(s: State<T>, r: State<T>, g: int)
    requires Inv(s) && RecycleFrame(s, r, g) && FreeSlot(r, g + |s.mt|)
    ensures Slots(r)
  {
    hide Slot, Upto, Inserters, Lookups, Refs;
    RingFacts(s);
    SlotPeriodic(g, |s.mt|);
    forall h | r.retired < h <= r.generation ensures ActiveSlot(r, h) { assert ActiveSlot(s, h); }
    forall h | r.generation < h <= r.retired + |r.mt| && h != g + |s.mt| ensures FreeSlot(r, h) {
      assert FreeSlot(s, h);
    }
  }

  lemma RecycleRest<T>(s: State<T>, r: State<T>, g: int)
    requires Inv(s) && RecycleFrame(s, r, g)
    requires At(s, g).generation == g + |s.mt| ==> !At(s, g).state.Ready?
    requires forall h | s.trunkUpto < h <= s.generation :: At(r, h).contents == At(s, h).contents
    requires forall k | 0 <= k < |r.jobs| && HoldsLookupWrite(r.jobs[k]) :: HoldsLookupWrite(s.jobs[k])
    requires At(s, g).generation == g || At(s, g).generation == g + |s.mt|
    requires At(s, g).generation == g ==> At(s, g).state.Incorporated?
    ensures Inserters(r) && Lookups(r) && r.log == Upto(r, r.generation)
  {
    hide Slot, Upto, Refs, Jobs;
    RingFacts(s);
    SlotPeriodic(g, |s.mt|);
    UptoFrameAll(s, r);
    assert Inserters(r) by { hide Slots, Lookups; InsertersFrame(s, r); }
    hide Slots, Inserters;
    LookupsFrame(s, r);
  }

  /** The incorporating thread gives back the context's reference. */
  lemma JobDecRefPreserves<T>(s: State<T>, j: nat)
    requires AtPhase(s, j, LookupsUnblocked)
    ensures JobAsserts(s, j)
    ensures Inv(JobApply(s, j))
  {
    hide Slot, Upto, Inserters, Lookups, Slots;
    var r := JobApply(s, j);
    var g := s.jobs[j].gen;
    RetiredSlot(s, g);
    assert RecycleFrame(s, r, g);
    RecycleSlots(s, r, g);
    RetiredContents(s, r, g);
    RecycleRest(s, r, g);
    assert Jobs(r);
    hide Jobs;
    RefsFrame(s, r, g, At(r, g));
  }

  /** The slot of a retired generation is not one of those that are still searched. */
  lemma RetiredContents<T>(s: State<T>, r: State<T>, g: int)
    requires Shape(s) && RecycleFrame(s, r, g)
    ensures forall h | s.retired < h <= s.generation :: At(r, h) == At(s, h)
  {
    hide Slot;
    RingFacts(s);
    SlotPeriodic(g, |s.mt|);
  }

  lemma JobRenumberPreserves<T>(s: State<T>, j: nat)
    requires AtPhase(s, j, RefFreed)
    ensures JobAsserts(s, j)
    ensures Inv(JobApply(s, j))
  {
    hide Slot, Upto, Inserters, Lookups, Slots;
    var r := JobApply(s, j);
    var g := s.jobs[j].gen;
    RetiredSlot(s, g);
    assert RecycleFrame(s, r, g);
    RecycleSlots(s, r, g);
    RecycleRest(s, r, g);
    assert Jobs(r);
    hide Jobs;
    RefsFrame(s, r, g, At(r, g));
  }

  lemma JobRecyclePreserves<T>(s: State<T>, j: nat)
    requires AtPhase(s, j, GenBumped)
    ensures JobAsserts(s, j)
    ensures Inv(JobApply(s, j))
  {
    hide Slot, Upto, Inserters, Lookups, Slots;
    var r := JobApply(s, j);
    var g := s.jobs[j].gen;
    RenumberedSlot(s, g);
    assert RecycleFrame(s, r, g);
    RecycleSlots(s, r, g);
    RecycleRest(s, r, g);
    assert Jobs(r);
    hide Jobs;
    RefsFrame(s, r, g, At(r, g));
  }

  /** core_try_continue_incorporate. */
  lemma TryNextPreserves<T>(s: State<T>, j: nat)
    requires AtPhase(s, j, TryNext)
    ensures JobAsserts(s, j)
    ensures Inv(JobApply(s, j))
  {
    hide Slot, Upto, Inserters, Lookups, Refs;
    var r := JobApply(s, j);
    var h := s.jobs[j].gen + 1;
    assert ActiveSlot(s, h);
    RingFacts(s);
    TryNextSlots(s, j);
    assert Jobs(r);
    hide Slots, Jobs;
    UptoFrameAll(s, r);
    InsertersFrame(s, r);
    assert Refs(r) by {
      if r.mt == s.mt { RefsUnmoved(s, r); } else { RefsFrame(s, r, h, At(r, h)); }
    }
    LookupsFrame(s, r);
  }

  lemma TryNextSlots<T>(s: State<T>, j: nat)
    requires AtPhase(s, j, TryNext)
    ensures Slots(JobApply(s, j))
  {
    hide Slot, Upto, Inserters, Lookups, Refs;
    var r := JobApply(s, j);
    RingFacts(s);
    assert ActiveSlot(s, s.retired + 1);
    forall g | r.retired < g <= r.generation ensures ActiveSlot(r, g) { assert ActiveSlot(s, g); }
    forall g | r.generation < g <= r.retired + |r.mt| ensures FreeSlot(r, g) { assert FreeSlot(s, g); }
  }

  // ----- references of range iterators

  /** Counting one reference more or less on a memtable that is still searched. */
  lemma CountRefPreserves<T>(s: State<T>, r: State<T>, g: int)
    requires Inv(s) && s.retired < g <= s.generation
    requires r == s.(mt := r.mt, iterRefs := r.iterRefs)
    requires r.mt == s.mt[Slot(g, |s.mt|) := At(s, g).(refs := 1 + r.iterRefs[g])]
    requires forall h | h != g :: r.iterRefs[h] == s.iterRefs[h]
    ensures Inv(r)
  {
    hide Slot, Upto, Inserters, Lookups, Jobs, Refs;
    RingFacts(s);
    assert ActiveSlot(s, g);
    forall h | r.retired < h <= r.generation ensures ActiveSlot(r, h) { assert ActiveSlot(s, h); }
    forall h | r.generation < h <= r.retired + |r.mt| ensures FreeSlot(r, h) { assert FreeSlot(s, h); }
    UptoFrameAll(s, r);
    hide Slots;
    CountRefRest(s, r, g);
    InsertersFrame(s, r);
    LookupsFrame(s, r);
  }

  lemma CountRefRest<T>(s: State<T>, r: State<T>, g: int)
    requires Inv(s) && s.retired < g <= s.generation
    requires r == s.(mt := r.mt, iterRefs := r.iterRefs)
    requires At(s, g).owner.Owned?
    requires r.mt == s.mt[Slot(g, |s.mt|) := At(s, g).(refs := 1 + r.iterRefs[g])]
    requires forall h | h != g :: r.iterRefs[h] == s.iterRefs[h]
    ensures Jobs(r) && Refs(r)
  {
    hide Slot, Upto, Inserters, Lookups, Slots;
  }

  lemma DropperUpdate<T>(s: State<T>, r: State<T>, g: int, d: nat, pc: DropperPc)
    requires Inv(s) && RecycleFrame(s, r, g)
    requires d < |s.droppers| && r.droppers == s.droppers[d := pc] && DropperOk(r, d, pc)
    requires forall h | h in r.iterRefs :: h in s.iterRefs
    requires At(s, g).owner.Owned? || At(s, g).owner.Shared? || At(s, g).owner.who == ByDropper(d)
    ensures Refs(r)
  {
    hide Slot, Upto, Jobs, Lookups, Slots, Inserters;
    forall e | 0 <= e < |r.droppers| ensures DropperOk(r, e, r.droppers[e]) {
      assert DropperOk(s, e, s.droppers[e]);
    }
  }

  /** A retired memtable that an iterator refers to has not been recycled. */
  lemma HeldSlot<T>(s: State<T>, g: int)
    requires Inv(s) && g in s.iterRefs && g <= s.retired
    ensures s.generation < g + |s.mt| <= s.retired + |s.mt|
    ensures Slot(g + |s.mt|, |s.mt|) == Slot(g, |s.mt|)
    ensures At(s, g).generation == g && FreeSlot(s, g + |s.mt|)
  {
    hide Slot, Upto, Inserters, Lookups, Jobs;
    SlotPeriodic(g, |s.mt|);
    assert g + |s.mt| == s.generation ==> s.iterRefs[g] == 0;
    assert FreeSlot(s, g + |s.mt|);
  }

  /** Recycling by a dropper leaves the tuples that are still searched alone. */
  lemma DropperContents<T>(s: State<T>, r: State<T>, g: int)
    requires Inv(s) && RecycleFrame(s, r, g)
    requires At(s, g).owner.Owned? && At(s, g).generation == g ==> At(r, g).contents == At(s, g).contents
    ensures forall h | s.trunkUpto < h <= s.generation :: At(r, h).contents == At(s, h).contents
  {
    hide Slot, Upto, Inserters, Lookups;
    RingFacts(s);
    SlotPeriodic(g, |s.mt|);
    if Slot(g, |s.mt|) == Slot(s.retired, |s.mt|) && g > s.generation - |s.mt| {
      SlotInjective(g, s.retired, |s.mt|);
    }
  }

  /** Giving back a reference, and perhaps finding that it was the last. */
  lemma DropStartPreserves<T>(s: State<T>, d: nat, g: int)
    requires Inv(s) && DropEnabled(s, DropStart(d, g))
    ensures DropAsserts(s, DropStart(d, g))
    ensures Inv(DropApply(s, DropStart(d, g)))
  {
    hide Slot, Upto, Inserters, Lookups;
    var r := DropApply(s, DropStart(d, g));
    assert forall h | h != g :: r.iterRefs[h] == s.iterRefs[h];
    if g > s.retired {
      assert ActiveSlot(s, g);
      hide Slots, Jobs, Refs;
      CountRefPreserves(s, r, g);
    } else {
      HeldSlot(s, g);
      assert RecycleFrame(s, r, g);
      RecycleSlots(s, r, g);
      hide Slots;
      DropperContents(s, r, g);
      RecycleRest(s, r, g);
      DropperUpdate(s, r, g, d, r.droppers[d]);
      DropperJobs(s, r, g);
    }
  }

  lemma DropperJobs<T>(s: State<T>, r: State<T>, g: int)
    requires Inv(s) && RecycleFrame(s, r, g) && r.jobs == s.jobs
    requires At(s, g).owner.Owned? && At(s, g).generation == g ==>
               At(r, g) == At(s, g).(refs := At(r, g).refs)
    requires !(At(s, g).owner.Freed? || At(s, g).owner.Renumbered?) || At(s, g).owner.who != ByJob
    ensures Jobs(r)
  {
    hide Slot, Upto, Inserters, Lookups, Slots, Refs;
    RetiredContents(s, r, g);
    if Slot(g, |s.mt|) == Slot(s.retired, |s.mt|) && g > s.generation - |s.mt| {
      SlotInjective(g, s.retired, |s.mt|);
    }
  }

  lemma DropStepPreserves<T>(s: State<T>, d: nat)
    requires Inv(s) && DropEnabled(s, DropStep(d))
    ensures DropAsserts(s, DropStep(d))
    ensures Inv(DropApply(s, DropStep(d)))
  {
    hide Slot, Upto, Inserters, Lookups;
    var r := DropApply(s, DropStep(d));
    var g := s.droppers[d].gen;
    SlotPeriodic(g, |s.mt|);
    assert DropperOk(s, d, s.droppers[d]);
    assert FreeSlot(s, g + |s.mt|);
    assert RecycleFrame(s, r, g);
    RecycleSlots(s, r, g);
    hide Slots;
    DropperContents(s, r, g);
    RecycleRest(s, r, g);
    DropperUpdate(s, r, g, d, r.droppers[d]);
    DropperJobs(s, r, g);
  }

  // ----- lookups

  lemma LkIncRefPreserves<T>(s: State<T>, i: nat)
    requires Inv(s) && LkIncRefEnabled(s, i)
    ensures Asserts(s, LkIncRef(i))
    ensures Inv(LkIncRefApply(s, i))
  {
    hide Slot, Upto, Inserters, Jobs, Refs;
    var g := s.lookups[i].next;
    assert LookupOk(s, s.lookups[i]);
    assert ActiveSlot(s, g);
    hide Slots, Lookups;
    CountRefPreserves(s, LkIncRefApply(s, i), g);
  }

  /** While a lookup holds the lock, the generations it searches are neither incorporated nor
      recycled, compacted ones have a complete branch, and the trunk is up to date. */
  lemma LkSafe<T>(s: State<T>, i: nat, g: int)
    requires Inv(s) && i < |s.lookups| && HoldsLookupRead(s.lookups[i])
    requires s.retired < g <= s.generation
    ensures At(s, g).generation == g
    ensures !At(s, g).state.Incorporating? && !At(s, g).state.Incorporated?
    ensures LookupCompacted(At(s, g).state) ==> At(s, g).branch == At(s, g).contents
    ensures s.trunkUpto == s.retired
  {
    hide Slot, Upto, Inserters, Refs, LookupOk;
    assert ActiveSlot(s, g);
  }

  lemma LkSafeTrunk<T>(s: State<T>, i: nat)
    requires Inv(s) && i < |s.lookups| && HoldsLookupRead(s.lookups[i])
    ensures s.trunkUpto == s.retired
  {
    LkSafe(s, i, s.generation);
  }

  lemma LkStepOk<T>(s: State<T>, i: nat)
    requires Inv(s) && LkEnabled(s, i)
    ensures LkAsserts(s, i)
    ensures LookupOk(s, LkApply(s, i).lookups[i])
  {
    hide Slot, Inserters, Refs, Jobs, Slots, Lookups;
    assert LookupOk(s, s.lookups[i]) by { LookupIsOk(s, i); }
    match s.lookups[i]
    case LkIdle =>
    case LkLocked(start) =>
    case LkGeneration(start, first) =>
      UptoMonotone(s, first, s.generation);
      assert Upto(s, first) + [] == Upto(s, first);
    case LkScan(start, first, retired, next, view) =>
      if next != retired { LkSafe(s, i, next); } else { LkSafeTrunk(s, i); }
    case LkRead(start, first, retired, next, compacted, view) =>
      LkSafe(s, i, next);
      assert Upto(s, next) + view == Upto(s, next - 1) + (At(s, next).contents + view);
  }

  lemma LookupIsOk<T>(s: State<T>, i: nat)
    requires Inv(s) && i < |s.lookups|
    ensures LookupOk(s, s.lookups[i])
  {
    hide Slot, Inserters, Refs, Jobs, Slots;
  }

  lemma LkPreserves<T>(s: State<T>, i: nat)
    requires Inv(s) && LkEnabled(s, i)
    ensures LkAsserts(s, i)
    ensures Inv(LkApply(s, i))
  {
    LkStepOk(s, i);
    LookupUpdate(s, i, LkApply(s, i).lookups[i]);
  }

  lemma LkStopPreserves<T>(s: State<T>, i: nat)
    requires Inv(s) && LkStopEnabled(s, i)
    ensures Inv(LkStopApply(s, i))
  {
    LookupIsOk(s, i);
    var pc := s.lookups[i];
    StopsLate(Upto(s, pc.next), pc.view, s.log, pc.start);
    hide Inv, Upto;
    LookupUpdate(s, i, LkStopped(pc.start, pc.view));
  }

  lemma StopsLate<T>(older: seq<T>, view: seq<T>, log: seq<T>, start: seq<T>)
    requires start <= older + view <= log
    ensures start <= log && EndsLate(log, view, |start|)
  {
    assert (older + view)[|older|..|older| + |view|] == view;
    assert ViewAt(log, view, |older|);
  }

  lemma LookupUpdate<T>(s: State<T>, i: nat, pc: LookupPc<T>)
    requires Inv(s) && i < |s.lookups|
    requires LookupOk(s, pc)
    requires HoldsLookupRead(pc) && !HoldsLookupRead(s.lookups[i]) ==>
               forall j | 0 <= j < |s.jobs| :: !HoldsLookupWrite(s.jobs[j])
    ensures Inv(s.(lookups := s.lookups[i := pc]))
  {
    hide Slot, Upto, Inserters, Refs, Jobs, Slots;
    var r := s.(lookups := s.lookups[i := pc]);
    SlotsFrame(s, r);
    UptoFrameAll(s, r);
    InsertersFrame(s, r);
    RefsUnmoved(s, r);
    assert Jobs(r) by { LookupsDoNotTouchJobs(s, r); }
    forall k | 0 <= k < |r.lookups| ensures LookupOk(r, r.lookups[k]) {
      assert LookupOk(s, if k == i then pc else s.lookups[k]);
    }
  }

  lemma LookupsDoNotTouchJobs<T>(s: State<T>, r: State<T>)
    requires Inv(s) && r == s.(lookups := r.lookups)
    ensures Jobs(r)
  {
    hide Slot, Upto, Inserters, Refs, Slots, Lookups;
  }

  lemma LkResetPreserves<T>(s: State<T>, i: nat)
    requires Inv(s) && Enabled(s, LkReset(i))
    ensures Inv(Apply(s, LkReset(i)))
  {
    LookupUpdate(s, i, LkIdle);
  }

  // ----- every step, every run

  lemma JobPreserves<T>(s: State<T>, j: nat)
    requires Inv(s) && JobEnabled(s, j)
    ensures JobAsserts(s, j)
    ensures Inv(JobApply(s, j))
  {
    match s.jobs[j]
    case DidCompact => TryStartPreserves(s, j);
    case Incorporate(_, phase) =>
      match phase {
        case Start => PrepareOrLockPreserves(s, j, phase);
        case Prepared => PrepareOrLockPreserves(s, j, phase);
        case LookupsBlocked => MarkPreserves(s, j, phase);
        case DidMark => MarkPreserves(s, j, phase);
        case DidIncorporate => RetirePreserves(s, j);
        case DidRetire => CommitPreserves(s, j);
        case DidCommit => PrepareOrLockPreserves(s, j, phase);
        case LookupsUnblocked => JobDecRefPreserves(s, j);
        case RefFreed => JobRenumberPreserves(s, j);
        case GenBumped => JobRecyclePreserves(s, j);
        case TryNext => TryNextPreserves(s, j);
      }
    case _ => CompactPreserves(s, j);
  }

  /** Every step keeps the invariant, and none of its assertions fails. */
  lemma StepPreserves<T>(s: State<T>, step: Step<T>)
    requires Inv(s) && Enabled(s, step)
    ensures Asserts(s, step)
    ensures Inv(Apply(s, step))
  {
    hide Inv;
    match step
    case JobStep(j) => JobPreserves(s, j);
    case LkStep(i) => LkPreserves(s, i);
    case LkStop(i) => LkStopPreserves(s, i);
    case LkIncRef(i) => LkIncRefPreserves(s, i);
    case LkReset(i) => LkResetPreserves(s, i);
    case DropStart(d, g) => DropStartPreserves(s, d, g);
    case DropStep(d) => DropStepPreserves(s, d);
    case InsFinalize(t) => FinalizePreserves(s, t);
    case InsIncrement(t) => IncrementPreserves(s, t);
    case InsTuple(t, tuple) => TuplePreserves(s, t, tuple);
    case _ => InsMovePreserves(s, step);
  }
}
