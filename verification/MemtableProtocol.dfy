/** The memtable generation protocol: several threads insert into, rotate, compact,
    incorporate, recycle and look up a ring of memtables.

    The protocol is a state machine.  Every step is one access to shared memory, or one
    critical section of `incorporation_mutex`.  Three families of processes take steps:
    inserters (which also rotate), one flush job per finalized generation, and lookups.
    Range iterators that outlive their lookup hold references to memtables; `droppers` are
    the threads that give those references back.

    `log` is a history variable: all tuples in the order in which they entered a memtable.
    `trunkUpto`, `incorporator` and the `owner` tags are auxiliary: no step's guard or effect
    on the other fields depends on them. */
module MemtableProtocol {
  import opened Ring

  datatype MtState =
    Ready | Finalized | Compacting | Compacted | IncorporationAssigned | Incorporating | Incorporated

  /** Which thread found the reference count at zero and now recycles the memtable. */
  datatype Recycler = ByJob | ByDropper(dropper: nat)

  /** `Owned`: the context's own reference is still counted.  `Shared`: it was given back, and
      iterators keep the memtable alive. */
  datatype Owner = Owned | Shared | Freed(who: Recycler) | Renumbered(who: Recycler)

  datatype Memtable<T> = Memtable(
    state: MtState,
    generation: int,
    contents: seq<T>,  // the tuples reachable from root_addr, oldest first
    branch: seq<T>,    // the compacted memtable of the same slot
    refs: nat,         // reference count of the tree at root_addr
    owner: Owner)

  datatype InserterPc<T> =
    | InsIdle
    | GotInsertLock                 // read lock held
    | SawReady(gen: int)            // read lock held, current memtable was READY
    | SawNextReady(gen: int)        // read lock held, memtable full, next slot was READY
    | MayInsert(gen: int)           // read lock held, memtable_maybe_rotate_and_begin_insert returned
    | DidInsert(gen: int, tuple: T) // read lock held, tuple inserted
    | Claimed(gen: int)             // claim held
    | WriteLocked(gen: int)         // claim and write lock held, as in the next two
    | DidFinalize(gen: int)
    | DidIncrement(gen: int)
    | Unlocked(gen: int)            // claim held

  datatype Phase =
    | Start | Prepared
    | LookupsBlocked | DidMark | DidIncorporate | DidRetire | DidCommit
    | LookupsUnblocked
    | RefFreed | GenBumped
    | TryNext

  datatype JobPc =
    | Unqueued                       // the rotating thread has still to enqueue the task
    | Queued
    | Packing | DidPack | DidCompact
    | Incorporate(gen: int, phase: Phase)
    | JobDone

  datatype LookupPc<T> =
    | LkIdle
    | LkLocked(start: seq<T>)
    | LkGeneration(start: seq<T>, first: int)
    | LkScan(start: seq<T>, first: int, retired: int, next: int, view: seq<T>)
    | LkRead(start: seq<T>, first: int, retired: int, next: int, compacted: bool, view: seq<T>)
    | LkStopped(start: seq<T>, view: seq<T>) // a definitive message was found on the way
    | LkDone(start: seq<T>, view: seq<T>)

  datatype DropperPc = DropIdle | DropFreed(gen: int) | DropBumped(gen: int)

  datatype State<T> = State(
    mt: seq<Memtable<T>>,
    generation: int,
    toIncorporate: int,
    retired: int,            // generation_retired; -1 is (uint64)-1
    trunk: seq<T>,
    prepared: seq<T>,        // the trunk root built by trunk_incorporate_prepare
    inserters: seq<InserterPc<T>>,
    jobs: seq<JobPc>,        // jobs[g] is the flush task of generation g
    lookups: seq<LookupPc<T>>,
    droppers: seq<DropperPc>,
    iterRefs: multiset<int>, // generations referenced by live range iterators
    log: seq<T>,
    trunkUpto: int,          // the newest generation in `trunk`
    incorporator: int)       // the job that is incorporating, or -1

  datatype Step<T> =
    | InsGet(t: nat) | InsCheckReady(t: nat) | InsHasRoom(t: nat) | InsIsFull(t: nat)
    | InsTryClaim(t: nat) | InsLock(t: nat) | InsFinalize(t: nat) | InsIncrement(t: nat)
    | InsUnlock(t: nat) | InsUnclaim(t: nat)
    | InsTuple(t: nat, tuple: T) | InsFail(t: nat) | InsEnd(t: nat)
    | JobStep(j: nat)
    | LkStep(i: nat) | LkStop(i: nat) | LkIncRef(i: nat) | LkReset(i: nat)
    | DropStart(d: nat, gen: int) | DropStep(d: nat)

  // ----- locks, as the program counters say who holds them

  predicate HoldsInsertRead<T>(pc: InserterPc<T>) {
    pc.GotInsertLock? || pc.SawReady? || pc.SawNextReady? || pc.MayInsert? || pc.DidInsert?
  }

  predicate HoldsInsertWrite<T>(pc: InserterPc<T>) {
    pc.WriteLocked? || pc.DidFinalize? || pc.DidIncrement?
  }

  predicate HoldsInsertClaim<T>(pc: InserterPc<T>) {
    HoldsInsertWrite(pc) || pc.Claimed? || pc.Unlocked?
  }

  predicate HoldsLookupRead<T>(pc: LookupPc<T>) {
    !pc.LkIdle? && !pc.LkStopped? && !pc.LkDone?
  }

  predicate HoldsLookupWrite(pc: JobPc) {
    pc.Incorporate? && (pc.phase.LookupsBlocked? || pc.phase.DidMark? || pc.phase.DidIncorporate?
                        || pc.phase.DidRetire? || pc.phase.DidCommit?)
  }

  // ----- reading the ring

  function At<T>(s: State<T>, g: int): Memtable<T>
    requires |s.mt| > 0
  {
    s.mt[Slot(g, |s.mt|)]
  }

  function With<T>(s: State<T>, g: int, m: Memtable<T>): State<T>
    requires |s.mt| > 0
  {
    s.(mt := s.mt[Slot(g, |s.mt|) := m])
  }

  /** memtable_try_transition: the compare-and-swap alone. */
  function Cas<T>(m: Memtable<T>, old_: MtState, new_: MtState): Memtable<T> {
    if m.state == old_ then m.(state := new_) else m
  }

  predicate LookupCompacted(state: MtState) {
    state.Compacted? || state.IncorporationAssigned?
  }

  // ----- inserters

  predicate InsEnabled<T>(s: State<T>, step: Step<T>)
    requires |s.mt| > 0
  {
    match step
    case InsGet(t) =>
      t < |s.inserters| && s.inserters[t].InsIdle?
      && forall u | 0 <= u < |s.inserters| :: !HoldsInsertWrite(s.inserters[u])
    case InsCheckReady(t) => t < |s.inserters| && s.inserters[t].GotInsertLock?
    case InsHasRoom(t) => t < |s.inserters| && s.inserters[t].SawReady?
    case InsIsFull(t) => t < |s.inserters| && s.inserters[t].SawReady?
    case InsTryClaim(t) => t < |s.inserters| && s.inserters[t].SawNextReady?
    case InsLock(t) =>
      t < |s.inserters| && s.inserters[t].Claimed?
      && forall u | 0 <= u < |s.inserters| :: !HoldsInsertRead(s.inserters[u])
    case InsFinalize(t) => t < |s.inserters| && s.inserters[t].WriteLocked?
    case InsIncrement(t) => t < |s.inserters| && s.inserters[t].DidFinalize?
    case InsUnlock(t) => t < |s.inserters| && s.inserters[t].DidIncrement?
    case InsUnclaim(t) => t < |s.inserters| && s.inserters[t].Unlocked?
    case InsTuple(t, _) => t < |s.inserters| && s.inserters[t].MayInsert?
    case InsFail(t) => t < |s.inserters| && s.inserters[t].MayInsert?
    case InsEnd(t) => t < |s.inserters| && s.inserters[t].DidInsert?
    case _ => false
  }

  function InsApply<T>(s: State<T>, step: Step<T>): State<T>
    requires |s.mt| > 0 && InsEnabled(s, step)
  {
    match step
    case InsGet(t) => s.(inserters := s.inserters[t := GotInsertLock])
    case InsCheckReady(t) =>
      if !At(s, s.generation).state.Ready?
      then s.(inserters := s.inserters[t := InsIdle])
      else s.(inserters := s.inserters[t := SawReady(s.generation)])
    case InsHasRoom(t) => s.(inserters := s.inserters[t := MayInsert(s.inserters[t].gen)])
    case InsIsFull(t) =>
      var g := s.inserters[t].gen;
      if !At(s, g + 1).state.Ready?
      then s.(inserters := s.inserters[t := InsIdle])
      else s.(inserters := s.inserters[t := SawNextReady(g)])
    case InsTryClaim(t) =>
      if exists u | 0 <= u < |s.inserters| :: HoldsInsertClaim(s.inserters[u])
      then s.(inserters := s.inserters[t := InsIdle])
      else s.(inserters := s.inserters[t := Claimed(s.inserters[t].gen)])
    case InsLock(t) => s.(inserters := s.inserters[t := WriteLocked(s.inserters[t].gen)])
    case InsFinalize(t) =>
      var g := s.inserters[t].gen;
      With(s, g, Cas(At(s, g), Ready, Finalized)).(inserters := s.inserters[t := DidFinalize(g)])
    case InsIncrement(t) =>
      s.(generation := s.generation + 1,
         jobs := s.jobs + [Unqueued],
         inserters := s.inserters[t := DidIncrement(s.inserters[t].gen)])
    case InsUnlock(t) => s.(inserters := s.inserters[t := Unlocked(s.inserters[t].gen)])
    case InsUnclaim(t) => s.(inserters := s.inserters[t := InsIdle])
    case InsTuple(t, tuple) =>
      var g := s.inserters[t].gen;
      var m := At(s, g);
      With(s, g, m.(contents := m.contents + [tuple])).(
        inserters := s.inserters[t := DidInsert(g, tuple)],
        log := s.log + [tuple])
    case InsFail(t) => s.(inserters := s.inserters[t := InsIdle])
    case InsEnd(t) => s.(inserters := s.inserters[t := InsIdle])
  }

  predicate InsAsserts<T>(s: State<T>, step: Step<T>)
    requires |s.mt| > 0 && InsEnabled(s, step)
  {
    match step
    case InsFinalize(t) => At(s, s.inserters[t].gen).state.Ready?
    case InsIncrement(t) =>
      && s.generation + 1 - s.retired <= |s.mt|
      && s.inserters[t].gen == s.generation
    case InsTuple(t, _) => At(s, s.inserters[t].gen).generation == s.inserters[t].gen
    case _ => true
  }

  // ----- flush jobs

  predicate JobEnabled<T>(s: State<T>, j: nat)
    requires |s.mt| > 0
  {
    && j < |s.jobs|
    && !s.jobs[j].JobDone?
    && (s.jobs[j].Incorporate? && s.jobs[j].phase.Prepared? ==>
          && (forall i | 0 <= i < |s.lookups| :: !HoldsLookupRead(s.lookups[i]))
          && (forall k | 0 <= k < |s.jobs| :: !HoldsLookupWrite(s.jobs[k])))
  }

  function JobApply<T>(s: State<T>, j: nat): State<T>
    requires |s.mt| > 0 && JobEnabled(s, j)
  {
    match s.jobs[j]
    case Unqueued => s.(jobs := s.jobs[j := Queued])
    case Queued =>
      With(s, j, Cas(At(s, j), Finalized, Compacting)).(jobs := s.jobs[j := Packing])
    case Packing =>
      With(s, j, At(s, j).(branch := At(s, j).contents)).(jobs := s.jobs[j := DidPack])
    case DidPack =>
      With(s, j, Cas(At(s, j), Compacting, Compacted)).(jobs := s.jobs[j := DidCompact])
    case DidCompact =>
      // core_try_start_incorporate
      var m := At(s, j);
      if m.generation == j && j == s.toIncorporate && m.state.Compacted? then
        With(s, j, m.(state := IncorporationAssigned)).(
          jobs := s.jobs[j := Incorporate(j, Start)], incorporator := j)
      else
        s.(jobs := s.jobs[j := JobDone])
    case Incorporate(g, phase) => IncorporateApply(s, j, g, phase)
  }

  function IncorporateApply<T>(s: State<T>, j: nat, g: int, phase: Phase): State<T>
    requires |s.mt| > 0 && j < |s.jobs|
  {
    var m := At(s, g);
    match phase
    case Start =>
      s.(prepared := s.trunk + m.branch, jobs := s.jobs[j := Incorporate(g, Prepared)])
    case Prepared => s.(jobs := s.jobs[j := Incorporate(g, LookupsBlocked)])
    case LookupsBlocked =>
      With(s, g, Cas(m, IncorporationAssigned, Incorporating)).(
        jobs := s.jobs[j := Incorporate(g, DidMark)])
    case DidMark =>
      With(s, g, Cas(m, Incorporating, Incorporated)).(
        jobs := s.jobs[j := Incorporate(g, DidIncorporate)])
    case DidIncorporate =>
      s.(retired := s.retired + 1, jobs := s.jobs[j := Incorporate(g, DidRetire)])
    case DidRetire =>
      s.(trunk := s.prepared, trunkUpto := g, jobs := s.jobs[j := Incorporate(g, DidCommit)])
    case DidCommit => s.(jobs := s.jobs[j := Incorporate(g, LookupsUnblocked)])
    case LookupsUnblocked =>
      var r := DecRef(s, g, ByJob);
      if At(r, g).owner.Freed?
      then r.(jobs := s.jobs[j := Incorporate(g, RefFreed)])
      else r.(jobs := s.jobs[j := Incorporate(g, TryNext)])
    case RefFreed => Renumber(s, g).(jobs := s.jobs[j := Incorporate(g, GenBumped)])
    case GenBumped => Recycle(s, g).(jobs := s.jobs[j := Incorporate(g, TryNext)])
    case TryNext =>
      // core_try_continue_incorporate
      var n := At(s, g + 1);
      if n.generation != g + 1 then
        s.(jobs := s.jobs[j := JobDone], incorporator := -1)
      else if n.state.Compacted? then
        With(s, g + 1, n.(state := IncorporationAssigned)).(
          toIncorporate := s.toIncorporate + 1, jobs := s.jobs[j := Incorporate(g + 1, Start)])
      else
        s.(toIncorporate := s.toIncorporate + 1, jobs := s.jobs[j := JobDone], incorporator := -1)
  }

  /** The three accesses of memtable_dec_ref_maybe_recycle. */
  function DecRef<T>(s: State<T>, g: int, who: Recycler): State<T>
    requires |s.mt| > 0
  {
    var m := At(s, g);
    With(s, g,
      if m.refs == 1 then m.(refs := 1, contents := [], owner := Freed(who))
      else m.(refs := if m.refs == 0 then 0 else m.refs - 1,
              owner := if who.ByJob? then Shared else m.owner))
  }

  function Renumber<T>(s: State<T>, g: int): State<T>
    requires |s.mt| > 0
  {
    var m := At(s, g);
    With(s, g, m.(generation := m.generation + |s.mt|,
                  owner := if m.owner.Freed? then Renumbered(m.owner.who) else m.owner))
  }

  function Recycle<T>(s: State<T>, g: int): State<T>
    requires |s.mt| > 0
  {
    With(s, g, Cas(At(s, g), Incorporated, Ready).(owner := Owned))
  }

  predicate JobAsserts<T>(s: State<T>, j: nat)
    requires |s.mt| > 0 && JobEnabled(s, j)
  {
    var m := At(s, j);
    match s.jobs[j]
    case Unqueued => m.generation == j && !m.state.Ready?
    case Queued => m.generation == j && m.state.Finalized?
    case Packing => m.generation == j && !m.state.Ready?
    case DidPack => m.state.Compacting?
    case DidCompact => true
    case Incorporate(g, phase) => IncorporateAsserts(s, g, phase)
  }

  predicate IncorporateAsserts<T>(s: State<T>, g: int, phase: Phase)
    requires |s.mt| > 0
  {
    var m := At(s, g);
    match phase
    case Start => m.generation == g && !m.state.Ready?
    case LookupsBlocked =>
      m.generation == g && g == s.toIncorporate && m.state.IncorporationAssigned?
    case DidMark => m.state.Incorporating?
    case DidIncorporate => s.retired + 1 == g
    case LookupsUnblocked => m.refs > 0 && (m.refs == 1 ==> m.state.Incorporated?)
    case GenBumped => m.state.Incorporated?
    case TryNext =>
      // the next slot always carries the next generation
      At(s, g + 1).generation == g + 1 && s.toIncorporate + 1 == g + 1
    case _ => true
  }

  // ----- lookups

  predicate LkEnabled<T>(s: State<T>, i: nat) {
    && i < |s.lookups|
    && !s.lookups[i].LkStopped? && !s.lookups[i].LkDone?
    && (s.lookups[i].LkIdle? ==> forall j | 0 <= j < |s.jobs| :: !HoldsLookupWrite(s.jobs[j]))
  }

  function LkApply<T>(s: State<T>, i: nat): State<T>
    requires |s.mt| > 0 && LkEnabled(s, i)
  {
    match s.lookups[i]
    case LkIdle => s.(lookups := s.lookups[i := LkLocked(s.log)])
    case LkLocked(start) => s.(lookups := s.lookups[i := LkGeneration(start, s.generation)])
    case LkGeneration(start, first) =>
      s.(lookups := s.lookups[i := LkScan(start, first, s.retired, first, [])])
    case LkScan(start, first, retired, next, view) =>
      if next != retired then
        s.(lookups :=
             s.lookups[i := LkRead(start, first, retired, next, LookupCompacted(At(s, next).state), view)])
      else
        s.(lookups := s.lookups[i := LkDone(start, s.trunk + view)])
    case LkRead(start, first, retired, next, compacted, view) =>
      var m := At(s, next);
      var tuples := if compacted then m.branch else m.contents;
      s.(lookups := s.lookups[i := LkScan(start, first, retired, next - 1, tuples + view)])
  }

  predicate LkAsserts<T>(s: State<T>, i: nat)
    requires |s.mt| > 0 && LkEnabled(s, i)
  {
    match s.lookups[i]
    case LkGeneration(start, first) => 0 < first - s.retired <= |s.mt|
    case LkScan(start, first, retired, next, view) =>
      next != retired ==>
        && At(s, next).generation == next
        && !At(s, next).state.Incorporating? && !At(s, next).state.Incorporated?
    case _ => true
  }

  /** After a memtable was read, a lookup may release its lock and end. */
  predicate LkStopEnabled<T>(s: State<T>, i: nat) {
    i < |s.lookups| && s.lookups[i].LkScan? && s.lookups[i].next < s.lookups[i].first
  }

  function LkStopApply<T>(s: State<T>, i: nat): State<T>
    requires LkStopEnabled(s, i)
  {
    s.(lookups := s.lookups[i := LkStopped(s.lookups[i].start, s.lookups[i].view)])
  }

  /** A range iterator takes a reference on a memtable that is not compacted. */
  predicate LkIncRefEnabled<T>(s: State<T>, i: nat) {
    i < |s.lookups| && s.lookups[i].LkRead? && !s.lookups[i].compacted
  }

  function LkIncRefApply<T>(s: State<T>, i: nat): State<T>
    requires |s.mt| > 0 && LkIncRefEnabled(s, i)
  {
    var g := s.lookups[i].next;
    With(s, g, At(s, g).(refs := At(s, g).refs + 1)).(iterRefs := s.iterRefs + multiset{g})
  }

  // ----- iterators giving references back

  predicate DropEnabled<T>(s: State<T>, step: Step<T>) {
    match step
    case DropStart(d, g) => d < |s.droppers| && s.droppers[d].DropIdle? && g in s.iterRefs
    case DropStep(d) => d < |s.droppers| && !s.droppers[d].DropIdle?
    case _ => false
  }

  function DropApply<T>(s: State<T>, step: Step<T>): State<T>
    requires |s.mt| > 0 && DropEnabled(s, step)
  {
    match step
    case DropStart(d, g) =>
      var r := DecRef(s, g, ByDropper(d)).(iterRefs := s.iterRefs - multiset{g});
      if At(r, g).owner.Freed? then r.(droppers := s.droppers[d := DropFreed(g)]) else r
    case DropStep(d) =>
      match s.droppers[d]
      case DropFreed(g) => Renumber(s, g).(droppers := s.droppers[d := DropBumped(g)])
      case DropBumped(g) => Recycle(s, g).(droppers := s.droppers[d := DropIdle])
  }

  predicate DropAsserts<T>(s: State<T>, step: Step<T>)
    requires |s.mt| > 0 && DropEnabled(s, step)
  {
    match step
    case DropStart(d, g) =>
      var m := At(s, g);
      m.generation == g && m.refs > 0 && (m.refs == 1 ==> m.state.Incorporated?)
    case DropStep(d) => s.droppers[d].DropBumped? ==> At(s, s.droppers[d].gen).state.Incorporated?
  }

  // ----- all steps

  predicate Enabled<T>(s: State<T>, step: Step<T>)
    requires |s.mt| > 0
  {
    match step
    case JobStep(j) => JobEnabled(s, j)
    case LkStep(i) => LkEnabled(s, i)
    case LkStop(i) => LkStopEnabled(s, i)
    case LkIncRef(i) => LkIncRefEnabled(s, i)
    case LkReset(i) => i < |s.lookups| && (s.lookups[i].LkStopped? || s.lookups[i].LkDone?)
    case DropStart(_, _) => DropEnabled(s, step)
    case DropStep(_) => DropEnabled(s, step)
    case _ => InsEnabled(s, step)
  }

  function Apply<T>(s: State<T>, step: Step<T>): State<T>
    requires |s.mt| > 0 && Enabled(s, step)
  {
    match step
    case JobStep(j) => JobApply(s, j)
    case LkStep(i) => LkApply(s, i)
    case LkStop(i) => LkStopApply(s, i)
    case LkIncRef(i) => LkIncRefApply(s, i)
    case LkReset(i) => s.(lookups := s.lookups[i := LkIdle])
    case DropStart(_, _) => DropApply(s, step)
    case DropStep(_) => DropApply(s, step)
    case _ => InsApply(s, step)
  }

  /** The assertions that the code executes in this step. */
  predicate Asserts<T>(s: State<T>, step: Step<T>)
    requires |s.mt| > 0 && Enabled(s, step)
  {
    match step
    case JobStep(j) => JobAsserts(s, j)
    case LkStep(i) => LkAsserts(s, i)
    case LkIncRef(i) => At(s, s.lookups[i].next).generation == s.lookups[i].next
    case LkStop(_) => true
    case LkReset(_) => true
    case DropStart(_, _) => DropAsserts(s, step)
    case DropStep(_) => DropAsserts(s, step)
    case _ => InsAsserts(s, step)
  }
}
