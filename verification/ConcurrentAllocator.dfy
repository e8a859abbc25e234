/** The extent allocator with several threads.

    Every step is one access to shared memory: reading the hand, drawing the next value of the hand,
    reading a reference count, the compare-and-swap, an increment or decrement, and the update of the
    counter of allocated extents.

    `held` and `used` are history variables: the references that each thread holds, and for each
    thread the extents that have been in use at some moment since it began to allocate. */
module ConcurrentAllocator {
  import opened Modulo
  import opened RcAllocator

  datatype Pc =
    | Idle
    | Began(start: nat)             // the hand was read; `start` is the value it had
    | Drew(start: nat, hand: nat)   // the hand was fetched and incremented
    | SawFree(start: nat, hand: nat)
    | Passed(start: nat, hand: nat) // the extent was in use, or somebody else was faster
    | Took(extent: nat)             // the extent is taken, and not counted yet
    | Dropped                       // an extent became free, and is counted yet

  datatype State = State(
    counts: seq<nat>,
    hand: nat,
    currAllocated: int,
    pcs: seq<Pc>,
    held: seq<multiset<nat>>,
    used: seq<set<nat>>)

  datatype Step =
    | Begin(t: nat) | Draw(t: nat) | Look(t: nat) | Swap(t: nat) | Again(t: nat) | Fail(t: nat)
    | Count(t: nat) | Uncount(t: nat)
    | Inc(t: nat, e: nat) | Dec(t: nat, e: nat) | HandOver(t: nat, u: nat, e: nat)

  ghost predicate Shape(s: State) {
    |s.counts| > 0 && |s.held| == |s.used| == |s.pcs|
  }

  function ExtentOf(s: State, hand: nat): nat
    requires |s.counts| > 0
  {
    Wrap(hand, |s.counts|)
  }

  /** The loop ends when the next extent would be the first one. */
  predicate Round(s: State, start: nat, hand: nat)
    requires |s.counts| > 0
  {
    Wrap(ExtentOf(s, hand) + 1, |s.counts|) == ExtentOf(s, start)
  }

  ghost predicate Enabled(s: State, step: Step)
    requires Shape(s)
  {
    && step.t < |s.pcs|
    && match step
       case Begin(t) => s.pcs[t].Idle?
       case Draw(t) => s.pcs[t].Began?
       case Look(t) => s.pcs[t].Drew?
       case Swap(t) => s.pcs[t].SawFree?
       case Again(t) => s.pcs[t].Passed? && !Round(s, s.pcs[t].start, s.pcs[t].hand)
       case Fail(t) => s.pcs[t].Passed? && Round(s, s.pcs[t].start, s.pcs[t].hand)
       case Count(t) => s.pcs[t].Took?
       case Uncount(t) => s.pcs[t].Dropped?
       case Inc(t, e) => s.pcs[t].Idle? && e < |s.counts| && e in s.held[t]
       case Dec(t, e) => s.pcs[t].Idle? && e < |s.counts| && e in s.held[t]
       case HandOver(t, u, e) => u < |s.pcs| && u != t && e < |s.counts| && e in s.held[t]
  }

  /** What the step does to the shared memory, the program counters and the references. */
  function Effect(s: State, step: Step): State
    requires Shape(s) && Enabled(s, step)
  {
    match step
    case Begin(t) => s.(pcs := s.pcs[t := Began(s.hand)])
    case Draw(t) => s.(hand := s.hand + 1, pcs := s.pcs[t := Drew(s.pcs[t].start, s.hand)])
    case Look(t) =>
      var pc := s.pcs[t];
      s.(pcs := s.pcs[t := if s.counts[ExtentOf(s, pc.hand)] == AL_FREE then SawFree(pc.start, pc.hand)
                           else Passed(pc.start, pc.hand)])
    case Swap(t) =>
      var pc, e := s.pcs[t], ExtentOf(s, s.pcs[t].hand);
      if s.counts[e] == AL_FREE then
        s.(counts := s.counts[e := AL_ONE_REF], pcs := s.pcs[t := Took(e)],
           held := s.held[t := s.held[t] + multiset{e, e}])
      else
        s.(pcs := s.pcs[t := Passed(pc.start, pc.hand)])
    case Again(t) => s.(pcs := s.pcs[t := Began(s.pcs[t].start)])
    case Fail(t) => s.(pcs := s.pcs[t := Idle])
    case Count(t) => s.(currAllocated := s.currAllocated + 1, pcs := s.pcs[t := Idle])
    case Uncount(t) => s.(currAllocated := s.currAllocated - 1, pcs := s.pcs[t := Idle])
    case Inc(t, e) =>
      s.(counts := s.counts[e := s.counts[e] + 1], held := s.held[t := s.held[t] + multiset{e}])
    case Dec(t, e) =>
      var c: nat := if s.counts[e] > 0 then s.counts[e] - 1 else 0;
      s.(counts := s.counts[e := c], held := s.held[t := s.held[t] - multiset{e}],
         pcs := if c == AL_FREE then s.pcs[t := Dropped] else s.pcs)
    case HandOver(t, u, e) =>
      s.(held := s.held[t := s.held[t] - multiset{e}][u := s.held[u] + multiset{e}])
  }

  function InUseSet(counts: seq<nat>): set<nat> {
    set e | 0 <= e < |counts| && counts[e] != AL_FREE
  }

  /** The history of a thread begins anew when it begins to allocate. */
  function NewUsed(s: State, step: Step): seq<set<nat>>
    requires Shape(s) && Enabled(s, step)
  {
    seq(|s.used|, t requires 0 <= t < |s.used| =>
      (if step == Begin(t) then {} else s.used[t]) + InUseSet(Effect(s, step).counts))
  }

  function Apply(s: State, step: Step): State
    requires Shape(s) && Enabled(s, step)
  {
    Effect(s, step).(used := NewUsed(s, step))
  }

  /** The assertions of the code: the count after an increment is neither 0 nor 1, and that before a
      decrement is not 0. */
  predicate Asserts(s: State, step: Step)
    requires Shape(s) && Enabled(s, step)
  {
    match step
    case Inc(t, e) => s.counts[e] + 1 != AL_FREE && s.counts[e] + 1 != AL_NO_REFS
    case Dec(t, e) => s.counts[e] != 0
    case _ => true
  }

  // ----- the invariant

  /** All references to an extent. */
  function Refs(held: seq<multiset<nat>>, e: nat): nat {
    if held == [] then 0 else Refs(held[..|held| - 1], e) + held[|held| - 1][e]
  }

  lemma {:induction false} RefsUpdate(held: seq<multiset<nat>>, t: nat, m: multiset<nat>, e: nat)
    requires t < |held|
    ensures Refs(held[t := m], e) == Refs(held, e) - held[t][e] + m[e] && Refs(held, e) >= held[t][e]
  {
    var n := |held| - 1;
    if t == n {
      assert held[t := m][..n] == held[..n];
    } else {
      assert held[t := m][..n] == held[..n][t := m];
      RefsUpdate(held[..n], t, m, e);
    }
  }

  /** Extents that are taken and not counted, less those that are free and counted. */
  function Uncounted(pcs: seq<Pc>): int {
    if pcs == [] then 0
    else Uncounted(pcs[..|pcs| - 1]) + Weight(pcs[|pcs| - 1])
  }

  function Weight(pc: Pc): int {
    if pc.Took? then 1 else if pc.Dropped? then -1 else 0
  }

  lemma {:induction false} UncountedUpdate(pcs: seq<Pc>, t: nat, pc: Pc)
    requires t < |pcs|
    ensures Uncounted(pcs[t := pc]) == Uncounted(pcs) - Weight(pcs[t]) + Weight(pc)
  {
    var n := |pcs| - 1;
    if t == n {
      assert pcs[t := pc][..n] == pcs[..n];
    } else {
      assert pcs[t := pc][..n] == pcs[..n][t := pc];
      UncountedUpdate(pcs[..n], t, pc);
    }
  }

  ghost predicate RefsOk(s: State)
    requires Shape(s)
  {
    && (forall e | 0 <= e < |s.counts| :: s.counts[e] == Refs(s.held, e))
    && s.currAllocated + Uncounted(s.pcs) == InUse(s.counts)
  }

  /** The thread has drawn this extent and has still to find out whether it is free. */
  predicate HasDrawn(s: State, u: nat, e: nat)
    requires |s.counts| > 0 && u < |s.pcs|
  {
    (s.pcs[u].Drew? || s.pcs[u].SawFree?) && ExtentOf(s, s.pcs[u].hand) == e
  }

  /** The extent was in use since the thread began, or somebody is about to look at it. */
  ghost predicate Accounted(s: State, t: nat, e: nat)
    requires Shape(s) && t < |s.pcs|
  {
    e in s.used[t] || exists u | 0 <= u < |s.pcs| :: HasDrawn(s, u, e)
  }

  ghost predicate ScanOk(s: State, t: nat)
    requires Shape(s) && t < |s.pcs|
  {
    var pc := s.pcs[t];
    && (pc.Began? ==> pc.start <= s.hand)
    && (pc.Drew? || pc.SawFree? || pc.Passed? ==> pc.start <= pc.hand < s.hand)
    && (pc.Began? || pc.Drew? || pc.SawFree? || pc.Passed? ==>
          forall v | pc.start <= v < s.hand :: Accounted(s, t, ExtentOf(s, v)))
  }

  ghost predicate Inv(s: State) {
    && Shape(s) && RefsOk(s)
    && (forall t | 0 <= t < |s.pcs| :: InUseSet(s.counts) <= s.used[t])
    && forall t | 0 <= t < |s.pcs| :: ScanOk(s, t)
  }

  // ----- the steps

  lemma RefsPreserved(s: State, step: Step)
    requires Inv(s) && Enabled(s, step)
    ensures Asserts(s, step) && RefsOk(Effect(s, step))
  {
    hide InUse, Uncounted, Refs, ScanOk, Wrap;
    var r, t := Effect(s, step), step.t;
    if r.pcs != s.pcs {
      UncountedUpdate(s.pcs, t, r.pcs[t]);
      assert r.pcs == s.pcs[t := r.pcs[t]];
    }
    match step
    case Swap(_) =>
      var e := ExtentOf(s, s.pcs[t].hand);
      if s.counts[e] == AL_FREE {
        InUseUpdate(s.counts, e, AL_ONE_REF);
        HeldUpdate(s, t, s.held[t] + multiset{e, e});
      }
    case Inc(_, e) =>
      RefsUpdate(s.held, t, s.held[t], e);
      InUseUpdate(s.counts, e, s.counts[e] + 1);
      HeldUpdate(s, t, s.held[t] + multiset{e});
    case Dec(_, e) =>
      RefsUpdate(s.held, t, s.held[t], e);
      InUseUpdate(s.counts, e, s.counts[e] - 1);
      HeldUpdate(s, t, s.held[t] - multiset{e});
    case HandOver(_, u, e) =>
      HandedOver(s, t, u, e);
    case _ =>
  }

  lemma HeldUpdate(s: State, t: nat, m: multiset<nat>)
    requires t < |s.held|
    ensures forall e: nat :: Refs(s.held[t := m], e) == Refs(s.held, e) - s.held[t][e] + m[e]
  {
    forall e: nat ensures Refs(s.held[t := m], e) == Refs(s.held, e) - s.held[t][e] + m[e] {
      RefsUpdate(s.held, t, m, e);
    }
  }

  lemma HandedOver(s: State, t: nat, u: nat, e: nat)
    requires t < |s.held| && u < |s.held| && u != t && e in s.held[t]
    ensures var held := s.held[t := s.held[t] - multiset{e}][u := s.held[u] + multiset{e}];
            forall x: nat :: Refs(held, x) == Refs(s.held, x)
  {
    var mid := s.held[t := s.held[t] - multiset{e}];
    forall x: nat ensures Refs(mid[u := s.held[u] + multiset{e}], x) == Refs(s.held, x) {
      RefsUpdate(s.held, t, s.held[t] - multiset{e}, x);
      RefsUpdate(mid, u, s.held[u] + multiset{e}, x);
    }
  }

  /** A thread that has drawn an extent still has, or the extent is in use now. */
  lemma DrawnOrUsed(s: State, step: Step, u: nat, e: nat)
    requires Shape(s) && Enabled(s, step) && u < |s.pcs| && HasDrawn(s, u, e)
    ensures HasDrawn(Effect(s, step), u, e) || e in InUseSet(Effect(s, step).counts)
  {
  }

  lemma AccountedStays(s: State, step: Step, t: nat, e: nat)
    requires Shape(s) && Enabled(s, step) && t < |s.pcs| && step != Begin(t) && Accounted(s, t, e)
    ensures Accounted(Apply(s, step), t, e)
  {
    var r := Apply(s, step);
    if e !in s.used[t] {
      var u :| 0 <= u < |s.pcs| && HasDrawn(s, u, e);
      DrawnOrUsed(s, step, u, e);
      hide Effect, InUseSet;
      if HasDrawn(Effect(s, step), u, e) {
        assert HasDrawn(r, u, e);
      }
    }
  }

  lemma ScanPreserved(s: State, step: Step, t: nat)
    requires Inv(s) && Enabled(s, step) && t < |s.pcs|
    ensures ScanOk(Apply(s, step), t)
  {
    var r := Apply(s, step);
    var pc, pc' := s.pcs[t], r.pcs[t];
    assert ScanOk(s, t);
    if pc'.Began? || pc'.Drew? || pc'.SawFree? || pc'.Passed? {
      forall v | pc'.start <= v < r.hand ensures Accounted(r, t, ExtentOf(r, v)) {
        if v < s.hand {
          assert Accounted(s, t, ExtentOf(s, v));
          AccountedStays(s, step, t, ExtentOf(s, v));
        } else {
          assert HasDrawn(r, step.t, ExtentOf(r, v));
        }
      }
    }
  }

  /** One step of any thread keeps the invariant, and fails no assertion. */
  lemma StepPreserves(s: State, step: Step)
    requires Inv(s) && Enabled(s, step)
    ensures Asserts(s, step) && Inv(Apply(s, step))
  {
    RefsPreserved(s, step);
    var r := Apply(s, step);
    forall t | 0 <= t < |r.pcs| ensures ScanOk(r, t) {
      ScanPreserved(s, step, t);
    }
    hide ScanOk, RefsOk, Asserts;
    SameRefs(Effect(s, step), r);
  }

  lemma SameRefs(a: State, b: State)
    requires Shape(a) && Shape(b) && RefsOk(a) && b == a.(used := b.used)
    ensures RefsOk(b)
  {
  }

  // ----- what it means

  /** An extent that an allocation takes is nobody else's. */
  lemma TakenIsOwn(s: State, t: nat)
    requires Inv(s) && Enabled(s, Swap(t)) && Apply(s, Swap(t)).pcs[t].Took?
    ensures var e := Apply(s, Swap(t)).pcs[t].extent;
            && e < |s.counts| && s.counts[e] == AL_FREE
            && forall u | 0 <= u < |s.held| :: e !in s.held[u]
  {
    var e := ExtentOf(s, s.pcs[t].hand);
    forall u | 0 <= u < |s.held| ensures e !in s.held[u] {
      RefsUpdate(s.held, u, s.held[u], e);
    }
  }

  /** Drawing on from the first value covers every extent when the loop ends. */
  lemma RoundCovers(start: nat, hand: nat, n: nat, e: nat)
    requires n > 0 && e < n && start <= hand && Wrap(Wrap(hand, n) + 1, n) == Wrap(start, n)
    ensures exists v | start <= v <= hand :: Wrap(v, n) == e
  {
    var a, b := Wrap(start, n), Wrap(hand, n);
    var i := if e >= a then e - a else e + n - a;
    StepOfHand(start, i, n);
    assert Wrap(start + i, n) == e;
    Laps(start, hand, n);
  }

  lemma Laps(start: nat, hand: nat, n: nat)
    requires n > 0 && start <= hand && Wrap(Wrap(hand, n) + 1, n) == Wrap(start, n)
    ensures start + n - 1 <= hand
  {
    if hand < start + n - 1 {
      StepOfHand(start, hand - start, n);
      RingNext(Wrap(start, n), hand - start, n);
      assert false;
    }
  }

  /** If an allocation fails, every extent has been in use at some moment since it began, or another
      allocation has drawn it and is about to look at it. */
  lemma FailureIsSound(s: State, t: nat, e: nat)
    requires Inv(s) && Enabled(s, Fail(t)) && e < |s.counts|
    ensures e in s.used[t] || exists u | 0 <= u < |s.pcs| && u != t :: HasDrawn(s, u, e)
  {
    var pc := s.pcs[t];
    assert ScanOk(s, t);
    RoundCovers(pc.start, pc.hand, |s.counts|, e);
    var v :| pc.start <= v <= pc.hand && Wrap(v, |s.counts|) == e;
    assert Accounted(s, t, ExtentOf(s, v));
    hide Wrap;
    if e !in s.used[t] {
      var u :| 0 <= u < |s.pcs| && HasDrawn(s, u, e);
      assert u != t;
    }
  }

  /** While no thread is between the two accesses, the counter is exact. */
  lemma QuietCounter(s: State)
    requires Inv(s) && forall t | 0 <= t < |s.pcs| :: !s.pcs[t].Took? && !s.pcs[t].Dropped?
    ensures s.currAllocated == InUse(s.counts)
  {
    NothingUncounted(s.pcs);
  }

  lemma {:induction false} NothingUncounted(pcs: seq<Pc>)
    requires forall t | 0 <= t < |pcs| :: !pcs[t].Took? && !pcs[t].Dropped?
    ensures Uncounted(pcs) == 0
  {
    if pcs != [] {
      NothingUncounted(pcs[..|pcs| - 1]);
    }
  }

  // ----- whole runs

  /** Nobody at work, and every count is that of the references that are held. */
  ghost predicate Init(s: State) {
    && Shape(s) && (forall t | 0 <= t < |s.pcs| :: s.pcs[t] == Idle && s.used[t] == InUseSet(s.counts))
    && (forall e | 0 <= e < |s.counts| :: s.counts[e] == Refs(s.held, e))
    && s.currAllocated == InUse(s.counts)
  }

  ghost predicate Run(states: seq<State>, steps: seq<Step>) {
    && |states| == |steps| + 1 && Init(states[0])
    && forall i | 0 <= i < |steps| :: IsStep(states[i], steps[i], states[i + 1])
  }

  ghost predicate IsStep(s: State, step: Step, r: State) {
    Shape(s) && Enabled(s, step) && r == Apply(s, step)
  }

  lemma InitInv(s: State)
    requires Init(s)
    ensures Inv(s)
  {
    NothingUncounted(s.pcs);
  }

  lemma {:induction false} RunsAreSafe(states: seq<State>, steps: seq<Step>, n: nat)
    requires Run(states, steps) && n < |states|
    ensures Inv(states[n])
    ensures n < |steps| ==> Shape(states[n]) && Enabled(states[n], steps[n]) && Asserts(states[n], steps[n])
  {
    hide Inv, Init, IsStep, Asserts;
    if n == 0 {
      InitInv(states[0]);
    } else {
      RunsAreSafe(states, steps, n - 1);
      NextInv(states[n - 1], steps[n - 1], states[n]);
    }
    if n < |steps| {
      NextInv(states[n], steps[n], states[n + 1]);
    }
  }

  lemma NextInv(s: State, step: Step, r: State)
    requires Inv(s) && IsStep(s, step, r)
    ensures Shape(s) && Enabled(s, step) && Asserts(s, step) && Inv(r)
  {
    StepPreserves(s, step);
  }

  // ----- an allocation that fails although an extent is free

  const CROWDED := [Begin(0), Begin(1), Draw(0), Look(0), Again(0), Draw(1), Draw(0), Look(0)]

  function Crowded(pc0: Pc, pc1: Pc, hand: nat): State {
    State([2, 0, 2], hand, 2, [pc0, pc1], [multiset{0, 0, 2, 2}, multiset{}], [{0, 2}, {0, 2}])
  }

  lemma FirstSteps()
    ensures IsStep(Crowded(Idle, Idle, 0), CROWDED[0], Crowded(Began(0), Idle, 0))
    ensures IsStep(Crowded(Began(0), Idle, 0), CROWDED[1], Crowded(Began(0), Began(0), 0))
    ensures IsStep(Crowded(Began(0), Began(0), 0), CROWDED[2], Crowded(Drew(0, 0), Began(0), 1))
    ensures IsStep(Crowded(Drew(0, 0), Began(0), 1), CROWDED[3], Crowded(Passed(0, 0), Began(0), 1))
  {
    Wraps();
    hide Wrap, IsStep;
    StepIs(Idle, Idle, 0, Begin(0), Began(0), Idle, 0);
    StepIs(Began(0), Idle, 0, Begin(1), Began(0), Began(0), 0);
    StepIs(Began(0), Began(0), 0, Draw(0), Drew(0, 0), Began(0), 1);
    StepIs(Drew(0, 0), Began(0), 1, Look(0), Passed(0, 0), Began(0), 1);
  }

  lemma LastSteps()
    ensures IsStep(Crowded(Passed(0, 0), Began(0), 1), CROWDED[4], Crowded(Began(0), Began(0), 1))
    ensures IsStep(Crowded(Began(0), Began(0), 1), CROWDED[5], Crowded(Began(0), Drew(0, 1), 2))
    ensures IsStep(Crowded(Began(0), Drew(0, 1), 2), CROWDED[6], Crowded(Drew(0, 2), Drew(0, 1), 3))
    ensures IsStep(Crowded(Drew(0, 2), Drew(0, 1), 3), CROWDED[7], Crowded(Passed(0, 2), Drew(0, 1), 3))
  {
    Wraps();
    hide Wrap, IsStep;
    StepIs(Passed(0, 0), Began(0), 1, Again(0), Began(0), Began(0), 1);
    StepIs(Began(0), Began(0), 1, Draw(1), Began(0), Drew(0, 1), 2);
    StepIs(Began(0), Drew(0, 1), 2, Draw(0), Drew(0, 2), Drew(0, 1), 3);
    StepIs(Drew(0, 2), Drew(0, 1), 3, Look(0), Passed(0, 2), Drew(0, 1), 3);
  }

  lemma Wraps()
    ensures Wrap(0, 3) == 0 && Wrap(1, 3) == 1 && Wrap(2, 3) == 2 && Wrap(3, 3) == 0
  {
  }

  lemma StepIs(pc0: Pc, pc1: Pc, hand: nat, step: Step, pc0': Pc, pc1': Pc, hand': nat)
    requires var s := Crowded(pc0, pc1, hand);
             && Enabled(s, step)
             && Effect(s, step) == s.(hand := hand', pcs := [pc0', pc1'])
    ensures IsStep(Crowded(pc0, pc1, hand), step, Crowded(pc0', pc1', hand'))
  {
    var s := Crowded(pc0, pc1, hand);
    hide Effect, Enabled;
    assert InUseSet(s.counts) == {0, 2} && Effect(s, step).counts == s.counts;
    var used := NewUsed(s, step);
    assert used[0] == {0, 2} && used[1] == {0, 2};
    assert used == [{0, 2}, {0, 2}];
  }

  /** A run of two allocations over three extents, of which one is free: the second thread draws the
      free extent, and before it looks at it the first one has gone round and fails. */
  lemma FreeExtentMissed() returns (states: seq<State>)
    ensures Run(states, CROWDED)
    ensures var s := states[|CROWDED|]; Shape(s) && Enabled(s, Fail(0)) && |s.counts| == 3 && s.counts[1] == AL_FREE
  {
    FirstSteps();
    LastSteps();
    Wraps();
    hide Wrap, IsStep;
    states := [
      Crowded(Idle, Idle, 0), Crowded(Began(0), Idle, 0), Crowded(Began(0), Began(0), 0),
      Crowded(Drew(0, 0), Began(0), 1), Crowded(Passed(0, 0), Began(0), 1), Crowded(Began(0), Began(0), 1),
      Crowded(Began(0), Drew(0, 1), 2), Crowded(Drew(0, 2), Drew(0, 1), 3), Crowded(Passed(0, 2), Drew(0, 1), 3)];
    StartIs();
  }

  lemma StartIs()
    ensures Init(Crowded(Idle, Idle, 0))
  {
    var s := Crowded(Idle, Idle, 0);
    assert InUseSet(s.counts) == {0, 2};
    var one: seq<multiset<nat>> := [s.held[0]];
    assert s.held[..1] == one && one[..0] == [];
    forall e: nat ensures Refs(s.held, e) == s.held[0][e] + s.held[1][e] {
      assert Refs(one, e) == s.held[0][e];
    }
    var a: seq<nat>, b: seq<nat> := [2], [2, 0];
    assert s.counts[..2] == b && b[..1] == a && a[..0] == [];
    assert InUse(a) == 1 && InUse(b) == 1;
  }
}
