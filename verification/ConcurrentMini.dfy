/** mini_alloc called by several threads.

    A thread takes a batch by swapping a lock token for its next address, and gives it back with the
    address behind the one it hands out.  In between it may need the next extent of the batch, for
    which it gets a new one from the extent allocator, and an entry in the list of meta pages, which
    has a lock of its own.  Each of these is a step.

    `owner` and `handed` are history variables: the batch that each extent was obtained for, and the
    pages handed out so far. */
module ConcurrentMini {
  /** A next address: the lock token, an address where an extent ends, or a page inside an extent. */
  datatype Next = Locked | AtEnd | Page(extent: nat, page: nat)

  datatype Pc =
    | Idle
    | Holding(batch: nat, next: Next)              // the batch is locked, and this was its next address
    | NeedsEntry(batch: nat, extent: nat)          // the extent is to be recorded
    | Ready(batch: nat, extent: nat, page: nat)

  datatype State = State(
    next: seq<Next>,
    nextExtent: seq<nat>,
    recorded: seq<nat>,
    pcs: seq<Pc>,
    owner: map<nat, nat>,
    handed: seq<(nat, nat)>)

  datatype Step =
    | Lock(t: nat, batch: nat) | TakeExtent(t: nat, extent: nat) | Inside(t: nat) | Append(t: nat) | Unlock(t: nat)

  ghost predicate Shape(s: State) {
    |s.next| == |s.nextExtent|
  }

  predicate HasBatch(pc: Pc, b: nat) {
    !pc.Idle? && pc.batch == b
  }

  ghost predicate Enabled(s: State, step: Step) {
    && step.t < |s.pcs|
    && match step
       case Lock(t, b) => s.pcs[t].Idle? && b < |s.next| && !s.next[b].Locked?
       case TakeExtent(t, e) =>
         // the allocator gives an extent that is nobody's
         s.pcs[t].Holding? && s.pcs[t].next.AtEnd? && s.pcs[t].batch < |s.nextExtent| && e !in s.owner
       case Inside(t) => s.pcs[t].Holding? && s.pcs[t].next.Page?
       case Append(t) => s.pcs[t].NeedsEntry?
       case Unlock(t) => s.pcs[t].Ready? && s.pcs[t].batch < |s.next|
  }

  function Apply(s: State, step: Step, pagesPerExtent: nat): State
    requires Enabled(s, step)
  {
    var pc := s.pcs[step.t];
    match step
    case Lock(t, b) => s.(next := s.next[b := Locked], pcs := s.pcs[t := Holding(b, s.next[b])])
    case TakeExtent(t, e) =>
      s.(nextExtent := s.nextExtent[pc.batch := e], owner := s.owner[e := pc.batch],
         pcs := s.pcs[t := NeedsEntry(pc.batch, s.nextExtent[pc.batch])])
    case Inside(t) => s.(pcs := s.pcs[t := Ready(pc.batch, pc.next.extent, pc.next.page)])
    case Append(t) => s.(recorded := s.recorded + [pc.extent], pcs := s.pcs[t := Ready(pc.batch, pc.extent, 0)])
    case Unlock(t) =>
      s.(next := s.next[pc.batch := if pc.page + 1 < pagesPerExtent then Page(pc.extent, pc.page + 1) else AtEnd],
         pcs := s.pcs[t := Idle], handed := s.handed + [(pc.extent, pc.page)])
  }

  /** The lock token is what the unlocking thread finds, as asserted. */
  predicate Asserts(s: State, step: Step)
    requires Enabled(s, step)
  {
    match step
    case Unlock(t) => s.next[s.pcs[t].batch].Locked?
    case _ => true
  }

  // ----- the invariant

  /** The pages of the extent from this one on are free. */
  ghost predicate FreeFrom(s: State, extent: nat, page: nat) {
    forall i | 0 <= i < |s.handed| :: s.handed[i].0 == extent ==> s.handed[i].1 < page
  }

  ghost predicate NextOk(s: State, b: nat, next: Next, pagesPerExtent: nat) {
    next.Page? ==>
      && next.page < pagesPerExtent && next.extent in s.recorded && FreeFrom(s, next.extent, next.page)
      && next.extent in s.owner && s.owner[next.extent] == b
  }

  ghost predicate PcOk(s: State, pc: Pc, pagesPerExtent: nat)
    requires Shape(s)
  {
    match pc
    case Idle => true
    case Holding(b, next) => b < |s.next| && s.next[b].Locked? && !next.Locked? && NextOk(s, b, next, pagesPerExtent)
    case NeedsEntry(b, e) =>
      && b < |s.next| && s.next[b].Locked? && e in s.owner && s.owner[e] == b
      && e !in s.recorded && e != s.nextExtent[b] && FreeFrom(s, e, 0)
    case Ready(b, e, p) => b < |s.next| && s.next[b].Locked? && NextOk(s, b, Page(e, p), pagesPerExtent)
  }

  ghost predicate BatchOk(s: State, b: nat, pagesPerExtent: nat)
    requires Shape(s) && b < |s.next|
  {
    && NextOk(s, b, s.next[b], pagesPerExtent)
    && s.nextExtent[b] in s.owner && s.owner[s.nextExtent[b]] == b && s.nextExtent[b] !in s.recorded
  }

  ghost predicate HandedOk(s: State, pagesPerExtent: nat) {
    && (forall i | 0 <= i < |s.handed| :: s.handed[i].0 in s.recorded && s.handed[i].1 < pagesPerExtent)
    && forall i, j | 0 <= i < j < |s.handed| :: s.handed[i] != s.handed[j]
  }

  ghost predicate RecordedOk(s: State) {
    && (forall x | x in s.recorded :: x in s.owner)
    && forall i, j | 0 <= i < j < |s.recorded| :: s.recorded[i] != s.recorded[j]
  }

  /** An extent of this allocator is recorded, or the next one of its batch, or about to be recorded. */
  ghost predicate Placed(s: State, e: nat)
    requires e in s.owner
  {
    || e in s.recorded
    || (s.owner[e] < |s.nextExtent| && s.nextExtent[s.owner[e]] == e)
    || exists t | 0 <= t < |s.pcs| :: s.pcs[t] == NeedsEntry(s.owner[e], e)
  }

  ghost predicate Inv(s: State, pagesPerExtent: nat) {
    && pagesPerExtent > 0 && Shape(s) && HandedOk(s, pagesPerExtent) && RecordedOk(s)
    && (forall b | 0 <= b < |s.next| :: BatchOk(s, b, pagesPerExtent))
    && (forall e | e in s.owner :: Placed(s, e))
    && (forall t | 0 <= t < |s.pcs| :: PcOk(s, s.pcs[t], pagesPerExtent))
    && forall t, u | 0 <= t < u < |s.pcs| && !s.pcs[t].Idle? :: !HasBatch(s.pcs[u], s.pcs[t].batch)
  }

  // ----- the steps

  /** What belongs to other batches is not touched. */
  lemma OthersKept(s: State, step: Step, n: nat, b: nat, next: Next)
    requires Inv(s, n) && Enabled(s, step) && b != BatchOf(s, step) && NextOk(s, b, next, n)
    ensures NextOk(Apply(s, step, n), b, next, n)
  {
    var pc := s.pcs[step.t];
    assert PcOk(s, pc, n);
  }

  function BatchOf(s: State, step: Step): nat
    requires Enabled(s, step)
  {
    if step.Lock? then step.batch else s.pcs[step.t].batch
  }

  lemma PcPreserved(s: State, step: Step, n: nat, t: nat)
    requires Inv(s, n) && Enabled(s, step) && t < |s.pcs|
    ensures PcOk(Apply(s, step, n), Apply(s, step, n).pcs[t], n)
  {
    var r, pc := Apply(s, step, n), s.pcs[t];
    assert PcOk(s, pc, n) && PcOk(s, s.pcs[step.t], n);
    if t != step.t {
      if !pc.Idle? {
        assert step.Lock? ==> pc.batch != step.batch;
        assert pc.batch != BatchOf(s, step);
        if pc.Holding? {
          OthersKept(s, step, n, pc.batch, pc.next);
        } else if pc.Ready? {
          OthersKept(s, step, n, pc.batch, Page(pc.extent, pc.page));
        }
      }
    } else {
      assert BatchOk(s, BatchOf(s, step), n);
    }
  }

  lemma BatchPreserved(s: State, step: Step, n: nat, b: nat)
    requires Inv(s, n) && Enabled(s, step) && b < |s.next|
    ensures BatchOk(Apply(s, step, n), b, n)
  {
    assert PcOk(s, s.pcs[step.t], n) && BatchOk(s, b, n);
    if b != BatchOf(s, step) {
      OthersKept(s, step, n, b, s.next[b]);
    }
  }

  lemma HandedPreserved(s: State, step: Step, n: nat)
    requires Inv(s, n) && Enabled(s, step)
    ensures HandedOk(Apply(s, step, n), n) && RecordedOk(Apply(s, step, n)) && Asserts(s, step)
  {
    assert PcOk(s, s.pcs[step.t], n);
  }

  lemma PlacedPreserved(s: State, step: Step, n: nat, e: nat)
    requires Inv(s, n) && Enabled(s, step) && e in Apply(s, step, n).owner
    ensures Placed(Apply(s, step, n), e)
  {
    var r := Apply(s, step, n);
    if e in s.owner {
      assert Placed(s, e);
      assert PcOk(s, s.pcs[step.t], n);
      if step.TakeExtent? && s.owner[e] == s.pcs[step.t].batch && s.nextExtent[s.owner[e]] == e {
        assert r.pcs[step.t] == NeedsEntry(r.owner[e], e);
      } else if t :| 0 <= t < |s.pcs| && s.pcs[t] == NeedsEntry(s.owner[e], e) {
        assert t != step.t ==> r.pcs[t] == NeedsEntry(r.owner[e], e);
      }
    }
  }

  /** One step of any thread keeps the invariant, and fails no assertion. */
  lemma StepPreserves(s: State, step: Step, n: nat)
    requires Inv(s, n) && Enabled(s, step)
    ensures Asserts(s, step) && Inv(Apply(s, step, n), n)
  {
    var r := Apply(s, step, n);
    HandedPreserved(s, step, n);
    forall b | 0 <= b < |r.next| ensures BatchOk(r, b, n) {
      BatchPreserved(s, step, n, b);
    }
    forall t | 0 <= t < |r.pcs| ensures PcOk(r, r.pcs[t], n) {
      PcPreserved(s, step, n, t);
    }
    forall e | e in r.owner ensures Placed(r, e) {
      PlacedPreserved(s, step, n, e);
    }
    LocksPreserved(s, step, n);
    hide PcOk, BatchOk, HandedOk, RecordedOk, Placed;
  }

  lemma LocksPreserved(s: State, step: Step, n: nat)
    requires Inv(s, n) && Enabled(s, step)
    ensures var r := Apply(s, step, n);
            forall t, u | 0 <= t < u < |r.pcs| && !r.pcs[t].Idle? :: !HasBatch(r.pcs[u], r.pcs[t].batch)
  {
    hide HandedOk, RecordedOk, BatchOk, NextOk;
  }

  // ----- whole runs

  /** A new allocator: every batch has a next extent of its own. */
  ghost predicate Init(s: State) {
    && Shape(s) && s.recorded == [] && s.handed == [] && (forall t | 0 <= t < |s.pcs| :: s.pcs[t].Idle?)
    && (forall b | 0 <= b < |s.next| :: s.next[b].AtEnd? && s.nextExtent[b] in s.owner && s.owner[s.nextExtent[b]] == b)
    && forall e | e in s.owner :: s.owner[e] < |s.next| && s.nextExtent[s.owner[e]] == e
  }

  ghost predicate IsStep(s: State, step: Step, r: State, pagesPerExtent: nat) {
    Enabled(s, step) && r == Apply(s, step, pagesPerExtent)
  }

  ghost predicate Run(states: seq<State>, steps: seq<Step>, pagesPerExtent: nat) {
    && |states| == |steps| + 1 && Init(states[0])
    && forall i | 0 <= i < |steps| :: IsStep(states[i], steps[i], states[i + 1], pagesPerExtent)
  }

  lemma {:induction false} RunsAreSafe(states: seq<State>, steps: seq<Step>, n: nat, i: nat)
    requires n > 0 && Run(states, steps, n) && i < |states|
    ensures Inv(states[i], n)
    ensures i < |steps| ==> Enabled(states[i], steps[i]) && Asserts(states[i], steps[i])
  {
    hide Inv, IsStep, Asserts;
    if i == 0 {
      InitInv(states[0], n);
    } else {
      RunsAreSafe(states, steps, n, i - 1);
      NextInv(states[i - 1], steps[i - 1], states[i], n);
    }
    if i < |steps| {
      NextInv(states[i], steps[i], states[i + 1], n);
    }
  }

  lemma InitInv(s: State, n: nat)
    requires n > 0 && Init(s)
    ensures Inv(s, n)
  {
  }

  lemma NextInv(s: State, step: Step, r: State, n: nat)
    requires Inv(s, n) && IsStep(s, step, r, n)
    ensures Enabled(s, step) && Asserts(s, step) && Inv(r, n)
  {
    StepPreserves(s, step, n);
  }

  /** In every run, no page is handed out twice, and every page is in a recorded extent. */
  lemma PagesAreDistinct(states: seq<State>, steps: seq<Step>, n: nat, k: nat, i: nat, j: nat)
    requires n > 0 && Run(states, steps, n) && k < |states| && i < j < |states[k].handed|
    ensures states[k].handed[i] != states[k].handed[j]
    ensures states[k].handed[i].0 in states[k].recorded && states[k].handed[i].1 < n
  {
    RunsAreSafe(states, steps, n, k);
    hide Run, BatchOk, PcOk;
  }

  /** In every run, while nobody is allocating, the extents obtained are exactly those recorded and the
      spare one of each batch, which is what releasing and destroying the allocator gives back. */
  lemma NothingIsLost(states: seq<State>, steps: seq<Step>, n: nat, k: nat)
    requires n > 0 && Run(states, steps, n) && k < |states|
    requires forall t | 0 <= t < |states[k].pcs| :: states[k].pcs[t].Idle?
    ensures var s := states[k];
            s.owner.Keys == (set e | e in s.recorded) + (set b | 0 <= b < |s.nextExtent| :: s.nextExtent[b])
  {
    RunsAreSafe(states, steps, n, k);
    hide Run, PcOk;
    var s := states[k];
    forall b | 0 <= b < |s.next| ensures s.nextExtent[b] in s.owner {
      assert BatchOk(s, b, n);
    }
    forall e | e in s.owner ensures e in s.recorded || exists b | 0 <= b < |s.nextExtent| :: s.nextExtent[b] == e {
      assert Placed(s, e);
    }
  }
}
