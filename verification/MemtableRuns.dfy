/** What the invariant means for whole runs of the memtable protocol. */
module MemtableRuns {
  import opened Modulo
  import opened Ring
  import opened MemtableProtocol
  import opened MemtableSafety

  /** memtable_context_create over an existing trunk, with nobody at work. */
  ghost predicate Init<T>(s: State<T>) {
    && |s.mt| >= 2
    && (forall i | 0 <= i < |s.mt| :: s.mt[i] == Memtable(Ready, i, [], [], 1, Owned))
    && s.generation == 0 && s.toIncorporate == 0 && s.retired == -1
    && s.log == s.trunk
    && (forall t | 0 <= t < |s.inserters| :: s.inserters[t] == InsIdle)
    && s.jobs == []
    && (forall i | 0 <= i < |s.lookups| :: s.lookups[i] == LkIdle)
    && (forall d | 0 <= d < |s.droppers| :: s.droppers[d] == DropIdle)
    && s.iterRefs == multiset{}
    && s.trunkUpto == -1 && s.incorporator == -1
  }

  lemma InitInv<T>(s: State<T>)
    requires Init(s)
    ensures Inv(s)
  {
    forall g: int | 0 <= g < |s.mt| ensures Slot(g, |s.mt|) == g {
      ModIs(g, |s.mt|, 0, g);
    }
    hide Slot;
    assert Slot(0, |s.mt|) == 0;
    assert Upto(s, 0) == s.trunk + [];
  }

  ghost predicate Run<T>(states: seq<State<T>>, steps: seq<Step<T>>) {
    && |states| == |steps| + 1
    && Init(states[0])
    && forall i | 0 <= i < |steps| ::
         |states[i].mt| > 0 && Enabled(states[i], steps[i]) && states[i + 1] == Apply(states[i], steps[i])
  }

  /** In every run every state satisfies the invariant, and no assertion of the code fails. */
  lemma {:induction false} RunsAreSafe<T>(states: seq<State<T>>, steps: seq<Step<T>>, n: nat)
    requires Run(states, steps) && n < |states|
    ensures forall i | 0 <= i <= n :: Inv(states[i])
    ensures forall i | 0 <= i < n :: Asserts(states[i], steps[i])
  {
    hide Inv, Init, Enabled, Apply, Asserts;
    if n == 0 {
      InitInv(states[0]);
    } else {
      RunsAreSafe(states, steps, n - 1);
      StepPreserves(states[n - 1], steps[n - 1]);
    }
  }

  /** One step adds at most one tuple to the log. */
  lemma LogGrowsByOne<T>(s: State<T>, step: Step<T>)
    requires |s.mt| > 0 && Enabled(s, step)
    ensures var r := Apply(s, step); s.log <= r.log && |r.log| <= |s.log| + 1
  {
    hide Slot;
  }

  /** A lookup keeps the log it saw when it took its lock. */
  lemma StartIsKept<T>(s: State<T>, step: Step<T>, i: nat)
    requires |s.mt| > 0 && Enabled(s, step) && i < |s.lookups|
    requires !s.lookups[i].LkIdle? && !Apply(s, step).lookups[i].LkIdle?
    ensures Apply(s, step).lookups[i].start == s.lookups[i].start
  {
    if !step.LkStep? && !step.LkStop? && !step.LkReset? {
      LookupsUnmoved(s, step);
    } else {
      hide At, Slot;
    }
  }

  lemma LookupsUnmoved<T>(s: State<T>, step: Step<T>)
    requires |s.mt| > 0 && Enabled(s, step) && !step.LkStep? && !step.LkStop? && !step.LkReset?
    ensures Apply(s, step).lookups == s.lookups
  {
    hide At, Slot;
  }

  lemma {:induction false} LogMonotone<T>(states: seq<State<T>>, steps: seq<Step<T>>, a: nat, b: nat)
    requires Run(states, steps) && a <= b < |states|
    ensures states[a].log <= states[b].log
  {
    hide Init, Enabled, Apply;
    if a < b {
      LogMonotone(states, steps, a, b - 1);
      LogGrowsByOne(states[b - 1], steps[b - 1]);
    }
  }

  lemma {:induction false} LogTakesEveryLength<T>(
      states: seq<State<T>>, steps: seq<Step<T>>, a: nat, b: nat, length: nat) returns (k: nat)
    requires Run(states, steps) && a <= b < |states|
    requires |states[a].log| <= length <= |states[b].log|
    ensures a <= k <= b && |states[k].log| == length
  {
    hide Init, Enabled, Apply;
    if |states[b].log| == length {
      k := b;
    } else {
      LogGrowsByOne(states[b - 1], steps[b - 1]);
      k := LogTakesEveryLength(states, steps, a, b - 1, length);
    }
  }

  lemma LookupStarts<T>(s: State<T>, i: nat)
    requires |s.mt| > 0 && Enabled(s, LkStep(i)) && i < |s.lookups| && s.lookups[i].LkIdle?
    ensures var r := Apply(s, LkStep(i)); i < |r.lookups| && r.lookups[i] == LkLocked(s.log)
  {
  }

  lemma {:induction false} StartIsFirstLog<T>(
      states: seq<State<T>>, steps: seq<Step<T>>, i: nat, a: nat, b: nat)
    requires Run(states, steps) && a < b < |states|
    requires i < |states[a].lookups| && states[a].lookups[i].LkIdle? && steps[a] == LkStep(i)
    requires forall k | a < k <= b :: i < |states[k].lookups| && !states[k].lookups[i].LkIdle?
    ensures states[b].lookups[i].start == states[a].log
  {
    hide Init, Inv, Enabled, Apply;
    assert states[b] == Apply(states[b - 1], steps[b - 1]);
    if a + 1 == b {
      LookupStarts(states[a], i);
    } else {
      StartIsFirstLog(states, steps, i, a, b - 1);
      StartIsKept(states[b - 1], steps[b - 1], i);
    }
  }

  /** Lookups are linearizable.  A lookup that begins in state `a` and is done in state `b`, with
      any interleaving of inserts, rotations, compactions, incorporations, recycling and other
      lookups in between, reads exactly the tuples that had been inserted at one moment between
      `a` and `b`, each once and in the order of insertion.  In particular it sees every insert
      that completed before it began. */
  lemma LookupsAreLinearizable<T>(
      states: seq<State<T>>, steps: seq<Step<T>>, i: nat, a: nat, b: nat) returns (k: nat)
    requires Run(states, steps) && a < b < |states|
    requires i < |states[a].lookups| && states[a].lookups[i].LkIdle? && steps[a] == LkStep(i)
    requires forall k | a < k <= b :: i < |states[k].lookups| && !states[k].lookups[i].LkIdle?
    requires states[b].lookups[i].LkDone?
    ensures a <= k <= b
    ensures states[b].lookups[i].view == states[k].log
  {
    hide Init, Enabled, Apply, Inv;
    StartIsFirstLog(states, steps, i, a, b);
    RunsAreSafe(states, steps, b);
    LookupIsOk(states[b], i);
    var view := states[b].lookups[i].view;
    k := LogTakesEveryLength(states, steps, a, b, |view|);
    LogMonotone(states, steps, k, b);
    assert view == states[b].log[..|view|] == states[k].log;
  }

  /** A lookup that stops on its way has read the newest tuples that had been inserted at one moment
      while it ran, all of them from some point on. */
  lemma StoppedLookupsReadTheNewest<T>(
      states: seq<State<T>>, steps: seq<Step<T>>, i: nat, a: nat, b: nat) returns (k: nat, older: seq<T>)
    requires Run(states, steps) && a < b < |states|
    requires i < |states[a].lookups| && states[a].lookups[i].LkIdle? && steps[a] == LkStep(i)
    requires forall k | a < k <= b :: i < |states[k].lookups| && !states[k].lookups[i].LkIdle?
    requires states[b].lookups[i].LkStopped?
    ensures a <= k <= b
    ensures states[k].log == older + states[b].lookups[i].view
  {
    hide Init, Enabled, Apply, Inv;
    StartIsFirstLog(states, steps, i, a, b);
    RunsAreSafe(states, steps, b);
    LookupIsOk(states[b], i);
    var view := states[b].lookups[i].view;
    var p: nat :| ViewAt(states[b].log, view, p) && |states[b].lookups[i].start| <= p + |view|;
    k := LogTakesEveryLength(states, steps, a, b, p + |view|);
    LogMonotone(states, steps, k, b);
    older := states[b].log[..p];
    assert states[k].log == states[b].log[..p + |view|] == older + view;
  }

  lemma AtMostOneIncorporator<T>(s: State<T>, j: nat, k: nat)
    requires Inv(s) && j < |s.jobs| && k < |s.jobs|
    requires s.jobs[j].Incorporate? && s.jobs[k].Incorporate?
    ensures j == k
  {
    hide Slot, Upto, Inserters, Lookups, Refs, Slots;
  }

  /** Generations are retired one by one in order, by the only thread that is incorporating. */
  lemma RetiresInOrder<T>(s: State<T>, step: Step<T>)
    requires Inv(s) && Enabled(s, step)
    ensures var r := Apply(s, step);
            && s.retired <= r.retired <= s.retired + 1
            && (r.retired == s.retired + 1 <==>
                  step.JobStep? && s.jobs[step.j] == Incorporate(s.retired + 1, DidIncorporate))
            && (r.retired == s.retired + 1 ==>
                  forall k | 0 <= k < |s.jobs| :: s.jobs[k].Incorporate? ==> k == step.j)
  {
    hide Slot, Upto, Inserters, Lookups, Refs, Slots;
    if step.JobStep? && s.jobs[step.j].Incorporate? && s.jobs[step.j].phase.DidIncorporate? {
      RetirePreserves(s, step.j);
      forall k | 0 <= k < |s.jobs| && s.jobs[k].Incorporate? ensures k == step.j {
        AtMostOneIncorporator(s, k, step.j);
      }
    }
  }

  /** The trunk grows by exactly the tuples of the retired generation, once. */
  lemma TrunkGrowsInOrder<T>(s: State<T>, step: Step<T>)
    requires Inv(s) && Enabled(s, step)
    ensures var r := Apply(s, step);
            || (r.trunk == s.trunk && r.trunkUpto == s.trunkUpto)
            || (&& r.trunk == s.trunk + At(s, s.retired).contents
                && At(s, s.retired).generation == s.retired
                && s.trunkUpto + 1 == r.trunkUpto == s.retired)
  {
    hide Slot, Upto, Inserters, Lookups, Refs, Slots;
    if step.JobStep? && s.jobs[step.j].Incorporate? && s.jobs[step.j].phase.DidRetire? {
      assert step.j == s.incorporator;
    } else {
      TrunkUnmoved(s, step);
    }
  }

  lemma TrunkUnmoved<T>(s: State<T>, step: Step<T>)
    requires |s.mt| > 0 && Enabled(s, step)
    requires step.JobStep? ==> !(s.jobs[step.j].Incorporate? && s.jobs[step.j].phase.DidRetire?)
    ensures Apply(s, step).trunk == s.trunk && Apply(s, step).trunkUpto == s.trunkUpto
  {
    hide Slot;
  }

  /** If the generation to incorporate next is COMPACTED, its own flush job has yet to try. */
  lemma CompactedIsNotStranded<T>(s: State<T>)
    requires Inv(s) && s.toIncorporate < s.generation
    requires At(s, s.toIncorporate).generation == s.toIncorporate
    requires At(s, s.toIncorporate).state.Compacted?
    ensures s.jobs[s.toIncorporate].DidCompact?
  {
    TryStartGeneration(s, s.toIncorporate);
    hide Slot, Upto, Inserters, Lookups, Refs, Jobs;
    assert ActiveSlot(s, s.toIncorporate);
  }

  /** While a finalized generation waits, the flush job that will move it on has work to do,
      and that job, or a lookup it waits for, can take a step. */
  lemma NeverStranded<T>(s: State<T>) returns (j: nat)
    requires Inv(s) && s.retired + 1 < s.generation
    ensures j < |s.jobs| && !s.jobs[j].JobDone?
    ensures s.jobs[j].Incorporate? || j == s.retired + 1
    ensures JobEnabled(s, j) || exists i | 0 <= i < |s.lookups| :: HoldsLookupRead(s.lookups[i])
  {
    hide Slot, Upto, Inserters, Refs, Lookups;
    assert ActiveSlot(s, s.retired + 1);
    j := if s.incorporator >= 0 then s.incorporator else s.retired + 1;
  }
}
