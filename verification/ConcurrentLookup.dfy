/** core_lookup while other threads insert, rotate, compact, incorporate and recycle: the value that
    it returns, also if it stops at a definitive message. */
module ConcurrentLookup {
  import opened Messages
  import opened Lookup
  import opened MemtableProtocol
  import opened MemtableRuns

  /** The step in which a lookup searches a memtable. */
  ghost predicate Searches(s: State<Tuple>, step: Step<Tuple>, i: nat) {
    step == LkStep(i) && i < |s.lookups| && s.lookups[i].LkRead?
  }

  /** The tuples of the memtable that it searches. */
  function Searched(s: State<Tuple>, i: nat): seq<Tuple>
    requires |s.mt| > 0 && i < |s.lookups| && s.lookups[i].LkRead?
  {
    var m := At(s, s.lookups[i].next);
    if s.lookups[i].compacted then m.branch else m.contents
  }

  /** The accumulator of a lookup that begins in state `a`, in state `b`. */
  ghost function Accumulator(cfg: DataConfig, target: Key, states: seq<State<Tuple>>, steps: seq<Step<Tuple>>,
                             i: nat, a: nat, b: nat): Option<Message>
    requires Run(states, steps) && a <= b < |states|
  {
    if b == a then None
    else
      var acc := Accumulator(cfg, target, states, steps, i, a, b - 1);
      if Searches(states[b - 1], steps[b - 1], i)
      then Absorb(cfg, target, Tree(cfg, Searched(states[b - 1], i)), acc)
      else acc
  }

  /** The tuples of all memtables that were searched. */
  function ViewOf(pc: LookupPc<Tuple>): seq<Tuple> {
    if pc.LkScan? || pc.LkRead? then pc.view else []
  }

  lemma ViewStep(s: State<Tuple>, step: Step<Tuple>, i: nat)
    requires |s.mt| > 0 && Enabled(s, step) && i < |s.lookups|
    requires HoldsLookupRead(Apply(s, step).lookups[i])
    ensures ViewOf(Apply(s, step).lookups[i])
         == if Searches(s, step, i) then Searched(s, i) + ViewOf(s.lookups[i]) else ViewOf(s.lookups[i])
  {
    hide At;
  }

  /** From the begin of the lookup to this state it holds its lock. */
  ghost predicate Looking(states: seq<State<Tuple>>, steps: seq<Step<Tuple>>, i: nat, a: nat, b: nat) {
    && a < |steps| && b < |states| == |steps| + 1
    && i < |states[a].lookups| && states[a].lookups[i].LkIdle? && steps[a] == LkStep(i)
    && forall k | a < k <= b :: i < |states[k].lookups| && HoldsLookupRead(states[k].lookups[i])
  }

  /** The accumulator stands for the versions in all memtables that were searched. */
  lemma {:induction false} AccumulatorStands(cfg: DataConfig, target: Key, states: seq<State<Tuple>>,
                                             steps: seq<Step<Tuple>>, i: nat, a: nat, b: nat)
    requires Lawful(cfg) && Run(states, steps) && a <= b && Looking(states, steps, i, a, b)
    ensures Stands(cfg, target, Accumulator(cfg, target, states, steps, i, a, b),
                   Versions(ViewOf(states[b].lookups[i]), target))
  {
    hide Init, Enabled, Apply, Absorb, Stands, Lawful, At;
    if a == b {
      NothingStands(cfg, target);
    } else {
      AccumulatorStands(cfg, target, states, steps, i, a, b - 1);
      NextState(states, steps, b - 1);
      ViewStep(states[b - 1], steps[b - 1], i);
      if Searches(states[b - 1], steps[b - 1], i) {
        var tuples, view := Searched(states[b - 1], i), ViewOf(states[b - 1].lookups[i]);
        VersionsConcat(tuples, view, target);
        AbsorbStands(cfg, target, tuples, Accumulator(cfg, target, states, steps, i, a, b - 1), Versions(view, target));
      }
    }
  }

  lemma NextState(states: seq<State<Tuple>>, steps: seq<Step<Tuple>>, n: nat)
    requires Run(states, steps) && n < |steps|
    ensures |states[n].mt| > 0 && Enabled(states[n], steps[n]) && states[n + 1] == Apply(states[n], steps[n])
  {
  }

  lemma NothingStands(cfg: DataConfig, target: Key)
    ensures Stands(cfg, target, None, Versions([], target))
  {
  }

  /** What is returned in the end. */
  function Answer(cfg: DataConfig, target: Key, acc: Option<Message>): Option<Value> {
    if acc.None? then None
    else Reading(if IsDefinitive(acc.value) then acc.value else MergeFinal(cfg, target, acc.value))
  }

  /** A lookup that stops with a definitive accumulator returns what replaying all inserts yields that
      had been made at one moment while it ran, although it has not read the older ones. */
  lemma EarlyAnswerIsReplay(cfg: DataConfig, target: Key, states: seq<State<Tuple>>, steps: seq<Step<Tuple>>,
                            i: nat, a: nat, c: nat) returns (k: nat)
    requires Lawful(cfg) && Run(states, steps) && a < c < |steps| && Looking(states, steps, i, a, c)
    requires steps[c] == LkStop(i)
    requires var acc := Accumulator(cfg, target, states, steps, i, a, c); acc.Some? && IsDefinitive(acc.value)
    ensures a <= k <= c + 1
    ensures Answer(cfg, target, Accumulator(cfg, target, states, steps, i, a, c))
         == Replay(cfg, target, Versions(states[k].log, target))
  {
    hide Init, Apply, Stands, Lawful, At, Resolve, Replay;
    AccumulatorStands(cfg, target, states, steps, i, a, c);
    LookupStops(states[c], i);
    var view := states[c].lookups[i].view;
    var older;
    k, older := StoppedLookupsReadTheNewest(states, steps, i, a, c + 1);
    VersionsConcat(older, view, target);
    EarlyStop(cfg, target, Accumulator(cfg, target, states, steps, i, a, c), older, view);
  }

  lemma LookupStops(s: State<Tuple>, i: nat)
    requires |s.mt| > 0 && Enabled(s, LkStop(i))
    ensures i < |s.lookups| && s.lookups[i].LkScan? && |Apply(s, LkStop(i)).lookups| == |s.lookups|
    ensures Apply(s, LkStop(i)).lookups[i] == LkStopped(s.lookups[i].start, s.lookups[i].view)
  {
  }

  lemma EarlyStop(cfg: DataConfig, target: Key, acc: Option<Message>, older: seq<Tuple>, view: seq<Tuple>)
    requires Lawful(cfg) && Stands(cfg, target, acc, Versions(view, target)) && acc.Some? && IsDefinitive(acc.value)
    requires Versions(older + view, target) == Versions(older, target) + Versions(view, target)
    ensures Answer(cfg, target, acc) == Replay(cfg, target, Versions(older + view, target))
  {
    DefinitiveHidesOlder(cfg, target, Versions(older, target), Versions(view, target));
    ResolveIsReplay(cfg, target, Versions(older + view, target));
  }

  /** A lookup that goes on to the trunk returns such a replay, too.  `trunk` is what the trunk it reads
      keeps of the tuples that were incorporated. */
  lemma TrunkAnswerIsReplay(cfg: DataConfig, target: Key, states: seq<State<Tuple>>, steps: seq<Step<Tuple>>,
                            i: nat, a: nat, c: nat, trunk: map<Key, Message>) returns (k: nat)
    requires Lawful(cfg) && Run(states, steps) && a < c < |steps| && Looking(states, steps, i, a, c)
    requires steps[c] == LkStep(i) && states[c].lookups[i].LkScan?
    requires states[c].lookups[i].next == states[c].lookups[i].retired
    requires TrunkHolds(cfg, trunk, states[c].trunk, target)
    ensures a <= k <= c + 1
    ensures Answer(cfg, target, Absorb(cfg, target, trunk, Accumulator(cfg, target, states, steps, i, a, c)))
         == Replay(cfg, target, Versions(states[k].log, target))
  {
    hide Init, Apply, Stands, Lawful, At, Resolve, Replay, Absorb, TrunkHolds;
    AccumulatorStands(cfg, target, states, steps, i, a, c);
    LookupEnds(states[c], i);
    var view := states[c].lookups[i].view;
    k := LookupsAreLinearizable(states, steps, i, a, c + 1);
    VersionsConcat(states[c].trunk, view, target);
    FullSearch(cfg, target, Accumulator(cfg, target, states, steps, i, a, c), states[c].trunk, view, trunk);
  }

  lemma LookupEnds(s: State<Tuple>, i: nat)
    requires |s.mt| > 0 && Enabled(s, LkStep(i)) && i < |s.lookups|
    requires s.lookups[i].LkScan? && s.lookups[i].next == s.lookups[i].retired
    ensures |Apply(s, LkStep(i)).lookups| == |s.lookups|
    ensures Apply(s, LkStep(i)).lookups[i] == LkDone(s.lookups[i].start, s.trunk + s.lookups[i].view)
  {
  }

  lemma FullSearch(cfg: DataConfig, target: Key, acc: Option<Message>, older: seq<Tuple>, view: seq<Tuple>,
                   trunk: map<Key, Message>)
    requires Lawful(cfg) && Stands(cfg, target, acc, Versions(view, target)) && TrunkHolds(cfg, trunk, older, target)
    requires Versions(older + view, target) == Versions(older, target) + Versions(view, target)
    ensures Answer(cfg, target, Absorb(cfg, target, trunk, acc)) == Replay(cfg, target, Versions(older + view, target))
  {
    TrunkStep(cfg, target, trunk, older, acc, Versions(view, target));
    ResolveIsReplay(cfg, target, Versions(older + view, target));
  }
}
