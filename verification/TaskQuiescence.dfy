/** The queues of background tasks, and the check that nothing is left to do.

    A state machine whose steps are single accesses to the state that threads share.  A thread
    enqueues tasks, runs a task itself, is one of the background threads of a group, or checks for
    quiescence; a task that runs may do any of this in turn, so a thread carries a stack of the
    tasks it is running.  `tailLog` and `tailLeft` are history variables: the tasks ever enqueued
    at the tail of a group, and those of them that have left it. */
module TaskQuiescence {

  datatype Holder = Free | By(t: nat)

  datatype Entry = Entry(task: nat, atTail: bool)

  datatype Group = Group(
    lock: Holder,
    queue: seq<Entry>,
    waiting: nat,            // current_waiting_tasks
    executing: nat,          // current_executing_tasks
    tailLog: seq<nat>,
    tailLeft: seq<nat>)

  /** A task that is running, taken from group `g` by a background thread or a foreground one. */
  datatype Frame = Frame(g: nat, background: bool)

  datatype Pc =
    | AtCode                                        // in a task, or in the code of the application
    | EnqLock(g: nat, entry: Entry)
    | EnqLocked(g: nat, entry: Entry)
    | EnqLinked(g: nat)
    | EnqCounted(g: nat)
    | TakeLock(g: nat, background: bool)
    | TakeLocked(g: nat, background: bool)
    | TakeCounted(g: nat, background: bool)
    | TakeDequeued(g: nat, background: bool)
    | TakeExecuting(g: nat, background: bool)
    | TakeNone(g: nat, background: bool)
    | EndLock(g: nat)                               // a background thread, its task done
    | EndLocked(g: nat)
    | CheckLock(k: nat)
    | CheckExecuting(k: nat)
    | CheckWaiting(k: nat)
    | CheckUnlock(k: nat, result: bool)

  datatype Thread = Thread(pc: Pc, running: seq<Frame>)

  datatype State = State(groups: seq<Group>, threads: seq<Thread>)

  datatype Step =
    | Enqueue(t: nat, g: nat, entry: Entry)
    | Perform(t: nat, g: nat)
    | EndTask(t: nat)
    | Check(t: nat)
    | Go(t: nat)

  /** The group whose lock the thread is waiting for. */
  function Wanted(pc: Pc, n: nat): (g: int)
    ensures -1 <= g < n
  {
    match pc
    case EnqLock(g, _) => if g < n then g else -1
    case TakeLock(g, _) => if g < n then g else -1
    case EndLock(g) => if g < n then g else -1
    case CheckLock(k) => if k < n then k else -1
    case _ => -1
  }

  predicate Enabled(s: State, step: Step) {
    match step
    case Enqueue(t, g, _) => t < |s.threads| && s.threads[t].pc.AtCode? && g < |s.groups|
    case Perform(t, g) => t < |s.threads| && s.threads[t].pc.AtCode? && g < |s.groups|
    case EndTask(t) => t < |s.threads| && s.threads[t].pc.AtCode? && s.threads[t].running != []
    case Check(t) => t < |s.threads| && s.threads[t].pc.AtCode?
    case Go(t) =>
      && t < |s.threads| && !s.threads[t].pc.AtCode? && InGroups(s.threads[t].pc, |s.groups|)
      && (Wanted(s.threads[t].pc, |s.groups|) >= 0 ==> s.groups[Wanted(s.threads[t].pc, |s.groups|)].lock.Free?)
  }

  predicate InGroups(pc: Pc, n: nat) {
    match pc
    case AtCode => true
    case CheckLock(k) => k <= n
    case CheckExecuting(k) => k <= n
    case CheckWaiting(k) => k < n
    case CheckUnlock(k, _) => k <= n
    case _ => pc.g < n
  }

  function SetPc(s: State, t: nat, pc: Pc): State
    requires t < |s.threads|
  {
    s.(threads := s.threads[t := s.threads[t].(pc := pc)])
  }

  function SetGroup(s: State, g: nat, group: Group): State
    requires g < |s.groups|
  {
    s.(groups := s.groups[g := group])
  }

  function GoApply(s: State, t: nat): State
    requires Enabled(s, Go(t))
  {
    var th := s.threads[t];
    match th.pc
    case EnqLock(g, entry) =>
      SetPc(SetGroup(s, g, s.groups[g].(lock := By(t))), t, EnqLocked(g, entry))
    case EnqLocked(g, entry) =>
      var group := s.groups[g];
      SetPc(SetGroup(s, g, group.(queue := if entry.atTail then group.queue + [entry] else [entry] + group.queue,
                                  tailLog := group.tailLog + Tails([entry]))), t, EnqLinked(g))
    case EnqLinked(g) =>
      SetPc(SetGroup(s, g, s.groups[g].(waiting := s.groups[g].waiting + 1)), t, EnqCounted(g))
    case EnqCounted(g) =>
      SetPc(SetGroup(s, g, s.groups[g].(lock := Free)), t, AtCode)
    case TakeLock(g, background) =>
      SetPc(SetGroup(s, g, s.groups[g].(lock := By(t))), t, TakeLocked(g, background))
    case TakeLocked(g, background) =>
      if s.groups[g].waiting == 0 then SetPc(s, t, TakeNone(g, background))
      else SetPc(SetGroup(s, g, s.groups[g].(waiting := s.groups[g].waiting - 1)), t, TakeCounted(g, background))
    case TakeCounted(g, background) =>
      var group := s.groups[g];
      if group.queue == [] then SetPc(s, t, TakeDequeued(g, background))
      else SetPc(SetGroup(s, g, group.(queue := group.queue[1..],
                                       tailLeft := group.tailLeft + Tails([group.queue[0]]))),
                 t, TakeDequeued(g, background))
    case TakeDequeued(g, background) =>
      SetPc(SetGroup(s, g, s.groups[g].(executing := s.groups[g].executing + 1)), t, TakeExecuting(g, background))
    case TakeExecuting(g, background) =>
      var r := SetGroup(s, g, s.groups[g].(lock := Free));
      r.(threads := r.threads[t := Thread(AtCode, th.running + [Frame(g, background)])])
    case TakeNone(g, background) =>
      // a background thread waits on the condition variable, and is woken at any time
      SetPc(SetGroup(s, g, s.groups[g].(lock := Free)), t,
            if background then TakeLock(g, background) else AtCode)
    case EndLock(g) =>
      SetPc(SetGroup(s, g, s.groups[g].(lock := By(t))), t, EndLocked(g))
    case EndLocked(g) =>
      var e := s.groups[g].executing;
      SetPc(SetGroup(s, g, s.groups[g].(executing := if e > 0 then e - 1 else 0)), t, TakeLocked(g, true))
    case CheckLock(k) =>
      if k == |s.groups| then SetPc(s, t, CheckExecuting(0))
      else SetPc(SetGroup(s, k, s.groups[k].(lock := By(t))), t, CheckLock(k + 1))
    case CheckExecuting(k) =>
      if k == |s.groups| then SetPc(s, t, CheckUnlock(0, true))
      else SetPc(s, t, if s.groups[k].executing > 0 then CheckUnlock(0, false) else CheckWaiting(k))
    case CheckWaiting(k) =>
      SetPc(s, t, if s.groups[k].waiting > 0 then CheckUnlock(0, false) else CheckExecuting(k + 1))
    case CheckUnlock(k, result) =>
      if k == |s.groups| then SetPc(s, t, AtCode)
      else SetPc(SetGroup(s, k, s.groups[k].(lock := Free)), t, CheckUnlock(k + 1, result))
  }

  function Apply(s: State, step: Step): State
    requires Enabled(s, step)
  {
    match step
    case Enqueue(t, g, entry) => SetPc(s, t, EnqLock(g, entry))
    case Perform(t, g) => SetPc(s, t, TakeLock(g, false))
    case Check(t) => SetPc(s, t, CheckLock(0))
    case EndTask(t) =>
      var running := s.threads[t].running;
      var frame := running[|running| - 1];
      var rest := running[..|running| - 1];
      if frame.background then s.(threads := s.threads[t := Thread(EndLock(frame.g), rest)])
      else if frame.g < |s.groups| then
        // without the lock
        var e := s.groups[frame.g].executing;
        SetGroup(s, frame.g, s.groups[frame.g].(executing := if e > 0 then e - 1 else 0)).(
          threads := s.threads[t := Thread(AtCode, rest)])
      else s
    case Go(t) => GoApply(s, t)
  }

  /** What the code asserts: a counted task is in the list, and the list ends with the last count. */
  predicate Asserts(s: State, step: Step)
    requires Enabled(s, step)
  {
    match step
    case EndTask(t) =>
      var frame := s.threads[t].running[|s.threads[t].running| - 1];
      frame.background || (frame.g < |s.groups| && s.groups[frame.g].executing > 0)
    case Go(t) =>
      (match s.threads[t].pc
       case TakeCounted(g, _) =>
         s.groups[g].queue != [] && (|s.groups[g].queue| == 1 <==> s.groups[g].waiting == 0)
       case EndLocked(g) => s.groups[g].executing > 0
       case _ => true)
    case _ => true
  }

  // ----- what the counters stand for

  /** The tasks of the entries that went in at the tail. */
  function Tails(queue: seq<Entry>): seq<nat> {
    if queue == [] then []
    else (if queue[0].atTail then [queue[0].task] else []) + Tails(queue[1..])
  }

  function Frames(running: seq<Frame>, g: nat): nat {
    if running == [] then 0
    else Frames(running[..|running| - 1], g) + if running[|running| - 1].g == g then 1 else 0
  }

  /** The tasks of group `g` that the thread has taken and counted as executing. */
  function Load(th: Thread, g: nat): nat {
    Frames(th.running, g)
    + if (th.pc.TakeExecuting? || th.pc.EndLock? || th.pc.EndLocked?) && th.pc.g == g then 1 else 0
  }

  function Loads(threads: seq<Thread>, g: nat): nat {
    if threads == [] then 0
    else Loads(threads[..|threads| - 1], g) + Load(threads[|threads| - 1], g)
  }

  lemma {:induction false} LoadsUpdate(threads: seq<Thread>, t: nat, th: Thread, g: nat)
    requires t < |threads|
    ensures Loads(threads[t := th], g) + Load(threads[t], g) == Loads(threads, g) + Load(th, g)
  {
    var n := |threads| - 1;
    if t == n {
      assert threads[t := th][..n] == threads[..n];
    } else {
      assert threads[t := th][..n] == threads[..n][t := th];
      LoadsUpdate(threads[..n], t, th, g);
    }
  }

  lemma {:induction false} LoadsBound(threads: seq<Thread>, t: nat, g: nat)
    requires t < |threads|
    ensures Load(threads[t], g) <= Loads(threads, g)
  {
    var n := |threads| - 1;
    if t < n {
      LoadsBound(threads[..n], t, g);
    }
  }

  predicate Holds(pc: Pc, g: nat, n: nat) {
    match pc
    case AtCode => false
    case EnqLock(_, _) => false
    case TakeLock(_, _) => false
    case EndLock(_) => false
    case CheckLock(k) => g < k && g < n
    case CheckExecuting(_) => g < n
    case CheckWaiting(_) => g < n
    case CheckUnlock(k, _) => k <= g < n
    case _ => pc.g == g
  }

  /** The list of the group is one ahead of the count. */
  predicate Pending(pc: Pc, g: nat) {
    (pc.EnqLinked? || pc.TakeCounted?) && pc.g == g
  }

  /** A task of the group is counted as waiting, but for the thread that holds the lock. */
  ghost predicate Counted(s: State, g: nat)
    requires g < |s.groups|
  {
    var group := s.groups[g];
    if group.lock.By? && group.lock.t < |s.threads| && Pending(s.threads[group.lock.t].pc, g)
    then group.waiting + 1 == |group.queue|
    else group.waiting == |group.queue|
  }

  ghost predicate GroupOk(s: State, g: nat)
    requires g < |s.groups|
  {
    var group := s.groups[g];
    && (forall t | 0 <= t < |s.threads| :: Holds(s.threads[t].pc, g, |s.groups|) <==> group.lock == By(t))
    && Counted(s, g)
    && group.executing == Loads(s.threads, g)
    && group.tailLeft + Tails(group.queue) == group.tailLog
  }

  /** What the check has seen is still so. */
  ghost predicate ThreadOk(s: State, t: nat)
    requires t < |s.threads|
  {
    var pc := s.threads[t].pc;
    && InGroups(pc, |s.groups|)
    && (forall i | 0 <= i < |s.threads[t].running| :: s.threads[t].running[i].g < |s.groups|)
    && (pc.CheckExecuting? || pc.CheckWaiting? ==>
          forall g | 0 <= g < pc.k :: s.groups[g].executing == 0 && s.groups[g].waiting == 0)
    && (pc.CheckWaiting? ==> s.groups[pc.k].executing == 0)
  }

  ghost predicate Inv(s: State) {
    && (forall g | 0 <= g < |s.groups| :: GroupOk(s, g))
    && forall t | 0 <= t < |s.threads| :: ThreadOk(s, t)
  }

  // ----- what a step leaves alone

  /** Thread `t` moves on; only group `g` may change. */
  ghost predicate Moves(s: State, r: State, t: nat, g: nat) {
    && t < |s.threads| == |r.threads| && |r.groups| == |s.groups|
    && r.threads == s.threads[t := r.threads[t]]
    && forall h | 0 <= h < |s.groups| && h != g :: r.groups[h] == s.groups[h]
  }

  lemma GroupKept(s: State, r: State, t: nat, g: nat, h: nat)
    requires Moves(s, r, t, g) && h < |s.groups| && GroupOk(s, h)
    requires r.groups[h] == s.groups[h]
    requires Load(r.threads[t], h) == Load(s.threads[t], h)
    requires Holds(r.threads[t].pc, h, |s.groups|) == Holds(s.threads[t].pc, h, |s.groups|)
    requires Pending(r.threads[t].pc, h) == Pending(s.threads[t].pc, h)
    ensures GroupOk(r, h)
  {
    LoadsUpdate(s.threads, t, r.threads[t], h);
    hide Loads, Load, Holds, Pending, Tails;
  }

  /** A check that is under way holds all locks, and sees at most that foreground threads finish. */
  lemma ThreadsKept(s: State, r: State, t: nat, g: nat)
    requires Inv(s) && Moves(s, r, t, g) && ThreadOk(r, t)
    requires g < |s.groups| ==>
      || s.groups[g].lock == By(t)
      || (r.groups[g].waiting == s.groups[g].waiting && r.groups[g].executing <= s.groups[g].executing)
    ensures forall u | 0 <= u < |r.threads| :: ThreadOk(r, u)
  {
    forall u | 0 <= u < |r.threads| && u != t ensures ThreadOk(r, u) {
      assert ThreadOk(s, u);
      if g < |s.groups| {
        assert GroupOk(s, g);
      }
    }
  }

  /** A step of the holder of a lock, or one that takes or gives back a lock. */
  lemma HolderPreserves(s: State, r: State, t: nat, g: nat)
    requires Inv(s) && Moves(s, r, t, g) && ThreadOk(r, t) && g < |s.groups| && GroupOk(r, g)
    requires s.groups[g].lock == By(t) ||
      (r.groups[g].waiting == s.groups[g].waiting && r.groups[g].executing <= s.groups[g].executing)
    requires forall h | 0 <= h < |s.groups| && h != g ::
      && Load(r.threads[t], h) == Load(s.threads[t], h)
      && Holds(r.threads[t].pc, h, |s.groups|) == Holds(s.threads[t].pc, h, |s.groups|)
      && Pending(r.threads[t].pc, h) == Pending(s.threads[t].pc, h)
    ensures Inv(r)
  {
    ThreadsKept(s, r, t, g);
    forall h | 0 <= h < |s.groups| && h != g ensures GroupOk(r, h) {
      GroupKept(s, r, t, g, h);
    }
  }

  /** The thread takes the lock of the group, holds it, or gives it back. */
  ghost predicate LockMoves(s: State, r: State, t: nat, g: nat)
    requires Moves(s, r, t, g) && g < |s.groups|
  {
    var held := Holds(r.threads[t].pc, g, |s.groups|);
    || (s.groups[g].lock == Free && r.groups[g].lock == By(t) && held)
    || (s.groups[g].lock == By(t) && r.groups[g].lock == By(t) && held)
    || (s.groups[g].lock == By(t) && r.groups[g].lock == Free && !held)
  }

  lemma GroupMoves(s: State, r: State, t: nat, g: nat)
    requires g < |s.groups| && GroupOk(s, g) && Moves(s, r, t, g) && LockMoves(s, r, t, g)
    requires r.groups[g].executing + Load(s.threads[t], g) == s.groups[g].executing + Load(r.threads[t], g)
    requires r.groups[g].waiting + (if Pending(r.threads[t].pc, g) then 1 else 0) == |r.groups[g].queue|
    requires Pending(r.threads[t].pc, g) ==> r.groups[g].lock == By(t)
    requires r.groups[g].tailLeft + Tails(r.groups[g].queue) == r.groups[g].tailLog
    ensures GroupOk(r, g)
  {
    LoadsUpdate(s.threads, t, r.threads[t], g);
    hide Loads, Load, Tails, Pending;
    forall u | 0 <= u < |r.threads| ensures Holds(r.threads[u].pc, g, |s.groups|) <==> r.groups[g].lock == By(u) {
      if u != t {
        assert r.threads[u] == s.threads[u];
      }
    }
  }

  lemma GroupFacts(s: State, t: nat, g: nat)
    requires Inv(s) && t < |s.threads| && g < |s.groups|
    ensures GroupOk(s, g) && ThreadOk(s, t)
    ensures Holds(s.threads[t].pc, g, |s.groups|) <==> s.groups[g].lock == By(t)
    ensures s.groups[g].lock == Free || s.groups[g].lock == By(t) ==>
      s.groups[g].waiting + (if Pending(s.threads[t].pc, g) then 1 else 0) == |s.groups[g].queue|
    ensures s.groups[g].executing >= Load(s.threads[t], g)
    ensures s.groups[g].tailLeft + Tails(s.groups[g].queue) == s.groups[g].tailLog
  {
    assert GroupOk(s, g) && ThreadOk(s, t);
    LoadsBound(s.threads, t, g);
  }

  lemma EnqueueLockPreserves(s: State, t: nat)
    requires Inv(s) && Enabled(s, Go(t)) && (s.threads[t].pc.EnqLock? || s.threads[t].pc.EnqCounted?)
    ensures Inv(GoApply(s, t))
  {
    var r := GoApply(s, t);
    var g := s.threads[t].pc.g;
    hide Loads, Tails, Frames, GroupOk, Inv;
    GroupFacts(s, t, g);
    assert ThreadOk(r, t);
    GroupMoves(s, r, t, g);
    hide LockMoves;
    HolderPreserves(s, r, t, g);
  }

  lemma EnqueuePreserves(s: State, t: nat)
    requires Inv(s) && Enabled(s, Go(t)) && (s.threads[t].pc.EnqLocked? || s.threads[t].pc.EnqLinked?)
    ensures Inv(GoApply(s, t))
  {
    var r := GoApply(s, t);
    var g := s.threads[t].pc.g;
    hide Loads, Tails, Frames, GroupOk, Inv;
    GroupFacts(s, t, g);
    if s.threads[t].pc.EnqLocked? {
      TailsOfEnqueue(s, t);
    }
    assert ThreadOk(r, t);
    GroupMoves(s, r, t, g);
    hide LockMoves;
    HolderPreserves(s, r, t, g);
  }

  lemma TailsOfEnqueue(s: State, t: nat)
    requires Enabled(s, Go(t)) && s.threads[t].pc.EnqLocked?
    ensures var pc := s.threads[t].pc;
            var queue := s.groups[pc.g].queue;
            && Tails(queue + [pc.entry]) == Tails(queue) + Tails([pc.entry])
            && (!pc.entry.atTail ==> Tails([pc.entry] + queue) == Tails(queue) && Tails([pc.entry]) == [])
  {
    var pc := s.threads[t].pc;
    TailsConcat(s.groups[pc.g].queue, [pc.entry]);
    TailsConcat([pc.entry], s.groups[pc.g].queue);
  }

  lemma {:induction false} TailsConcat(a: seq<Entry>, b: seq<Entry>)
    ensures Tails(a + b) == Tails(a) + Tails(b)
  {
    if a == [] {
      assert a + b == b;
    } else {
      assert (a + b)[1..] == a[1..] + b;
      TailsConcat(a[1..], b);
    }
  }

  lemma TakePreserves(s: State, t: nat)
    requires Inv(s) && Enabled(s, Go(t))
    requires var pc := s.threads[t].pc; pc.TakeLock? || pc.TakeLocked? || pc.TakeNone? || pc.EndLock? || pc.EndLocked?
    ensures Inv(GoApply(s, t)) && Asserts(s, Go(t))
  {
    var r := GoApply(s, t);
    var g := s.threads[t].pc.g;
    hide Loads, Tails, Frames, GroupOk, Inv;
    GroupFacts(s, t, g);
    assert ThreadOk(r, t);
    GroupMoves(s, r, t, g);
    hide LockMoves;
    HolderPreserves(s, r, t, g);
  }

  lemma DequeuePreserves(s: State, t: nat)
    requires Inv(s) && Enabled(s, Go(t))
    requires s.threads[t].pc.TakeCounted? || s.threads[t].pc.TakeDequeued?
    ensures Inv(GoApply(s, t)) && Asserts(s, Go(t))
  {
    var r := GoApply(s, t);
    var g := s.threads[t].pc.g;
    hide Loads, Tails, Frames, GroupOk, Inv;
    GroupFacts(s, t, g);
    var queue := s.groups[g].queue;
    if s.threads[t].pc.TakeCounted? {
      TailsConcat([queue[0]], queue[1..]);
      assert queue == [queue[0]] + queue[1..];
    }
    assert ThreadOk(r, t);
    GroupMoves(s, r, t, g);
    hide LockMoves;
    HolderPreserves(s, r, t, g);
  }

  lemma StartPreserves(s: State, t: nat)
    requires Inv(s) && Enabled(s, Go(t)) && s.threads[t].pc.TakeExecuting?
    ensures Inv(GoApply(s, t))
  {
    var r := GoApply(s, t);
    var g := s.threads[t].pc.g;
    var running := s.threads[t].running;
    assert r.threads[t].running[..|running|] == running;
    hide Loads, Tails, GroupOk, Inv;
    GroupFacts(s, t, g);
    assert ThreadOk(r, t);
    forall h ensures Load(r.threads[t], h) == Load(s.threads[t], h) {
    }
    hide Load, Frames;
    GroupMoves(s, r, t, g);
    hide LockMoves;
    HolderPreserves(s, r, t, g);
  }

  /** A step that changes no group. */
  lemma StayPreserves(s: State, r: State, t: nat)
    requires Inv(s) && Moves(s, r, t, |s.groups|) && ThreadOk(r, t)
    requires forall h | 0 <= h < |s.groups| ::
      && Load(r.threads[t], h) == Load(s.threads[t], h)
      && Holds(r.threads[t].pc, h, |s.groups|) == Holds(s.threads[t].pc, h, |s.groups|)
      && Pending(r.threads[t].pc, h) == Pending(s.threads[t].pc, h)
    ensures Inv(r)
  {
    ThreadsKept(s, r, t, |s.groups|);
    forall h | 0 <= h < |s.groups| ensures GroupOk(r, h) {
      GroupKept(s, r, t, |s.groups|, h);
    }
  }

  /** The beginning of an operation. */
  lemma BeginPreserves(s: State, step: Step)
    requires Inv(s) && Enabled(s, step) && !step.Go? && !step.EndTask?
    ensures Inv(Apply(s, step))
  {
    var r := Apply(s, step);
    assert ThreadOk(s, step.t);
    hide Frames, Inv;
    StayPreserves(s, r, step.t);
  }

  /** The check reads a counter, with all locks held. */
  lemma CheckReadPreserves(s: State, t: nat)
    requires Inv(s) && Enabled(s, Go(t))
    requires var pc := s.threads[t].pc;
             || pc.CheckExecuting? || pc.CheckWaiting?
             || (pc.CheckLock? && pc.k == |s.groups|) || (pc.CheckUnlock? && pc.k == |s.groups|)
    ensures Inv(GoApply(s, t))
  {
    var r := GoApply(s, t);
    assert ThreadOk(s, t);
    hide Frames, Inv;
    assert ThreadOk(r, t);
    StayPreserves(s, r, t);
  }

  lemma CheckLockPreserves(s: State, t: nat)
    requires Inv(s) && Enabled(s, Go(t))
    requires (s.threads[t].pc.CheckLock? || s.threads[t].pc.CheckUnlock?) && s.threads[t].pc.k < |s.groups|
    ensures Inv(GoApply(s, t))
  {
    var r := GoApply(s, t);
    var g := s.threads[t].pc.k;
    hide Loads, Tails, Frames, GroupOk, Inv;
    GroupFacts(s, t, g);
    assert ThreadOk(r, t);
    GroupMoves(s, r, t, g);
    hide LockMoves;
    HolderPreserves(s, r, t, g);
  }

  /** A foreground thread ends its task without the lock; a background thread has still to lock. */
  lemma EndTaskPreserves(s: State, t: nat)
    requires Inv(s) && Enabled(s, EndTask(t))
    ensures Inv(Apply(s, EndTask(t))) && Asserts(s, EndTask(t))
  {
    var r := Apply(s, EndTask(t));
    var running := s.threads[t].running;
    var frame := running[|running| - 1];
    assert ThreadOk(s, t);
    hide Loads, Tails, GroupOk, Inv;
    GroupFacts(s, t, frame.g);
    if frame.background {
      StayPreserves(s, r, t);
    } else {
      UnlockedDecrement(s, r, t, frame.g);
      HolderPreserves(s, r, t, frame.g);
    }
  }

  lemma UnlockedDecrement(s: State, r: State, t: nat, g: nat)
    requires g < |s.groups| && GroupOk(s, g) && Moves(s, r, t, g)
    requires r.groups[g] == s.groups[g].(executing := r.groups[g].executing)
    requires r.groups[g].executing + Load(s.threads[t], g) == s.groups[g].executing + Load(r.threads[t], g)
    requires Holds(r.threads[t].pc, g, |s.groups|) == Holds(s.threads[t].pc, g, |s.groups|)
    requires Pending(r.threads[t].pc, g) == Pending(s.threads[t].pc, g)
    ensures GroupOk(r, g)
  {
    LoadsUpdate(s.threads, t, r.threads[t], g);
    hide Loads, Load, Holds, Pending, Tails;
  }

  // ----- all steps and runs

  /** Every step keeps the invariant, and what the code asserts holds. */
  lemma StepPreserves(s: State, step: Step)
    requires Inv(s) && Enabled(s, step)
    ensures Inv(Apply(s, step)) && Asserts(s, step)
  {
    hide Inv, GoApply;
    match step
    case Go(t) => GoPreserves(s, t);
    case EndTask(t) => EndTaskPreserves(s, t);
    case _ => BeginPreserves(s, step);
  }

  lemma GoPreserves(s: State, t: nat)
    requires Inv(s) && Enabled(s, Go(t))
    ensures Inv(GoApply(s, t)) && Asserts(s, Go(t))
  {
    hide Inv, GoApply;
    match s.threads[t].pc
    case EnqLock(_, _) => EnqueueLockPreserves(s, t);
    case EnqCounted(_) => EnqueueLockPreserves(s, t);
    case EnqLocked(_, _) => EnqueuePreserves(s, t);
    case EnqLinked(_) => EnqueuePreserves(s, t);
    case TakeCounted(_, _) => DequeuePreserves(s, t);
    case TakeDequeued(_, _) => DequeuePreserves(s, t);
    case TakeExecuting(_, _) => StartPreserves(s, t);
    case CheckExecuting(_) => CheckReadPreserves(s, t);
    case CheckWaiting(_) => CheckReadPreserves(s, t);
    case CheckLock(k) =>
      if k == |s.groups| {
        CheckReadPreserves(s, t);
      } else {
        CheckLockPreserves(s, t);
      }
    case CheckUnlock(k, _) =>
      if k == |s.groups| {
        CheckReadPreserves(s, t);
      } else {
        CheckLockPreserves(s, t);
      }
    case _ => TakePreserves(s, t);
  }

  /** No task is queued or running; background threads of the groups may be waiting for work. */
  ghost predicate Init(s: State) {
    && (forall g | 0 <= g < |s.groups| :: s.groups[g] == Group(Free, [], 0, 0, [], []))
    && forall t | 0 <= t < |s.threads| ::
         && s.threads[t].running == []
         && (s.threads[t].pc == AtCode
             || (s.threads[t].pc.TakeLock? && s.threads[t].pc.background && s.threads[t].pc.g < |s.groups|))
  }

  lemma InitInv(s: State)
    requires Init(s)
    ensures Inv(s)
  {
    forall g | 0 <= g < |s.groups| ensures GroupOk(s, g) {
      NoLoads(s.threads, g);
    }
  }

  lemma {:induction false} NoLoads(threads: seq<Thread>, g: nat)
    requires forall t | 0 <= t < |threads| ::
               threads[t].running == [] && (threads[t].pc.AtCode? || threads[t].pc.TakeLock?)
    ensures Loads(threads, g) == 0
  {
    if threads != [] {
      NoLoads(threads[..|threads| - 1], g);
    }
  }

  ghost predicate Run(states: seq<State>, steps: seq<Step>) {
    && |states| == |steps| + 1 && Init(states[0])
    && forall k | 0 <= k < |steps| :: Enabled(states[k], steps[k]) && states[k + 1] == Apply(states[k], steps[k])
  }

  lemma {:induction false} RunsAreSafe(states: seq<State>, steps: seq<Step>, n: nat)
    requires Run(states, steps) && n < |states|
    ensures Inv(states[n]) && forall k | 0 <= k < n :: Asserts(states[k], steps[k])
  {
    hide Inv, Init, Enabled, Apply, Asserts;
    if n == 0 {
      InitInv(states[0]);
    } else {
      RunsAreSafe(states, steps, n - 1);
      StepPreserves(states[n - 1], steps[n - 1]);
    }
  }

  /** A thread that has a task in its hands: linked but not counted, or taken and not yet done. */
  predicate Busy(th: Thread) {
    th.running != [] || th.pc.EnqLinked? || th.pc.TakeCounted? || th.pc.TakeDequeued? || th.pc.TakeExecuting?
    || th.pc.EndLock? || th.pc.EndLocked?
  }

  /** No task is queued, running, or on its way between the two. */
  ghost predicate Quiet(s: State) {
    && (forall g | 0 <= g < |s.groups| :: s.groups[g].queue == [])
    && forall t | 0 <= t < |s.threads| :: !Busy(s.threads[t])
  }

  lemma CheckedIsQuiet(s: State, t: nat)
    requires Inv(s) && t < |s.threads| && s.threads[t].pc == CheckExecuting(|s.groups|)
    ensures Quiet(s)
  {
    assert ThreadOk(s, t);
    forall g | 0 <= g < |s.groups| ensures s.groups[g].queue == [] && s.groups[g].lock == By(t) {
      GroupFacts(s, t, g);
    }
    forall u | 0 <= u < |s.threads| ensures !Busy(s.threads[u]) {
      assert ThreadOk(s, u);
      if s.threads[u].running != [] {
        var g := s.threads[u].running[|s.threads[u].running| - 1].g;
        GroupFacts(s, u, g);
      } else if Busy(s.threads[u]) {
        GroupFacts(s, u, s.threads[u].pc.g);
      }
    }
  }

  /** task_system_is_quiescent is right when it says so.  Whatever else happened before, while and
      after it looked, there was a moment, before it gave back its first lock, at which no task was
      queued or running in any group. */
  lemma {:induction false} TrueMeansQuiet(states: seq<State>, steps: seq<Step>, t: nat, b: nat) returns (a: nat)
    requires Run(states, steps) && b < |states| && t < |states[b].threads|
    requires states[b].threads[t].pc.CheckUnlock? && states[b].threads[t].pc.result
    ensures a < b && Quiet(states[a]) && t < |states[a].threads|
    ensures states[a].threads[t].pc == CheckExecuting(|states[a].groups|)
    ensures forall k | a < k <= b :: t < |states[k].threads| && states[k].threads[t].pc.CheckUnlock?
  {
    assert b > 0;
    var s := states[b - 1];
    assert states[b] == Apply(s, steps[b - 1]);
    if s.threads[t].pc.CheckUnlock? {
      a := TrueMeansQuiet(states, steps, t, b - 1);
    } else {
      a := b - 1;
      assert s.threads[t].pc == CheckExecuting(|s.groups|);
      RunsAreSafe(states, steps, a);
      CheckedIsQuiet(s, t);
    }
  }

  /** While nobody holds the lock of a group, its count of waiting tasks is the length of its list. */
  lemma WaitingIsLength(states: seq<State>, steps: seq<Step>, n: nat, g: nat)
    requires Run(states, steps) && n < |states| && g < |states[n].groups| && states[n].groups[g].lock == Free
    ensures states[n].groups[g].waiting == |states[n].groups[g].queue|
  {
    RunsAreSafe(states, steps, n);
    assert GroupOk(states[n], g);
  }

  /** Tasks enqueued at the tail leave in the order in which they came: the next of them to leave is
      the one that came after those that have left. */
  lemma FirstInFirstOut(states: seq<State>, steps: seq<Step>, n: nat, t: nat)
    requires Run(states, steps) && n < |steps| && steps[n] == Go(t)
    requires states[n].threads[t].pc.TakeCounted?
    ensures var group := states[n].groups[states[n].threads[t].pc.g];
            && group.tailLeft <= group.tailLog && group.queue != []
            && (group.queue[0].atTail ==>
                  && |group.tailLeft| < |group.tailLog|
                  && group.queue[0].task == group.tailLog[|group.tailLeft|])
  {
    RunsAreSafe(states, steps, n + 1);
    RunsAreSafe(states, steps, n);
    var s := states[n];
    var g := s.threads[t].pc.g;
    GroupFacts(s, t, g);
    assert Asserts(s, Go(t));
  }
}
