/** The queue on which asynchronous functions wait for a condition.

    A state machine whose steps are single accesses to shared memory.  Waiters run
    async_wait_on_queue_until, releasers async_wait_queue_release_one and _all; the condition
    changes at any time.  `queue`, `held`, `place` and `since` are history variables: the nodes on
    the queue, the nodes a releaser has taken off it and still has to call, where each node is, and
    whether the condition has held ever since the releaser was called.  No step depends on them. */
module WaitQueue {

  datatype Ptr = Null | Node(id: nat)

  datatype Lock = Free | ByWaiter(w: nat) | ByReleaser(r: nat)

  datatype Place = Nowhere | InQueue | InHands(r: nat)

  datatype WaiterPc =
    | Away                   // not in a wait: it has not begun, or is over
    | WantLock               // the condition was false
    | Appending              // from here to Yielding and Unlocking the lock is held
    | AppendTail(pred: Ptr)
    | Rechecking(pred: Ptr)
    | Yielding               // the condition was false again
    | Suspended
    | Removing(pred: Ptr)
    | FixTail(pred: Ptr)
    | Unlocking

  datatype ReleaserPc =
    | Idle
    | Begun(all: bool)
    | SawHead(all: bool)
    | Locked(all: bool)                // from here to TailSet the lock is held
    | Took(all: bool, waiter: Ptr)
    | HeadSet(all: bool, waiter: Ptr)
    | TailSet(all: bool, waiter: Ptr)
    | Calling(all: bool, waiter: Ptr)
    | CallingNext(all: bool, waiter: Ptr, next: Ptr)
    | Finished(all: bool)

  datatype State = State(
    ready: bool,
    lock: Lock,
    head: Ptr,
    tail: Ptr,
    next: seq<Ptr>,
    waiters: seq<WaiterPc>,
    releasers: seq<ReleaserPc>,
    queue: seq<nat>,
    held: seq<seq<nat>>,
    place: seq<Place>,
    since: seq<bool>)

  datatype Step = SetReady(value: bool) | WaiterStep(i: nat) | Release(r: nat, all: bool) | ReleaserStep(r: nat)

  predicate Sized(s: State) {
    |s.next| == |s.waiters| == |s.place| && |s.releasers| == |s.held| == |s.since|
  }

  predicate Enabled(s: State, step: Step) {
    match step
    case SetReady(_) => true
    case WaiterStep(i) =>
      i < |s.waiters| && !s.waiters[i].Suspended? && (s.waiters[i].WantLock? ==> s.lock.Free?)
    case Release(r, _) => r < |s.releasers| && (s.releasers[r].Idle? || s.releasers[r].Finished?)
    case ReleaserStep(r) =>
      && r < |s.releasers| && !s.releasers[r].Idle? && !s.releasers[r].Finished?
      && (s.releasers[r].SawHead? ==> s.lock.Free?)
  }

  function NextOf(s: State, p: Ptr): Ptr {
    if p.Node? && p.id < |s.next| then s.next[p.id] else Null
  }

  function SetNext(s: State, p: Ptr, value: Ptr): State {
    if p.Node? && p.id < |s.next| then s.(next := s.next[p.id := value]) else s
  }

  function WaiterApply(s: State, i: nat): State
    requires Sized(s) && Enabled(s, WaiterStep(i))
  {
    match s.waiters[i]
    case Away => if s.ready then s else s.(waiters := s.waiters[i := WantLock])
    case WantLock => s.(lock := ByWaiter(i), waiters := s.waiters[i := Appending])
    case Appending =>
      var t := s.(next := s.next[i := Null], queue := s.queue + [i], place := s.place[i := InQueue]);
      if s.head.Null?
      then t.(head := Node(i), waiters := s.waiters[i := AppendTail(Null)])
      else SetNext(t, s.tail, Node(i)).(waiters := s.waiters[i := AppendTail(s.tail)])
    case AppendTail(pred) => s.(tail := Node(i), waiters := s.waiters[i := Rechecking(pred)])
    case Rechecking(pred) =>
      s.(waiters := s.waiters[i := if s.ready then Removing(pred) else Yielding])
    case Yielding => s.(lock := Free, waiters := s.waiters[i := Suspended])
    case Removing(pred) =>
      var t := s.(queue := if s.queue == [] then [] else s.queue[..|s.queue| - 1],
                  place := s.place[i := Nowhere], waiters := s.waiters[i := FixTail(pred)]);
      if pred.Node? then SetNext(t, pred, s.next[i]) else t.(head := s.next[i])
    case FixTail(pred) =>
      var t := s.(waiters := s.waiters[i := Unlocking]);
      if pred.Node?
      then if s.tail == Node(i) then t.(tail := pred) else t
      else if s.head.Null? then t.(tail := Null) else t
    case Unlocking => s.(lock := Free, waiters := s.waiters[i := Away])
  }

  function ReleaserApply(s: State, r: nat): State
    requires Sized(s) && Enabled(s, ReleaserStep(r))
  {
    match s.releasers[r]
    case Begun(all) =>
      s.(releasers := s.releasers[r := if s.head.Null? then Finished(all) else SawHead(all)])
    case SawHead(all) => s.(lock := ByReleaser(r), releasers := s.releasers[r := Locked(all)])
    case Locked(all) => s.(releasers := s.releasers[r := Took(all, s.head)])
    case Took(all, waiter) =>
      var t := s.(releasers := s.releasers[r := HeadSet(all, waiter)]);
      if all then
        t.(head := Null, queue := [], held := s.held[r := s.queue],
           place := seq(|s.place|, i requires 0 <= i < |s.place| =>
                          if s.place[i].InQueue? then InHands(r) else s.place[i]))
      else if waiter.Node? && waiter.id < |s.place| && s.queue != [] then
        t.(head := NextOf(s, waiter), queue := s.queue[1..], held := s.held[r := [waiter.id]],
           place := s.place[waiter.id := InHands(r)])
      else t
    case HeadSet(all, waiter) =>
      var t := s.(releasers := s.releasers[r := TailSet(all, waiter)]);
      if all || (waiter.Node? && s.head.Null?) then t.(tail := Null) else t
    case TailSet(all, waiter) => s.(lock := Free, releasers := s.releasers[r := Calling(all, waiter)])
    case Calling(all, waiter) =>
      if waiter.Null? then s.(releasers := s.releasers[r := Finished(all)])
      else s.(releasers := s.releasers[r := CallingNext(all, waiter, if all then NextOf(s, waiter) else Null)])
    case CallingNext(all, waiter, next) =>
      // the callback: the suspended function goes on
      var t := s.(releasers := s.releasers[r := Calling(all, next)],
                  held := s.held[r := if s.held[r] == [] then [] else s.held[r][1..]]);
      if waiter.Node? && waiter.id < |s.waiters|
      then t.(waiters := s.waiters[waiter.id := Away], place := s.place[waiter.id := Nowhere])
      else t
  }

  function Apply(s: State, step: Step): State
    requires Sized(s) && Enabled(s, step)
  {
    match step
    case SetReady(value) =>
      s.(ready := value, since := seq(|s.since|, r requires 0 <= r < |s.since| => s.since[r] && value))
    case WaiterStep(i) => WaiterApply(s, i)
    case Release(r, all) => s.(releasers := s.releasers[r := Begun(all)], since := s.since[r := s.ready])
    case ReleaserStep(r) => ReleaserApply(s, r)
  }

  /** What the code asserts or relies on: the predecessor of a node that is removed, a tail to append
      to, and that a callback is made to a function that is suspended. */
  predicate Asserts(s: State, step: Step)
    requires Sized(s) && Enabled(s, step)
  {
    match step
    case WaiterStep(i) =>
      (match s.waiters[i]
       case Appending => s.head.Node? ==> s.tail.Node? && s.tail.id < |s.next| && s.tail.id != i
       case Removing(pred) =>
         if pred.Node? then pred.id < |s.next| && s.next[pred.id] == Node(i) else s.head == Node(i)
       case _ => true)
    case ReleaserStep(r) =>
      (match s.releasers[r]
       case Took(_, waiter) => waiter.Node? ==> waiter.id < |s.next|
       case CallingNext(_, waiter, _) =>
         waiter.Node? && waiter.id < |s.waiters| && s.waiters[waiter.id].Suspended?
       case _ => true)
    case _ => true
  }

  // ----- the invariant

  function FirstOf(list: seq<nat>): Ptr {
    if list == [] then Null else Node(list[0])
  }

  function LastOf(list: seq<nat>): Ptr {
    if list == [] then Null else Node(list[|list| - 1])
  }

  ghost predicate Chain(next: seq<Ptr>, list: seq<nat>) {
    forall k | 0 <= k < |list| :: Linked(next, list, k)
  }

  ghost predicate Linked(next: seq<Ptr>, list: seq<nat>, k: nat)
    requires k < |list|
  {
    list[k] < |next| && next[list[k]] == if k + 1 < |list| then Node(list[k + 1]) else Null
  }

  ghost predicate NoDuplicates(list: seq<nat>) {
    forall k, l | 0 <= k < l < |list| :: list[k] != list[l]
  }

  predicate WaiterHoldsLock(pc: WaiterPc) {
    !pc.Away? && !pc.WantLock? && !pc.Suspended?
  }

  predicate ReleaserHoldsLock(pc: ReleaserPc) {
    pc.Locked? || pc.Took? || pc.HeadSet? || pc.TailSet?
  }

  /** The lock is held by whom the program counters say. */
  ghost predicate Locks(s: State) {
    && (forall i | 0 <= i < |s.waiters| :: WaiterHoldsLock(s.waiters[i]) <==> s.lock == ByWaiter(i))
    && (forall r | 0 <= r < |s.releasers| :: ReleaserHoldsLock(s.releasers[r]) <==> s.lock == ByReleaser(r))
  }

  /** Head and `next` always make up the queue; so does the tail, but for the thread that is about
      to write it. */
  ghost predicate Listed(s: State)
    requires Sized(s)
  {
    && s.head == FirstOf(s.queue) && Chain(s.next, s.queue) && NoDuplicates(s.queue)
    && (s.tail == LastOf(s.queue)
        || (s.lock.ByWaiter? && s.lock.w < |s.waiters|
            && (s.waiters[s.lock.w].AppendTail? || s.waiters[s.lock.w].FixTail?))
        || (s.lock.ByReleaser? && s.lock.r < |s.releasers| && s.releasers[s.lock.r].HeadSet?))
  }

  /** Where a waiter is in the list, as its program counter says. */
  ghost predicate WaiterOk(s: State, i: nat)
    requires Sized(s) && i < |s.waiters|
  {
    var pc, n := s.waiters[i], |s.queue|;
    && (i in s.queue <==> s.place[i].InQueue?)
    && (pc.AppendTail? || pc.Rechecking? || pc.Yielding? || pc.Removing? ==>
          n > 0 && s.queue[n - 1] == i && s.place[i].InQueue?)
    && (pc.AppendTail? || pc.Rechecking? || pc.Removing? ==> n > 0 && pc.pred == LastOf(s.queue[..n - 1]))
    && (pc.FixTail? ==> s.tail == Node(i) && pc.pred == LastOf(s.queue))
    && (pc.Away? || pc.WantLock? || pc.Appending? || pc.FixTail? || pc.Unlocking? ==> s.place[i].Nowhere?)
    && (s.place[i].InHands? ==> pc.Suspended? && s.place[i].r < |s.releasers|)
    && (pc.Suspended? ==> !s.place[i].Nowhere?)
  }

  /** What a releaser has in its hands, as its program counter says. */
  ghost predicate ReleaserOk(s: State, r: nat)
    requires Sized(s) && r < |s.releasers|
  {
    var pc, held := s.releasers[r], s.held[r];
    && NoDuplicates(held)
    && (forall k | 0 <= k < |held| :: held[k] < |s.place|)
    && (forall i | 0 <= i < |s.place| :: i in held <==> s.place[i] == InHands(r))
    && (pc.Idle? || pc.Begun? || pc.SawHead? || pc.Locked? || pc.Took? || pc.Finished? ==> held == [])
    && (pc.HeadSet? || pc.TailSet? || pc.Calling? || pc.CallingNext? ==>
          && pc.waiter == FirstOf(held) && if pc.all then Chain(s.next, held) else |held| <= 1)
    && (pc.CallingNext? ==> held != [] && pc.next == FirstOf(held[1..]))
    && (pc.Took? ==> pc.waiter == s.head)
    && (pc.HeadSet? ==>
          if pc.all then s.queue == [] else s.queue != [] || pc.waiter.Null? ==> s.tail == LastOf(s.queue))
    && (s.since[r] ==> s.ready)
  }

  /** A waiter that has found the condition false twice and is on the queue. */
  predicate Committed(s: State, i: nat)
    requires Sized(s) && i < |s.waiters|
  {
    s.place[i].InQueue? && (s.waiters[i].Yielding? || s.waiters[i].Suspended?)
  }

  /** The releaser has emptied the queue, or found it empty. */
  predicate HasCleared(pc: ReleaserPc) {
    (pc.HeadSet? || pc.TailSet? || pc.Calling? || pc.CallingNext? || pc.Finished?) && pc.all
  }

  ghost predicate Cleared(s: State)
    requires Sized(s)
  {
    (exists r | 0 <= r < |s.releasers| :: s.since[r] && HasCleared(s.releasers[r])) ==>
      forall i | 0 <= i < |s.waiters| :: !Committed(s, i)
  }

  ghost predicate InRange(s: State) {
    forall k | 0 <= k < |s.queue| :: s.queue[k] < |s.waiters|
  }

  ghost predicate WaitersOk(s: State)
    requires Sized(s)
  {
    forall i | 0 <= i < |s.waiters| :: WaiterOk(s, i)
  }

  ghost predicate ReleasersOk(s: State)
    requires Sized(s)
  {
    forall r | 0 <= r < |s.releasers| :: ReleaserOk(s, r)
  }

  ghost predicate Inv(s: State) {
    && Sized(s) && Locks(s) && Listed(s) && InRange(s) && WaitersOk(s) && ReleasersOk(s) && Cleared(s)
  }

  lemma ClearedKept(s: State, t: State)
    requires Sized(s) && Sized(t) && Cleared(s)
    requires |t.waiters| == |s.waiters| && |t.releasers| == |s.releasers|
    requires forall j | 0 <= j < |t.waiters| :: Committed(t, j) ==> Committed(s, j)
    requires forall r | 0 <= r < |t.releasers| ::
               t.since[r] && HasCleared(t.releasers[r]) ==> s.since[r] && HasCleared(s.releasers[r])
    ensures Cleared(t)
  {
  }

  // ----- steps of a waiter

  /** What a step of waiter `i` leaves alone. */
  ghost predicate OnlyWaiter(s: State, t: State, i: nat)
    requires Sized(s)
  {
    && Sized(t) && |t.waiters| == |s.waiters| && |t.releasers| == |s.releasers| && i < |s.waiters|
    && t.ready == s.ready && t.releasers == s.releasers && t.held == s.held && t.since == s.since
    && (forall j | 0 <= j < |s.waiters| && j != i ::
          && t.waiters[j] == s.waiters[j] && t.place[j] == s.place[j]
          && (j in t.queue <==> j in s.queue)
          && (s.place[j].InHands? ==> t.next[j] == s.next[j]))
    && !t.place[i].InHands? && !s.place[i].InHands?
  }

  /** The other threads do not notice, as the lock is held by `i`. */
  lemma OthersOk(s: State, t: State, i: nat)
    requires Inv(s) && OnlyWaiter(s, t, i)
    requires s.lock == ByWaiter(i)
    ensures forall j | 0 <= j < |t.waiters| && j != i :: WaiterOk(t, j)
    ensures ReleasersOk(t)
  {
    forall j | 0 <= j < |t.waiters| && j != i ensures WaiterOk(t, j) {
      assert WaiterOk(s, j);
    }
    forall r | 0 <= r < |t.releasers| ensures ReleaserOk(t, r) {
      assert ReleaserOk(s, r);
      HandsKept(s, t, i, r);
    }
  }

  lemma HandsKept(s: State, t: State, i: nat, r: nat)
    requires Sized(s) && OnlyWaiter(s, t, i) && r < |s.releasers| && ReleaserOk(s, r)
    ensures Chain(s.next, s.held[r]) ==> Chain(t.next, t.held[r])
  {
    var held := s.held[r];
    if Chain(s.next, held) {
      forall k | 0 <= k < |held| ensures Linked(t.next, held, k) {
        assert Linked(s.next, held, k);
        assert held[k] in held && s.place[held[k]] == InHands(r);
      }
    }
  }

  /** A step of the waiter that holds the lock keeps the invariant if it keeps the list and what
      concerns the waiter itself. */
  lemma HolderPreserves(s: State, t: State, i: nat)
    requires Inv(s) && OnlyWaiter(s, t, i) && s.lock == t.lock == ByWaiter(i)
    requires WaiterHoldsLock(t.waiters[i]) && Listed(t) && WaiterOk(t, i) && InRange(t)
    requires Committed(t, i) ==> Committed(s, i) || !s.ready
    ensures Inv(t)
  {
    OthersOk(s, t, i);
    SinceReady(s);
    hide Listed, WaiterOk, ReleaserOk;
    assert Locks(t);
    assert WaitersOk(t);
    if r :| 0 <= r < |t.releasers| && t.since[r] && HasCleared(t.releasers[r]) {
      assert s.since[r] && HasCleared(s.releasers[r]);
      forall j | 0 <= j < |t.waiters| ensures !Committed(t, j) {
        assert !Committed(s, j) && !Committed(s, i);
      }
    }
  }

  lemma SinceReady(s: State)
    requires Inv(s)
    ensures forall r | 0 <= r < |s.releasers| :: s.since[r] ==> s.ready
  {
    forall r | 0 <= r < |s.releasers| ensures s.since[r] ==> s.ready {
      assert ReleaserOk(s, r);
    }
  }

  lemma AppendFacts(s: State, i: nat)
    requires Inv(s) && Enabled(s, WaiterStep(i)) && s.waiters[i].Appending?
    ensures s.lock == ByWaiter(i) && s.tail == LastOf(s.queue) && s.head == FirstOf(s.queue)
    ensures Chain(s.next, s.queue) && NoDuplicates(s.queue) && i !in s.queue && !s.place[i].InHands?
    ensures s.queue != [] ==>
      s.tail.id < |s.place| && s.tail.id != i && s.tail.id in s.queue && s.place[s.tail.id].InQueue?
  {
    assert WaiterOk(s, i);
    if s.queue != [] {
      var last := s.queue[|s.queue| - 1];
      assert last in s.queue && WaiterOk(s, last);
    }
  }

  lemma AppendPreserves(s: State, i: nat)
    requires Inv(s) && Enabled(s, WaiterStep(i)) && s.waiters[i].Appending?
    ensures Asserts(s, WaiterStep(i)) && Inv(WaiterApply(s, i))
  {
    hide OnlyWaiter, WaiterOk, ReleaserOk, Listed, Chain, NoDuplicates, Locks, WaitersOk, ReleasersOk, Cleared;
    var t := WaiterApply(s, i);
    AppendFacts(s, i);
    AppendOnly(s, i);
    AppendListed(s, i);
    assert Sized(t) && |t.waiters| == |s.waiters| && t.lock == s.lock && t.place[i] == InQueue;
    assert t.queue == s.queue + [i] && t.waiters[i] == AppendTail(LastOf(s.queue));
    assert InRange(t);
    hide InRange, WaiterApply;
    LastOk(t, s.queue, i);
    HolderPreserves(s, t, i);
  }

  lemma AppendOnly(s: State, i: nat)
    requires Inv(s) && Enabled(s, WaiterStep(i)) && s.waiters[i].Appending?
    ensures OnlyWaiter(s, WaiterApply(s, i), i)
  {
    AppendFacts(s, i);
    hide Inv, Chain, NoDuplicates;
  }

  lemma AppendListed(s: State, i: nat)
    requires Inv(s) && Enabled(s, WaiterStep(i)) && s.waiters[i].Appending?
    ensures Listed(WaiterApply(s, i))
  {
    AppendFacts(s, i);
    AppendChain(s.next, s.queue, i);
    hide Inv, Chain, NoDuplicates;
  }

  /** A waiter at the end of the queue that remembers the node in front of it. */
  lemma LastOk(t: State, before: seq<nat>, i: nat)
    requires Sized(t) && i < |t.waiters| && t.queue == before + [i] && t.place[i].InQueue?
    requires var pc := t.waiters[i];
             (pc.AppendTail? || pc.Rechecking? || pc.Removing?) && pc.pred == LastOf(before)
    ensures WaiterOk(t, i)
  {
    assert t.queue[|t.queue| - 1] == i && t.queue[..|t.queue| - 1] == before;
  }

  lemma AppendChain(next: seq<Ptr>, queue: seq<nat>, i: nat)
    requires Chain(next, queue) && NoDuplicates(queue) && i !in queue && i < |next|
    ensures queue != [] ==> queue[|queue| - 1] < |next|
    ensures NoDuplicates(queue + [i])
    ensures var n := next[i := Null];
            Chain(if queue == [] then n else n[queue[|queue| - 1] := Node(i)], queue + [i])
  {
    var n := next[i := Null];
    if queue != [] {
      assert Linked(next, queue, |queue| - 1);
    }
    var n' := if queue == [] then n else n[queue[|queue| - 1] := Node(i)];
    forall k | 0 <= k < |queue + [i]| ensures Linked(n', queue + [i], k) {
      if k < |queue| {
        assert Linked(next, queue, k);
      }
    }
  }

  lemma AppendTailPreserves(s: State, i: nat)
    requires Inv(s) && Enabled(s, WaiterStep(i)) && s.waiters[i].AppendTail?
    ensures Inv(WaiterApply(s, i))
  {
    var t := WaiterApply(s, i);
    assert WaiterOk(s, i);
    hide ReleasersOk, WaitersOk, Cleared, Chain, NoDuplicates;
    HolderPreserves(s, t, i);
  }

  lemma RecheckPreserves(s: State, i: nat)
    requires Inv(s) && Enabled(s, WaiterStep(i)) && s.waiters[i].Rechecking?
    ensures Inv(WaiterApply(s, i))
  {
    var t := WaiterApply(s, i);
    assert WaiterOk(s, i);
    hide ReleasersOk, WaitersOk, Cleared, Chain, NoDuplicates;
    HolderPreserves(s, t, i);
  }

  lemma RemovePreserves(s: State, i: nat)
    requires Inv(s) && Enabled(s, WaiterStep(i)) && s.waiters[i].Removing?
    ensures Asserts(s, WaiterStep(i)) && Inv(WaiterApply(s, i))
  {
    var t := WaiterApply(s, i);
    RemoveFacts(s, i);
    hide ReleasersOk, WaitersOk, Cleared, Chain, NoDuplicates;
    RemoveChain(s.next, s.queue);
    ghost var before := s.queue[..|s.queue| - 1];
    assert t.queue == before;
    assert OnlyWaiter(s, t, i) by {
      hide Listed, WaiterOk;
      RemovedOnly(before, i);
    }
    hide OnlyWaiter, WaiterOk;
    RemovedOk(t, i);
    InRangePrefix(s, before);
    HolderPreserves(s, t, i);
  }

  lemma RemovedOk(t: State, i: nat)
    requires Sized(t) && i < |t.waiters| && i !in t.queue && t.place[i].Nowhere?
    requires t.tail == Node(i) && t.waiters[i] == FixTail(LastOf(t.queue))
    ensures WaiterOk(t, i)
  {
  }

  lemma InRangePrefix(s: State, before: seq<nat>)
    requires InRange(s) && s.queue != [] && before == s.queue[..|s.queue| - 1]
    ensures forall k | 0 <= k < |before| :: before[k] < |s.waiters|
  {
  }

  lemma RemovedOnly(before: seq<nat>, i: nat)
    ensures forall j: nat | j != i :: j in before <==> j in before + [i]
  {
  }

  lemma RemoveFacts(s: State, i: nat)
    requires Inv(s) && Enabled(s, WaiterStep(i)) && s.waiters[i].Removing?
    ensures s.lock == ByWaiter(i) && s.tail == Node(i) && s.queue != [] && s.place[i].InQueue?
    ensures var before := s.queue[..|s.queue| - 1];
            && s.queue == before + [i] && i !in before && s.waiters[i].pred == LastOf(before)
            && (before != [] ==>
                  before[|before| - 1] < |s.place| && s.place[before[|before| - 1]].InQueue?)
  {
    assert WaiterOk(s, i);
    var before := s.queue[..|s.queue| - 1];
    if before != [] {
      var last := before[|before| - 1];
      assert last == s.queue[|before| - 1] && last in s.queue && WaiterOk(s, last);
    }
  }

  lemma RemoveChain(next: seq<Ptr>, queue: seq<nat>)
    requires queue != [] && Chain(next, queue) && NoDuplicates(queue)
    ensures var before, last := queue[..|queue| - 1], queue[|queue| - 1];
            && last < |next| && next[last] == Null && NoDuplicates(before)
            && if before == [] then Chain(next, before)
               else
                 var pred := before[|before| - 1];
                 && pred < |next| && next[pred] == Node(last)
                 && Chain(next[pred := Null], before)
  {
    var before := queue[..|queue| - 1];
    assert Linked(next, queue, |before|);
    if before != [] {
      assert Linked(next, queue, |before| - 1);
      var next' := next[before[|before| - 1] := Null];
      forall k | 0 <= k < |before| ensures Linked(next', before, k) {
        assert Linked(next, queue, k);
      }
    }
  }

  lemma FixTailPreserves(s: State, i: nat)
    requires Inv(s) && Enabled(s, WaiterStep(i)) && s.waiters[i].FixTail?
    ensures Inv(WaiterApply(s, i))
  {
    var t := WaiterApply(s, i);
    assert WaiterOk(s, i);
    hide ReleasersOk, WaitersOk, Cleared, Chain, NoDuplicates;
    HolderPreserves(s, t, i);
  }

  /** A step in which the waiter takes or gives back the lock, or just finds the condition false. */
  lemma LockPreserves(s: State, i: nat)
    requires Inv(s) && Enabled(s, WaiterStep(i))
    requires var pc := s.waiters[i]; pc.Away? || pc.WantLock? || pc.Yielding? || pc.Unlocking?
    ensures Inv(WaiterApply(s, i))
  {
    var t := WaiterApply(s, i);
    assert WaiterOk(s, i);
    assert Listed(t);
    forall j | 0 <= j < |t.waiters| ensures WaiterOk(t, j) {
      assert WaiterOk(s, j);
    }
    forall r | 0 <= r < |t.releasers| ensures ReleaserOk(t, r) {
      assert ReleaserOk(s, r);
    }
    hide WaiterOk, ReleaserOk, Listed;
    assert forall j | 0 <= j < |t.waiters| && Committed(t, j) :: Committed(s, j);
  }

  // ----- steps of a releaser

  /** A step that changes the releaser's program counter, and perhaps takes or gives back the lock. */
  lemma ReleaserPcPreserves(s: State, r: nat)
    requires Inv(s) && Enabled(s, ReleaserStep(r))
    requires var pc := s.releasers[r]; pc.Begun? || pc.SawHead? || pc.Locked? || pc.TailSet? || pc.Calling?
    ensures Inv(ReleaserApply(s, r))
  {
    var t := ReleaserApply(s, r);
    assert t == s.(lock := t.lock, releasers := s.releasers[r := t.releasers[r]]);
    PcOk(s, r);
    PcCleared(s, r);
    PcFrame(s, t, r);
    hide WaitersOk, ReleasersOk, Cleared, InRange, ReleaserOk, Chain, NoDuplicates;
    assert Listed(t);
    assert Locks(t);
  }

  lemma PcFrame(s: State, t: State, r: nat)
    requires Inv(s) && r < |s.releasers| == |t.releasers|
    requires t == s.(lock := t.lock, releasers := s.releasers[r := t.releasers[r]])
    requires ReleaserOk(t, r)
    ensures WaitersOk(t) && ReleasersOk(t) && InRange(t)
  {
    forall j | 0 <= j < |t.waiters| ensures WaiterOk(t, j) {
      assert WaiterOk(s, j);
    }
    hide WaiterOk;
    forall q | 0 <= q < |t.releasers| ensures ReleaserOk(t, q) {
      assert ReleaserOk(s, q);
    }
  }

  lemma PcOk(s: State, r: nat)
    requires Inv(s) && Enabled(s, ReleaserStep(r))
    requires var pc := s.releasers[r]; pc.Begun? || pc.SawHead? || pc.Locked? || pc.TailSet? || pc.Calling?
    ensures ReleaserOk(ReleaserApply(s, r), r)
  {
    assert ReleaserOk(s, r);
    var held := s.held[r];
    if s.releasers[r].Calling? && held != [] {
      assert s.releasers[r].all ==> Linked(s.next, held, 0);
      assert FirstOf(held[1..]) == if |held| > 1 then Node(held[1]) else Null;
    }
  }

  /** The queue is empty if its head is. */
  lemma PcCleared(s: State, r: nat)
    requires Inv(s) && Enabled(s, ReleaserStep(r))
    requires var pc := s.releasers[r]; pc.Begun? || pc.SawHead? || pc.Locked? || pc.TailSet? || pc.Calling?
    ensures Cleared(ReleaserApply(s, r))
  {
    var t := ReleaserApply(s, r);
    if s.releasers[r].Begun? && s.head.Null? {
      forall j | 0 <= j < |t.waiters| ensures j in t.queue <==> t.place[j].InQueue? {
        assert WaiterOk(s, j);
      }
      EmptyClear(t);
    } else {
      ClearedKept(s, t);
    }
  }

  lemma EmptyClear(t: State)
    requires Sized(t) && t.queue == []
    requires forall j | 0 <= j < |t.waiters| :: j in t.queue <==> t.place[j].InQueue?
    ensures Cleared(t)
  {
  }

  lemma HeadSetPreserves(s: State, r: nat)
    requires Inv(s) && Enabled(s, ReleaserStep(r)) && s.releasers[r].HeadSet?
    ensures Inv(ReleaserApply(s, r))
  {
    var t := ReleaserApply(s, r);
    assert ReleaserOk(s, r);
    forall j | 0 <= j < |t.waiters| ensures WaiterOk(t, j) {
      assert WaiterOk(s, j);
    }
    hide WaiterOk, Chain, NoDuplicates;
    forall q | 0 <= q < |t.releasers| ensures ReleaserOk(t, q) {
      assert ReleaserOk(s, q);
    }
    hide ReleaserOk;
    ClearedKept(s, t);
  }

  /** release_all takes the whole queue. */
  lemma TakeAllPreserves(s: State, r: nat)
    requires Inv(s) && Enabled(s, ReleaserStep(r)) && s.releasers[r].Took? && s.releasers[r].all
    ensures Inv(ReleaserApply(s, r))
  {
    var t := ReleaserApply(s, r);
    assert ReleaserOk(s, r);
    assert s.lock == ByReleaser(r);
    forall j | 0 <= j < |t.waiters| ensures WaiterOk(t, j) && (j in s.queue <==> s.place[j].InQueue?) {
      assert WaiterOk(s, j);
    }
    hide WaiterOk, WaitersOk;
    forall k | 0 <= k < |s.queue| ensures s.queue[k] < |t.place| {
    }
    forall q | 0 <= q < |t.releasers| ensures ReleaserOk(t, q) {
      assert ReleaserOk(s, q);
    }
    hide ReleaserOk;
    EmptyClear(t);
  }

  /** release_one takes the first node. */
  lemma TakeOnePreserves(s: State, r: nat)
    requires Inv(s) && Enabled(s, ReleaserStep(r)) && s.releasers[r].Took? && !s.releasers[r].all
    requires s.queue != []
    ensures Inv(ReleaserApply(s, r))
  {
    var t := ReleaserApply(s, r);
    assert ReleaserOk(s, r);
    assert s.lock == ByReleaser(r);
    var first := s.queue[0];
    FirstTaken(s.next, s.queue);
    assert first in s.queue && WaiterOk(s, first);
    assert t.queue == s.queue[1..] && t.head == FirstOf(t.queue);
    hide Chain, NoDuplicates;
    forall j | 0 <= j < |t.waiters| ensures WaiterOk(t, j) {
      assert WaiterOk(s, j);
    }
    hide WaiterOk, WaitersOk;
    forall q | 0 <= q < |t.releasers| ensures ReleaserOk(t, q) {
      assert ReleaserOk(s, q);
    }
    hide ReleaserOk;
    ClearedKept(s, t);
  }

  lemma FirstTaken(next: seq<Ptr>, queue: seq<nat>)
    requires queue != [] && Chain(next, queue) && NoDuplicates(queue)
    ensures queue[0] < |next| && next[queue[0]] == FirstOf(queue[1..])
    ensures Chain(next, queue[1..]) && NoDuplicates(queue[1..])
    ensures forall i | i in queue :: i in queue[1..] <==> i != queue[0]
  {
    assert Linked(next, queue, 0);
    var rest := queue[1..];
    forall k | 0 <= k < |rest| ensures Linked(next, rest, k) {
      assert Linked(next, queue, k + 1);
    }
    assert queue == [queue[0]] + rest;
  }

  /** The callback is made to a function that is suspended, and ends its wait. */
  lemma CallbackPreserves(s: State, r: nat)
    requires Inv(s) && Enabled(s, ReleaserStep(r)) && s.releasers[r].CallingNext?
    ensures Asserts(s, ReleaserStep(r)) && Inv(ReleaserApply(s, r))
  {
    var t := ReleaserApply(s, r);
    assert ReleaserOk(s, r);
    var held, w := s.held[r], s.held[r][0];
    assert w in held && WaiterOk(s, w);
    assert held == [w] + held[1..];
    if s.releasers[r].all {
      FirstTaken(s.next, held);
    }
    forall j | 0 <= j < |t.waiters| ensures WaiterOk(t, j) {
      assert WaiterOk(s, j);
    }
    hide WaiterOk, WaitersOk, Chain;
    forall q | 0 <= q < |t.releasers| ensures ReleaserOk(t, q) {
      assert ReleaserOk(s, q);
    }
    hide ReleaserOk;
    ClearedKept(s, t);
  }

  lemma SetReadyPreserves(s: State, value: bool)
    requires Inv(s)
    ensures Inv(Apply(s, SetReady(value)))
  {
    var t := Apply(s, SetReady(value));
    forall j | 0 <= j < |t.waiters| ensures WaiterOk(t, j) {
      assert WaiterOk(s, j);
    }
    forall q | 0 <= q < |t.releasers| ensures ReleaserOk(t, q) {
      assert ReleaserOk(s, q);
    }
    hide WaiterOk, ReleaserOk;
    ClearedKept(s, t);
  }

  lemma ReleasePreserves(s: State, r: nat, all: bool)
    requires Inv(s) && Enabled(s, Release(r, all))
    ensures Inv(Apply(s, Release(r, all)))
  {
    var t := Apply(s, Release(r, all));
    forall j | 0 <= j < |t.waiters| ensures WaiterOk(t, j) {
      assert WaiterOk(s, j);
    }
    forall q | 0 <= q < |t.releasers| ensures ReleaserOk(t, q) {
      assert ReleaserOk(s, q);
    }
    hide WaiterOk, ReleaserOk;
    ClearedKept(s, t);
  }

  lemma TakeNothingPreserves(s: State, r: nat)
    requires Inv(s) && Enabled(s, ReleaserStep(r)) && s.releasers[r].Took? && !s.releasers[r].all
    requires s.queue == []
    ensures Inv(ReleaserApply(s, r))
  {
    var t := ReleaserApply(s, r);
    assert ReleaserOk(s, r);
    assert t == s.(lock := t.lock, releasers := s.releasers[r := t.releasers[r]]);
    PcFrame(s, t, r);
    ClearedKept(s, t);
    hide WaitersOk, ReleasersOk, Cleared, InRange, ReleaserOk, Chain, NoDuplicates;
  }

  // ----- all steps and runs

  /** Every step keeps the invariant, and what the code asserts holds. */
  lemma StepPreserves(s: State, step: Step)
    requires Inv(s) && Enabled(s, step)
    ensures Inv(Apply(s, step)) && Asserts(s, step)
  {
    match step
    case SetReady(value) => SetReadyPreserves(s, value);
    case Release(r, all) => ReleasePreserves(s, r, all);
    case WaiterStep(i) => WaiterPreserves(s, i);
    case ReleaserStep(r) => ReleaserPreserves(s, r);
  }

  lemma WaiterPreserves(s: State, i: nat)
    requires Inv(s) && Enabled(s, WaiterStep(i))
    ensures Inv(WaiterApply(s, i)) && Asserts(s, WaiterStep(i))
  {
    hide Inv, WaiterApply;
    match s.waiters[i]
    case Appending => AppendPreserves(s, i);
    case AppendTail(_) => AppendTailPreserves(s, i);
    case Rechecking(_) => RecheckPreserves(s, i);
    case Removing(_) => RemovePreserves(s, i);
    case FixTail(_) => FixTailPreserves(s, i);
    case _ => LockPreserves(s, i);
  }

  lemma ReleaserPreserves(s: State, r: nat)
    requires Inv(s) && Enabled(s, ReleaserStep(r))
    ensures Inv(ReleaserApply(s, r)) && Asserts(s, ReleaserStep(r))
  {
    hide ReleaserApply;
    match s.releasers[r]
    case Took(all, waiter) =>
      HeadIsNode(s, r);
      if all {
        TakeAllPreserves(s, r);
      } else if s.queue != [] {
        TakeOnePreserves(s, r);
      } else {
        TakeNothingPreserves(s, r);
      }
    case HeadSet(_, _) => HeadSetPreserves(s, r);
    case CallingNext(_, _, _) => CallbackPreserves(s, r);
    case _ => ReleaserPcPreserves(s, r);
  }

  lemma HeadIsNode(s: State, r: nat)
    requires Inv(s) && r < |s.releasers| && s.releasers[r].Took?
    ensures s.releasers[r].waiter.Node? ==> s.releasers[r].waiter.id < |s.next|
  {
    assert ReleaserOk(s, r);
  }

  ghost predicate Init(s: State) {
    && Sized(s) && s.lock == Free && s.head == s.tail == Null && s.queue == []
    && (forall i | 0 <= i < |s.waiters| :: s.waiters[i] == Away && s.place[i] == Nowhere)
    && forall r | 0 <= r < |s.releasers| :: s.releasers[r] == Idle && s.held[r] == [] && !s.since[r]
  }

  ghost predicate Run(states: seq<State>, steps: seq<Step>) {
    && |states| == |steps| + 1 && Init(states[0])
    && forall k | 0 <= k < |steps| ::
         Sized(states[k]) && Enabled(states[k], steps[k]) && states[k + 1] == Apply(states[k], steps[k])
  }

  lemma {:induction false} RunsAreSafe(states: seq<State>, steps: seq<Step>, n: nat)
    requires Run(states, steps) && n < |states|
    ensures Inv(states[n]) && forall k | 0 <= k < n :: Asserts(states[k], steps[k])
  {
    if n > 0 {
      RunsAreSafe(states, steps, n - 1);
      hide Inv, Init, Enabled, Apply, Asserts;
      StepPreserves(states[n - 1], steps[n - 1]);
    }
  }

  lemma {:induction false} SinceRelease(states: seq<State>, steps: seq<Step>, r: nat, a: nat, b: nat)
    requires Run(states, steps) && a < b < |states| && steps[a] == Release(r, true)
    requires forall k | a <= k <= b :: states[k].ready
    ensures r < |states[b].since| && states[b].since[r]
  {
    assert states[b] == Apply(states[b - 1], steps[b - 1]);
    if a + 1 < b {
      SinceRelease(states, steps, r, a, b - 1);
    }
  }

  /** No wake-up is lost.  If the condition is true from the call of release_all on, then once that
      call has returned nobody is left suspended on the queue: whoever is still suspended is in the
      hands of another releaser, which is at work and not waiting for anything. */
  lemma NoWakeUpIsLost(states: seq<State>, steps: seq<Step>, r: nat, a: nat, b: nat, i: nat)
    returns (other: nat)
    requires Run(states, steps) && a < b < |states| && steps[a] == Release(r, true)
    requires forall k | a <= k <= b :: states[k].ready
    requires r < |states[b].releasers| && states[b].releasers[r] == Finished(true)
    requires i < |states[b].waiters| && states[b].waiters[i].Suspended?
    ensures i !in states[b].queue
    ensures other < |states[b].releasers| == |states[b].held| && other != r && i in states[b].held[other]
    ensures Enabled(states[b], ReleaserStep(other))
  {
    var s := states[b];
    SinceRelease(states, steps, r, a, b);
    RunsAreSafe(states, steps, b);
    hide Run;
    assert s.since[r] && HasCleared(s.releasers[r]);
    assert WaiterOk(s, i) && !Committed(s, i);
    other := s.place[i].r;
    HandsAtWork(s, i);
    assert ReleaserOk(s, r);
  }

  lemma HandsAtWork(s: State, i: nat)
    requires Inv(s) && i < |s.waiters| && s.place[i].InHands?
    ensures var r := s.place[i].r;
            r < |s.releasers| && i in s.held[r] && Enabled(s, ReleaserStep(r))
  {
    assert WaiterOk(s, i) && ReleaserOk(s, s.place[i].r);
  }
}
