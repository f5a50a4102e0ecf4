/**
 Every interleaving of Acquire, cancellation and Release on one operation class with a fixed
 positive capacity. A step is one critical section of the source, or one choice of the `select`
 in Acquire; the steps of different callers interleave freely.
 */
module LeaseRuns {
  import opened LeaseSpec

  /**
   Where one Acquire call stands. `Blocked` waits in the select; `Cancelling` has taken the
   ctx.Done() arm but not yet the lock; `Returning` was not in the queue any more and has yet to
   give its unit back; `Held` owns a lease; `Done` has released it; `Failed` got an error.
   */
  datatype Phase =
    | Blocked
    | Cancelling(reason: Reason)
    | Returning(reason: Reason)
    | Held
    | Done
    | Failed(reason: Reason)

  datatype Call = Call(priority: int, session: string, phase: Phase)

  /**
   A call that joins the queue is named by its arrival number, and `last` is the greatest one used so
   far; a call that is granted at once draws no number, and goes by any unused name.
   */
  datatype System = System(capacity: nat, op: OpState, calls: map<int, Call>, last: nat)

  datatype Step =
    | Acquire(id: int, priority: int, session: string)
    | ChooseCancel(id: int, reason: Reason)
    | CancelWaiter(id: int)
    | ReturnUnit(id: int)
    | Collect(id: int)
    | Release(id: int)

  function Initial(capacity: nat): System {
    System(capacity, OpState(0, [], map[], map[], {}), map[], 0)
  }

  predicate InPhase(s: System, id: int, phase: Phase) {
    id in s.calls && s.calls[id].phase == phase
  }

  predicate Enabled(s: System, step: Step) {
    match step
    case Acquire(id, _, _) => id !in s.calls && (s.op.inUse >= s.capacity ==> id > s.last)
    case ChooseCancel(id, _) => InPhase(s, id, Blocked)
    case CancelWaiter(id) => id in s.calls && s.calls[id].phase.Cancelling?
    case ReturnUnit(id) => id in s.calls && s.calls[id].phase.Returning?
    case Collect(id) => InPhase(s, id, Blocked) && id in s.op.ready
    case Release(id) => InPhase(s, id, Held) || InPhase(s, id, Done)
  }

  function SetPhase(s: System, id: int, phase: Phase): System
    requires id in s.calls
  {
    s.(calls := s.calls[id := s.calls[id].(phase := phase)])
  }

  function WaiterOf(s: System, id: int): Waiter
    requires id in s.calls
  {
    Waiter(s.calls[id].priority, s.calls[id].session, id)
  }

  function Next(s: System, step: Step): System
    requires Enabled(s, step)
  {
    match step
    case Acquire(id, priority, session) =>
      var (op, granted) := Enter(s.op, s.capacity, Waiter(priority, session, id));
      var call := Call(priority, session, if granted then Held else Blocked);
      s.(op := op, calls := s.calls[id := call], last := if granted then s.last else id)
    case ChooseCancel(id, reason) => SetPhase(s, id, Cancelling(reason))
    case CancelWaiter(id) =>
      var reason := s.calls[id].phase.reason;
      var (op, removed) := Cancel(s.op, WaiterOf(s, id), reason);
      SetPhase(s, id, if removed then Failed(reason) else Returning(reason)).(op := op)
    case ReturnUnit(id) =>
      var reason := s.calls[id].phase.reason;
      SetPhase(s, id, Failed(reason)).(op := ReturnIfReady(s.op, WaiterOf(s, id)))
    case Collect(id) => SetPhase(s, id, Held)
    case Release(id) =>
      // sync.Once: only the first Release of a lease reaches the governor.
      if s.calls[id].phase == Done then s else SetPhase(s, id, Done).(op := ReleaseUnit(s.op))
  }

  ghost predicate ValidRun(s: System, steps: seq<Step>)
    decreases |steps|
  {
    steps == [] || (Enabled(s, steps[0]) && ValidRun(Next(s, steps[0]), steps[1..]))
  }

  ghost function After(s: System, steps: seq<Step>): System
    requires ValidRun(s, steps)
    decreases |steps|
  {
    if steps == [] then s else After(Next(s, steps[0]), steps[1..])
  }

  // ---------------------------------------------------------------- the invariant

  /** Granted, but neither collected by its caller nor given back by it yet. */
  predicate Uncollected(s: System, id: int) {
    && id in s.calls && id in s.op.ready
    && (s.calls[id].phase.Blocked? || s.calls[id].phase.Cancelling? || s.calls[id].phase.Returning?)
  }

  /** The calls that account for a unit of capacity. */
  ghost function Units(s: System): set<int> {
    set id | id in s.calls && (s.calls[id].phase.Held? || Uncollected(s, id))
  }

  /** The call's cancellation was counted under this priority and reason. */
  predicate IsDenied(s: System, id: int, key: (nat, Reason)) {
    && id in s.calls && DenialPriority(s.calls[id].priority) == key.0
    && (s.calls[id].phase == Failed(key.1) || s.calls[id].phase == Returning(key.1))
  }

  ghost function Denied(s: System, key: (nat, Reason)): set<int> {
    set id | id in s.calls && IsDenied(s, id, key)
  }

  /** The call was granted a unit, whether or not it went on to use it. */
  predicate Granted(s: System, id: int) {
    && id in s.calls
    && (id in s.op.ready || s.calls[id].phase.Held? || s.calls[id].phase.Done?)
  }

  ghost function GrantedTo(s: System, session: string): set<int> {
    set id | id in s.calls && s.calls[id].session == session && Granted(s, id)
  }

  /** Still to be granted or cancelled. */
  predicate Pending(s: System, id: int) {
    && id in s.calls && id !in s.op.ready
    && (s.calls[id].phase.Blocked? || s.calls[id].phase.Cancelling?)
  }

  ghost predicate QueueIsPending(s: System) {
    && InArrivalOrder(s.op.waiting)
    && (forall i :: 0 <= i < |s.op.waiting| ==>
          var w := s.op.waiting[i]; Pending(s, w.arrival) && w == WaiterOf(s, w.arrival))
    && (forall id :: Pending(s, id) ==> WaiterOf(s, id) in s.op.waiting)
  }

  ghost predicate Numbered(s: System) {
    && (forall i :: 0 <= i < |s.op.waiting| ==> s.op.waiting[i].arrival <= s.last)
    && s.op.ready <= s.calls.Keys
    && (forall id :: id in s.calls && s.calls[id].phase.Returning? ==> id in s.op.ready)
  }

  ghost predicate Conserved(s: System) {
    s.op.inUse == |Units(s)| <= s.capacity
  }

  /** No barging and no idle capacity: somebody waits only while every unit is taken. */
  ghost predicate NoIdleCapacity(s: System) {
    s.op.waiting != [] ==> s.op.inUse == s.capacity
  }

  ghost predicate DenialsCounted(s: System) {
    forall p: nat, r: Reason :: Count(s.op.denials, (p, r)) == |Denied(s, (p, r))|
  }

  ghost predicate GrantsCounted(s: System) {
    forall session: string :: Count(s.op.served, session) == |GrantedTo(s, session)|
  }

  ghost predicate Inv(s: System) {
    && s.capacity > 0
    && Numbered(s)
    && QueueIsPending(s)
    && Conserved(s)
    && NoIdleCapacity(s)
    && DenialsCounted(s)
    && GrantsCounted(s)
  }

  // ---------------------------------------------------------------- one step keeps it

  lemma WithoutKeepsOthers<T>(s: seq<T>, i: nat, x: T)
    requires i < |s| && x in s && x != s[i]
    ensures x in Without(s, i)
  {
    var j :| 0 <= j < |s| && s[j] == x;
    assert Without(s, i)[if j < i then j else j - 1] == x;
  }

  /** Taking the waiter at `i` out of the queue leaves a queue of exactly the other pending calls. */
  lemma DequeueKeepsQueue(s: System, s': System, i: nat)
    requires QueueIsPending(s) && i < |s.op.waiting|
    requires s'.op.waiting == Without(s.op.waiting, i)
    requires forall id {:trigger Pending(s', id)} ::
      Pending(s', id) <==> Pending(s, id) && id != s.op.waiting[i].arrival
    requires forall id :: Pending(s', id) ==> WaiterOf(s', id) == WaiterOf(s, id)
    ensures QueueIsPending(s')
  {
    var queue, queue' := s.op.waiting, s'.op.waiting;
    forall j | 0 <= j < |queue'|
      ensures var w := queue'[j]; Pending(s', w.arrival) && w == WaiterOf(s', w.arrival)
    {
      assert queue'[j] == queue[if j < i then j else j + 1];
    }
    forall id | Pending(s', id)
      ensures WaiterOf(s', id) in queue'
    {
      assert Pending(s, id);
      WithoutKeepsOthers(queue, i, WaiterOf(s, id));
    }
  }

  /** `s'` differs from `s` in the entry of the call `id` only, apart from the sessions' grants. */
  ghost predicate SameOtherCalls(s: System, s': System, id: int) {
    && id in s'.calls
    && (forall x :: x in s.calls || x == id <==> x in s'.calls)
    && (forall x :: x in s.calls && x in s'.calls ==>
          s'.calls[x].session == s.calls[x].session && s'.calls[x].priority == s.calls[x].priority)
  }

  /** The set of granted calls grows by the call that was granted, in its own session only. */
  lemma GrantsOfSession(s: System, s': System, id: int, granted: bool, session: string)
    requires SameOtherCalls(s, s', id)
    requires forall x :: x in s.calls && x != id ==> (Granted(s', x) <==> Granted(s, x))
    requires if granted then Granted(s', id) && !Granted(s, id) else Granted(s', id) == Granted(s, id)
    ensures |GrantedTo(s', session)| ==
            |GrantedTo(s, session)| + if granted && session == s'.calls[id].session then 1 else 0
  {
    if granted && session == s'.calls[id].session {
      var before := GrantedTo(s, session);
      assert id !in before;
      assert GrantedTo(s', session) == before + {id};
      assert |before + {id}| == |before| + 1;
    } else {
      assert GrantedTo(s', session) == GrantedTo(s, session);
    }
  }

  lemma GrantsAfter(s: System, s': System, id: int, granted: bool)
    requires GrantsCounted(s) && SameOtherCalls(s, s', id)
    requires forall x :: x in s.calls && x != id ==> (Granted(s', x) <==> Granted(s, x))
    requires if granted then Granted(s', id) && !Granted(s, id) else Granted(s', id) == Granted(s, id)
    requires s'.op.served == if granted then MarkServed(s.op, s'.calls[id].session).served else s.op.served
    ensures GrantsCounted(s')
  {
    forall session: string
      ensures Count(s'.op.served, session) == |GrantedTo(s', session)|
    {
      GrantsOfSession(s, s', id, granted, session);
    }
  }

  /** The set of counted denials grows by the call that was denied, under its own key only. */
  lemma DenialsOfKey(s: System, s': System, id: int, denied: bool, key: (nat, Reason), k: (nat, Reason))
    requires SameOtherCalls(s, s', id)
    requires forall x :: x in s.calls && x != id ==> (IsDenied(s', x, k) <==> IsDenied(s, x, k))
    requires if denied && k == key then IsDenied(s', id, k) && !IsDenied(s, id, k)
             else IsDenied(s', id, k) == IsDenied(s, id, k)
    ensures |Denied(s', k)| == |Denied(s, k)| + if denied && k == key then 1 else 0
  {
    if denied && k == key {
      assert Denied(s', k) == Denied(s, k) + {id};
    } else {
      assert Denied(s', k) == Denied(s, k);
    }
  }

  lemma NoNewDenials(s: System, s': System, id: int)
    requires DenialsCounted(s) && SameOtherCalls(s, s', id) && s'.op.denials == s.op.denials
    requires forall x, k :: x in s'.calls ==> (IsDenied(s', x, k) <==> IsDenied(s, x, k))
    ensures DenialsCounted(s')
  {
    forall p: nat, r: Reason
      ensures Count(s'.op.denials, (p, r)) == |Denied(s', (p, r))|
    {
      DenialsOfKey(s, s', id, false, (p, r), (p, r));
    }
  }

  lemma FastPathTakesAUnit(s: System, step: Step)
    requires Numbered(s) && Conserved(s) && GrantsCounted(s) && DenialsCounted(s)
    requires Enabled(s, step) && step.Acquire? && s.op.inUse < s.capacity
    ensures var s' := Next(s, step); Conserved(s') && GrantsCounted(s') && DenialsCounted(s')
  {
    var s', id := Next(s, step), step.id;
    assert Units(s') == Units(s) + {id};
    GrantsAfter(s, s', id, true);
    NoNewDenials(s, s', id);
  }

  lemma FastPathKeepsInv(s: System, step: Step)
    requires Inv(s) && Enabled(s, step) && step.Acquire? && s.op.inUse < s.capacity
    ensures Inv(Next(s, step))
  {
    var s' := Next(s, step);
    FastPathTakesAUnit(s, step);
    assert s.op.waiting == [];
    forall x | x in s'.calls
      ensures !Pending(s', x)
    {
      assert !Pending(s, x);
    }
  }

  lemma JoiningTheQueueKeepsQueue(s: System, step: Step)
    requires Inv(s) && Enabled(s, step) && step.Acquire? && s.op.inUse >= s.capacity
    ensures QueueIsPending(Next(s, step))
  {
    var s', id, n := Next(s, step), step.id, |s.op.waiting|;
    assert s'.op.waiting[n] == WaiterOf(s', id);
    forall j | 0 <= j < n
      ensures s.op.waiting[j].arrival < id && Pending(s', s.op.waiting[j].arrival)
      ensures WaiterOf(s', s.op.waiting[j].arrival) == s.op.waiting[j]
    {
      assert Pending(s, s.op.waiting[j].arrival);
    }
    forall x | Pending(s', x)
      ensures WaiterOf(s', x) in s'.op.waiting
    {
      if x != id {
        assert Pending(s, x) && WaiterOf(s', x) == WaiterOf(s, x);
      }
    }
  }

  lemma JoiningTheQueueKeepsInv(s: System, step: Step)
    requires Inv(s) && Enabled(s, step) && step.Acquire? && s.op.inUse >= s.capacity
    ensures Inv(Next(s, step))
  {
    var s' := Next(s, step);
    JoiningTheQueueKeepsQueue(s, step);
    assert Units(s') == Units(s);
    NoNewDenials(s, s', step.id);
    GrantsAfter(s, s', step.id, false);
  }

  lemma CancelWaiterKeepsQueue(s: System, step: Step)
    requires Inv(s) && Enabled(s, step) && step.CancelWaiter?
    ensures var s' := Next(s, step);
            && QueueIsPending(s') && Numbered(s')
            && s'.op.inUse == s.op.inUse && s'.op.ready == s.op.ready && s'.op.served == s.op.served
            && (s'.op.waiting != [] ==> s.op.waiting != [])
            && (s'.calls[step.id].phase.Failed? <==> step.id !in s.op.ready)
  {
    var s', id := Next(s, step), step.id;
    var w := WaiterOf(s, id);
    var i := Find(s.op.waiting, w);
    if i < |s.op.waiting| {
      assert Pending(s, s.op.waiting[i].arrival);
      DequeueKeepsQueue(s, s', i);
    } else {
      assert !Pending(s, id) by {
        assert w !in s.op.waiting;
      }
      assert forall x :: Pending(s', x) <==> Pending(s, x);
    }
  }

  lemma CancelCountsOneDenial(s: System, step: Step)
    requires DenialsCounted(s) && Enabled(s, step) && step.CancelWaiter?
    ensures DenialsCounted(Next(s, step))
  {
    var s', id := Next(s, step), step.id;
    var key := (DenialPriority(s.calls[id].priority), s.calls[id].phase.reason);
    forall p: nat, r: Reason
      ensures Count(s'.op.denials, (p, r)) == |Denied(s', (p, r))|
    {
      DenialsOfKey(s, s', id, true, key, (p, r));
    }
  }

  lemma CancelMovesNoUnit(s: System, step: Step)
    requires Numbered(s) && Conserved(s) && GrantsCounted(s) && Enabled(s, step) && step.CancelWaiter?
    requires Next(s, step).op.inUse == s.op.inUse && Next(s, step).op.ready == s.op.ready
    requires Next(s, step).op.served == s.op.served
    requires Next(s, step).calls[step.id].phase.Failed? <==> step.id !in s.op.ready
    ensures Conserved(Next(s, step)) && GrantsCounted(Next(s, step))
  {
    assert Units(Next(s, step)) == Units(s);
    GrantsAfter(s, Next(s, step), step.id, false);
  }

  lemma CancelWaiterKeepsInv(s: System, step: Step)
    requires Inv(s) && Enabled(s, step) && step.CancelWaiter?
    ensures Inv(Next(s, step))
  {
    CancelWaiterKeepsQueue(s, step);
    CancelCountsOneDenial(s, step);
    CancelMovesNoUnit(s, step);
  }

  /** `id` is about to give up its unit, by releasing its lease or at the end of its cancellation. */
  ghost predicate GivesUp(s: System, id: int, phase: Phase) {
    && id in Units(s)
    && ((InPhase(s, id, Held) && phase == Done) ||
        (s.calls[id].phase.Returning? && phase == Failed(s.calls[id].phase.reason)))
  }

  ghost function GaveUp(s: System, id: int, phase: Phase): System
    requires id in s.calls
  {
    SetPhase(s, id, phase).(op := ReleaseUnit(s.op))
  }

  lemma HandOffKeepsQueue(s: System, id: int, phase: Phase)
    requires Inv(s) && GivesUp(s, id, phase) && s.op.waiting != []
    ensures QueueIsPending(GaveUp(s, id, phase))
  {
    var s', best := GaveUp(s, id, phase), Best(s.op.waiting, s.op.served);
    assert Pending(s, s.op.waiting[best].arrival);
    DequeueKeepsQueue(s, s', best);
  }

  /** What a hand-off does to the class: `w` is granted the unit that `id` had. */
  ghost predicate HandedOff(s: System, s': System, id: int, w: Waiter) {
    && id in s.calls && Pending(s, w.arrival) && w == WaiterOf(s, w.arrival)
    && s'.op.ready == s.op.ready + {w.arrival} && s'.op.inUse == s.op.inUse
    && s'.op.denials == s.op.denials
    && s'.op.served == MarkServed(s.op, w.session).served
    && s'.capacity == s.capacity && s'.last == s.last
  }

  lemma HandOffMovesTheUnit(s: System, id: int, phase: Phase, s': System, w: Waiter)
    requires Numbered(s) && Conserved(s) && GivesUp(s, id, phase)
    requires HandedOff(s, s', id, w) && s'.calls == SetPhase(s, id, phase).calls
    ensures Conserved(s')
  {
    assert Units(s') == Units(s) - {id} + {w.arrival};
  }

  lemma HandOffCountsOneGrant(s: System, id: int, phase: Phase, s': System, w: Waiter)
    requires Numbered(s) && GrantsCounted(s) && GivesUp(s, id, phase)
    requires HandedOff(s, s', id, w) && s'.calls == SetPhase(s, id, phase).calls
    ensures GrantsCounted(s')
  {
    GrantsAfter(s, s', w.arrival, true);
  }

  lemma GivingUpKeepsDenials(s: System, id: int, phase: Phase, s': System)
    requires DenialsCounted(s) && GivesUp(s, id, phase)
    requires s'.calls == SetPhase(s, id, phase).calls && s'.op.denials == s.op.denials
    ensures DenialsCounted(s')
  {
    NoNewDenials(s, s', id);
  }

  lemma HandOffKeepsNumbers(s: System, id: int, phase: Phase)
    requires Numbered(s) && GivesUp(s, id, phase) && s.op.waiting != []
    requires s.op.waiting[Best(s.op.waiting, s.op.served)].arrival in s.calls
    ensures Numbered(GaveUp(s, id, phase))
  {
    WaitersStayNumbered(s.op.waiting, Best(s.op.waiting, s.op.served), s.last);
  }

  lemma WaitersStayNumbered(queue: seq<Waiter>, i: nat, last: int)
    requires i < |queue| && forall k :: 0 <= k < |queue| ==> queue[k].arrival <= last
    ensures forall k :: 0 <= k < |queue| - 1 ==> Without(queue, i)[k].arrival <= last
  {
  }

  lemma HandOffKeepsInv(s: System, id: int, phase: Phase)
    requires Inv(s) && GivesUp(s, id, phase) && s.op.waiting != []
    ensures Inv(GaveUp(s, id, phase))
  {
    HandOffKeepsQueue(s, id, phase);
    HandOffMovesOneUnit(s, id, phase);
  }

  lemma HandOffMovesOneUnit(s: System, id: int, phase: Phase)
    requires Inv(s) && GivesUp(s, id, phase) && s.op.waiting != []
    ensures var s' := GaveUp(s, id, phase);
            && Numbered(s') && Conserved(s') && NoIdleCapacity(s') && DenialsCounted(s') && GrantsCounted(s')
  {
    var s', w := GaveUp(s, id, phase), s.op.waiting[Best(s.op.waiting, s.op.served)];
    assert Pending(s, w.arrival) && w == WaiterOf(s, w.arrival);
    HandOffKeepsNumbers(s, id, phase);
    HandOffMovesTheUnit(s, id, phase, s', w);
    HandOffCountsOneGrant(s, id, phase, s', w);
    GivingUpKeepsDenials(s, id, phase, s');
  }

  lemma GiveBackKeepsInv(s: System, id: int, phase: Phase)
    requires Inv(s) && GivesUp(s, id, phase) && s.op.waiting == []
    ensures Inv(GaveUp(s, id, phase))
  {
    var s' := GaveUp(s, id, phase);
    assert Conserved(s') by {
      assert Units(s') == Units(s) - {id};
    }
    assert QueueIsPending(s') by {
      assert forall x :: Pending(s', x) <==> Pending(s, x);
    }
    GivingUpKeepsDenials(s, id, phase, s');
    GrantsAfter(s, s', id, false);
  }

  /** A call that owns a unit gives it up: the unit goes to the best waiter or back to the pool. */
  lemma GivingUpAUnitKeepsInv(s: System, id: int, phase: Phase)
    requires Inv(s) && GivesUp(s, id, phase)
    ensures Inv(GaveUp(s, id, phase))
  {
    if s.op.waiting == [] {
      GiveBackKeepsInv(s, id, phase);
    } else {
      HandOffKeepsInv(s, id, phase);
    }
  }

  /** Steps that touch no shared state: choosing an arm of the select. */
  lemma ChoiceKeepsInv(s: System, step: Step)
    requires Inv(s) && Enabled(s, step) && (step.ChooseCancel? || step.Collect?)
    ensures Inv(Next(s, step))
  {
    var s' := Next(s, step);
    assert Units(s') == Units(s);
    assert forall x :: Pending(s', x) <==> Pending(s, x);
    assert QueueIsPending(s');
    NoNewDenials(s, s', step.id);
    GrantsAfter(s, s', step.id, false);
  }

  /** Every step of every caller keeps the invariant. */
  lemma StepKeepsInv(s: System, step: Step)
    requires Inv(s) && Enabled(s, step)
    ensures Inv(Next(s, step))
  {
    match step
    case Acquire(_, _, _) =>
      if s.op.inUse < s.capacity {
        FastPathKeepsInv(s, step);
      } else {
        JoiningTheQueueKeepsInv(s, step);
      }
    case ChooseCancel(_, _) => ChoiceKeepsInv(s, step);
    case Collect(_) => ChoiceKeepsInv(s, step);
    case CancelWaiter(_) => CancelWaiterKeepsInv(s, step);
    case ReturnUnit(id) => GivingUpAUnitKeepsInv(s, id, Failed(s.calls[id].phase.reason));
    case Release(id) =>
      if s.calls[id].phase == Held {
        GivingUpAUnitKeepsInv(s, id, Done);
      }
  }

  lemma {:induction false} RunKeepsInv(s: System, steps: seq<Step>)
    requires Inv(s) && ValidRun(s, steps)
    ensures Inv(After(s, steps))
    decreases |steps|
  {
    if steps != [] {
      StepKeepsInv(s, steps[0]);
      RunKeepsInv(Next(s, steps[0]), steps[1..]);
    }
  }
}
