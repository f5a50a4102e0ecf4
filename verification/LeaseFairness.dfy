/**
 What the admission order buys over whole runs: conservation when everybody has finished, no
 barging, bounded bypass between sessions and freedom from starvation.
 */
module LeaseFairness {
  import opened LeaseSpec
  import opened LeaseRuns

  lemma InitialInv(capacity: nat)
    requires capacity > 0
    ensures Inv(Initial(capacity))
  {
    var s := Initial(capacity);
    assert Units(s) == {};
    forall p: nat, r: Reason
      ensures Count(s.op.denials, (p, r)) == |Denied(s, (p, r))|
    {
      assert Denied(s, (p, r)) == {};
    }
    forall session: string
      ensures Count(s.op.served, session) == |GrantedTo(s, session)|
    {
      assert GrantedTo(s, session) == {};
    }
  }

  /** Lease conservation: the units in use are exactly the held and the uncollected ones. */
  lemma LeasesAreConserved(capacity: nat, steps: seq<Step>)
    requires capacity > 0 && ValidRun(Initial(capacity), steps)
    ensures var s := After(Initial(capacity), steps);
            && s.op.inUse == |set id | id in s.calls && (s.calls[id].phase.Held? || Uncollected(s, id))|
            && s.op.inUse <= s.capacity == capacity
            && (s.op.waiting != [] ==> s.op.inUse == capacity)
  {
    InitialInv(capacity);
    RunKeepsInv(Initial(capacity), steps);
    CapacityIsFixed(Initial(capacity), steps);
    var s := After(Initial(capacity), steps);
    assert Units(s) == set id | id in s.calls && (s.calls[id].phase.Held? || Uncollected(s, id));
  }

  lemma {:induction false} CapacityIsFixed(s: System, steps: seq<Step>)
    requires ValidRun(s, steps)
    ensures After(s, steps).capacity == s.capacity
    decreases |steps|
  {
    if steps != [] {
      CapacityIsFixed(Next(s, steps[0]), steps[1..]);
    }
  }

  ghost predicate Quiescent(s: System) {
    forall id :: id in s.calls ==> s.calls[id].phase.Done? || s.calls[id].phase.Failed?
  }

  lemma NobodyHolds(s: System)
    requires Quiescent(s)
    ensures Units(s) == {} && forall id :: !Pending(s, id)
  {
    forall id
      ensures id !in Units(s)
    {
      if id in s.calls {
        assert s.calls[id].phase.Done? || s.calls[id].phase.Failed?;
      }
    }
  }

  /** The call failed for this reason, and its priority is `p`, or `p` is 6 and it is none of 0 to 5. */
  predicate FailedAt(s: System, id: int, p: nat, r: Reason) {
    && id in s.calls && s.calls[id].phase == Failed(r)
    && (s.calls[id].priority == p <= 5 || (p == 6 && !(0 <= s.calls[id].priority <= 5)))
  }

  /**
   Once every caller has finished, nothing is left behind, and each denial counter is the number of
   calls of its priority that failed for its reason, those of no known priority under 6.
   */
  lemma QuiescentMeansEmpty(capacity: nat, steps: seq<Step>)
    requires capacity > 0 && ValidRun(Initial(capacity), steps)
    requires Quiescent(After(Initial(capacity), steps))
    ensures var s := After(Initial(capacity), steps);
            && s.op.inUse == 0 && s.op.waiting == []
            && forall p: nat, r: Reason ::
                 Count(s.op.denials, (p, r)) == |set id | id in s.calls && FailedAt(s, id, p, r)|
  {
    InitialInv(capacity);
    RunKeepsInv(Initial(capacity), steps);
    var s := After(Initial(capacity), steps);
    NobodyHolds(s);
    forall p: nat, r: Reason
      ensures Count(s.op.denials, (p, r)) == |set id | id in s.calls && FailedAt(s, id, p, r)|
    {
      forall id | id in s.calls
        ensures IsDenied(s, id, (p, r)) <==> FailedAt(s, id, p, r)
      {
        assert s.calls[id].phase.Done? || s.calls[id].phase.Failed?;
      }
      assert Denied(s, (p, r)) == set id | id in s.calls && FailedAt(s, id, p, r);
    }
  }

  /** The unlocked `select` at the end of cancelWaiter always finds the channel closed. */
  lemma ReturningFindsTheUnit(capacity: nat, steps: seq<Step>, id: int)
    requires capacity > 0 && ValidRun(Initial(capacity), steps)
    requires Enabled(After(Initial(capacity), steps), ReturnUnit(id))
    ensures id in After(Initial(capacity), steps).op.ready
  {
    InitialInv(capacity);
    RunKeepsInv(Initial(capacity), steps);
  }

  // ---------------------------------------------------------------- hand-offs

  /** A unit only ever goes to the least waiter, and no newcomer takes one past the queue. */
  lemma OnlyTheBestIsAdmitted(s: System, step: Step, id: int)
    requires Inv(s) && Enabled(s, step) && s.op.waiting != []
    requires id in Next(s, step).calls && Granted(Next(s, step), id) && !(id in s.calls && Granted(s, id))
    ensures exists i :: 0 <= i < |s.op.waiting| && s.op.waiting[i].arrival == id &&
                        IsBest(s.op.waiting, s.op.served, i)
  {
    var best := Best(s.op.waiting, s.op.served);
    BestIsLeast(s.op.waiting, s.op.served, best);
    assert s.op.waiting[best].arrival == id;
  }

  /**
   The admission order, spelled out by the grants each session has had: while `w` waits, a call can
   be granted only if it had been waiting too, is no less urgent, and between equally urgent ones its
   session has had no more grants, and between equals there it came no later.
   */
  lemma AdmittedInOrder(s: System, step: Step, w: Waiter, id: int)
    requires Inv(s) && Enabled(s, step) && w in s.op.waiting
    requires id in Next(s, step).calls && Granted(Next(s, step), id) && !(id in s.calls && Granted(s, id))
    ensures id in s.calls && Pending(s, id)
    ensures var c := s.calls[id]; var mine, theirs := |GrantedTo(s, c.session)|, |GrantedTo(s, w.session)|;
            && c.priority <= w.priority
            && (c.priority == w.priority ==> mine <= theirs)
            && (c.priority == w.priority && mine == theirs ==> id <= w.arrival)
  {
    OnlyTheBestIsAdmitted(s, step, id);
    var i :| 0 <= i < |s.op.waiting| && s.op.waiting[i].arrival == id && IsBest(s.op.waiting, s.op.served, i);
    assert Pending(s, id) && s.op.waiting[i] == WaiterOf(s, id);
    BestIsLeast(s.op.waiting, s.op.served, i);
    BestIsForemost(s.op.waiting, s.op.served, i);
    assert NotBehind(s.op.waiting[i], w, s.op.served);
    assert Count(s.op.served, w.session) == |GrantedTo(s, w.session)|;
    assert Count(s.op.served, s.calls[id].session) == |GrantedTo(s, s.calls[id].session)|;
  }

  // ---------------------------------------------------------------- bounded bypass

  /** Earlier waiters of the same session. */
  function Ahead(queue: seq<Waiter>, w: Waiter): nat {
    if queue == [] || queue[0] == w then 0
    else (if queue[0].session == w.session then 1 else 0) + Ahead(queue[1..], w)
  }

  lemma {:induction false} AheadAfterAppend(queue: seq<Waiter>, w: Waiter, x: Waiter)
    requires w in queue
    ensures Ahead(queue + [x], w) == Ahead(queue, w)
  {
    assert (queue + [x])[0] == queue[0];
    if queue[0] != w {
      assert (queue + [x])[1..] == queue[1..] + [x];
      AheadAfterAppend(queue[1..], w, x);
    }
  }

  lemma {:induction false} AheadAfterRemoval(queue: seq<Waiter>, w: Waiter, i: nat)
    requires i < |queue| && queue[i] != w
    ensures Ahead(Without(queue, i), w) <= Ahead(queue, w)
    ensures w in queue[i..] && w !in queue[..i] && queue[i].session == w.session ==>
              Ahead(Without(queue, i), w) == Ahead(queue, w) - 1
  {
    if i == 0 {
      assert Without(queue, 0) == queue[1..];
    } else if queue[0] != w {
      assert Without(queue, i)[0] == queue[0];
      assert Without(queue, i)[1..] == Without(queue[1..], i - 1);
      assert queue[i..] == queue[1..][i - 1..];
      assert forall x :: x in queue[1..][..i - 1] ==> x in queue[..i];
      AheadAfterRemoval(queue[1..], w, i - 1);
    } else {
      assert Without(queue, i)[0] == w;
      assert queue[..i][0] == w;
    }
  }

  /** The most grants the session of `w` can have by the time `w` is admitted. */
  function Ceiling(s: System, w: Waiter): nat {
    Count(s.op.served, w.session) + Ahead(s.op.waiting, w)
  }

  ghost predicate NoneMoreUrgent(s: System, w: Waiter) {
    forall i :: 0 <= i < |s.op.waiting| ==> s.op.waiting[i].priority >= w.priority
  }

  predicate ArrivesNoMoreUrgent(step: Step, w: Waiter) {
    step.Acquire? ==> step.priority >= w.priority
  }

  /** `w` stays in the queue, and nobody more urgent joins, for the whole run. */
  ghost predicate KeepsWaiting(s: System, steps: seq<Step>, w: Waiter)
    requires ValidRun(s, steps)
    decreases |steps|
  {
    && w in s.op.waiting
    && (steps != [] ==>
          ArrivesNoMoreUrgent(steps[0], w) && KeepsWaiting(Next(s, steps[0]), steps[1..], w))
  }

  /** What one step may do while `w` stays in the queue. */
  ghost predicate FairStep(s: System, s': System, w: Waiter) {
    && NoneMoreUrgent(s', w)
    && Ceiling(s', w) <= Ceiling(s, w)
    && forall t: string ::
         Count(s'.op.served, t) == Count(s.op.served, t) ||
         (Count(s'.op.served, t) == Count(s.op.served, t) + 1 <= Ceiling(s, w) + if t == w.session then 0 else 1)
  }

  lemma RemovedIsGone(queue: seq<Waiter>, i: nat, w: Waiter)
    requires InArrivalOrder(queue) && i < |queue| && w in Without(queue, i)
    ensures queue[i] != w
  {
    var j :| 0 <= j < |Without(queue, i)| && Without(queue, i)[j] == w;
    var k := if j < i then j else j + 1;
    assert k != i && queue[k] == w;
    assert if k < i then queue[k].arrival < queue[i].arrival else queue[i].arrival < queue[k].arrival;
  }

  lemma EarlierInOrder(queue: seq<Waiter>, best: nat, w: Waiter)
    requires InArrivalOrder(queue) && best < |queue| && w in queue && queue[best].arrival < w.arrival
    ensures w in queue[best..] && w !in queue[..best]
  {
    var k :| 0 <= k < |queue| && queue[k] == w;
    assert best < k;
    assert queue[best..][k - best] == w;
    forall j | 0 <= j < best
      ensures queue[..best][j] != w
    {
      assert queue[j].arrival < queue[k].arrival;
    }
  }

  /** The best waiter goes ahead of `w`: its session was not better served, or it came earlier. */
  lemma BestGoesFirst(queue: seq<Waiter>, served: map<string, nat>, best: nat, w: Waiter)
    requires InArrivalOrder(queue) && IsBest(queue, served, best) && w in Without(queue, best)
    requires w in queue && forall i :: 0 <= i < |queue| ==> queue[i].priority >= w.priority
    ensures queue[best] != w
    ensures Count(served, queue[best].session) <= Count(served, w.session)
    ensures queue[best].session == w.session ==> queue[best].arrival < w.arrival
  {
    RemovedIsGone(queue, best, w);
    assert Better(queue[best], w, served);
  }

  /** Another session's waiter leaves: fewer stand ahead, if any did. */
  lemma OtherSessionLeaves(queue: seq<Waiter>, served: map<string, nat>, best: nat, w: Waiter)
    requires best < |queue| && queue[best] != w && queue[best].session != w.session
    ensures var after := served[queue[best].session := Count(served, queue[best].session) + 1];
            Count(after, w.session) + Ahead(Without(queue, best), w) <= Count(served, w.session) + Ahead(queue, w)
  {
    AheadAfterRemoval(queue, w, best);
  }

  /** An earlier waiter of its own session leaves: one more grant, and one fewer ahead. */
  lemma OwnSessionLeaves(queue: seq<Waiter>, served: map<string, nat>, best: nat, w: Waiter)
    requires InArrivalOrder(queue) && best < |queue| && w in queue && queue[best] != w
    requires queue[best].session == w.session && queue[best].arrival < w.arrival
    ensures var after := served[w.session := Count(served, w.session) + 1];
            && Count(after, w.session) + Ahead(Without(queue, best), w) == Count(served, w.session) + Ahead(queue, w)
            && Ahead(queue, w) >= 1
  {
    EarlierInOrder(queue, best, w);
    AheadAfterRemoval(queue, w, best);
  }

  lemma HandOffIsFair(s: System, w: Waiter)
    requires InArrivalOrder(s.op.waiting) && w in s.op.waiting && NoneMoreUrgent(s, w)
    requires w in ReleaseUnit(s.op).waiting
    ensures FairStep(s, s.(op := ReleaseUnit(s.op)), w)
  {
    var queue, served := s.op.waiting, s.op.served;
    var best := Best(queue, served);
    BestIsLeast(queue, served, best);
    BestGoesFirst(queue, served, best, w);
    if queue[best].session == w.session {
      OwnSessionLeaves(queue, served, best, w);
    } else {
      OtherSessionLeaves(queue, served, best, w);
    }
  }

  lemma AcquireIsFair(s: System, step: Step, w: Waiter)
    requires Inv(s) && Enabled(s, step) && NoneMoreUrgent(s, w) && ArrivesNoMoreUrgent(step, w) && step.Acquire?
    requires w in s.op.waiting
    ensures FairStep(s, Next(s, step), w)
  {
    AheadAfterAppend(s.op.waiting, w, Waiter(step.priority, step.session, step.id));
  }

  lemma CancelIsFair(s: System, step: Step, w: Waiter)
    requires Inv(s) && Enabled(s, step) && NoneMoreUrgent(s, w) && step.CancelWaiter?
    requires w in s.op.waiting && w in Next(s, step).op.waiting
    ensures FairStep(s, Next(s, step), w)
  {
    var i := Find(s.op.waiting, WaiterOf(s, step.id));
    if i < |s.op.waiting| {
      RemovedIsGone(s.op.waiting, i, w);
      AheadAfterRemoval(s.op.waiting, w, i);
    }
  }

  lemma StepIsFair(s: System, step: Step, w: Waiter)
    requires Inv(s) && Enabled(s, step) && NoneMoreUrgent(s, w) && ArrivesNoMoreUrgent(step, w)
    requires w in s.op.waiting && w in Next(s, step).op.waiting
    ensures FairStep(s, Next(s, step), w)
  {
    var s' := Next(s, step);
    match step
    case Acquire(_, _, _) => AcquireIsFair(s, step, w);
    case CancelWaiter(_) => CancelIsFair(s, step, w);
    case ReturnUnit(_) => HandOffIsFair(s, w);
    case Release(id) =>
      if s'.op != s.op {
        HandOffIsFair(s, w);
      }
    case _ =>
  }

  lemma {:induction false} RunIsFair(s: System, steps: seq<Step>, w: Waiter, t: string)
    requires Inv(s) && ValidRun(s, steps) && NoneMoreUrgent(s, w) && KeepsWaiting(s, steps, w)
    ensures var s' := After(s, steps);
            && Ceiling(s', w) <= Ceiling(s, w)
            && Count(s.op.served, t) <= Count(s'.op.served, t)
            && (Count(s'.op.served, t) == Count(s.op.served, t) ||
                Count(s'.op.served, t) <= Ceiling(s, w) + if t == w.session then 0 else 1)
    decreases |steps|
  {
    if steps != [] {
      var s1 := Next(s, steps[0]);
      StepKeepsInv(s, steps[0]);
      assert w in s1.op.waiting;
      StepIsFair(s, steps[0], w);
      RunIsFair(s1, steps[1..], w, t);
    }
  }

  /** How many grants another session may get while `w` waits. */
  function Allowance(s: System, w: Waiter, t: string): nat {
    if t == w.session then Ahead(s.op.waiting, w)
    else if Ceiling(s, w) + 1 > Count(s.op.served, t) then Ceiling(s, w) + 1 - Count(s.op.served, t)
    else 0
  }

  /**
   Bounded bypass: while a waiter of one session stands behind k earlier waiters of its session,
   and no more urgent caller shows up, any other session t is granted at most
   max(0, served[s] + k - served[t] + 1) units, and its own session at most k.
   */
  lemma BoundedBypass(s: System, steps: seq<Step>, w: Waiter, t: string)
    requires Inv(s) && ValidRun(s, steps) && NoneMoreUrgent(s, w) && KeepsWaiting(s, steps, w)
    ensures |GrantedTo(After(s, steps), t)| - |GrantedTo(s, t)| <= Allowance(s, w, t)
  {
    RunIsFair(s, steps, w, t);
    RunKeepsInv(s, steps);
  }

  /** A session listed once contributes its grants once. */
  function TotalServed(sessions: seq<string>, served: map<string, nat>): nat {
    if sessions == [] then 0 else Count(served, sessions[0]) + TotalServed(sessions[1..], served)
  }

  function TotalAllowance(sessions: seq<string>, s: System, w: Waiter): nat {
    if sessions == [] then 0 else Allowance(s, w, sessions[0]) + TotalAllowance(sessions[1..], s, w)
  }

  ghost predicate Distinct(sessions: seq<string>) {
    forall i, j :: 0 <= i < j < |sessions| ==> sessions[i] != sessions[j]
  }

  lemma {:induction false} OneMoreGrant(sessions: seq<string>, served: map<string, nat>, t: string)
    requires Distinct(sessions)
    ensures TotalServed(sessions, served[t := Count(served, t) + 1]) ==
            TotalServed(sessions, served) + if t in sessions then 1 else 0
  {
    if sessions != [] {
      assert forall i {:trigger sessions[1..][i]} :: 0 <= i < |sessions| - 1 ==> sessions[1..][i] == sessions[i + 1];
      assert t in sessions <==> t == sessions[0] || t in sessions[1..];
      OneMoreGrant(sessions[1..], served, t);
    }
  }

  lemma {:induction false} TotalWithinAllowance(sessions: seq<string>, s: System, steps: seq<Step>, w: Waiter)
    requires Inv(s) && ValidRun(s, steps) && NoneMoreUrgent(s, w) && KeepsWaiting(s, steps, w)
    ensures TotalServed(sessions, After(s, steps).op.served) <=
            TotalServed(sessions, s.op.served) + TotalAllowance(sessions, s, w)
    decreases |sessions|
  {
    if sessions != [] {
      RunIsFair(s, steps, w, sessions[0]);
      TotalWithinAllowance(sessions[1..], s, steps, w);
    }
  }

  /** Every waiter and every later arrival belongs to one of the listed sessions. */
  ghost predicate SessionsListed(s: System, steps: seq<Step>, sessions: seq<string>) {
    && (forall i :: 0 <= i < |s.op.waiting| ==> s.op.waiting[i].session in sessions)
    && (forall i :: 0 <= i < |steps| && steps[i].Acquire? ==> steps[i].session in sessions)
  }

  lemma ReleaseCountsOneGrant(op: OpState, sessions: seq<string>)
    requires op.waiting != [] && Distinct(sessions)
    requires forall i :: 0 <= i < |op.waiting| ==> op.waiting[i].session in sessions
    requires forall i :: 0 <= i < |op.waiting| ==> op.waiting[i].arrival !in op.ready
    ensures var op' := ReleaseUnit(op);
            && |op'.ready| == |op.ready| + 1
            && TotalServed(sessions, op'.served) == TotalServed(sessions, op.served) + 1
  {
    var v := op.waiting[Best(op.waiting, op.served)];
    assert v.session in sessions && v.arrival !in op.ready;
    OneMoreGrant(sessions, op.served, v.session);
  }

  /** While somebody waits, a unit moves exactly when some listed session's count goes up. */
  lemma HandOffsAreGrants(s: System, step: Step, sessions: seq<string>)
    requires Inv(s) && Enabled(s, step) && s.op.waiting != []
    requires Distinct(sessions)
    requires forall i :: 0 <= i < |s.op.waiting| ==> s.op.waiting[i].session in sessions
    ensures var s' := Next(s, step);
            |s'.op.ready| - |s.op.ready| ==
            TotalServed(sessions, s'.op.served) - TotalServed(sessions, s.op.served)
  {
    forall i | 0 <= i < |s.op.waiting|
      ensures s.op.waiting[i].arrival !in s.op.ready
    {
      assert Pending(s, s.op.waiting[i].arrival);
    }
    if Next(s, step).op == ReleaseUnit(s.op) {
      ReleaseCountsOneGrant(s.op, sessions);
    }
  }

  lemma SessionsStayListed(s: System, step: Step, sessions: seq<string>)
    requires Enabled(s, step)
    requires forall i :: 0 <= i < |s.op.waiting| ==> s.op.waiting[i].session in sessions
    requires step.Acquire? ==> step.session in sessions
    ensures var s' := Next(s, step); forall i :: 0 <= i < |s'.op.waiting| ==> s'.op.waiting[i].session in sessions
  {
  }

  lemma {:induction false} HandOffsOverRun(s: System, steps: seq<Step>, w: Waiter, sessions: seq<string>)
    requires Inv(s) && ValidRun(s, steps) && KeepsWaiting(s, steps, w)
    requires Distinct(sessions) && SessionsListed(s, steps, sessions)
    ensures var s' := After(s, steps);
            |s'.op.ready| - |s.op.ready| ==
            TotalServed(sessions, s'.op.served) - TotalServed(sessions, s.op.served)
    decreases |steps|
  {
    if steps != [] {
      StepKeepsInv(s, steps[0]);
      HandOffsAreGrants(s, steps[0], sessions);
      SessionsStayListed(s, steps[0], sessions);
      HandOffsOverRun(Next(s, steps[0]), steps[1..], w, sessions);
    }
  }

  /**
   No starvation: a waiter that nobody more urgent overtakes is admitted (or cancels) after at
   most a fixed number of hand-offs, computed from the state it finds when it starts to wait.
   */
  lemma NoStarvation(s: System, steps: seq<Step>, w: Waiter, sessions: seq<string>)
    requires Inv(s) && ValidRun(s, steps) && NoneMoreUrgent(s, w) && KeepsWaiting(s, steps, w)
    requires Distinct(sessions) && SessionsListed(s, steps, sessions)
    ensures |After(s, steps).op.ready| - |s.op.ready| <= TotalAllowance(sessions, s, w)
  {
    HandOffsOverRun(s, steps, w, sessions);
    TotalWithinAllowance(sessions, s, steps, w);
  }

  lemma LeastIsMostUrgent(queue: seq<Waiter>, served: map<string, nat>, i: nat, w: Waiter)
    requires i < |queue| && IsBest(queue, served, i) && w in queue
    ensures queue[i].priority <= w.priority
  {
    var k :| 0 <= k < |queue| && queue[k] == w;
    assert k == i || Better(queue[i], queue[k], served);
  }

  lemma PriorityStays(s: System, step: Step, id: int)
    requires Enabled(s, step) && id in s.calls
    ensures id in Next(s, step).calls && Next(s, step).calls[id].priority == s.calls[id].priority
  {
  }

  /** The demand starvation gate: a unit never goes past a waiter to somebody less urgent. */
  lemma NoLessUrgentAdmission(s: System, step: Step, w: Waiter, id: int)
    requires Inv(s) && Enabled(s, step) && w in s.op.waiting
    requires id in Next(s, step).calls && Granted(Next(s, step), id) && !(id in s.calls && Granted(s, id))
    ensures Next(s, step).calls[id].priority <= w.priority
  {
    OnlyTheBestIsAdmitted(s, step, id);
    var i :| 0 <= i < |s.op.waiting| && s.op.waiting[i].arrival == id && IsBest(s.op.waiting, s.op.served, i);
    LeastIsMostUrgent(s.op.waiting, s.op.served, i, w);
    assert Pending(s, id) && s.op.waiting[i] == WaiterOf(s, id);
    PriorityStays(s, step, id);
  }
}
