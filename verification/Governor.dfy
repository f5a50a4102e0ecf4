/**
 The governor object itself: maps keyed by operation class, changed in place under one mutex.
 Each method is one critical section, and is proved equal to the section of the same name in
 `LeaseSpec` on its own class, leaving every other class as it was.
 */
module AccountGovernor {
  import opened LeaseSpec

  /** The scan in `release` for the waiter to admit. */
  method SelectBest(queue: seq<Waiter>, counts: map<string, nat>) returns (best: nat)
    requires queue != []
    ensures best == Best(queue, counts)
    ensures InArrivalOrder(queue) ==> IsBest(queue, counts, best) && Foremost(queue, counts, best)
  {
    best := 0;
    var i := 1;
    while i < |queue|
      invariant 1 <= i <= |queue|
      invariant best == BestOfFirst(queue, counts, i)
    {
      if Better(queue[i], queue[best], counts) {
        best := i;
      }
      i := i + 1;
    }
    if InArrivalOrder(queue) {
      BestIsLeast(queue, counts, best);
      BestIsForemost(queue, counts, best);
    }
  }

  /** The scan in cancelWaiter for the caller's own waiter. */
  method IndexOf(queue: seq<Waiter>, w: Waiter) returns (i: nat)
    ensures i == Find(queue, w)
  {
    i := 0;
    while i < |queue| && queue[i] != w
      invariant i <= |queue|
      invariant forall j :: 0 <= j < i ==> queue[j] != w
    {
      i := i + 1;
    }
    var found := Find(queue, w);
    assert found >= i;
  }

  class Governor {
    var caps: map<string, int>
    var inUse: map<string, nat>
    var waiting: map<string, seq<Waiter>>
    var served: map<string, map<string, nat>>
    var denials: map<string, map<(nat, Reason), nat>>
    var closed: map<string, set<int>>  // the waiters whose `ready` channel has been closed
    var lastSeq: nat

    constructor ()
      ensures caps == map[] && lastSeq == 0
      ensures forall op :: View(op) == OpState(0, [], map[], map[], {})
    {
      caps, inUse, waiting, served, denials, closed := map[], map[], map[], map[], map[], map[];
      lastSeq := 0;
    }

    ghost function View(op: string): OpState
      reads this
    {
      OpState(
        if op in inUse then inUse[op] else 0,
        if op in waiting then waiting[op] else [],
        if op in served then served[op] else map[],
        if op in denials then denials[op] else map[],
        if op in closed then closed[op] else {})
    }

    function Capacity(op: string): int
      reads this
    {
      if op in caps then caps[op] else 0
    }

    twostate predicate OnlyChanges(op: string)
      reads this
    {
      caps == old(caps) && forall other :: other != op ==> View(other) == old(View(other))
    }

    method SetCapacity(op: string, capacity: int)
      modifies this`caps
      ensures Capacity(op) == if capacity <= 0 then 0 else capacity
      ensures op in caps <==> capacity > 0
      ensures forall other :: other != op ==> (other in caps <==> other in old(caps))
      ensures forall other :: other != op ==> Capacity(other) == old(Capacity(other))
    {
      if capacity <= 0 {
        caps := caps - {op};
      } else {
        caps := caps[op := capacity];
      }
    }

    method MarkServedLocked(op: string, session: string)
      modifies this`served
      ensures View(op) == MarkServed(old(View(op)), session)
      ensures OnlyChanges(op)
    {
      var m := if op in served then served[op] else map[];
      served := served[op := m[session := Count(m, session) + 1]];
    }

    /** Acquire up to its unlock: an unbounded class grants at once and counts nothing. */
    method AcquireLocked(op: string, priority: int, session: string) returns (granted: bool, w: Waiter)
      modifies this
      ensures old(Capacity(op)) <= 0 ==> granted && unchanged(this)
      ensures old(Capacity(op)) > 0 ==>
                && (View(op), granted) == Enter(old(View(op)), old(Capacity(op)), w)
                && w == Waiter(priority, session, old(lastSeq) + 1)
                && lastSeq == old(lastSeq) + (if granted then 0 else 1)
      ensures OnlyChanges(op)
    {
      w := Waiter(priority, session, lastSeq + 1);
      var capacity := if op in caps then caps[op] else 0;
      if capacity <= 0 {
        return true, w;
      }
      var used := if op in inUse then inUse[op] else 0;
      if used < capacity {
        inUse := inUse[op := used + 1];
        MarkServedLocked(op, session);
        return true, w;
      }
      lastSeq := lastSeq + 1;
      waiting := waiting[op := (if op in waiting then waiting[op] else []) + [w]];
      granted := false;
    }

    method CountDenialLocked(op: string, priority: int, reason: Reason)
      modifies this`denials
      ensures View(op) == CountDenial(old(View(op)), priority, reason)
      ensures OnlyChanges(op)
    {
      var counts := if op in denials then denials[op] else map[];
      var key := (DenialPriority(priority), reason);
      denials := denials[op := counts[key := Count(counts, key) + 1]];
    }

    method RemoveLocked(op: string, i: nat)
      requires i < |View(op).waiting|
      modifies this`waiting
      ensures View(op) == old(View(op)).(waiting := Without(old(View(op)).waiting, i))
      ensures OnlyChanges(op)
    {
      var queue := if op in waiting then waiting[op] else [];
      waiting := waiting[op := queue[..i] + queue[i + 1..]];
    }

    /** close(w.ready) */
    method CloseLocked(op: string, w: Waiter)
      modifies this`closed
      ensures View(op) == old(View(op)).(ready := old(View(op)).ready + {w.arrival})
      ensures OnlyChanges(op)
    {
      closed := closed[op := (if op in closed then closed[op] else {}) + {w.arrival}];
    }

    method GiveBackLocked(op: string)
      modifies this`inUse
      ensures View(op) == old(View(op)).(inUse := if old(View(op)).inUse > 0 then old(View(op)).inUse - 1 else 0)
      ensures OnlyChanges(op)
    {
      if op in inUse && inUse[op] > 0 {
        inUse := inUse[op := inUse[op] - 1];
      }
    }

    /** cancelWaiter up to its unlock; the caller goes on to `ReturnUnit` when not removed. */
    method CancelLocked(op: string, w: Waiter, reason: Reason) returns (removed: bool)
      modifies this
      ensures (View(op), removed) == Cancel(old(View(op)), w, reason)
      ensures OnlyChanges(op) && lastSeq == old(lastSeq)
    {
      CountDenialLocked(op, w.priority, reason);
      var i := IndexOf(if op in waiting then waiting[op] else [], w);
      removed := i < |if op in waiting then waiting[op] else []|;
      if removed {
        RemoveLocked(op, i);
      }
    }

    /** The end of cancelWaiter, after its unlock: the select on the waiter's channel. */
    method ReturnUnit(op: string, w: Waiter)
      modifies this
      ensures op in caps ==> View(op) == ReturnIfReady(old(View(op)), w)
      ensures op !in caps ==> View(op) == old(View(op))
      ensures OnlyChanges(op) && lastSeq == old(lastSeq)
    {
      if op in closed && w.arrival in closed[op] {
        Release(op);
      }
    }

    /** The released unit transfers directly to the best waiter. */
    method HandOffLocked(op: string)
      requires View(op).waiting != []
      modifies this
      ensures View(op) == ReleaseUnit(old(View(op)))
      ensures InArrivalOrder(old(View(op)).waiting) ==> Releases(old(View(op)), View(op))
      ensures OnlyChanges(op) && lastSeq == old(lastSeq)
    {
      if InArrivalOrder(View(op).waiting) {
        ReleaseFollowsTheRule(View(op));
      }
      var queue := waiting[op];
      var best := SelectBest(queue, if op in served then served[op] else map[]);
      RemoveLocked(op, best);
      AdmitLocked(op, queue[best]);
    }

    method AdmitLocked(op: string, w: Waiter)
      modifies this`served, this`closed
      ensures View(op) == MarkServed(old(View(op)).(ready := old(View(op)).ready + {w.arrival}), w.session)
      ensures OnlyChanges(op)
    {
      MarkServedLocked(op, w.session);
      CloseLocked(op, w);
    }

    method Release(op: string)
      modifies this
      ensures op in caps ==> View(op) == ReleaseUnit(old(View(op)))
      ensures op in caps && InArrivalOrder(old(View(op)).waiting) ==> Releases(old(View(op)), View(op))
      ensures op !in caps ==> View(op) == old(View(op))
      ensures OnlyChanges(op) && lastSeq == old(lastSeq)
    {
      if InArrivalOrder(View(op).waiting) {
        ReleaseFollowsTheRule(View(op));
      }
      if op !in caps {
        return;
      }
      if op !in waiting || |waiting[op]| == 0 {
        GiveBackLocked(op);
      } else {
        HandOffLocked(op);
      }
    }
  }

  /** A granted admission. Only the first Release reaches the governor. */
  class Lease {
    const g: Governor
    const op: string
    var released: bool

    constructor (g: Governor, op: string)
      ensures this.g == g && this.op == op && !released
    {
      this.g, this.op, released := g, op, false;
    }

    method Release()
      modifies this, g
      ensures released
      ensures old(released) ==> unchanged(g)
      ensures !old(released) && op in g.caps ==> g.View(op) == ReleaseUnit(old(g.View(op)))
      ensures !old(released) && op in g.caps && InArrivalOrder(old(g.View(op)).waiting) ==>
                Releases(old(g.View(op)), g.View(op))
      ensures g.OnlyChanges(op)
    {
      if !released {
        released := true;
        g.Release(op);
      }
    }
  }
}
