/**
 The account lease governor of internal/accountgov, seen one operation class at a time: the
 admission state of a class and the critical sections that change it, as functions on values.
 The class `Governor` refines these functions; `LeaseRuns` interleaves them.
 */
module LeaseSpec {

  datatype Reason = Canceled | Deadline

  /** One blocked Acquire call. `arrival` (the source's `seq`) is unique, so equality of waiters is pointer equality. */
  datatype Waiter = Waiter(priority: int, session: string, arrival: int)

  /**
   The state of one operation class. `ready` holds the numbers of the waiters whose `ready`
   channel has been closed; a channel is closed at most once and never reopened.
   */
  datatype OpState = OpState(
    inUse: nat,
    waiting: seq<Waiter>,
    served: map<string, nat>,
    denials: map<(nat, Reason), nat>,
    ready: set<int>)

  const PLAYBACK := 0
  const PREWARM := 5
  const UNKNOWN_PRIORITY: nat := 6

  function Count<K>(m: map<K, nat>, k: K): nat {
    if k in m then m[k] else 0
  }

  function DenialPriority(priority: int): (index: nat)
    ensures index <= UNKNOWN_PRIORITY
  {
    if PLAYBACK <= priority <= PREWARM then priority else UNKNOWN_PRIORITY
  }

  /** The admission order: urgency first, then fewer grants to the session, then arrival. */
  predicate Better(candidate: Waiter, current: Waiter, served: map<string, nat>) {
    if candidate.priority != current.priority then
      candidate.priority < current.priority
    else if Count(served, candidate.session) != Count(served, current.session) then
      Count(served, candidate.session) < Count(served, current.session)
    else
      candidate.arrival < current.arrival
  }

  /** Waiters stand in the queue in the order of their arrival numbers. */
  ghost predicate InArrivalOrder(queue: seq<Waiter>) {
    forall i, j :: 0 <= i < j < |queue| ==> queue[i].arrival < queue[j].arrival
  }

  /** `best` beats every other waiter of the queue. */
  ghost predicate IsBest(queue: seq<Waiter>, served: map<string, nat>, best: nat) {
    && best < |queue|
    && forall j :: 0 <= j < |queue| && j != best ==> Better(queue[best], queue[j], served)
  }

  /**
   The admission rule, spelled out: `w` is no more urgent than `v`; if it is as urgent, its session has
   had no fewer grants; and if those are equal too, it came no earlier.
   */
  predicate NotBehind(v: Waiter, w: Waiter, served: map<string, nat>) {
    && v.priority <= w.priority
    && (v.priority == w.priority ==> Count(served, v.session) <= Count(served, w.session))
    && (v.priority == w.priority && Count(served, v.session) == Count(served, w.session) ==> v.arrival <= w.arrival)
  }

  /** The comparison is a strict total order, and the order of the rule. */
  lemma BetterIsStrictTotalOrder(a: Waiter, b: Waiter, c: Waiter, served: map<string, nat>)
    ensures !Better(a, a, served)
    ensures Better(a, b, served) && Better(b, c, served) ==> Better(a, c, served)
    ensures a.arrival != b.arrival ==> Better(a, b, served) != Better(b, a, served)
    ensures a.arrival != b.arrival ==> (Better(a, b, served) <==> NotBehind(a, b, served))
  {
  }

  /** The index the selection scan has settled on after the first `n` waiters. */
  function BestOfFirst(queue: seq<Waiter>, served: map<string, nat>, n: nat): (best: nat)
    requires 0 < n <= |queue|
    ensures best < n
  {
    if n == 1 then 0
    else
      var best := BestOfFirst(queue, served, n - 1);
      if Better(queue[n - 1], queue[best], served) then n - 1 else best
  }

  lemma {:induction false} BestOfFirstBeats(queue: seq<Waiter>, served: map<string, nat>, n: nat)
    requires 0 < n <= |queue|
    requires InArrivalOrder(queue)
    ensures IsBest(queue[..n], served, BestOfFirst(queue, served, n))
  {
    if n > 1 {
      BestOfFirstBeats(queue, served, n - 1);
      var best, newcomer := BestOfFirst(queue, served, n - 1), queue[n - 1];
      assert queue[..n - 1] == queue[..n][..n - 1];
      if Better(newcomer, queue[best], served) {
        forall j | 0 <= j < n - 1
          ensures Better(newcomer, queue[j], served)
        {
          if j != best {
            assert Better(queue[..n - 1][best], queue[..n - 1][j], served);
            BetterIsStrictTotalOrder(newcomer, queue[best], queue[j], served);
          }
        }
      } else {
        assert queue[best].arrival < newcomer.arrival;
        BetterIsStrictTotalOrder(queue[best], newcomer, newcomer, served);
        forall j | 0 <= j < n && j != best
          ensures Better(queue[best], queue[j], served)
        {
          if j < n - 1 {
            assert Better(queue[..n - 1][best], queue[..n - 1][j], served);
          }
        }
      }
    }
  }

  /** The waiter a release admits. */
  function Best(queue: seq<Waiter>, served: map<string, nat>): (best: nat)
    requires queue != []
    ensures best < |queue|
  {
    BestOfFirst(queue, served, |queue|)
  }

  /** The scan finds the least waiter, and there is only one. */
  lemma BestIsLeast(queue: seq<Waiter>, served: map<string, nat>, other: nat)
    requires queue != [] && InArrivalOrder(queue)
    ensures IsBest(queue, served, Best(queue, served))
    ensures IsBest(queue, served, other) ==> other == Best(queue, served)
  {
    BestOfFirstBeats(queue, served, |queue|);
    assert queue[..|queue|] == queue;
    var best := Best(queue, served);
    if IsBest(queue, served, other) && other != best {
      assert Better(queue[other], queue[best], served) && Better(queue[best], queue[other], served);
      BetterIsStrictTotalOrder(queue[other], queue[best], queue[other], served);
    }
  }

  /** The waiter the rule admits. */
  ghost predicate Foremost(queue: seq<Waiter>, served: map<string, nat>, i: nat) {
    i < |queue| && forall j :: 0 <= j < |queue| ==> NotBehind(queue[i], queue[j], served)
  }

  /** The waiter the scan ends at is the one the rule admits, and the rule admits only one. */
  lemma BestIsForemost(queue: seq<Waiter>, served: map<string, nat>, i: nat)
    requires queue != [] && InArrivalOrder(queue)
    ensures Foremost(queue, served, i) <==> i == Best(queue, served)
  {
    var best := Best(queue, served);
    BestIsLeast(queue, served, best);
    forall j | 0 <= j < |queue|
      ensures NotBehind(queue[best], queue[j], served)
    {
      assert j == best || Better(queue[best], queue[j], served);
    }
    assert forall j :: 0 <= j < |queue| && queue[j].arrival == queue[best].arrival ==> j == best;
    if Foremost(queue, served, i) {
      assert NotBehind(queue[i], queue[best], served);
    }
  }

  function Without<T>(s: seq<T>, i: nat): (r: seq<T>)
    requires i < |s|
    ensures |r| == |s| - 1
    ensures forall j :: 0 <= j < i ==> r[j] == s[j]
    ensures forall j :: i <= j < |r| ==> r[j] == s[j + 1]
  {
    s[..i] + s[i + 1..]
  }

  function MarkServed(s: OpState, session: string): OpState {
    s.(served := s.served[session := Count(s.served, session) + 1])
  }

  /** The locked part of Acquire: take a free unit, or join the queue. */
  function Enter(s: OpState, capacity: nat, w: Waiter): (r: (OpState, bool)) {
    if s.inUse < capacity then
      (MarkServed(s.(inUse := s.inUse + 1), w.session), true)
    else
      (s.(waiting := s.waiting + [w]), false)
  }

  /** `release`: hand the unit to the best waiter, or give it back when nobody waits. */
  function ReleaseUnit(s: OpState): OpState {
    if s.waiting == [] then
      s.(inUse := if s.inUse > 0 then s.inUse - 1 else 0)
    else
      var best := Best(s.waiting, s.served);
      var w := s.waiting[best];
      MarkServed(s.(waiting := Without(s.waiting, best), ready := s.ready + {w.arrival}), w.session)
  }

  /** The unit goes to waiter `i`: it leaves the queue, is told so, and its session has one more grant. */
  ghost predicate HandsTo(s: OpState, s': OpState, i: nat) {
    && i < |s.waiting| && s'.waiting == Without(s.waiting, i)
    && s'.ready == s.ready + {s.waiting[i].arrival}
    && s'.served == s.served[s.waiting[i].session := Count(s.served, s.waiting[i].session) + 1]
    && s'.inUse == s.inUse && s'.denials == s.denials
  }

  /** What a release does: the unit goes to the waiter the rule admits, or back to the pool when nobody waits. */
  ghost predicate Releases(s: OpState, s': OpState) {
    if s.waiting == [] then s' == s.(inUse := if s.inUse > 0 then s.inUse - 1 else 0)
    else exists i :: Foremost(s.waiting, s.served, i) && HandsTo(s, s', i)
  }

  lemma ReleaseFollowsTheRule(s: OpState)
    requires InArrivalOrder(s.waiting)
    ensures Releases(s, ReleaseUnit(s))
  {
    if s.waiting != [] {
      BestIsForemost(s.waiting, s.served, Best(s.waiting, s.served));
      assert HandsTo(s, ReleaseUnit(s), Best(s.waiting, s.served));
    }
  }

  /** First position of `w` in the queue, or its length. */
  function Find(queue: seq<Waiter>, w: Waiter): (i: nat)
    ensures i <= |queue|
    ensures i < |queue| ==> queue[i] == w
    ensures forall j :: 0 <= j < i ==> queue[j] != w
  {
    if queue == [] || queue[0] == w then 0 else 1 + Find(queue[1..], w)
  }

  function CountDenial(s: OpState, priority: int, reason: Reason): OpState {
    var key := (DenialPriority(priority), reason);
    s.(denials := s.denials[key := Count(s.denials, key) + 1])
  }

  /** The locked part of cancelWaiter: count the denial, and leave the queue if still in it. */
  function Cancel(s: OpState, w: Waiter, reason: Reason): (r: (OpState, bool)) {
    var counted := CountDenial(s, w.priority, reason);
    var i := Find(s.waiting, w);
    if i < |s.waiting| then (counted.(waiting := Without(s.waiting, i)), true) else (counted, false)
  }

  /** The unlocked end of cancelWaiter: a unit handed over in the meantime goes back. */
  function ReturnIfReady(s: OpState, w: Waiter): OpState {
    if w.arrival in s.ready then ReleaseUnit(s) else s
  }
}
