/**
 The AIMD connection ceiling of internal/accountgov: halved on a rejection, grown by one after a
 rejection-free interval. Times are integers in one unit; `None` is the zero time.
 */
module ConnectionCeiling {
  import opened Arithmetic
  import opened Wrappers

  datatype State = State(
    configured: int,
    current: int,
    minCeiling: int,
    growEvery: int,
    lastChange: Option<int>)

  const DEFAULT_GROW_EVERY := 30_000_000_000

  function Initial(configured: int): State {
    var bound := if configured < 1 then 1 else configured;
    State(bound, bound, 1, DEFAULT_GROW_EVERY, None)
  }

  function Grow(c: State, now: int): State {
    if c.current >= c.configured then c
    else if c.lastChange.None? then c.(lastChange := Some(now))
    else if now - c.lastChange.value >= c.growEvery then c.(current := c.current + 1, lastChange := Some(now))
    else c
  }

  function Reject(c: State, now: int): State {
    var next := c.current / 2;
    c.(current := if next < c.minCeiling then c.minCeiling else next, lastChange := Some(now))
  }

  ghost predicate Valid(c: State) {
    1 == c.minCeiling <= c.current <= c.configured && c.growEvery > 0
  }

  class ConnCeiling {
    var state: State

    constructor (configured: int)
      ensures state == Initial(configured) && Valid(state)
      ensures state.current == state.configured == if configured < 1 then 1 else configured
      ensures state.growEvery == 30 * 1_000_000_000
    {
      state := Initial(configured);
    }

    method SetGrowInterval(d: int)
      requires Valid(state)
      modifies this
      ensures Valid(state) && state == old(state).(growEvery := if d > 0 then d else old(state.growEvery))
    {
      if d > 0 {
        state := state.(growEvery := d);
      }
    }

    method MaybeGrowLocked(now: int)
      requires Valid(state)
      modifies this
      ensures state == Grow(old(state), now) && Valid(state)
    {
      if state.current >= state.configured {
        return;
      }
      if state.lastChange.None? {
        state := state.(lastChange := Some(now));
        return;
      }
      if now - state.lastChange.value >= state.growEvery {
        state := state.(current := state.current + 1, lastChange := Some(now));
      }
    }

    method Current(now: int) returns (ceiling: int)
      requires Valid(state)
      modifies this
      ensures state == Grow(old(state), now) && Valid(state)
      ensures ceiling == state.current
    {
      MaybeGrowLocked(now);
      ceiling := state.current;
    }

    method OnRejected(now: int)
      requires Valid(state)
      modifies this
      ensures state == Reject(old(state), now) && Valid(state)
    {
      var next := state.current / 2;
      if next < state.minCeiling {
        next := state.minCeiling;
      }
      state := state.(current := next, lastChange := Some(now));
    }
  }

  // ---------------------------------------------------------------- runs

  datatype Event = Read(now: int) | Rejected(now: int)

  function Next(c: State, e: Event): State {
    match e
    case Read(now) => Grow(c, now)
    case Rejected(now) => Reject(c, now)
  }

  /** The state after the events, the last one last. */
  function Run(c: State, events: seq<Event>): State {
    if events == [] then c else Next(Run(c, events[..|events| - 1]), events[|events| - 1])
  }

  function Rejections(events: seq<Event>): nat {
    if events == [] then 0
    else Rejections(events[..|events| - 1]) + if events[|events| - 1].Rejected? then 1 else 0
  }

  function Pow2(k: nat): (p: nat)
    ensures p >= 1
  {
    if k == 0 then 1 else 2 * Pow2(k - 1)
  }

  /** In every run the ceiling stays between one and the configured bound. */
  lemma {:induction false} CeilingStaysInBounds(c: State, events: seq<Event>)
    requires Valid(c)
    ensures Valid(Run(c, events)) && Run(c, events).configured == c.configured
    ensures Run(c, events).growEvery == c.growEvery
  {
    if events != [] {
      CeilingStaysInBounds(c, events[..|events| - 1]);
    }
  }

  /** The clock does not go back, and stays in [from, to]. */
  ghost predicate Within(events: seq<Event>, from: int, to: int) {
    && (forall i :: 0 <= i < |events| ==> from <= events[i].now <= to)
    && (forall i, j :: 0 <= i < j < |events| ==> events[i].now <= events[j].now)
  }

  lemma HalvingTwice(n: int, p: int)
    requires n >= 0 && p >= 1
    ensures (n / p) / 2 == n / (2 * p)
  {
    var q := n / p;
    var r := (q % 2) * p + n % p;
    DivMod(n, p);
    assert q == 2 * (q / 2) + q % 2;
    assert n == (q / 2) * (2 * p) + r;
    QuotientIs(n, 2 * p, q / 2, r);
  }

  /** No event raises the ceiling above what the events before it had left. */
  ghost predicate NeverGrows(c: State, events: seq<Event>) {
    events == [] ||
    (NeverGrows(c, events[..|events| - 1]) && Run(c, events).current <= Run(c, events[..|events| - 1]).current)
  }

  /**
   k rejections take the ceiling from its configured value to max(1, configured / 2^k) in every run
   in which it does not grow, however long the run and whatever reads lie in between.
   */
  lemma {:induction false} RejectionsHalve(c: State, events: seq<Event>)
    requires Valid(c) && c.current == c.configured && NeverGrows(c, events)
    ensures var halved := c.configured / Pow2(Rejections(events));
            Run(c, events).current == if halved < 1 then 1 else halved
  {
    if events != [] {
      var prefix, e := events[..|events| - 1], events[|events| - 1];
      RejectionsHalve(c, prefix);
      CeilingStaysInBounds(c, prefix);
      if e.Rejected? {
        HalvingTwice(c.configured, Pow2(Rejections(prefix)));
      }
    }
  }

  /** A run shorter than the grow interval does not grow. */
  lemma {:induction false} ShortRunNeverGrows(c: State, events: seq<Event>, from: int, to: int)
    requires Valid(c) && c.current == c.configured
    requires Within(events, from, to) && to - from < c.growEvery
    ensures NeverGrows(c, events)
    ensures var c' := Run(c, events);
            c'.current == c'.configured || (c'.lastChange.Some? && from <= c'.lastChange.value)
  {
    if events != [] {
      ShortRunNeverGrows(c, events[..|events| - 1], from, to);
      CeilingStaysInBounds(c, events[..|events| - 1]);
    }
  }

  /** So a burst of k rejections shorter than the grow interval halves k times. */
  lemma BurstHalves(c: State, events: seq<Event>, from: int, to: int)
    requires Valid(c) && c.current == c.configured
    requires Within(events, from, to) && to - from < c.growEvery
    ensures var halved := c.configured / Pow2(Rejections(events));
            Run(c, events).current == if halved < 1 then 1 else halved
  {
    ShortRunNeverGrows(c, events, from, to);
    RejectionsHalve(c, events);
  }

  ghost predicate OnlyReads(events: seq<Event>) {
    forall i :: 0 <= i < |events| ==> events[i].Read?
  }

  /** Every unit grown since the last rejection has had a whole interval of its own. */
  lemma {:induction false} GrowthIsPaidFor(c: State, t0: int, events: seq<Event>, now: int)
    requires Valid(c) && OnlyReads(events) && Within(events, t0, now) && t0 <= now
    ensures var c0, c' := Reject(c, t0), Run(Reject(c, t0), events);
            && c'.lastChange.Some? && t0 <= c'.lastChange.value <= now
            && (c'.current - c0.current) * c.growEvery <= c'.lastChange.value - t0
  {
    var c0 := Reject(c, t0);
    if events != [] {
      var prefix, e := events[..|events| - 1], events[|events| - 1];
      GrowthIsPaidFor(c, t0, prefix, e.now);
      CeilingStaysInBounds(c0, prefix);
      var before, after := Run(c0, prefix), Run(c0, events);
      var grown := before.current - c0.current;
      assert (grown + 1) * c.growEvery == grown * c.growEvery + c.growEvery;
      assert after.current - c0.current == grown || after.current - c0.current == grown + 1;
    }
  }

  /** Since a rejection at t0 that left c0, the ceiling read by time t is at most c0 + (t - t0) / growEvery. */
  lemma GrowthBound(c: State, t0: int, events: seq<Event>, now: int)
    requires Valid(c) && OnlyReads(events) && Within(events, t0, now) && t0 <= now
    ensures Run(Reject(c, t0), events).current <= Reject(c, t0).current + (now - t0) / c.growEvery
  {
    GrowthIsPaidFor(c, t0, events, now);
    var g, span := c.growEvery, now - t0;
    DivMod(span, g);
    assert (span / g + 1) * g == span / g * g + g;
    MulCancelLess(Run(Reject(c, t0), events).current - Reject(c, t0).current, span / g + 1, g);
  }

  function LastRead(events: seq<Event>, t0: int): int {
    if events == [] then t0 else events[|events| - 1].now
  }

  /** Reads a whole interval apart, the first one a whole interval after `t0`. */
  ghost predicate WideReads(events: seq<Event>, t0: int, interval: int) {
    && OnlyReads(events)
    && forall i :: 0 <= i < |events| ==> events[i].now >= interval + LastRead(events[..i], t0)
  }

  /** Growth comes back: each such read raises a lowered ceiling by one, until the configured value is reached. */
  lemma {:induction false} WideReadsRestore(c: State, t0: int, events: seq<Event>)
    requires Valid(c) && WideReads(events, t0, c.growEvery)
    ensures var lowered, c' := Reject(c, t0).current, Run(Reject(c, t0), events).current;
            c' == if lowered + |events| <= c.configured then lowered + |events| else c.configured
    ensures var c' := Run(Reject(c, t0), events);
            c'.current < c.configured ==>
              c'.lastChange == Some(LastRead(events, t0))
  {
    if events != [] {
      var prefix := events[..|events| - 1];
      assert forall i :: 0 <= i < |prefix| ==> prefix[i] == events[i] && prefix[..i] == events[..i];
      WideReadsRestore(c, t0, prefix);
      CeilingStaysInBounds(Reject(c, t0), events);
      CeilingStaysInBounds(Reject(c, t0), events[..|events| - 1]);
    }
  }

  /** So a ceiling that is left alone for long enough is read at its configured value again. */
  lemma CeilingRecovers(c: State, t0: int, events: seq<Event>)
    requires Valid(c) && WideReads(events, t0, c.growEvery) && |events| >= c.configured - 1
    ensures Run(Reject(c, t0), events).current == c.configured
  {
    WideReadsRestore(c, t0, events);
  }
}
