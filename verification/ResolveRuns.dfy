/**
 Every interleaving of Resolve callers, overlapping handler calls and invalidations on one live
 entry, under a clock that does not go back. The log is history: the entry never reads it.
 */
module ResolveRuns {
  import opened Wrappers
  import opened ResolveEntry

  datatype Event =
    | Started(generation: nat, forced: bool)
    | Completed(generation: nat, outcome: Outcome, at1: int, at2: int)
    | Dropped  // an Invalidate

  /** `running` maps the generation of each unfinished handler call to whether it is forced. */
  datatype System = System(entry: Entry, running: map<nat, bool>, log: seq<Event>, clock: int)

  datatype Step =
    | Resolve(forced: bool, refreshContext: string, now1: int, now2: int)
    | Finish(generation: nat, outcome: Outcome, now1: int, now2: int)
    | Invalidate

  function Initial(clock: int): System {
    System(EMPTY_ENTRY, map[], [], clock)
  }

  predicate Enabled(s: System, step: Step) {
    match step
    case Resolve(_, _, now1, now2) => s.clock <= now1 <= now2
    case Finish(g, _, now1, now2) => g in s.running && s.clock <= now1 <= now2
    case Invalidate => true
  }

  function DecisionOf(s: System, step: Step): Decision
    requires step.Resolve?
  {
    Decide(s.entry, step.forced, step.refreshContext, step.now1, step.now2).1
  }

  function Next(s: System, step: Step): System
    requires Enabled(s, step)
  {
    match step
    case Resolve(forced, refreshContext, now1, now2) =>
      var (entry, decision) := Decide(s.entry, forced, refreshContext, now1, now2);
      if decision.WaitOn? && decision.started then
        System(entry, s.running[decision.call.generation := forced],
               s.log + [Started(decision.call.generation, forced)], now2)
      else
        s.(entry := entry, clock := now2)
    case Finish(g, outcome, now1, now2) =>
      System(Complete(s.entry, Call(g, s.running[g]), outcome, now1, now2),
             s.running - {g}, s.log + [Completed(g, outcome, now1, now2)], now2)
    case Invalidate =>
      s.(entry := Invalidated(s.entry), log := s.log + [Dropped])
  }

  ghost predicate ValidRun(s: System, steps: seq<Step>)
    decreases |steps|
  {
    steps == [] || (Enabled(s, steps[0]) && ValidRun(Next(s, steps[0]), steps[1..]))
  }

  ghost function After(s: System, steps: seq<Step>): System
    requires ValidRun(s, steps)
    decreases |steps|
  {
    if steps == [] then s else After(Next(s, steps[0]), steps[1..])
  }

  // ---------------------------------------------------------------- history

  /** Events that make every earlier call's outcome stale. */
  predicate Supersedes(e: Event) {
    e.Started? || e.Dropped?
  }

  function Epoch(log: seq<Event>): nat {
    if log == [] then 0
    else Epoch(log[..|log| - 1]) + if Supersedes(log[|log| - 1]) then 1 else 0
  }

  lemma {:induction false} EpochGrows(log: seq<Event>, a: nat, b: nat)
    requires a <= b <= |log|
    ensures Epoch(log[..a]) <= Epoch(log[..b])
    ensures Epoch(log[..a]) == Epoch(log[..b]) ==> forall k :: a <= k < b ==> !Supersedes(log[k])
    decreases b
  {
    if a < b {
      EpochGrows(log, a, b - 1);
      assert log[..b][..b - 1] == log[..b - 1];
    }
  }

  /** The call `g` started at `i` and its outcome came at `j`, still in its own epoch. */
  ghost predicate CleanCall(log: seq<Event>, i: nat, j: nat, g: nat) {
    && i < j < |log|
    && log[i].Started? && log[i].generation == g && Epoch(log[..i + 1]) == g
    && log[j].Completed? && log[j].generation == g && Epoch(log[..j]) == g
  }

  ghost predicate CachePublished(s: System, i: nat, j: nat) {
    && CleanCall(s.log, i, j, s.entry.cachedGeneration)
    && s.log[j].outcome.Ok?
    && var file := s.log[j].outcome.value;
       && s.entry.cachedFile == CacheableCopy(file)
       && EffectiveTTL(file.expiresAt, s.log[j].at1).Some?
       && s.entry.cachedUntil == Some(s.log[j].at2 + EffectiveTTL(file.expiresAt, s.log[j].at1).value)
  }

  ghost predicate FailurePublished(s: System, i: nat, j: nat) {
    && CleanCall(s.log, i, j, s.entry.generation)
    && s.log[j].outcome == Err(s.entry.failErr)
    && s.entry.failedAt == Some(s.log[j].at1)
  }

  /** Event `i` is the start of call `g`, in its own epoch. */
  ghost predicate StartedAt(log: seq<Event>, g: nat, forced: bool, i: int) {
    0 <= i < |log| && log[i] == Started(g, forced) && Epoch(log[..i + 1]) == g
  }

  ghost predicate AllStarted(log: seq<Event>, running: map<nat, bool>, generation: nat) {
    forall g :: g in running ==> g <= generation && exists i :: StartedAt(log, g, running[g], i)
  }

  ghost predicate RunningCallsStarted(s: System) {
    AllStarted(s.log, s.running, s.entry.generation)
  }

  /** At most one running call is of the current generation, and it is the tracked one. */
  ghost predicate SingleFlight(s: System) {
    && (s.entry.inflight.Some? ==>
          var c := s.entry.inflight.value; c.generation in s.running && s.running[c.generation] == c.forced)
    && (forall g :: g in s.running && g == s.entry.generation ==>
          s.entry.inflight == Some(Call(g, s.running[g])))
  }

  ghost predicate LiveCacheIsCurrent(s: System) {
    CacheLive(s.entry, s.clock) ==>
      && s.entry.inflight.None?
      && s.entry.cachedGeneration == s.entry.generation
      && exists i, j :: CachePublished(s, i, j)
  }

  ghost predicate LiveCooldownIsCurrent(s: System) {
    Cooling(s.entry, s.clock) ==>
      && s.entry.inflight.None?
      && exists i, j :: FailurePublished(s, i, j)
  }

  ghost predicate Inv(s: System) {
    && Epoch(s.log) == s.entry.generation
    && RunningCallsStarted(s)
    && SingleFlight(s)
    && LiveCacheIsCurrent(s)
    && LiveCooldownIsCurrent(s)
  }

  // ---------------------------------------------------------------- steps keep it

  /** History is only appended to, so what it said before it still says. */
  lemma LogExtends(log: seq<Event>, e: Event)
    ensures forall i :: 0 <= i <= |log| ==> (log + [e])[..i] == log[..i]
    ensures Epoch(log + [e]) == Epoch(log) + if Supersedes(e) then 1 else 0
  {
    assert (log + [e])[..|log|] == log;
    forall i | 0 <= i <= |log|
      ensures (log + [e])[..i] == log[..i]
    {
    }
  }

  lemma RunningStaysStarted(s: System, e: Event, running: map<nat, bool>, generation: nat)
    requires RunningCallsStarted(s) && s.entry.generation <= generation
    requires Epoch(s.log) == s.entry.generation
    requires forall g :: g in running ==> (g in s.running && running[g] == s.running[g]) ||
                                          (e == Started(g, running[g]) && g == generation == s.entry.generation + 1)
    ensures AllStarted(s.log + [e], running, generation)
  {
    LogExtends(s.log, e);
    forall g | g in running
      ensures g <= generation && exists i :: StartedAt(s.log + [e], g, running[g], i)
    {
      if g in s.running && running[g] == s.running[g] {
        var i :| StartedAt(s.log, g, s.running[g], i);
        StartSurvives(s.log, e, g, running[g], i);
      } else {
        assert s.log + [e] == (s.log + [e])[..|s.log| + 1];
        assert StartedAt(s.log + [e], g, running[g], |s.log|);
      }
    }
  }

  lemma StartSurvives(log: seq<Event>, e: Event, g: nat, forced: bool, i: nat)
    requires StartedAt(log, g, forced, i)
    ensures StartedAt(log + [e], g, forced, i)
  {
    assert (log + [e])[i] == log[i] && (log + [e])[..i + 1] == log[..i + 1];
  }

  lemma CleanCallSurvives(log: seq<Event>, log': seq<Event>, i: nat, j: nat, g: nat)
    requires CleanCall(log, i, j, g) && |log| <= |log'| && log'[..|log|] == log
    ensures CleanCall(log', i, j, g) && log'[j] == log[j]
  {
    assert log'[..i + 1] == log[..i + 1] && log'[..j] == log[..j];
    assert log'[i] == log[i] && log'[j] == log[j];
  }

  lemma CacheSurvives(s: System, s': System, i: nat, j: nat)
    requires CachePublished(s, i, j) && |s.log| <= |s'.log| && s'.log[..|s.log|] == s.log
    requires s'.entry == s.entry || s'.entry == s.entry.(inflight := None)
    ensures CachePublished(s', i, j)
  {
    CleanCallSurvives(s.log, s'.log, i, j, s.entry.cachedGeneration);
  }

  lemma FailureSurvives(s: System, s': System, i: nat, j: nat)
    requires FailurePublished(s, i, j) && |s.log| <= |s'.log| && s'.log[..|s.log|] == s.log
    requires s'.entry == s.entry || s'.entry == s.entry.(inflight := None)
    ensures FailurePublished(s', i, j)
  {
    CleanCallSurvives(s.log, s'.log, i, j, s.entry.generation);
  }

  /** Neither the published state nor the clock's view of it gets any fresher. */
  lemma PublicationSurvives(s: System, s': System)
    requires LiveCacheIsCurrent(s) && LiveCooldownIsCurrent(s)
    requires s.clock <= s'.clock && |s.log| <= |s'.log| && s'.log[..|s.log|] == s.log
    requires s'.entry == s.entry || s'.entry == s.entry.(inflight := None)
    ensures LiveCacheIsCurrent(s') && LiveCooldownIsCurrent(s')
  {
    if CacheLive(s'.entry, s'.clock) {
      var i, j :| CachePublished(s, i, j);
      CacheSurvives(s, s', i, j);
    }
    if Cooling(s'.entry, s'.clock) {
      var i, j :| FailurePublished(s, i, j);
      FailureSurvives(s, s', i, j);
    }
  }

  lemma StartKeepsInv(s: System, step: Step)
    requires Inv(s) && Enabled(s, step) && step.Resolve?
    requires DecisionOf(s, step).WaitOn? && DecisionOf(s, step).started
    ensures Inv(Next(s, step))
  {
    var s', e := Next(s, step), Started(s.entry.generation + 1, step.forced);
    LogExtends(s.log, e);
    assert s'.log == s.log + [e];
    RunningStaysStarted(s, e, s'.running, s'.entry.generation);
    StartIsTracked(s, step);
  }

  lemma StartIsTracked(s: System, step: Step)
    requires Inv(s) && Enabled(s, step) && step.Resolve?
    requires DecisionOf(s, step).WaitOn? && DecisionOf(s, step).started
    ensures SingleFlight(Next(s, step))
    ensures !CacheLive(Next(s, step).entry, Next(s, step).clock) && !Cooling(Next(s, step).entry, Next(s, step).clock)
  {
  }

  lemma ResolveKeepsInv(s: System, step: Step)
    requires Inv(s) && Enabled(s, step) && step.Resolve?
    ensures Inv(Next(s, step))
  {
    var s', decision := Next(s, step), DecisionOf(s, step);
    if decision.WaitOn? && decision.started {
      StartKeepsInv(s, step);
    } else {
      assert s'.log[..|s.log|] == s.log;
      PublicationSurvives(s, s');
    }
  }

  lemma AppendedCompletionIsClean(log: seq<Event>, i: nat, e: Event)
    requires i < |log| && log[i].Started? && e.Completed? && log[i].generation == e.generation
    requires Epoch(log[..i + 1]) == e.generation == Epoch(log)
    ensures CleanCall(log + [e], i, |log|, e.generation)
  {
    LogExtends(log, e);
    assert (log + [e])[|log|] == e && (log + [e])[i] == log[i];
  }

  /** The current call is a clean one once its completion is logged. */
  lemma CurrentCallIsClean(s: System, step: Step)
    requires Inv(s) && Enabled(s, step) && step.Finish? && step.generation == s.entry.generation
    ensures exists i :: CleanCall(Next(s, step).log, i, |s.log|, step.generation)
  {
    var g := step.generation;
    var e := Completed(g, step.outcome, step.now1, step.now2);
    var i :| StartedAt(s.log, g, s.running[g], i);
    AppendedCompletionIsClean(s.log, i, e);
    assert Next(s, step).log == s.log + [e];
    assert CleanCall(s.log + [e], i, |s.log|, g);
  }

  lemma PublishedCacheIsBacked(s: System, step: Step)
    requires Inv(s) && Enabled(s, step) && step.Finish? && step.generation == s.entry.generation
    ensures LiveCacheIsCurrent(Next(s, step))
  {
    var s' := Next(s, step);
    if CacheLive(s'.entry, s'.clock) {
      CurrentCallIsClean(s, step);
      var i :| CleanCall(s'.log, i, |s.log|, step.generation);
      assert s'.log[|s.log|] == Completed(step.generation, step.outcome, step.now1, step.now2);
      assert CachePublished(s', i, |s.log|);
    }
  }

  lemma PublishedFailureIsBacked(s: System, step: Step)
    requires Inv(s) && Enabled(s, step) && step.Finish? && step.generation == s.entry.generation
    ensures LiveCooldownIsCurrent(Next(s, step))
  {
    var s' := Next(s, step);
    if Cooling(s'.entry, s'.clock) {
      CurrentCallIsClean(s, step);
      var i :| CleanCall(s'.log, i, |s.log|, step.generation);
      assert s'.log[|s.log|] == Completed(step.generation, step.outcome, step.now1, step.now2);
      assert FailurePublished(s', i, |s.log|);
    }
  }

  /** The outcome of the current call is published, and its own history backs it. */
  lemma PublishingKeepsInv(s: System, step: Step)
    requires Inv(s) && Enabled(s, step) && step.Finish? && step.generation == s.entry.generation
    ensures Inv(Next(s, step))
  {
    var e := Completed(step.generation, step.outcome, step.now1, step.now2);
    LogExtends(s.log, e);
    RunningStaysStarted(s, e, Next(s, step).running, step.generation);
    PublishedCacheIsBacked(s, step);
    PublishedFailureIsBacked(s, step);
  }

  lemma SupersededFinishKeepsInv(s: System, step: Step)
    requires Inv(s) && Enabled(s, step) && step.Finish? && step.generation != s.entry.generation
    ensures Inv(Next(s, step))
  {
    var s' := Next(s, step);
    var e := Completed(step.generation, step.outcome, step.now1, step.now2);
    LogExtends(s.log, e);
    RunningStaysStarted(s, e, s'.running, s'.entry.generation);
    PublicationSurvives(s, s');
  }

  lemma InvalidateKeepsInv(s: System)
    requires Inv(s)
    ensures Inv(Next(s, Invalidate))
  {
    LogExtends(s.log, Dropped);
    RunningStaysStarted(s, Dropped, s.running, s.entry.generation + 1);
  }

  lemma StepKeepsInv(s: System, step: Step)
    requires Inv(s) && Enabled(s, step)
    ensures Inv(Next(s, step))
  {
    match step
    case Resolve(_, _, _, _) => ResolveKeepsInv(s, step);
    case Finish(g, _, _, _) =>
      if g == s.entry.generation {
        PublishingKeepsInv(s, step);
      } else {
        SupersededFinishKeepsInv(s, step);
      }
    case Invalidate => InvalidateKeepsInv(s);
  }

  lemma {:induction false} RunKeepsInv(s: System, steps: seq<Step>)
    requires Inv(s) && ValidRun(s, steps)
    ensures Inv(After(s, steps))
    decreases |steps|
  {
    if steps != [] {
      StepKeepsInv(s, steps[0]);
      RunKeepsInv(Next(s, steps[0]), steps[1..]);
    }
  }

  // ---------------------------------------------------------------- what callers are told

  lemma InitialInv(clock: int)
    ensures Inv(Initial(clock))
  {
  }

  lemma ReachableInv(clock: int, steps: seq<Step>)
    requires ValidRun(Initial(clock), steps)
    ensures Inv(After(Initial(clock), steps))
  {
    InitialInv(clock);
    RunKeepsInv(Initial(clock), steps);
  }

  /**
   The call started at `i` and finished at `j`; nothing was started or invalidated in between,
   and nothing has been since.
   */
  ghost predicate Undisturbed(log: seq<Event>, i: nat, j: nat) {
    && i < j < |log|
    && log[i].Started? && log[j].Completed? && log[i].generation == log[j].generation
    && (forall k :: i < k < |log| ==> !Supersedes(log[k]))
  }

  lemma CurrentCallIsUndisturbed(log: seq<Event>, i: nat, j: nat, g: nat)
    requires CleanCall(log, i, j, g) && Epoch(log) == g
    ensures Undisturbed(log, i, j)
  {
    assert log[..|log|] == log;
    EpochGrows(log, i + 1, |log|);
  }

  /** Freshness of a cache hit, for normal and for forced callers, with its age bounded. */
  lemma CacheHitIsFresh(clock: int, steps: seq<Step>, step: Step)
    requires ValidRun(Initial(clock), steps)
    requires var s := After(Initial(clock), steps);
             Enabled(s, step) && step.Resolve? && DecisionOf(s, step).Cached?
    ensures var s := After(Initial(clock), steps); var log := s.log;
            exists i, j: nat :: Undisturbed(log, i, j) && log[j].outcome.Ok? &&
              var file := log[j].outcome.value;
              && DecisionOf(s, step).file == CacheableCopy(file)
              && step.now1 < log[j].at2 + MAX_TTL
              && (file.expiresAt.Some? ==> step.now1 < file.expiresAt.value - EXPIRY_SKEW + (log[j].at2 - log[j].at1))
  {
    ReachableInv(clock, steps);
    var s := After(Initial(clock), steps);
    assert CacheLive(s.entry, s.clock);
    var i, j :| CachePublished(s, i, j);
    CurrentCallIsUndisturbed(s.log, i, j, s.entry.generation);
  }

  /** Freshness of an error answered from the failure cooldown. */
  lemma CooldownErrorIsFresh(clock: int, steps: seq<Step>, step: Step)
    requires ValidRun(Initial(clock), steps)
    requires var s := After(Initial(clock), steps);
             Enabled(s, step) && step.Resolve? && DecisionOf(s, step).CoolingDown?
    ensures var s := After(Initial(clock), steps); var log := s.log;
            exists i, j: nat :: Undisturbed(log, i, j) &&
              log[j].outcome == Err(DecisionOf(s, step).err) && step.now2 - log[j].at1 < FAILURE_COOLDOWN
  {
    ReachableInv(clock, steps);
    var s := After(Initial(clock), steps);
    assert Cooling(s.entry, s.clock);
    var i, j :| FailurePublished(s, i, j);
    CurrentCallIsUndisturbed(s.log, i, j, s.entry.generation);
  }

  /** The generation of a logged start is the number of superseding events up to it. */
  ghost predicate StartsNumbered(log: seq<Event>) {
    forall i :: 0 <= i < |log| && log[i].Started? ==> Epoch(log[..i + 1]) == log[i].generation
  }

  lemma EventKeepsNumbers(log: seq<Event>, e: Event)
    requires StartsNumbered(log) && (e.Started? ==> e.generation == Epoch(log) + 1)
    ensures StartsNumbered(log + [e])
  {
    LogExtends(log, e);
    var longer := log + [e];
    forall i | 0 <= i < |longer| && longer[i].Started?
      ensures Epoch(longer[..i + 1]) == longer[i].generation
    {
      if i < |log| {
        assert longer[..i + 1] == log[..i + 1] && longer[i] == log[i];
      } else {
        assert longer[..i + 1] == longer;
      }
    }
  }

  lemma StepKeepsNumbers(s: System, step: Step)
    requires Inv(s) && Enabled(s, step) && StartsNumbered(s.log)
    ensures StartsNumbered(Next(s, step).log)
  {
    var log' := Next(s, step).log;
    if log' != s.log {
      var e := log'[|s.log|];
      assert log' == s.log + [e];
      EventKeepsNumbers(s.log, e);
    }
  }

  lemma {:induction false} RunKeepsNumbers(s: System, steps: seq<Step>)
    requires Inv(s) && ValidRun(s, steps) && StartsNumbered(s.log)
    ensures StartsNumbered(After(s, steps).log)
    decreases |steps|
  {
    if steps != [] {
      StepKeepsInv(s, steps[0]);
      StepKeepsNumbers(s, steps[0]);
      RunKeepsNumbers(Next(s, steps[0]), steps[1..]);
    }
  }

  /** A call that was superseded after it started changes no published state when it finishes late. */
  lemma LateCompletionIsSilent(clock: int, steps: seq<Step>, step: Step, i: nat, k: nat)
    requires ValidRun(Initial(clock), steps)
    requires var s := After(Initial(clock), steps);
             && Enabled(s, step) && step.Finish?
             && i < k < |s.log| && s.log[i].Started? && s.log[i].generation == step.generation
             && Supersedes(s.log[k])
    ensures var e, e' := After(Initial(clock), steps).entry, Next(After(Initial(clock), steps), step).entry;
            || e' == e
            || (e.inflight.Some? && e.inflight.value.generation == step.generation && e' == e.(inflight := None))
  {
    ReachableInv(clock, steps);
    InitialInv(clock);
    RunKeepsNumbers(Initial(clock), steps);
    SupersededIsPast(After(Initial(clock), steps).log, i, k);
  }

  lemma SupersededIsPast(log: seq<Event>, i: nat, k: nat)
    requires i < k < |log| && Supersedes(log[k])
    ensures Epoch(log[..i + 1]) < Epoch(log)
  {
    EpochGrows(log, i + 1, k);
    EpochGrows(log, k + 1, |log|);
    assert log[..|log|] == log && log[..k + 1][..k] == log[..k];
  }

  /** In every reachable state the published cache and the tracked call exclude each other. */
  lemma SingleFlightInEveryRun(clock: int, steps: seq<Step>, g: nat, h: nat)
    requires ValidRun(Initial(clock), steps)
    requires var s := After(Initial(clock), steps); g in s.running && h in s.running
    ensures var s := After(Initial(clock), steps); var e := s.entry;
            && (g == e.generation && h == e.generation ==> g == h && e.inflight == Some(Call(g, s.running[g])))
            && (e.inflight != Some(Call(g, s.running[g])) ==> g < e.generation)
            && (CacheLive(e, s.clock) ==> e.inflight.None? && e.cachedGeneration == e.generation)
  {
    ReachableInv(clock, steps);
  }

  function Starts(log: seq<Event>): nat {
    if log == [] then 0 else Starts(log[..|log| - 1]) + if log[|log| - 1].Started? then 1 else 0
  }

  predicate FinishesCall(step: Step, g: nat) {
    step.Finish? && step.generation == g
  }

  predicate NoneFinishes(steps: seq<Step>, g: nat) {
    forall k :: 0 <= k < |steps| ==> !FinishesCall(steps[k], g)
  }

  /** While one call is tracked, the only caller that starts another is a forced one passing a normal call. */
  lemma TrackedCallIsShared(s: System, step: Step)
    requires Inv(s) && Enabled(s, step) && step.Resolve? && s.entry.inflight.Some?
    ensures var decision := DecisionOf(s, step);
            && (step.forced && !s.entry.inflight.value.forced && decision.WaitOn? ==>
                  decision.started && decision.call.forced)
            && (!(step.forced && !s.entry.inflight.value.forced) ==>
                  decision == WaitOn(s.entry.inflight.value, false) && Next(s, step).entry == s.entry)
            && (step.forced && decision.WaitOn? ==> decision.call.forced)
  {
  }

  /** However many callers, forced or not, overlap one forced call, it stays the only handler call. */
  lemma {:induction false} ForcedCallIsShared(s: System, steps: seq<Step>, c: Call)
    requires Inv(s) && ValidRun(s, steps) && s.entry.inflight == Some(c) && c.forced
    requires NoneFinishes(steps, c.generation)
    ensures After(s, steps).entry.inflight == Some(c)
    ensures Starts(After(s, steps).log) == Starts(s.log)
    decreases |steps|
  {
    if steps != [] {
      var step, s1 := steps[0], Next(s, steps[0]);
      StepKeepsInv(s, step);
      assert !FinishesCall(step, c.generation);
      if step.Resolve? {
        TrackedCallIsShared(s, step);
      } else {
        assert s1.log[..|s.log|] == s.log;
      }
      ForcedCallIsShared(s1, steps[1..], c);
    }
  }

  lemma {:induction false} LogIsKept(s: System, steps: seq<Step>)
    requires ValidRun(s, steps)
    ensures |s.log| <= |After(s, steps).log| && After(s, steps).log[..|s.log|] == s.log
    decreases |steps|
  {
    if steps != [] {
      var s1 := Next(s, steps[0]);
      assert |s.log| <= |s1.log| && s1.log[..|s.log|] == s.log;
      LogIsKept(s1, steps[1..]);
      assert After(s1, steps[1..]).log[..|s1.log|][..|s.log|] == s.log;
    }
  }

  /** A tracked call no newer than `bound` was tracked all along, and has not finished. */
  lemma {:induction false} OldCallWasKept(s: System, steps: seq<Step>, bound: nat)
    requires Inv(s) && ValidRun(s, steps) && bound <= s.entry.generation
    ensures var inflight := After(s, steps).entry.inflight;
            inflight.Some? && inflight.value.generation <= bound ==>
              inflight == s.entry.inflight && NoneFinishes(steps, inflight.value.generation)
    decreases |steps|
  {
    if steps != [] {
      var step, s1 := steps[0], Next(s, steps[0]);
      StepKeepsInv(s, step);
      OldCallWasKept(s1, steps[1..], bound);
      var inflight := After(s, steps).entry.inflight;
      if inflight.Some? && inflight.value.generation <= bound {
        OldCallSurvivedStep(s, step, bound);
        assert steps == [step] + steps[1..];
      }
    }
  }

  lemma OldCallSurvivedStep(s: System, step: Step, bound: nat)
    requires Inv(s) && Enabled(s, step) && bound <= s.entry.generation
    requires var inflight := Next(s, step).entry.inflight; inflight.Some? && inflight.value.generation <= bound
    ensures Next(s, step).entry.inflight == s.entry.inflight
    ensures !FinishesCall(step, s.entry.inflight.value.generation)
  {
  }

  /** What the cache holds was resolved after every invalidation so far. */
  lemma CachedSinceInvalidate(s: System, steps: seq<Step>)
    requires Inv(s) && ValidRun(Next(s, Invalidate), steps)
    requires var t := After(Next(s, Invalidate), steps); CacheLive(t.entry, t.clock)
    ensures var t := After(Next(s, Invalidate), steps);
            exists i, j: nat :: |s.log| < i && Undisturbed(t.log, i, j) && t.log[j].outcome.Ok? &&
                                t.entry.cachedFile == CacheableCopy(t.log[j].outcome.value)
  {
    var s1 := Next(s, Invalidate);
    var t := After(s1, steps);
    StepKeepsInv(s, Invalidate);
    RunKeepsInv(s1, steps);
    LogIsKept(s1, steps);
    var i, j :| CachePublished(t, i, j);
    CurrentCallIsUndisturbed(t.log, i, j, t.entry.generation);
    assert t.log[|s.log|] == s1.log[|s.log|] == Dropped;
  }

  /** The call that a forced Resolve after an Invalidate can still wait on: forced, and never finished since. */
  predicate Lingers(e: Entry, steps: seq<Step>) {
    e.inflight.Some? && e.inflight.value.forced && NoneFinishes(steps, e.inflight.value.generation)
  }

  /**
   Invalidate promises that a forced Resolve after it is a fresh generation. Whatever happens in
   between, it waits on a call from before the Invalidate if and only if that call was forced and
   has not finished since; otherwise the call it waits on, or the call that resolved the cached
   file it gets, started after the Invalidate.
   */
  lemma ForcedAfterInvalidate(s: System, steps: seq<Step>, step: Step)
    requires Inv(s) && ValidRun(Next(s, Invalidate), steps)
    requires Enabled(After(Next(s, Invalidate), steps), step) && step.Resolve? && step.forced
    ensures var t := After(Next(s, Invalidate), steps); var decision := DecisionOf(t, step);
            && (decision.WaitOn? && decision.call.generation <= s.entry.generation <==> Lingers(s.entry, steps))
            && (Lingers(s.entry, steps) ==> decision == WaitOn(s.entry.inflight.value, false))
            && (decision.WaitOn? && !Lingers(s.entry, steps) ==> decision.call.generation > s.entry.generation + 1)
            && (decision.Cached? ==>
                  exists i, j: nat :: |s.log| < i && Undisturbed(t.log, i, j) && t.log[j].outcome.Ok? &&
                                      decision.file == CacheableCopy(t.log[j].outcome.value))
            && !decision.CoolingDown?
  {
    var s1 := Next(s, Invalidate);
    var t := After(s1, steps);
    StepKeepsInv(s, Invalidate);
    RunKeepsInv(s1, steps);
    if Lingers(s.entry, steps) {
      ForcedCallIsShared(s1, steps, s.entry.inflight.value);
      TrackedCallIsShared(t, step);
    }
    OldCallWasKept(s1, steps, s1.entry.generation);
    GenerationGrows(s1, steps);
    if DecisionOf(t, step).Cached? {
      CachedSinceInvalidate(s, steps);
    }
  }

  lemma {:induction false} GenerationGrows(s: System, steps: seq<Step>)
    requires ValidRun(s, steps)
    ensures After(s, steps).entry.generation >= s.entry.generation
    decreases |steps|
  {
    if steps != [] {
      GenerationGrows(Next(s, steps[0]), steps[1..]);
    }
  }

  /** A run in which the forced Resolve after an Invalidate waits on a call from before it. */
  lemma ForcedAfterInvalidateCanBeStale()
    ensures var steps := [Resolve(true, "", 0, 0), Invalidate];
            && ValidRun(Initial(0), steps)
            && DecisionOf(After(Initial(0), steps), Resolve(true, "", 0, 0)) == WaitOn(Call(1, true), false)
            && After(Initial(0), steps).entry.generation == 2
  {
    var first := Resolve(true, "", 0, 0);
    var steps := [first, Invalidate];
    var s1 := Next(Initial(0), first);
    assert steps[1..] == [Invalidate] && [Invalidate][1..] == [];
    assert ValidRun(s1, [Invalidate]);
    assert After(s1, [Invalidate]) == Next(s1, Invalidate);
  }
}
