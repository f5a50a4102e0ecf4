/**
 What callers are told once a handler call has finished, whatever else goes on: a completion of the
 current generation settles every answer until the next call is started or the entry is invalidated.
 */
module ResolveAnswers {
  import opened Wrappers
  import opened ResolveEntry
  import opened ResolveRuns

  predicate StartsCall(s: System, step: Step) {
    step.Resolve? && DecisionOf(s, step).WaitOn? && DecisionOf(s, step).started
  }

  /** Any number of callers and late completions, but no Invalidate and no caller that starts a call. */
  ghost predicate StartsNone(s: System, steps: seq<Step>)
    requires ValidRun(s, steps)
    decreases |steps|
  {
    steps == [] ||
    (!steps[0].Invalidate? && !StartsCall(s, steps[0]) && StartsNone(Next(s, steps[0]), steps[1..]))
  }

  /** The completion of the call that has the current generation. */
  predicate Settles(s: System, finish: Step) {
    Enabled(s, finish) && finish.Finish? && finish.generation == s.entry.generation
  }

  lemma SettledEntryIsIdle(s: System, finish: Step)
    requires Inv(s) && Settles(s, finish)
    ensures Inv(Next(s, finish)) && Next(s, finish).entry.inflight.None?
    ensures Next(s, finish).entry.generation == s.entry.generation
    ensures Starts(Next(s, finish).log) == Starts(s.log)
  {
    StepKeepsInv(s, finish);
    assert Next(s, finish).log[..|s.log|] == s.log;
  }

  lemma IdleEntryRestsOnce(s: System, step: Step)
    requires Inv(s) && Enabled(s, step) && !step.Invalidate? && !StartsCall(s, step) && s.entry.inflight.None?
    ensures Next(s, step).entry == s.entry && Starts(Next(s, step).log) == Starts(s.log)
  {
    if step.Finish? {
      assert step.generation != s.entry.generation;
      assert Next(s, step).log[..|s.log|] == s.log;
    }
  }

  /** An idle entry stays as it is as long as nothing is started or invalidated. */
  lemma {:induction false} IdleEntryRests(s: System, steps: seq<Step>)
    requires Inv(s) && ValidRun(s, steps) && StartsNone(s, steps) && s.entry.inflight.None?
    ensures After(s, steps).entry == s.entry
    ensures Starts(After(s, steps).log) == Starts(s.log)
    decreases |steps|
  {
    if steps != [] {
      StepKeepsInv(s, steps[0]);
      IdleEntryRestsOnce(s, steps[0]);
      IdleEntryRests(Next(s, steps[0]), steps[1..]);
    }
  }

  /** The caller comes from a generation of the file that `file` has already replaced. */
  predicate CameFromOlder(refreshContext: string, file: ResolvedFile) {
    refreshContext != "" && file.refreshContext != "" && refreshContext != file.refreshContext
  }

  /** `f` is `file`, without its headers if those are too large to keep. */
  predicate Kept(f: ResolvedFile, file: ResolvedFile) {
    if HeaderBytes(file.requestHeaders) + HeaderBytes(file.responseHeaders) <= 8192 then f == file
    else f == ResolvedFile(file.url, file.expiresAt, file.refreshContext, [], [])
  }

  /**
   After a current call has come back with a file, a caller gets that file during its lifetime if it is
   a normal one, or a forced one that came from an older generation; every other caller starts the
   next call.
   */
  lemma FileIsServed(s: System, finish: Step, steps: seq<Step>, step: Step)
    requires Inv(s) && Settles(s, finish) && finish.outcome.Ok?
    requires ValidRun(Next(s, finish), steps) && StartsNone(Next(s, finish), steps)
    requires Enabled(After(Next(s, finish), steps), step) && step.Resolve?
    ensures var decision, file := DecisionOf(After(Next(s, finish), steps), step), finish.outcome.value;
            var ttl := EffectiveTTL(file.expiresAt, finish.now1);
            if ttl.Some? && step.now1 < finish.now2 + ttl.value &&
               (!step.forced || CameFromOlder(step.refreshContext, file)) then
              decision.Cached? && Kept(decision.file, file)
            else decision == WaitOn(Call(finish.generation + 1, step.forced), true)
  {
    SettledEntryIsIdle(s, finish);
    IdleEntryRests(Next(s, finish), steps);
  }

  /**
   After a current call has failed, a normal caller gets its error for five seconds; every other caller
   starts the next call.
   */
  lemma FailureIsServed(s: System, finish: Step, steps: seq<Step>, step: Step)
    requires Inv(s) && Settles(s, finish) && finish.outcome.Err?
    requires ValidRun(Next(s, finish), steps) && StartsNone(Next(s, finish), steps)
    requires Enabled(After(Next(s, finish), steps), step) && step.Resolve?
    ensures DecisionOf(After(Next(s, finish), steps), step) ==
            if !step.forced && step.now2 < finish.now1 + 5 * SECOND then CoolingDown(finish.outcome.error)
            else WaitOn(Call(finish.generation + 1, step.forced), true)
  {
    SettledEntryIsIdle(s, finish);
    IdleEntryRests(Next(s, finish), steps);
  }

  /** The answer that `finish` settled has not lapsed for a normal caller of these clock readings. */
  predicate StillAnswered(finish: Step, now1: int, now2: int)
    requires finish.Finish?
  {
    match finish.outcome
    case Err(_) => now2 < finish.now1 + 5 * SECOND
    case Ok(file) =>
      var ttl := EffectiveTTL(file.expiresAt, finish.now1);
      ttl.Some? && now1 < finish.now2 + ttl.value
  }

  /** Normal callers whose answer has not lapsed, and completions. */
  predicate OnlyAnswered(finish: Step, steps: seq<Step>)
    requires finish.Finish?
  {
    forall k :: 0 <= k < |steps| ==>
      steps[k].Finish? || (steps[k].Resolve? && !steps[k].forced && StillAnswered(finish, steps[k].now1, steps[k].now2))
  }

  lemma {:induction false} ServedCallersStartNone(s: System, finish: Step, before: seq<Step>, steps: seq<Step>)
    requires Inv(s) && Settles(s, finish)
    requires ValidRun(Next(s, finish), before) && StartsNone(Next(s, finish), before)
    requires ValidRun(After(Next(s, finish), before), steps) && OnlyAnswered(finish, steps)
    ensures StartsNone(After(Next(s, finish), before), steps)
    decreases |steps|
  {
    if steps != [] {
      var t, step := After(Next(s, finish), before), steps[0];
      if step.Resolve? {
        if finish.outcome.Ok? {
          FileIsServed(s, finish, before, step);
        } else {
          FailureIsServed(s, finish, before, step);
        }
      }
      RestingRunExtends(Next(s, finish), before, step);
      ServedCallersStartNone(s, finish, before + [step], steps[1..]);
    }
  }

  lemma {:induction false} RestingRunExtends(s: System, steps: seq<Step>, step: Step)
    requires ValidRun(s, steps) && StartsNone(s, steps) && Enabled(After(s, steps), step)
    requires !step.Invalidate? && !StartsCall(After(s, steps), step)
    ensures ValidRun(s, steps + [step]) && StartsNone(s, steps + [step])
    ensures After(s, steps + [step]) == Next(After(s, steps), step)
    decreases |steps|
  {
    if steps == [] {
      assert [] + [step] == [step] && [step][1..] == [];
    } else {
      assert (steps + [step])[0] == steps[0] && (steps + [step])[1..] == steps[1..] + [step];
      RestingRunExtends(Next(s, steps[0]), steps[1..], step);
    }
  }

  /**
   One backend call for any number of normal callers: until the answer lapses they add no handler
   call, however many they are and whichever older calls come back meanwhile.
   */
  lemma NormalCallersAddNoCall(s: System, finish: Step, steps: seq<Step>)
    requires Inv(s) && Settles(s, finish)
    requires ValidRun(Next(s, finish), steps) && OnlyAnswered(finish, steps)
    ensures StartsNone(Next(s, finish), steps)
    ensures Starts(After(Next(s, finish), steps).log) == Starts(s.log)
  {
    ServedCallersStartNone(s, finish, [], steps);
    SettledEntryIsIdle(s, finish);
    IdleEntryRests(Next(s, finish), steps);
  }
}
