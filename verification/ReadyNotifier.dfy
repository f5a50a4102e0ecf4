/**
 The debounced notifier, cmd/darkharrbor/main.go: Notify puts a token into a one-slot channel, and
 a loop turns tokens into refreshes of the media managers, each after two seconds without a token.
 An event is one choice of a `select`, or something the surroundings do; they interleave freely.
 */
module ReadyNotifier {
  const DEBOUNCE: nat := 2_000_000_000  // nanoseconds

  /** Where the loop stands; `left` is what remains on the timer, which ticks once it is 0. */
  datatype Phase = Idle | Draining(left: nat) | Refreshing | Stopped

  datatype State = State(configured: bool, token: bool, cancelled: bool, phase: Phase)

  datatype Event =
    | Notify
    | Elapse(d: nat)
    | Cancel
    | Wake      // the outer select takes the token
    | Coalesce  // the inner select takes a token and resets the timer
    | Fire      // the inner select takes the tick: a refresh starts
    | Finish    // the refresh is over
    | Stop      // either select takes ctx.Done()

  /** `configured` says whether there is any media manager to notify. */
  function Initial(configured: bool): State {
    State(configured, false, false, Idle)
  }

  predicate FromOutside(e: Event) {
    e.Notify? || e.Elapse? || e.Cancel?
  }

  predicate Enabled(s: State, e: Event) {
    match e
    case Notify => true
    case Elapse(_) => true
    case Cancel => true
    case Wake => s.phase.Idle? && s.token
    case Coalesce => s.phase.Draining? && s.token
    case Fire => s.phase.Draining? && s.phase.left == 0
    case Finish => s.phase.Refreshing?
    case Stop => s.cancelled && (s.phase.Idle? || s.phase.Draining?)
  }

  function Next(s: State, e: Event): State
    requires Enabled(s, e)
  {
    match e
    case Notify => if s.configured then s.(token := true) else s
    case Elapse(d) => s.(phase := Later(s.phase, d))
    case Cancel => s.(cancelled := true)
    case Wake => s.(token := false, phase := Draining(DEBOUNCE))
    case Coalesce => s.(token := false, phase := Draining(DEBOUNCE))
    case Fire => s.(phase := Refreshing)
    case Finish => s.(phase := Idle)
    case Stop => s.(phase := Stopped)
  }

  function Later(phase: Phase, d: nat): Phase {
    if phase.Draining? then Draining(if d >= phase.left then 0 else phase.left - d) else phase
  }

  ghost predicate Legal(configured: bool, events: seq<Event>)
    decreases |events|, 0
  {
    events == [] ||
    (Legal(configured, Before(events)) && Enabled(At(configured, Before(events)), Last(events)))
  }

  ghost function At(configured: bool, events: seq<Event>): State
    requires Legal(configured, events)
    decreases |events|, 1
  {
    if events == [] then Initial(configured)
    else Next(At(configured, Before(events)), Last(events))
  }

  function Before(events: seq<Event>): (r: seq<Event>)
    requires events != []
    ensures |r| == |events| - 1
  {
    events[..|events| - 1]
  }

  function Last(events: seq<Event>): Event
    requires events != []
  {
    events[|events| - 1]
  }

  // ---------------------------------------------------------------- what a run has done

  function Count(events: seq<Event>, which: Event): nat {
    if events == [] then 0
    else Count(Before(events), which) + if Last(events) == which then 1 else 0
  }

  /** Time since the latest of `marks`, or since the start. */
  function Since(events: seq<Event>, marks: set<Event>): nat {
    if events == [] then 0
    else if Last(events) in marks then 0
    else Since(Before(events), marks) + if Last(events).Elapse? then Last(events).d else 0
  }

  /** Some Notify has no refresh that started after it. */
  ghost predicate Unserved(events: seq<Event>) {
    exists i :: 0 <= i < |events| && events[i] == Notify && NoneFrom(events, i, Fire)
  }

  ghost predicate NoneFrom(events: seq<Event>, from: nat, which: Event) {
    forall j :: from <= j < |events| ==> events[j] != which
  }

  lemma UnservedStep(events: seq<Event>)
    requires events != []
    ensures Unserved(events) <==> Last(events) == Notify || (Last(events) != Fire && Unserved(Before(events)))
  {
    var n := |events| - 1;
    if Unserved(events) {
      var i :| 0 <= i < |events| && events[i] == Notify && NoneFrom(events, i, Fire);
      if i < n {
        assert Before(events)[i] == Notify && NoneFrom(Before(events), i, Fire);
      }
    }
    if Last(events) == Notify {
      assert events[n] == Notify && NoneFrom(events, n, Fire);
    }
    if Last(events) != Fire && Unserved(Before(events)) {
      var i :| 0 <= i < n && Before(events)[i] == Notify && NoneFrom(Before(events), i, Fire);
      assert events[i] == Notify && NoneFrom(events, i, Fire);
    }
  }

  // ---------------------------------------------------------------- no notification is lost

  predicate Pending(s: State) {
    s.token || s.phase.Draining? || s.phase.Stopped?
  }

  /** An unserved Notify still has its token in the channel, or the loop is draining (or has ended). */
  lemma {:induction false} NoLostNotification(events: seq<Event>)
    requires Legal(true, events)
    ensures At(true, events).configured
    ensures Unserved(events) ==> Pending(At(true, events))
  {
    if events != [] {
      UnservedStep(events);
      NoLostNotification(Before(events));
    }
  }

  /** Every refresh uses up a token, and every token a Notify. */
  lemma {:induction false} RefreshesNeverOutnumber(configured: bool, events: seq<Event>)
    requires Legal(configured, events)
    ensures At(configured, events).configured == configured
    ensures var s := At(configured, events);
            Count(events, Fire) + (if s.phase.Draining? then 1 else 0) + (if s.token then 1 else 0)
            <= if configured then Count(events, Notify) else 0
  {
    if events != [] {
      RefreshesNeverOutnumber(configured, Before(events));
    }
  }

  /** A refresh starts only after a quiet time: two seconds in which the loop took no token. */
  lemma {:induction false} QuietBeforeFire(configured: bool, events: seq<Event>)
    requires Legal(configured, events)
    ensures var s := At(configured, events); var quiet := Since(events, {Wake, Coalesce});
            s.phase.Draining? ==> s.phase.left == if quiet >= DEBOUNCE then 0 else DEBOUNCE - quiet
    ensures var s := At(configured, events); var quiet := Since(events, {Wake, Coalesce});
            Enabled(s, Fire) <==> s.phase.Draining? && quiet >= 2_000_000_000
  {
    if events != [] {
      QuietBeforeFire(configured, Before(events));
    }
  }

  // ---------------------------------------------------------------- progress

  predicate ByLoop(e: Event) {
    e.Wake? || e.Coalesce? || e.Finish?
  }

  function LoopSteps(events: seq<Event>): nat {
    if events == [] then 0 else LoopSteps(Before(events)) + if ByLoop(Last(events)) then 1 else 0
  }

  /** Steps left before the only thing to do is to wait for the tick. */
  function Rank(s: State): nat {
    (if s.token then 1 else 0) + if s.phase.Refreshing? then 1 else 0
  }

  ghost predicate Undisturbed(tail: seq<Event>) {
    forall i :: 0 <= i < |tail| ==> tail[i] != Notify && tail[i] != Stop
  }

  /**
   However the loop and the surroundings interleave, two steps of the loop after the last Notify
   leave it waiting for the tick alone, so a third one would come after the refresh started.
   */
  lemma {:induction false} ServedOnceUndisturbed(events: seq<Event>, tail: seq<Event>)
    requires Legal(true, events + tail) && Undisturbed(tail)
    requires Unserved(events) && Legal(true, events) && !At(true, events).phase.Stopped?
    requires NoneFrom(tail, 0, Fire)
    ensures LoopSteps(tail) + Rank(At(true, events + tail)) <= 2
    ensures var s := At(true, events + tail);
            Enabled(s, Wake) || Enabled(s, Coalesce) || Enabled(s, Finish) ||
            (s.phase.Draining? && Enabled(Next(s, Elapse(s.phase.left)), Fire))
    ensures !At(true, events + tail).phase.Stopped? && Pending(At(true, events + tail))
  {
    if tail == [] {
      assert events + tail == events;
      NoLostNotification(events);
    } else {
      var e := Last(tail);
      assert Before(events + tail) == events + Before(tail) && Last(events + tail) == e;
      assert e == tail[|tail| - 1] && e != Notify && e != Stop && e != Fire;
      ServedOnceUndisturbed(events, Before(tail));
    }
  }

  // ---------------------------------------------------------------- the end of the context

  ghost predicate Happened(events: seq<Event>, which: Event) {
    exists i :: 0 <= i < |events| && events[i] == which
  }

  lemma HappenedStep(events: seq<Event>, which: Event)
    requires events != []
    ensures Happened(events, which) <==> Last(events) == which || Happened(Before(events), which)
  {
    var n := |events| - 1;
    if i :| 0 <= i < |events| && events[i] == which {
      assert i < n ==> Before(events)[i] == which;
    }
    if i :| 0 <= i < n && Before(events)[i] == which {
      assert events[i] == which;
    }
    assert events[n] == Last(events);
  }

  /**
   The loop ends when its context has ended and not before: it can stop at once if it is not refreshing
   then, it has ended exactly if it has stopped, and after that it starts no refresh.
   */
  lemma {:induction false} LoopEndsWithItsContext(configured: bool, events: seq<Event>)
    requires Legal(configured, events)
    ensures var s := At(configured, events);
            && (Happened(events, Cancel) <==> s.cancelled)
            && (Happened(events, Stop) <==> s.phase.Stopped?)
            && (Enabled(s, Stop) <==> Happened(events, Cancel) && !s.phase.Refreshing? && !Happened(events, Stop))
            && (Happened(events, Stop) ==> Happened(events, Cancel) && forall e :: Enabled(s, e) ==> FromOutside(e))
  {
    if events != [] {
      LoopEndsWithItsContext(configured, Before(events));
      HappenedStep(events, Cancel);
      HappenedStep(events, Stop);
    }
  }

  // ---------------------------------------------------------------- when a refresh can be put off

  /** The loop takes what it can before time passes, and time does not pass a tick. */
  predicate Prompt(s: State, e: Event) {
    e.Elapse? ==>
      && !Enabled(s, Wake) && !Enabled(s, Coalesce)
      && (s.phase.Draining? ==> e.d <= s.phase.left)
  }

  ghost predicate AllPrompt(configured: bool, events: seq<Event>)
    requires Legal(configured, events)
  {
    events == [] ||
    (AllPrompt(configured, Before(events)) && Prompt(At(configured, Before(events)), Last(events)))
  }

  /**
   A loop that keeps up refreshes within two seconds of quiet: once neither a Notify nor the end of
   a refresh has happened for longer, no Notify is left unserved, save behind a running refresh.
   */
  lemma {:induction false} QuietServes(events: seq<Event>)
    requires Legal(true, events) && AllPrompt(true, events)
    requires Unserved(events) && !At(true, events).phase.Stopped? && !At(true, events).phase.Refreshing?
    ensures Since(events, {Notify, Finish}) <= 2_000_000_000
  {
    PromptTimer(events);
    NoLostNotification(events);
  }

  /** While a prompt loop waits, the timer and the quiet time add up to at most two seconds. */
  lemma {:induction false} PromptTimer(events: seq<Event>)
    requires Legal(true, events) && AllPrompt(true, events)
    ensures var s := At(true, events); var quiet := Since(events, {Notify, Finish});
            && (s.phase.Draining? ==> quiet + s.phase.left <= DEBOUNCE)
            && (s.token && (s.phase.Idle? || s.phase.Draining?) ==> quiet == 0)
  {
    if events != [] {
      PromptTimer(Before(events));
    }
  }

  /** The times between successive Notifies. */
  function GapsOf(events: seq<Event>): seq<nat> {
    if events == [] then []
    else
      var earlier := Before(events);
      GapsOf(earlier) + if Last(events) == Notify && Count(earlier, Notify) > 0 then [Since(earlier, {Notify})] else []
  }

  /** A loop that keeps up, and has taken in these notifications without starting a refresh. */
  ghost predicate PutOff(events: seq<Event>, gaps: seq<nat>) {
    && Legal(true, events) && AllPrompt(true, events) && NoneFrom(events, 0, Fire)
    && !At(true, events).phase.Stopped?
    && Count(events, Notify) > 0 && GapsOf(events) == gaps
  }

  ghost predicate NoneLonger(gaps: seq<nat>) {
    forall i :: 0 <= i < |gaps| ==> gaps[i] <= 2_000_000_000
  }

  lemma {:induction false} NoFireNoFinish(events: seq<Event>)
    requires Legal(true, events) && NoneFrom(events, 0, Fire)
    ensures !At(true, events).phase.Refreshing?
    ensures Since(events, {Notify, Finish}) == Since(events, {Notify})
    ensures Count(events, Notify) > 0 ==> Unserved(events)
  {
    if events != [] {
      assert NoneFrom(Before(events), 0, Fire) && Last(events) == events[|events| - 1];
      NoFireNoFinish(Before(events));
      UnservedStep(events);
    }
  }

  /** Had a gap been longer, the loop would have been free to do nothing but start the refresh. */
  lemma {:induction false} PutOffGapsAreShort(events: seq<Event>)
    requires Legal(true, events) && AllPrompt(true, events) && NoneFrom(events, 0, Fire)
    requires !At(true, events).phase.Stopped?
    ensures NoneLonger(GapsOf(events))
  {
    if events != [] {
      var earlier := Before(events);
      assert NoneFrom(earlier, 0, Fire);
      PutOffGapsAreShort(earlier);
      if Last(events) == Notify && Count(earlier, Notify) > 0 {
        NoFireNoFinish(earlier);
        QuietServes(earlier);
      }
    }
  }

  /** One Notify after each gap, taken by the loop at once. */
  function Steady(gaps: seq<nat>): seq<Event> {
    if gaps == [] then [] + [Notify] + [Wake]
    else Steady(gaps[..|gaps| - 1]) + [Elapse(gaps[|gaps| - 1])] + [Notify] + [Coalesce]
  }

  lemma Extend(configured: bool, events: seq<Event>, e: Event)
    requires Legal(configured, events) && Enabled(At(configured, events), e)
    ensures Legal(configured, events + [e])
    ensures At(configured, events + [e]) == Next(At(configured, events), e)
    ensures AllPrompt(configured, events) && Prompt(At(configured, events), e) ==> AllPrompt(configured, events + [e])
    ensures NoneFrom(events, 0, Fire) && e != Fire ==> NoneFrom(events + [e], 0, Fire)
  {
    assert Before(events + [e]) == events && Last(events + [e]) == e;
  }

  lemma ExtendGaps(events: seq<Event>, e: Event)
    ensures Since(events + [e], {Notify}) == if e == Notify then 0 else Since(events, {Notify}) + if e.Elapse? then
            e.d else 0
    ensures Count(events + [e], Notify) == Count(events, Notify) + if e == Notify then 1 else 0
    ensures GapsOf(events + [e]) ==
            GapsOf(events) + if e == Notify && Count(events, Notify) > 0 then [Since(events, {Notify})] else []
  {
    assert Before(events + [e]) == events && Last(events + [e]) == e;
  }

  /** Put off by these gaps, with a full timer, an empty channel and the last Notify just taken. */
  ghost predicate Waiting(events: seq<Event>, gaps: seq<nat>) {
    && PutOff(events, gaps) && Since(events, {Notify}) == 0
    && At(true, events) == State(true, false, false, Draining(DEBOUNCE))
  }

  lemma AnotherBeat(events: seq<Event>, gaps: seq<nat>, gap: nat)
    requires Waiting(events, gaps) && gap <= DEBOUNCE
    ensures Waiting(events + [Elapse(gap)] + [Notify] + [Coalesce], gaps + [gap])
  {
    var quiet := events + [Elapse(gap)];
    var notified := quiet + [Notify];
    Extend(true, events, Elapse(gap));
    ExtendGaps(events, Elapse(gap));
    Extend(true, quiet, Notify);
    ExtendGaps(quiet, Notify);
    Extend(true, notified, Coalesce);
    ExtendGaps(notified, Coalesce);
  }

  /** Notifications with no gap above two seconds let a loop that keeps up start no refresh at all. */
  lemma {:induction false} SteadyNotifyStarves(gaps: seq<nat>)
    requires NoneLonger(gaps)
    ensures Waiting(Steady(gaps), gaps) && Unserved(Steady(gaps))
  {
    if gaps == [] {
      Extend(true, [], Notify);
      ExtendGaps([], Notify);
      Extend(true, [] + [Notify], Wake);
      ExtendGaps([] + [Notify], Wake);
    } else {
      var earlier, gap := gaps[..|gaps| - 1], gaps[|gaps| - 1];
      SteadyNotifyStarves(earlier);
      AnotherBeat(Steady(earlier), earlier, gap);
      assert gaps == earlier + [gap];
    }
    NoFireNoFinish(Steady(gaps));
  }

  /**
   The promise that every Notify is followed by a refresh fails for exactly these arrivals: a loop
   that keeps up can take in notifications without starting a refresh if and only if no two
   successive ones are more than two seconds apart. At exactly two seconds the tick and the token
   are there together, and the `select` may take either.
   */
  lemma RefreshCanBePutOff(gaps: seq<nat>)
    ensures (exists events :: PutOff(events, gaps)) <==> NoneLonger(gaps)
  {
    if events :| PutOff(events, gaps) {
      PutOffGapsAreShort(events);
    }
    if NoneLonger(gaps) {
      SteadyNotifyStarves(gaps);
      assert PutOff(Steady(gaps), gaps);
    }
  }

  // ---------------------------------------------------------------- the loop itself

  /** readyNotifier with the place its goroutine has reached and what is left on its timer. */
  class Notifier {
    const configured: bool
    var token: bool
    var cancelled: bool
    var phase: Phase

    function Now(): State
      reads this
    {
      State(configured, token, cancelled, phase)
    }

    constructor (configured: bool)
      ensures Now() == Initial(configured)
    {
      this.configured := configured;
      token, cancelled, phase := false, false, Idle;
    }

    method Notify()
      modifies this`token
      ensures Now() == Next(old(Now()), Event.Notify)
    {
      if !configured {
        return;
      }
      if !token {
        token := true;
      }
    }

    /** Stop, drain and Reset leave a full timer and no tick, whether or not it had expired. */
    method ResetTimer()
      modifies this`phase
      ensures phase == Draining(DEBOUNCE)
    {
      phase := Draining(DEBOUNCE);
    }

    /** What happens before the loop takes its next arm; the script says what, and in which order. */
    method Await(script: seq<Event>, from: nat) returns (i: nat)
      requires from <= |script| && Legal(configured, script) && Follows(script[..from])
      modifies this
      ensures from <= i <= |script| && Follows(script[..i])
      ensures i < |script| ==> !FromOutside(script[i]) && Enabled(Now(), script[i])
      ensures var before := old(phase);
              if before.Draining? then phase.Draining? else phase == before
    {
      i := from;
      while i < |script| && FromOutside(script[i])
        invariant from <= i <= |script| && Follows(script[..i])
        invariant if old(phase).Draining? then phase.Draining? else phase == old(phase)
        decreases |script| - i
      {
        StepIsLegal(configured, script, i);
        match script[i] {
          case Notify => Notify();
          case Elapse(d) => phase := Later(phase, d);
          case Cancel => cancelled := true;
        }
        i := i + 1;
      }
      if i < |script| {
        StepIsLegal(configured, script, i);
      }
    }

    /** Either select takes a token. */
    method TakeToken(script: seq<Event>, from: nat) returns (i: nat)
      requires from < |script| && Legal(configured, script) && Follows(script[..from])
      requires script[from].Wake? || script[from].Coalesce?
      modifies this`token, this`phase
      ensures i == from + 1 && Follows(script[..i]) && phase.Draining?
    {
      StepIsLegal(configured, script, from);
      token := false;
      ResetTimer();
      i := from + 1;
    }

    /** Either select takes ctx.Done(); whatever follows finds no loop. */
    method TakeStop(script: seq<Event>, from: nat) returns (i: nat)
      requires from < |script| && Legal(configured, script) && Follows(script[..from])
      requires script[from] == Stop
      modifies this
      ensures i == |script| && Follows(script[..i])
    {
      StepIsLegal(configured, script, from);
      phase := Stopped;
      i := Await(script, from + 1);
    }

    ghost predicate Follows(events: seq<Event>)
      reads this
    {
      Legal(configured, events) && Now() == At(configured, events)
    }

    /** The debounce window: every token taken resets the timer, and the tick ends it. */
    method Drain(script: seq<Event>, from: nat) returns (i: nat)
      requires from <= |script| && Legal(configured, script) && Follows(script[..from])
      requires phase.Draining?
      modifies this
      ensures from <= i <= |script| && Follows(script[..i])
      ensures i < |script| ==> phase.Refreshing?
    {
      i := from;
      while true
        invariant from <= i <= |script| && Follows(script[..i]) && phase.Draining?
        decreases |script| - i
      {
        i := Await(script, i);
        if i == |script| {
          return;
        }
        match script[i]
        case Stop =>
          i := TakeStop(script, i);
          return;
        case Coalesce =>
          i := TakeToken(script, i);
        case Fire =>
          i := TakeTick(script, i);
          return;
      }
    }

    method TakeTick(script: seq<Event>, from: nat) returns (i: nat)
      requires from < |script| && Legal(configured, script) && Follows(script[..from])
      requires script[from].Fire?
      modifies this`phase
      ensures i == from + 1 && Follows(script[..i]) && phase.Refreshing?
    {
      StepIsLegal(configured, script, from);
      phase := Refreshing;
      i := from + 1;
    }

    /** notifyArrsRefresh runs while the surroundings go on. */
    method Refresh(script: seq<Event>, from: nat) returns (i: nat)
      requires from <= |script| && Legal(configured, script) && Follows(script[..from])
      requires phase.Refreshing?
      modifies this
      ensures from <= i <= |script| && Follows(script[..i])
      ensures i < |script| ==> phase.Idle?
    {
      i := Await(script, from);
      if i < |script| {
        StepIsLegal(configured, script, i);
        phase := Idle;
        i := i + 1;
      }
    }

    /** readyNotifier.run, up to the end of the script. */
    method Run(script: seq<Event>)
      requires Now() == Initial(configured) && Legal(configured, script)
      modifies this
      ensures Now() == At(configured, script)
    {
      var i := 0;
      while i < |script|
        invariant i <= |script| && Follows(script[..i])
        invariant i < |script| ==> phase.Idle?
        decreases |script| - i
      {
        i := Await(script, i);
        if i < |script| {
          if script[i] == Stop {
            i := TakeStop(script, i);
          } else {
            i := TakeToken(script, i);
            i := Drain(script, i);
            if i < |script| {
              i := Refresh(script, i);
            }
          }
        }
      }
      assert script[..|script|] == script;
    }
  }

  lemma StepIsLegal(configured: bool, events: seq<Event>, i: nat)
    requires Legal(configured, events) && i < |events|
    ensures Legal(configured, events[..i]) && Enabled(At(configured, events[..i]), events[i])
    ensures Legal(configured, events[..i + 1])
    ensures At(configured, events[..i + 1]) == Next(At(configured, events[..i]), events[i])
  {
    PrefixIsLegal(configured, events, i + 1);
    assert Before(events[..i + 1]) == events[..i];
  }

  lemma {:induction false} PrefixIsLegal(configured: bool, events: seq<Event>, n: nat)
    requires Legal(configured, events) && n <= |events|
    ensures Legal(configured, events[..n])
    decreases |events|
  {
    if n < |events| {
      PrefixIsLegal(configured, Before(events), n);
      assert Before(events)[..n] == events[..n];
    } else {
      assert events[..n] == events;
    }
  }
}
