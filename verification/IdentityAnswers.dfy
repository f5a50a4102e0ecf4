/**
 What Resolve answers over whole runs, compared with what was really observed: when a full map of
 internal/api/rx95_identity.go makes it answer wrongly, and when it cannot.
 */
module IdentityAnswers {
  import opened IdentityWindow
  import opened Wrappers

  type Times = map<Identity, int>

  // ---------------------------------------------------------------- tables and histories as values

  /** Two identities of the table were seen no earlier than `at`. */
  ghost predicate Shadowed(table: Times, at: int) {
    exists a, b :: a != b && a in table && b in table && table[a] >= at && table[b] >= at
  }

  /** Every recent identity that the table lacks has two in the table that outlast it. */
  ghost predicate Hidden(table: Times, history: Times, now: int) {
    forall x :: x in history && x !in table && now - history[x] <= WINDOW ==> Shadowed(table, history[x])
  }

  ghost predicate Part(table: Times, history: Times) {
    forall x :: x in table ==> x in history && history[x] == table[x]
  }

  ghost predicate Past(times: Times, now: int) {
    forall x :: x in times ==> times[x] <= now
  }

  lemma TwoOfThem(m: Times, a: Identity, b: Identity)
    requires a != b && a in m && b in m
    ensures |m| >= 2
  {
    FewerElements(m.Keys, {a, b});
  }

  /** Where the rest is hidden, the table shows the window, or both are ambiguous. */
  lemma HiddenIsEnough(table: Times, history: Times, now: int)
    requires Part(table, history) && Hidden(table, history, now)
    ensures var shown, window := Recent(table, now), Recent(history, now);
            shown == window || (|shown| >= 2 && |window| >= 2)
  {
    var shown, window := Recent(table, now), Recent(history, now);
    if x :| x in window && x !in shown {
      assert x !in table;
      var a, b :| a != b && a in table && b in table && table[a] >= history[x] && table[b] >= history[x];
      TwoOfThem(shown, a, b);
      TwoOfThem(window, a, b);
    }
  }

  lemma PruneKeepsHidden(table: Times, history: Times, now: int)
    requires Part(table, history) && Hidden(table, history, now)
    ensures Hidden(Recent(table, now), history, now)
  {
    var kept := Recent(table, now);
    forall x | x in history && x !in kept && now - history[x] <= WINDOW
      ensures Shadowed(kept, history[x])
    {
      assert x !in table;
      var a, b :| a != b && a in table && b in table && table[a] >= history[x] && table[b] >= history[x];
      assert a in kept && b in kept;
    }
  }

  lemma UpdateKeepsHidden(table: Times, history: Times, id: Identity, now: int)
    requires Hidden(table, history, now) && Past(history, now)
    ensures Hidden(table[id := now], history[id := now], now)
  {
    var updated := table[id := now];
    forall x | x in history[id := now] && x !in updated && now - history[id := now][x] <= WINDOW
      ensures Shadowed(updated, history[id := now][x])
    {
      assert x in history && x !in table && x != id;
      var a, b :| a != b && a in table && b in table && table[a] >= history[x] && table[b] >= history[x];
      assert updated[a] >= history[x] && updated[b] >= history[x];
    }
  }

  lemma DropKeepsHidden(table: Times, history: Times, id: Identity, now: int)
    requires Hidden(table, history, now) && Shadowed(table, now)
    ensures Hidden(table, history[id := now], now)
  {
  }

  // ---------------------------------------------------------------- drops

  ghost predicate Drops(events: seq<Event>, e: Event) {
    var kept := Recent(After(events).observations, e.now);
    e.Observe? && Valid(e.identity) && e.identity !in kept && |kept| >= MAX_OBSERVATIONS
  }

  /** Two of the entries are as new as can be. */
  ghost predicate Crowded(table: Times, now: int) {
    exists a, b :: a != b && a in table && b in table && table[a] == now && table[b] == now
  }

  ghost predicate HarmlessStep(events: seq<Event>, e: Event) {
    Drops(events, e) ==> Crowded(After(events).observations, e.now)
  }

  /** The map drops an observation only where two of its own entries were seen at that very moment. */
  ghost predicate Harmless(events: seq<Event>) {
    events == [] || (Harmless(events[..|events| - 1]) && HarmlessStep(events[..|events| - 1], events[|events| - 1]))
  }

  lemma HistoryAfterOne(events: seq<Event>, e: Event)
    ensures History(events + [e]) ==
            if e.Observe? && Valid(e.identity) then History(events)[e.identity := e.now] else History(events)
  {
    assert (events + [e])[..|events|] == events;
  }

  lemma TableAfterOne(events: seq<Event>, e: Event)
    ensures var kept := Recent(After(events).observations, e.now);
            After(events + [e]).observations ==
            if e.Observe? && !Valid(e.identity) then After(events).observations
            else if e.Observe? && !Drops(events, e) then kept[e.identity := e.now]
            else kept
  {
    assert (events + [e])[..|events|] == events;
  }

  lemma {:induction false} HistoryIsPast(events: seq<Event>, now: int)
    requires Since(events, now)
    ensures Past(History(events), now)
  {
    if events != [] {
      var n := |events| - 1;
      HistoryIsPast(events[..n], now);
      assert events[n].now <= now;
    }
  }

  ghost predicate Covers(events: seq<Event>) {
    forall now :: Since(events, now) ==> Hidden(After(events).observations, History(events), now)
  }

  lemma StepKeepsCover(events: seq<Event>, e: Event)
    requires Since(events, e.now) && Covers(events) && HarmlessStep(events, e)
    ensures Covers(events + [e])
  {
    var table, history := After(events).observations, History(events);
    var kept := Recent(table, e.now);
    TablesStayBounded(events);
    HistoryIsPast(events, e.now);
    HistoryAfterOne(events, e);
    TableAfterOne(events, e);
    PruneKeepsHidden(table, history, e.now);
    if e.Observe? && Valid(e.identity) {
      if Drops(events, e) {
        CrowdShadows(table, e.now);
        DropKeepsHidden(kept, history, e.identity, e.now);
      } else {
        UpdateKeepsHidden(kept, history, e.identity, e.now);
      }
    }
    assert Hidden(After(events + [e]).observations, History(events + [e]), e.now);
    forall now | Since(events + [e], now)
      ensures Hidden(After(events + [e]).observations, History(events + [e]), now)
    {
      assert (events + [e])[|events|] == e;
    }
  }

  lemma CrowdShadows(table: Times, now: int)
    requires Crowded(table, now)
    ensures Shadowed(Recent(table, now), now)
  {
    var a, b :| a != b && a in table && b in table && table[a] == now && table[b] == now;
    assert a in Recent(table, now) && b in Recent(table, now);
  }

  lemma {:induction false} HarmlessCovers(events: seq<Event>)
    requires Ordered(events) && Harmless(events)
    ensures Covers(events)
  {
    if events != [] {
      var n := |events| - 1;
      HarmlessCovers(events[..n]);
      StepKeepsCover(events[..n], events[n]);
      assert events == events[..n] + [events[n]];
    }
  }

  // ---------------------------------------------------------------- answers

  /** What an unlearned batch is told is what the observations of the last 90 seconds call for. */
  ghost predicate Suits(answer: Option<Identity>, window: Times) {
    && (answer.Some? <==> |window| == 1)
    && (answer.Some? ==> window.Keys == {answer.value})
  }

  ghost predicate RightAt(events: seq<Event>, now: int) {
    Suits(Answer(Pruned(After(events), now), ""), Recent(History(events), now))
  }

  ghost predicate RightFromNow(events: seq<Event>) {
    forall now :: Since(events, now) ==> RightAt(events, now)
  }

  /** At any point of the run, and after any silence that might follow it, an answer is right. */
  ghost predicate Right(events: seq<Event>) {
    RightFromNow(events) && (events == [] || Right(events[..|events| - 1]))
  }

  lemma AnswerOfTable(p: Tables, key: string, window: Times)
    requires key == "" || key !in p.bindings
    requires p.observations == window || (|p.observations| >= 2 && |window| >= 2)
    ensures Suits(Answer(p, key), window)
  {
    if |p.observations| == 1 {
      OnlyKey(p.observations, Answer(p, key).value);
    }
  }

  /**
   Where drops are harmless, an unlearned batch is bound exactly if one identity was observed in the
   last 90 seconds, and to that one.
   */
  lemma UnlearnedBindsTheSingleton(events: seq<Event>, key: string, now: int)
    requires Ordered(events) && Since(events, now) && Harmless(events)
    requires key == "" || key !in Pruned(After(events), now).bindings
    ensures Suits(Answer(Pruned(After(events), now), key), Recent(History(events), now))
  {
    HarmlessCovers(events);
    TablesStayBounded(events);
    HiddenIsEnough(After(events).observations, History(events), now);
    AnswerOfTable(Pruned(After(events), now), key, Recent(History(events), now));
  }

  /** A valid identity, observed at most 90 seconds before. */
  ghost predicate InView(events: seq<Event>, x: Identity, now: int) {
    Valid(x) && exists k :: 0 <= k < |events| && Sees(events[k], x) && now - events[k].now <= 90 * 1_000_000_000
  }

  ghost predicate Alone(events: seq<Event>, x: Identity, now: int) {
    InView(events, x, now) && forall y :: InView(events, y, now) ==> y == x
  }

  lemma ViewIsRecent(events: seq<Event>, x: Identity, now: int)
    requires Ordered(events)
    ensures x in Recent(History(events), now) <==> InView(events, x, now)
  {
    HistoryIsWhatWasSeen(events, x);
    if x in History(events) {
      var last :| LastSeen(events, x, last) && History(events)[x] == events[last].now;
      if InView(events, x, now) {
        var k :| 0 <= k < |events| && Sees(events[k], x) && now - events[k].now <= 90 * 1_000_000_000;
        assert k <= last;
      }
    } else if InView(events, x, now) {
      LastIndexIsLast(events, x);
      assert LastSeen(events, x, LastIndex(events, x));
    }
  }

  lemma SingletonIsAlone(events: seq<Event>, x: Identity, now: int)
    requires Ordered(events)
    ensures Alone(events, x, now) <==> Recent(History(events), now).Keys == {x}
  {
    var window := Recent(History(events), now);
    forall y
      ensures y in window <==> InView(events, y, now)
    {
      ViewIsRecent(events, y, now);
    }
    if Alone(events, x, now) {
      assert window.Keys == {x};
    }
  }

  /** The same by the observations alone: an unlearned batch gets the identity alone in view, if there is one. */
  lemma UnlearnedMeansAlone(events: seq<Event>, key: string, now: int, x: Identity)
    requires Ordered(events) && Since(events, now) && Harmless(events)
    requires key == "" || key !in Pruned(After(events), now).bindings
    ensures Answer(Pruned(After(events), now), key) == Some(x) <==> Alone(events, x, now)
  {
    UnlearnedBindsTheSingleton(events, key, now);
    SingletonIsAlone(events, x, now);
    SizeOfKeys(Recent(History(events), now), x);
  }

  lemma SizeOfKeys(m: Times, x: Identity)
    ensures m.Keys == {x} ==> |m| == 1
  {
    assert |m.Keys| == |m|;
  }

  /**
   And it is learned: a batch with a new key teaches the map that identity, with the time, if there is
   one and the map of bindings has room; otherwise it teaches nothing.
   */
  lemma AloneIsLearned(events: seq<Event>, key: string, now: int, x: Identity)
    requires Ordered(events) && Since(events, now) && Harmless(events)
    requires key != "" && key !in Pruned(After(events), now).bindings
    ensures var t := After(events + [Resolve(key, now)]);
            && (key in t.bindings && t.bindings[key].identity == x <==>
                Alone(events, x, now) && |Pruned(After(events), now).bindings| < 512)
            && (key in t.bindings ==> t.bindings[key].at == now)
  {
    assert (events + [Resolve(key, now)])[..|events|] == events;
    UnlearnedMeansAlone(events, key, now, x);
  }

  /** A newest observation that the table lacks is hidden behind two entries as new. */
  lemma MissingMeansCrowded(table: Times, history: Times, x: Identity, now: int)
    requires Part(table, history) && Past(history, now) && Hidden(table, history, now)
    requires x in history && x !in table && history[x] == now
    ensures Crowded(table, now)
  {
    var a, b :| a != b && a in table && b in table && table[a] >= now && table[b] >= now;
    assert table[a] == now && table[b] == now;
  }

  lemma NewestIsAlone(table: Times, now: int)
    requires Past(table, now) && !Crowded(table, now)
    ensures |Recent(Recent(table, now), now + WINDOW)| <= 1
  {
    var shown := Recent(Recent(table, now), now + WINDOW);
    forall a, b | a in shown && b in shown
      ensures a == b
    {
      assert table[a] == now && table[b] == now;
    }
    if a :| a in shown {
      assert shown.Keys == {a};
    } else {
      assert shown.Keys == {};
    }
  }

  /** Once everything older than `now` has expired, the table shows fewer than two, and the history one more. */
  lemma DroppedIsMissed(table: Times, history: Times, id: Identity, now: int)
    requires Part(table, history) && Past(history, now) && Hidden(table, history, now)
    requires id !in Recent(table, now) && !Crowded(table, now)
    ensures var later := now + WINDOW;
            var shown, window := Recent(Recent(table, now), later), Recent(history[id := now], later);
            |shown| <= 1 && window.Keys == shown.Keys + {id} && id !in shown
  {
    var later := now + WINDOW;
    var shown, window := Recent(Recent(table, now), later), Recent(history[id := now], later);
    NewestIsAlone(table, now);
    forall x | x in window && x != id
      ensures x in shown
    {
      assert history[x] == now;
      if x !in table {
        MissingMeansCrowded(table, history, x, now);
      }
    }
  }

  lemma MissedIsWrong(p: Tables, window: Times, id: Identity)
    requires |p.observations| <= 1 && window.Keys == p.observations.Keys + {id} && id !in p.observations
    ensures !Suits(Answer(p, ""), window)
  {
    assert |p.observations.Keys + {id}| == |p.observations| + 1;
  }

  lemma DropLeaves(events: seq<Event>, e: Event)
    requires Drops(events, e)
    ensures After(events + [e]).observations == Recent(After(events).observations, e.now)
    ensures History(events + [e]) == History(events)[e.identity := e.now]
    ensures e.identity !in Recent(After(events).observations, e.now)
  {
    HistoryAfterOne(events, e);
    TableAfterOne(events, e);
  }

  lemma MissedAfterDrop(longer: seq<Event>, table: Times, history: Times, id: Identity, now: int)
    requires After(longer).observations == Recent(table, now) && History(longer) == history[id := now]
    requires Part(table, history) && Past(history, now) && Hidden(table, history, now)
    requires id !in Recent(table, now) && !Crowded(table, now)
    ensures !RightAt(longer, now + WINDOW)
  {
    DroppedIsMissed(table, history, id, now);
    MissedIsWrong(Pruned(After(longer), now + WINDOW), Recent(History(longer), now + WINDOW), id);
  }

  lemma HarmfulDropMisleads(events: seq<Event>, e: Event)
    requires Ordered(events) && Since(events, e.now) && Harmless(events) && !HarmlessStep(events, e)
    ensures !RightFromNow(events + [e])
  {
    HarmlessCovers(events);
    TablesStayBounded(events);
    HistoryIsPast(events, e.now);
    DropLeaves(events, e);
    MissedAfterDrop(events + [e], After(events).observations, History(events), e.identity, e.now);
    assert Since(events + [e], e.now + WINDOW);
  }

  /**
   With a clock that does not go back, unlearned batches are answered rightly at any point of a run,
   and after any silence that might follow it, if and only if the map drops an observation only at a
   moment at which it holds two others. What comes after a harmful drop can still hide it.
   */
  lemma {:induction false} AnswersAreRight(events: seq<Event>)
    requires Ordered(events)
    ensures Right(events) <==> Harmless(events)
  {
    if Harmless(events) {
      forall now | Since(events, now)
        ensures RightAt(events, now)
      {
        UnlearnedBindsTheSingleton(events, "", now);
      }
    }
    if events != [] {
      var n := |events| - 1;
      AnswersAreRight(events[..n]);
      assert events == events[..n] + [events[n]];
      if Harmless(events[..n]) && !HarmlessStep(events[..n], events[n]) {
        HarmfulDropMisleads(events[..n], events[n]);
      }
    }
  }

  lemma BurstIsCrowded(ids: seq<Identity>)
    requires DistinctAndValid(ids) && 2 <= |ids| <= MAX_OBSERVATIONS
    ensures Crowded(After(Burst(ids)).observations, 0) && Recent(History(Burst(ids)), 0) == Observed(ids)
  {
    BurstFillsTheTable(ids);
    DistinctPair(ids);
    assert ids[0] in Observed(ids) && ids[1] in Observed(ids);
    assert Recent(Observed(ids), 0) == Observed(ids);
  }

  /** A full window need not do harm: 513 identities observed at one moment are all ambiguous together. */
  lemma CrowdedDropIsHarmless(ids: seq<Identity>, last: Identity)
    requires DistinctAndValid(ids) && |ids| == MAX_OBSERVATIONS && Valid(last) && last !in ids
    ensures Right(Burst(ids) + [Observe(last, 0)]) && !Roomy(Burst(ids) + [Observe(last, 0)])
  {
    var events, e := Burst(ids), Observe(last, 0);
    BurstIsHarmless(ids);
    BurstFillsTheTable(ids);
    BurstIsCrowded(ids);
    BurstIsAtZero(ids);
    assert (events + [e])[..|events|] == events && (events + [e])[|events|] == e;
    assert Harmless(events + [e]);
    AnswersAreRight(events + [e]);
    assert !RoomFor(events, e);
  }

  lemma {:induction false} DistinctPair(ids: seq<Identity>)
    requires DistinctAndValid(ids) && |ids| >= 2
    ensures ids[0] != ids[1]
  {
    if |ids| > 2 {
      DistinctPair(ids[..|ids| - 1]);
    } else {
      assert ids[0] in ids[..1];
    }
  }

  lemma {:induction false} BurstIsAtZero(ids: seq<Identity>)
    ensures forall i :: 0 <= i < |Burst(ids)| ==> Burst(ids)[i].now == 0
  {
    if ids != [] {
      BurstIsAtZero(ids[..|ids| - 1]);
    }
  }

  lemma {:induction false} BurstIsHarmless(ids: seq<Identity>)
    requires DistinctAndValid(ids) && |ids| <= MAX_OBSERVATIONS
    ensures Harmless(Burst(ids))
  {
    if ids != [] {
      var earlier, id := ids[..|ids| - 1], ids[|ids| - 1];
      BurstIsHarmless(earlier);
      BurstFillsTheTable(earlier);
      assert Burst(ids)[..|Burst(ids)| - 1] == Burst(earlier);
      FewerKeys(Observed(earlier), Recent(Observed(earlier), 0));
    }
  }

  // ---------------------------------------------------------------- when no two events coincide

  ghost predicate Apart(events: seq<Event>) {
    forall i, j :: 0 <= i < j < |events| ==> events[i].now < events[j].now
  }

  lemma {:induction false} RoomMeansNoDrop(events: seq<Event>)
    requires Apart(events)
    ensures Harmless(events) <==> Roomy(events)
  {
    if events != [] {
      var n := |events| - 1;
      var earlier, e := events[..n], events[n];
      RoomMeansNoDrop(earlier);
      WindowRefinesHistory(earlier);
      NoCrowdYet(earlier, e.now);
      assert Since(earlier, e.now);
    }
  }

  lemma NoCrowdYet(events: seq<Event>, now: int)
    requires forall i :: 0 <= i < |events| ==> events[i].now < now
    ensures !Crowded(After(events).observations, now)
  {
    HistoryIsPast(events, now - 1);
    TablesStayBounded(events);
  }

  /** So where no two events share a moment, that is so if and only if there is always room. */
  lemma AnswersNeedRoom(events: seq<Event>)
    requires Apart(events)
    ensures Right(events) <==> Roomy(events)
  {
    AnswersAreRight(events);
    RoomMeansNoDrop(events);
  }

  /** One observation per tick of the clock, from 1 on. */
  function Spread(ids: seq<Identity>): seq<Event> {
    if ids == [] then [] else Spread(ids[..|ids| - 1]) + [Observe(ids[|ids| - 1], |ids|)]
  }

  function SpreadTimes(ids: seq<Identity>): (m: Times)
    ensures forall id :: id in m <==> id in ids
    ensures forall id :: id in m ==> 1 <= m[id] <= |ids|
  {
    if ids == [] then map[]
    else
      assert ids == ids[..|ids| - 1] + [ids[|ids| - 1]];
      SpreadTimes(ids[..|ids| - 1])[ids[|ids| - 1] := |ids|]
  }

  lemma SpreadOneMore(events: seq<Event>, times: Times, id: Identity, now: int)
    requires Fills(events, times, |times|) && |times| < MAX_OBSERVATIONS
    requires forall x :: x in times ==> now - times[x] <= WINDOW
    requires Valid(id) && id !in times
    ensures Fills(events + [Observe(id, now)], times[id := now], |times| + 1)
  {
    ObserveFresh(events, id, now);
  }

  lemma {:induction false} SpreadFillsTheTable(ids: seq<Identity>)
    requires DistinctAndValid(ids) && |ids| <= MAX_OBSERVATIONS
    ensures Fills(Spread(ids), SpreadTimes(ids), |ids|)
  {
    if ids != [] {
      var earlier := ids[..|ids| - 1];
      SpreadFillsTheTable(earlier);
      SpreadOneMore(Spread(earlier), SpreadTimes(earlier), ids[|ids| - 1], |ids|);
    }
  }

  lemma {:induction false} SpreadIsApart(ids: seq<Identity>)
    ensures |Spread(ids)| == |ids| && forall i :: 0 <= i < |ids| ==> Spread(ids)[i].now == i + 1
  {
    if ids != [] {
      SpreadIsApart(ids[..|ids| - 1]);
    }
  }

  lemma SpreadLeavesNoRoom(ids: seq<Identity>, last: Identity)
    requires DistinctAndValid(ids) && |ids| == MAX_OBSERVATIONS && Valid(last) && last !in ids
    ensures !RoomFor(Spread(ids), Observe(last, MAX_OBSERVATIONS + 1))
  {
    SpreadFillsTheTable(ids);
    assert Recent(SpreadTimes(ids), MAX_OBSERVATIONS + 1) == SpreadTimes(ids);
  }

  /** 513 identities observed one tick after the other: the last is dropped, and some answer is wrong. */
  lemma SpreadBurstMisleads(ids: seq<Identity>, last: Identity)
    requires DistinctAndValid(ids) && |ids| == 512 && Valid(last) && last !in ids
    ensures var events := Spread(ids) + [Observe(last, 513)];
            Apart(events) && !Roomy(events) && !Right(events)
  {
    var events := Spread(ids) + [Observe(last, 513)];
    assert !Roomy(events) by {
      assert events[..|events| - 1] == Spread(ids);
      SpreadLeavesNoRoom(ids, last);
    }
    assert Apart(events) by {
      SpreadIsApart(ids);
    }
    AnswersNeedRoom(events);
  }

  /** At event `k`, which resolved this key, the identity was the only one of the last 90 seconds. */
  ghost predicate LearnedAt(events: seq<Event>, key: string, b: Binding, k: int) {
    && 0 <= k < |events| && events[k] == Resolve(key, b.at)
    && Recent(History(events[..k]), b.at).Keys == {b.identity}
  }

  /** A binding after one more event is an old one, or was just learned from the only identity in view. */
  lemma NewBinding(events: seq<Event>, e: Event, key: string)
    requires key in After(events + [e]).bindings
    ensures var b := After(events + [e]).bindings[key]; var p := Pruned(After(events), e.now);
            || (key in After(events).bindings && After(events).bindings[key] == b)
            || (e == Resolve(key, b.at) && key !in p.bindings && Answer(p, key) == Some(b.identity))
  {
    assert (events + [e])[..|events|] == events;
  }

  lemma StillLearned(events: seq<Event>, e: Event, key: string, b: Binding, k: int)
    requires LearnedAt(events, key, b, k)
    ensures LearnedAt(events + [e], key, b, k)
  {
    assert (events + [e])[..k] == events[..k];
  }

  lemma JustLearned(events: seq<Event>, key: string, b: Binding)
    requires Ordered(events) && Since(events, b.at) && Harmless(events)
    requires key == "" || key !in Pruned(After(events), b.at).bindings
    requires Answer(Pruned(After(events), b.at), key) == Some(b.identity)
    ensures LearnedAt(events + [Resolve(key, b.at)], key, b, |events|)
  {
    UnlearnedBindsTheSingleton(events, key, b.at);
    assert (events + [Resolve(key, b.at)])[..|events|] == events;
  }

  /** Where drops are harmless, every learned binding was the only identity in view when it was learned. */
  lemma {:induction false} BindingsWereSingletons(events: seq<Event>, key: string)
    requires Ordered(events) && Harmless(events) && key in After(events).bindings
    ensures exists k :: LearnedAt(events, key, After(events).bindings[key], k)
  {
    var n := |events| - 1;
    var prefix, e := events[..n], events[n];
    assert events == prefix + [e];
    var b := After(events).bindings[key];
    NewBinding(prefix, e, key);
    if key in After(prefix).bindings && After(prefix).bindings[key] == b {
      BindingsWereSingletons(prefix, key);
      var k :| LearnedAt(prefix, key, b, k);
      StillLearned(prefix, e, key, b, k);
    } else {
      assert Since(prefix, b.at);
      JustLearned(prefix, key, b);
      assert LearnedAt(events, key, b, n);
    }
  }

  /** Where drops are harmless, what Resolve binds was the only identity in view, now or when its key was learned. */
  lemma ResolveIsJustified(events: seq<Event>, key: string, now: int)
    requires Ordered(events) && Since(events, now) && Harmless(events)
    ensures var answer := Answer(Pruned(After(events), now), key);
            answer.Some? ==>
              || Recent(History(events), now).Keys == {answer.value}
              || exists k, at :: now - 24 * 3600 * SECOND <= at <= now &&
                                 LearnedAt(events, key, Binding(answer.value, at), k)
  {
    var p := Pruned(After(events), now);
    if key != "" && key in p.bindings {
      var b := p.bindings[key];
      BindingsWereSingletons(events, key);
      var k :| LearnedAt(events, key, b, k);
      assert LearnedAt(events, key, Binding(b.identity, b.at), k);
    } else {
      UnlearnedBindsTheSingleton(events, key, now);
    }
  }
}
