/**
 The identity-binding window, internal/api/rx95_identity.go: recent observations of what is about to
 be played, and the metadata keys learned from them. Times are nanoseconds of one clock.
 */
module IdentityWindow {
  import opened Wrappers
  import opened Text

  const SECOND := 1_000_000_000
  const WINDOW := 90 * SECOND
  const MAX_OBSERVATIONS: nat := 512
  const MAX_BINDINGS: nat := 512
  const BINDING_TTL := 24 * 3600 * SECOND

  datatype Identity = Identity(kind: string, imdb: string, season: int, episode: int)

  datatype Binding = Binding(identity: Identity, at: int)

  // ---------------------------------------------------------------- which identities are valid

  /** strings.ToLower, on the characters for which it can matter here. */
  function ToLower(s: string): (r: string)
    ensures |r| == |s|
    ensures forall i :: 0 <= i < |s| ==> r[i] == if 'A' <= s[i] <= 'Z' then s[i] + 32 as char else s[i]
  {
    if s == "" then "" else [if 'A' <= s[0] <= 'Z' then s[0] + 32 as char else s[0]] + ToLower(s[1..])
  }

  predicate ValidNumericID(value: string) {
    var v := TrimSpace(value);
    v != "" && ByteLen(v) <= 20 && AllDigits(v) && v != "0"
  }

  /** The IMDb part of mediaidentity.NormalizedIDs. */
  function NormalizedIMDb(imdb: string): string {
    var id := ToLower(TrimSpace(imdb));
    if ByteLen(id) < 3 || ByteLen(id) > 32 || !("tt" <= id) || !ValidNumericID(id[2..]) then "" else id
  }

  predicate Valid(i: Identity) {
    && NormalizedIMDb(i.imdb) == i.imdb
    && (if i.kind == "movie" then i.season == 0 && i.episode == 0
        else i.kind == "series" && 0 <= i.season <= 9999 && 1 <= i.episode <= 9999)
  }

  lemma {:induction false} TrimLeftFinds(s: string) returns (k: nat)
    ensures k <= |s| && TrimLeft(s) == s[k..]
    ensures (forall j :: 0 <= j < k ==> IsSpace(s[j])) && (k < |s| ==> !IsSpace(s[k]))
  {
    if s != "" && IsSpace(s[0]) {
      k := TrimLeftFinds(s[1..]);
      k := k + 1;
      assert s[k..] == s[1..][k - 1..];
    } else {
      k := 0;
    }
  }

  /** "tt", perhaps white space, and the digits from `i` on. */
  predicate IsTitle(s: string, i: int) {
    && 2 <= i < |s| <= i + 20 && s[0] == 't' && s[1] == 't'
    && (forall j :: 2 <= j < i ==> IsSpace(s[j]))
    && AllDigits(s[i..]) && s[i..] != "0" && ByteLen(s) <= 32
  }

  lemma NumberOfTitle(s: string)
    requires |s| >= 2 && (|s| > 2 ==> !IsSpace(s[|s| - 1]))
    ensures exists i :: 2 <= i <= |s| && TrimSpace(s[2..]) == s[i..] && (forall j :: 2 <= j < i ==> IsSpace(s[j])) &&
                        (i < |s| ==> !IsSpace(s[i]))
  {
    var k := TrimLeftFinds(s[2..]);
    assert s[2..][k..] == s[2 + k..];
    assert forall j :: 2 <= j < 2 + k ==> s[j] == s[2..][j - 2];
  }

  lemma NothingTrimmed(s: string)
    requires s != "" && |TrimSpace(s)| == |s|
    ensures !IsSpace(s[|s| - 1])
  {
    var k := TrimLeftFinds(s);
    assert s[0..] == s;
  }

  lemma NormalizedText(s: string)
    requires s != "" && NormalizedIMDb(s) == s
    ensures |TrimSpace(s)| == |s| && "tt" <= s && ByteLen(s) <= 32 && ValidNumericID(s[2..])
  {
  }

  lemma NormalizedIsTitle(s: string)
    requires s != "" && NormalizedIMDb(s) == s
    ensures exists i :: IsTitle(s, i)
  {
    NormalizedText(s);
    NothingTrimmed(s);
    NumberOfTitle(s);
    var i :| 2 <= i <= |s| && TrimSpace(s[2..]) == s[i..] && forall j :: 2 <= j < i ==> IsSpace(s[j]);
    NumberIsShort(s[i..]);
    assert IsTitle(s, i);
  }

  lemma NumberIsShort(v: string)
    requires ByteLen(v) <= 20
    ensures |v| <= 20
  {
  }

  lemma LowercaseIsKept(s: string)
    requires forall i :: 0 <= i < |s| ==> !('A' <= s[i] <= 'Z')
    ensures ToLower(s) == s
  {
  }

  lemma {:induction false} TrimLeftTo(s: string, k: nat)
    requires k < |s| && !IsSpace(s[k]) && forall j :: 0 <= j < k ==> IsSpace(s[j])
    ensures TrimLeft(s) == s[k..]
  {
    if k > 0 {
      TrimLeftTo(s[1..], k - 1);
      assert s[k..] == s[1..][k - 1..];
    }
  }

  lemma DigitsOfTitle(s: string, i: int)
    requires IsTitle(s, i)
    ensures forall j :: i <= j < |s| ==> IsDigit(s[j])
  {
    forall j | i <= j < |s|
      ensures IsDigit(s[j])
    {
      assert IsDigit(s[i..][j - i]);
    }
  }

  lemma NumberIsValid(s: string, i: int)
    requires IsTitle(s, i)
    ensures ValidNumericID(s[2..])
  {
    DigitsOfTitle(s, i);
    TrimLeftTo(s[2..], i - 2);
    assert s[2..][i - 2..] == s[i..];
    ByteLenOfAscii(s[i..]);
  }

  lemma TitleText(s: string, i: int)
    requires IsTitle(s, i)
    ensures TrimSpace(s) == s && ToLower(s) == s
  {
    DigitsOfTitle(s, i);
    TrimKeeps(s);
    LowercaseIsKept(s);
  }

  lemma TitleIsNormalized(s: string, i: int)
    requires IsTitle(s, i)
    ensures NormalizedIMDb(s) == s
  {
    TitleText(s, i);
    NumberIsValid(s, i);
  }

  /** What the normalisation accepts: no id at all, or a title number that may have spaces in it. */
  lemma NormalizedMeansTitle(s: string)
    ensures NormalizedIMDb(s) == s <==> s == "" || exists i :: IsTitle(s, i)
  {
    if s != "" && NormalizedIMDb(s) == s {
      NormalizedIsTitle(s);
    }
    if i :| IsTitle(s, i) {
      TitleIsNormalized(s, i);
    }
  }

  /** So an id with a space in it is valid, and Observe records it. */
  lemma SpacedTitleIsValid()
    ensures Valid(Identity("movie", "tt 1", 0, 0))
  {
    var s := "tt 1";
    assert s[3..] == "1";
    ByteLenOfAscii(s);
    assert IsTitle(s, 3);
    TitleIsNormalized(s, 3);
  }

  /** Which identities count: a title or none, with the numbers of a movie or of an episode. */
  lemma ValidMeans(i: Identity)
    ensures Valid(i) <==>
            && (i.imdb == "" || exists k :: IsTitle(i.imdb, k))
            && ((i.kind == "movie" && i.season == i.episode == 0) ||
                (i.kind == "series" && 0 <= i.season < 10_000 && 1 <= i.episode < 10_000))
  {
    NormalizedMeansTitle(i.imdb);
  }

  // ---------------------------------------------------------------- the two maps

  datatype Tables = Tables(observations: map<Identity, int>, bindings: map<string, Binding>)

  function Recent(observations: map<Identity, int>, now: int): map<Identity, int> {
    map id | id in observations && now - observations[id] <= WINDOW :: observations[id]
  }

  function Pruned(t: Tables, now: int): Tables {
    Tables(Recent(t.observations, now),
           map key | key in t.bindings && now - t.bindings[key].at <= BINDING_TTL :: t.bindings[key])
  }

  datatype Event = Observe(identity: Identity, now: int) | Resolve(key: string, now: int)

  function AfterObserve(t: Tables, identity: Identity, now: int): Tables {
    if !Valid(identity) then t
    else
      var p := Pruned(t, now);
      if identity !in p.observations && |p.observations| >= MAX_OBSERVATIONS then p
      else p.(observations := p.observations[identity := now])
  }

  /** What Resolve answers, given the pruned tables. */
  ghost function Answer(p: Tables, key: string): Option<Identity> {
    if key != "" && key in p.bindings then Some(p.bindings[key].identity)
    else if |p.observations| == 1 then
      var only :| only in p.observations;
      Some(only)
    else None
  }

  ghost function Learned(p: Tables, key: string, now: int): Tables {
    if key != "" && key !in p.bindings && |p.observations| == 1 && |p.bindings| < MAX_BINDINGS
    then p.(bindings := p.bindings[key := Binding(Answer(p, key).value, now)])
    else p
  }

  /** rx95Store */
  class Store {
    var observations: map<Identity, int>
    var bindings: map<string, Binding>

    function Now(): Tables
      reads this
    {
      Tables(observations, bindings)
    }

    constructor ()
      ensures Now() == Tables(map[], map[])
    {
      observations, bindings := map[], map[];
    }

    method PruneObservations(now: int)
      modifies this`observations
      ensures observations == Recent(old(observations), now)
    {
      var todo := observations.Keys;
      while todo != {}
        invariant todo <= observations.Keys <= old(observations).Keys
        invariant forall id :: id in observations ==> observations[id] == old(observations)[id]
        invariant forall id :: id in old(observations) && id !in todo ==>
                    (id in observations <==> now - old(observations)[id] <= WINDOW)
        decreases |todo|
      {
        var id :| id in todo;
        if now - observations[id] > WINDOW {
          observations := observations - {id};
        }
        todo := todo - {id};
      }
    }

    method PruneBindings(now: int)
      modifies this`bindings
      ensures bindings == Pruned(old(Now()), now).bindings
    {
      var todo := bindings.Keys;
      while todo != {}
        invariant todo <= bindings.Keys <= old(bindings).Keys
        invariant forall key :: key in bindings ==> bindings[key] == old(bindings)[key]
        invariant forall key :: key in old(bindings) && key !in todo ==>
                    (key in bindings <==> now - old(bindings)[key].at <= BINDING_TTL)
        decreases |todo|
      {
        var key :| key in todo;
        if now - bindings[key].at > BINDING_TTL {
          bindings := bindings - {key};
        }
        todo := todo - {key};
      }
    }

    method Prune(now: int)
      modifies this
      ensures Now() == Pruned(old(Now()), now)
    {
      PruneObservations(now);
      PruneBindings(now);
    }

    method Observe(identity: Identity, now: int)
      modifies this
      ensures Now() == AfterObserve(old(Now()), identity, now)
    {
      if !Valid(identity) {
        return;
      }
      Prune(now);
      if identity !in observations && |observations| >= MAX_OBSERVATIONS {
        return;
      }
      observations := observations[identity := now];
    }

    method Resolve(key: string, now: int) returns (answer: Option<Identity>)
      modifies this
      ensures answer == Answer(Pruned(old(Now()), now), key)
      ensures Now() == Learned(Pruned(old(Now()), now), key, now)
    {
      Prune(now);
      if key != "" && key in bindings {
        return Some(bindings[key].identity);
      }
      if |observations| != 1 {
        return None;
      }
      var only :| only in observations;
      OnlyKey(observations, only);
      if key != "" && |bindings| < MAX_BINDINGS {
        bindings := bindings[key := Binding(only, now)];
      }
      answer := Some(only);
    }
  }

  lemma OnlyKey(m: map<Identity, int>, only: Identity)
    requires |m| == 1 && only in m
    ensures m.Keys == {only}
  {
    assert |m.Keys - {only}| == 0;
  }

  // ---------------------------------------------------------------- runs, and the history they leave

  ghost function After(events: seq<Event>): Tables {
    if events == [] then Tables(map[], map[])
    else
      var t, e := After(events[..|events| - 1]), events[|events| - 1];
      match e
      case Observe(identity, now) => AfterObserve(t, identity, now)
      case Resolve(key, now) => Learned(Pruned(t, now), key, now)
  }

  /** When each valid identity was last observed: everything, with no bound and no pruning. */
  function History(events: seq<Event>): map<Identity, int> {
    if events == [] then map[]
    else
      var h, e := History(events[..|events| - 1]), events[|events| - 1];
      if e.Observe? && Valid(e.identity) then h[e.identity := e.now] else h
  }

  predicate Sees(e: Event, id: Identity) {
    e.Observe? && e.identity == id
  }

  ghost predicate LastSeen(events: seq<Event>, id: Identity, k: int) {
    && 0 <= k < |events| && Valid(id) && Sees(events[k], id)
    && forall j :: k < j < |events| ==> !Sees(events[j], id)
  }

  /** The last observation of an identity, or -1. */
  function LastIndex(events: seq<Event>, id: Identity): int {
    if events == [] then -1
    else if Sees(events[|events| - 1], id) then |events| - 1
    else LastIndex(events[..|events| - 1], id)
  }

  lemma {:induction false} LastIndexIsLast(events: seq<Event>, id: Identity)
    ensures -1 <= LastIndex(events, id) < |events|
    ensures LastIndex(events, id) >= 0 ==> Sees(events[LastIndex(events, id)], id)
    ensures forall j :: LastIndex(events, id) < j < |events| ==> !Sees(events[j], id)
  {
    if events != [] {
      var prefix := events[..|events| - 1];
      LastIndexIsLast(prefix, id);
      assert forall j :: 0 <= j < |prefix| ==> events[j] == prefix[j];
    }
  }

  lemma {:induction false} HistoryOfLastIndex(events: seq<Event>, id: Identity)
    ensures id in History(events) <==> Valid(id) && LastIndex(events, id) >= 0
    ensures id in History(events) ==>
              LastIndex(events, id) < |events| && History(events)[id] == events[LastIndex(events, id)].now
  {
    if events != [] {
      HistoryOfLastIndex(events[..|events| - 1], id);
    }
  }

  /** The history holds each valid identity that was observed, with the time of its last observation. */
  lemma HistoryIsWhatWasSeen(events: seq<Event>, id: Identity)
    ensures id in History(events) <==> exists k :: LastSeen(events, id, k)
    ensures id in History(events) ==> exists k :: LastSeen(events, id, k) && History(events)[id] == events[k].now
  {
    LastIndexIsLast(events, id);
    HistoryOfLastIndex(events, id);
    if id in History(events) {
      assert LastSeen(events, id, LastIndex(events, id));
    }
  }

  ghost predicate Ordered(events: seq<Event>) {
    forall i, j :: 0 <= i < j < |events| ==> events[i].now <= events[j].now
  }

  ghost predicate Since(events: seq<Event>, now: int) {
    forall i :: 0 <= i < |events| ==> events[i].now <= now
  }

  /** The identities of the last 90 seconds leave room for this observation. */
  ghost predicate RoomFor(events: seq<Event>, e: Event) {
    var window := Recent(History(events), e.now);
    e.Observe? && Valid(e.identity) ==> e.identity in window || |window| < MAX_OBSERVATIONS
  }

  ghost predicate Roomy(events: seq<Event>) {
    events == [] || (Roomy(events[..|events| - 1]) && RoomFor(events[..|events| - 1], events[|events| - 1]))
  }

  /** Looked at from now on, the table shows just what was observed in the last 90 seconds. */
  ghost predicate Matches(events: seq<Event>) {
    forall now :: Since(events, now) ==> Recent(After(events).observations, now) == Recent(History(events), now)
  }

  lemma StepKeepsMatch(events: seq<Event>, e: Event)
    requires Since(events, e.now) && Matches(events) && RoomFor(events, e)
    ensures Matches(events + [e])
  {
    assert (events + [e])[..|events|] == events;
    var t, h := After(events).observations, History(events);
    assert Recent(t, e.now) == Recent(h, e.now);
    forall now | Since(events + [e], now)
      ensures Recent(After(events + [e]).observations, now) == Recent(History(events + [e]), now)
    {
      assert (events + [e])[|events|] == e;
      assert Since(events, now);
      PruneTwice(t, e.now, now);
      if e.Observe? && Valid(e.identity) {
        UpdateThenPrune(t, h, e.identity, e.now, now);
      }
    }
  }

  lemma PruneTwice(m: map<Identity, int>, now: int, later: int)
    requires now <= later
    ensures Recent(Recent(m, now), later) == Recent(m, later)
  {
  }

  lemma RecentOfUpdate(m: map<Identity, int>, id: Identity, now: int, later: int)
    ensures Recent(m[id := now], later) ==
            if later - now <= WINDOW then Recent(m, later)[id := now] else Recent(m, later) - {id}
  {
  }

  lemma UpdateThenPrune(m: map<Identity, int>, h: map<Identity, int>, id: Identity, now: int, later: int)
    requires now <= later && Recent(m, later) == Recent(h, later)
    ensures Recent(Recent(m, now)[id := now], later) == Recent(h[id := now], later)
  {
    RecentOfUpdate(Recent(m, now), id, now, later);
    PruneTwice(m, now, later);
    RecentOfUpdate(h, id, now, later);
  }

  /** A full window drops the observation, and the table no longer matches. */
  lemma FullWindowLosesMatch(events: seq<Event>, e: Event)
    requires Since(events, e.now) && Matches(events) && !RoomFor(events, e)
    ensures !Matches(events + [e])
  {
    assert (events + [e])[..|events|] == events;
    assert Recent(After(events).observations, e.now) == Recent(History(events), e.now);
    PruneTwice(After(events).observations, e.now, e.now);
    assert Since(events + [e], e.now);
    assert e.identity in Recent(History(events + [e]), e.now);
    assert e.identity !in Recent(After(events + [e]).observations, e.now);
  }

  lemma MatchNeedsRoom(events: seq<Event>, e: Event)
    requires Since(events, e.now) && Matches(events)
    ensures Matches(events + [e]) <==> RoomFor(events, e)
  {
    if RoomFor(events, e) {
      StepKeepsMatch(events, e);
    } else {
      FullWindowLosesMatch(events, e);
    }
  }

  /** The table matched after every event so far. */
  ghost predicate AlwaysMatched(events: seq<Event>) {
    forall n :: 0 <= n <= |events| ==> Matches(events[..n])
  }

  lemma AlwaysMatchedStep(events: seq<Event>)
    requires events != []
    ensures AlwaysMatched(events) <==> AlwaysMatched(events[..|events| - 1]) && Matches(events)
  {
    var prefix := events[..|events| - 1];
    assert events[..|events|] == events;
    forall n | 0 <= n < |events|
      ensures prefix[..n] == events[..n]
    {
    }
    if AlwaysMatched(events) {
      forall n | 0 <= n <= |prefix|
        ensures Matches(prefix[..n])
      {
        assert Matches(events[..n]);
      }
    }
  }

  lemma RefinementStep(events: seq<Event>, e: Event)
    requires Since(events, e.now) && (AlwaysMatched(events) <==> Roomy(events)) && (Roomy(events) ==> Matches(events))
    ensures AlwaysMatched(events + [e]) <==> Roomy(events + [e])
    ensures Roomy(events + [e]) ==> Matches(events + [e])
  {
    var longer := events + [e];
    assert longer[..|longer| - 1] == events && longer[|longer| - 1] == e;
    assert Roomy(longer) <==> Roomy(events) && RoomFor(events, e);
    AlwaysMatchedStep(longer);
    if Roomy(events) {
      MatchNeedsRoom(events, e);
    }
  }

  /**
   With a clock that does not go back, the bounded table refines the whole history after every
   event of a run exactly if no observation finds 512 other identities in its last 90 seconds.
   */
  lemma {:induction false} WindowRefinesHistory(events: seq<Event>)
    requires Ordered(events)
    ensures AlwaysMatched(events) <==> Roomy(events)
    ensures Roomy(events) ==> Matches(events)
  {
    if events == [] {
      assert Matches([]);
    } else {
      var n := |events| - 1;
      WindowRefinesHistory(events[..n]);
      RefinementStep(events[..n], events[n]);
      assert events == events[..n] + [events[n]];
    }
  }

  /** A learned key answers the same for as long as its binding lives. */
  lemma {:induction false} LearnedKeySticks(events: seq<Event>, more: seq<Event>, key: string, b: Binding)
    requires key != "" && key in After(events).bindings && After(events).bindings[key] == b
    requires forall i :: 0 <= i < |more| ==> more[i].now - b.at <= 24 * 3600 * SECOND
    ensures key in After(events + more).bindings && After(events + more).bindings[key] == b
    ensures forall now :: now - b.at <= 24 * 3600 * SECOND ==>
            Answer(Pruned(After(events + more), now), key) == Some(b.identity)
  {
    if more == [] {
      assert events + more == events;
    } else {
      var n := |more| - 1;
      LearnedKeySticks(events, more[..n], key, b);
      assert (events + more)[..|events + more| - 1] == events + more[..n];
      assert (events + more)[|events + more| - 1] == more[n];
    }
  }

  /** The tables never outgrow their bounds, and every entry is a true last observation. */
  lemma {:induction false} TablesStayBounded(events: seq<Event>)
    ensures |After(events).observations| <= 512 && |After(events).bindings| <= 512 && "" !in After(events).bindings
    ensures forall id :: id in After(events).observations ==>
              id in History(events) && History(events)[id] == After(events).observations[id]
  {
    if events != [] {
      var prefix, e := events[..|events| - 1], events[|events| - 1];
      TablesStayBounded(prefix);
      FewerKeys(After(prefix).observations, Pruned(After(prefix), e.now).observations);
      FewerKeys(After(prefix).bindings, Pruned(After(prefix), e.now).bindings);
    }
  }

  lemma FewerKeys<K, V>(m: map<K, V>, part: map<K, V>)
    requires part.Keys <= m.Keys
    ensures |part| <= |m|
  {
    FewerElements(m.Keys, part.Keys);
  }

  lemma {:induction false} FewerElements<K>(s: set<K>, part: set<K>)
    requires part <= s
    ensures |part| <= |s|
  {
    assert s == part + (s - part);
  }

  // ---------------------------------------------------------------- what the bound costs

  /** All of them observed at time 0, in this order. */
  function Burst(ids: seq<Identity>): seq<Event> {
    if ids == [] then [] else Burst(ids[..|ids| - 1]) + [Observe(ids[|ids| - 1], 0)]
  }

  function Observed(ids: seq<Identity>): (m: map<Identity, int>)
    ensures forall id :: id in m <==> id in ids
    ensures forall id :: id in m ==> m[id] == 0
  {
    if ids == [] then map[]
    else
      assert ids == ids[..|ids| - 1] + [ids[|ids| - 1]];
      Observed(ids[..|ids| - 1])[ids[|ids| - 1] := 0]
  }

  ghost predicate DistinctAndValid(ids: seq<Identity>) {
    ids == [] ||
    (DistinctAndValid(ids[..|ids| - 1]) && Valid(ids[|ids| - 1]) && ids[|ids| - 1] !in ids[..|ids| - 1])
  }

  /** An observation when nothing has expired: it is kept if there is room for it. */
  lemma ObserveFresh(events: seq<Event>, id: Identity, now: int)
    requires Valid(id) && After(events).bindings == map[]
    requires forall x :: x in After(events).observations ==> now - After(events).observations[x] <= WINDOW
    ensures var o := After(events).observations; var longer := events + [Observe(id, now)];
            && After(longer) == Tables(if id in o || |o| < MAX_OBSERVATIONS then o[id := now] else o, map[])
            && History(longer) == History(events)[id := now]
  {
    var longer := events + [Observe(id, now)];
    assert longer[..|longer| - 1] == events;
    assert Recent(After(events).observations, now) == After(events).observations;
  }

  ghost predicate Fills(events: seq<Event>, observed: map<Identity, int>, n: nat) {
    After(events) == Tables(observed, map[]) && History(events) == observed && |observed| == n
  }

  lemma FillsOneMore(events: seq<Event>, observed: map<Identity, int>, id: Identity)
    requires Fills(events, observed, |observed|) && |observed| < MAX_OBSERVATIONS
    requires forall x :: x in observed ==> observed[x] == 0
    requires Valid(id) && id !in observed
    ensures Fills(events + [Observe(id, 0)], observed[id := 0], |observed| + 1)
  {
    ObserveFresh(events, id, 0);
  }

  lemma {:induction false} BurstFillsTheTable(ids: seq<Identity>)
    requires DistinctAndValid(ids) && |ids| <= MAX_OBSERVATIONS
    ensures Fills(Burst(ids), Observed(ids), |ids|)
  {
    if ids != [] {
      var earlier, id := ids[..|ids| - 1], ids[|ids| - 1];
      BurstFillsTheTable(earlier);
      FillsOneMore(Burst(earlier), Observed(earlier), id);
    }
  }

  /** A full table of old observations, of which one is seen again before a new identity comes. */
  lemma LateArrivalIsDropped(events: seq<Event>, filled: map<Identity, int>, first: Identity, last: Identity)
    requires After(events) == Tables(filled, map[]) && History(events) == filled && |filled| == MAX_OBSERVATIONS
    requires forall id :: id in filled ==> filled[id] == 0
    requires Valid(first) && Valid(last) && first in filled && last !in filled
    ensures var longer := events + [Observe(first, 50 * SECOND)] + [Observe(last, 80 * SECOND)];
            && Recent(History(longer), 95 * SECOND) == map[first := 50 * SECOND, last := 80 * SECOND]
            && Recent(After(longer).observations, 95 * SECOND) == map[first := 50 * SECOND]
            && After(longer).bindings == map[]
  {
    RefreshedTable(filled, first, last);
    ObserveFresh(events, first, 50 * SECOND);
    ObserveFresh(events + [Observe(first, 50 * SECOND)], last, 80 * SECOND);
  }

  lemma RefreshedTable(filled: map<Identity, int>, first: Identity, last: Identity)
    requires forall id :: id in filled ==> filled[id] == 0
    requires first in filled && last !in filled
    ensures var full := filled[first := 50 * SECOND];
            && |full| == |filled| && last !in full
            && (forall id :: id in full ==> 80 * SECOND - full[id] <= WINDOW)
            && Recent(full, 95 * SECOND) == map[first := 50 * SECOND]
            && Recent(full[last := 80 * SECOND], 95 * SECOND) == map[first := 50 * SECOND, last := 80 * SECOND]
  {
    assert filled[first := 50 * SECOND].Keys == filled.Keys;
  }

  lemma {:induction false} FirstIsValid(ids: seq<Identity>)
    requires DistinctAndValid(ids) && ids != []
    ensures Valid(ids[0])
  {
    if |ids| > 1 {
      FirstIsValid(ids[..|ids| - 1]);
    }
  }

  /**
   The rule that an ambiguous window binds nothing can fail once the table is full: an observation
   it dropped is still recent when all but one of those that filled it have expired.
   */
  lemma DroppedObservationIsForgotten(ids: seq<Identity>, last: Identity)
    requires DistinctAndValid(ids) && |ids| == MAX_OBSERVATIONS && Valid(last) && last !in ids
    ensures var events := Burst(ids) + [Observe(ids[0], 50 * SECOND)] + [Observe(last, 80 * SECOND)];
            && Recent(History(events), 95 * SECOND).Keys == {ids[0], last}
            && Answer(Pruned(After(events), 95 * SECOND), "") == Some(ids[0])
  {
    BurstFillsTheTable(ids);
    FirstIsValid(ids);
    LateArrivalIsDropped(Burst(ids), Observed(ids), ids[0], last);
    var events := Burst(ids) + [Observe(ids[0], 50 * SECOND)] + [Observe(last, 80 * SECOND)];
    OneEntryAnswers(After(events), ids[0], 50 * SECOND, 95 * SECOND);
  }

  lemma OneEntryAnswers(t: Tables, id: Identity, at: int, now: int)
    requires Recent(t.observations, now) == map[id := at]
    ensures Answer(Pruned(t, now), "") == Some(id)
  {
    assert id in Pruned(t, now).observations && |Pruned(t, now).observations| == 1;
    OnlyKey(Pruned(t, now).observations, id);
  }

  function Episode(imdb: string, i: nat): Identity {
    Identity("series", imdb, 1, i + 1)
  }

  function Episodes(imdb: string, n: nat): (ids: seq<Identity>)
    ensures |ids| == n && forall i :: 0 <= i < n ==> ids[i] == Episode(imdb, i)
  {
    if n == 0 then [] else Episodes(imdb, n - 1) + [Episode(imdb, n - 1)]
  }

  lemma EpisodeIsValid(imdb: string, i: nat)
    requires NormalizedIMDb(imdb) == imdb && i < 9999
    ensures Valid(Episode(imdb, i))
  {
  }

  lemma {:induction false} EpisodesAreSuitable(imdb: string, n: nat)
    requires NormalizedIMDb(imdb) == imdb && n <= 9999
    ensures DistinctAndValid(Episodes(imdb, n))
  {
    if n > 0 {
      EpisodesAreSuitable(imdb, n - 1);
      EpisodeIsValid(imdb, n - 1);
      assert Episodes(imdb, n)[..n - 1] == Episodes(imdb, n - 1);
    }
  }

  /** For instance, the first 513 episodes of any title. */
  lemma FullTableBindsAnAmbiguousWindow(imdb: string, n: nat)
    requires NormalizedIMDb(imdb) == imdb && n == 512
    ensures var first, last := Episode(imdb, 0), Episode(imdb, n);
            var events := Burst(Episodes(imdb, n)) + [Observe(first, 50 * SECOND)] + [Observe(last, 80 * SECOND)];
            && Recent(History(events), 95 * SECOND).Keys == {first, last}
            && Answer(Pruned(After(events), 95 * SECOND), "") == Some(first)
  {
    EpisodesAreSuitable(imdb, n);
    EpisodeIsValid(imdb, n);
    DroppedObservationIsForgotten(Episodes(imdb, n), Episode(imdb, n));
  }
}
