/**
 One (item, file) entry of the HTTP resolve coordinator of internal/api/httpresolve.go: the locked
 sections of Resolve, run and Invalidate, as functions on values and as an object that refines
 them. Times are nanoseconds; `None` is the zero time.
 */
module ResolveEntry {
  import opened Wrappers

  const SECOND := 1_000_000_000
  const FAILURE_COOLDOWN := 5 * SECOND
  const EXPIRY_SKEW := 30 * SECOND
  const MAX_TTL := 600 * SECOND
  const MISSING_TTL := 60 * SECOND
  const MAX_HEADER_BYTES := 8192

  type Headers = seq<(string, string)>

  datatype ResolvedFile = ResolvedFile(
    url: string,
    expiresAt: Option<int>,
    refreshContext: string,
    requestHeaders: Headers,
    responseHeaders: Headers)

  const NO_FILE := ResolvedFile("", None, "", [], [])

  type Outcome = Result<ResolvedFile, string>

  /** An in-flight handler call. No two calls of an entry share a generation, so it names the call. */
  datatype Call = Call(generation: nat, forced: bool)

  datatype Entry = Entry(
    generation: nat,
    inflight: Option<Call>,
    failedAt: Option<int>,
    failErr: string,
    cachedFile: ResolvedFile,
    cachedUntil: Option<int>,
    cachedGeneration: nat)

  const EMPTY_ENTRY := Entry(0, None, None, "", NO_FILE, None, 0)

  /** What the locked section of Resolve settles on for its caller. */
  datatype Decision =
    | Cached(file: ResolvedFile)
    | CoolingDown(err: string)
    | WaitOn(call: Call, started: bool)

  predicate CacheLive(e: Entry, now: int) {
    e.cachedUntil.Some? && now < e.cachedUntil.value
  }

  predicate Cooling(e: Entry, now: int) {
    e.failedAt.Some? && now - e.failedAt.value < FAILURE_COOLDOWN
  }

  /** The locked section of Resolve; `now1` and `now2` are its successive clock readings. */
  function Decide(e: Entry, forced: bool, refreshContext: string, now1: int, now2: int): (Entry, Decision) {
    if forced && refreshContext != "" && CacheLive(e, now1) &&
       e.cachedFile.refreshContext != "" && e.cachedFile.refreshContext != refreshContext then
      (e, Cached(e.cachedFile))
    else if !forced && CacheLive(e, now1) then
      (e, Cached(e.cachedFile))
    else if !forced && e.inflight.None? && Cooling(e, now2) then
      (e, CoolingDown(e.failErr))
    else if e.inflight.None? || (forced && !e.inflight.value.forced) then
      var call := Call(e.generation + 1, forced);
      var started := e.(generation := e.generation + 1, inflight := Some(call));
      (if forced then started.(cachedUntil := None, failedAt := None, failErr := "") else started,
       WaitOn(call, true))
    else
      (e, WaitOn(e.inflight.value, false))
  }

  function EffectiveTTL(expiresAt: Option<int>, now: int): (ttl: Option<int>)
    ensures ttl.Some? ==> 0 < ttl.value <= 600 * SECOND
    ensures expiresAt.None? ==> ttl == Some(60 * SECOND)
    ensures expiresAt.Some? ==>
              (ttl.Some? <==> now < expiresAt.value - 30 * SECOND) &&
              (ttl.Some? ==> now + ttl.value <= expiresAt.value - 30 * SECOND) &&
              (ttl.Some? ==> ttl.value == 600 * SECOND || now + ttl.value == expiresAt.value - 30 * SECOND)
  {
    if expiresAt.None? then Some(MISSING_TTL)
    else
      var remaining := expiresAt.value - now - EXPIRY_SKEW;
      if remaining <= 0 then None
      else if remaining > MAX_TTL then Some(MAX_TTL)
      else Some(remaining)
  }

  function HeaderBytes(h: Headers): nat {
    if h == [] then 0 else |h[0].0| + |h[0].1| + HeaderBytes(h[1..])
  }

  /** Every byte of every header counts once. */
  lemma {:induction false} HeaderBytesAdd(a: Headers, name: string, value: string, b: Headers)
    ensures HeaderBytes([]) == 0
    ensures HeaderBytes(a + [(name, value)] + b) == HeaderBytes(a) + |name| + |value| + HeaderBytes(b)
  {
    var all := a + [(name, value)] + b;
    if a == [] {
      assert all == [(name, value)] + b && all[1..] == b;
    } else {
      assert all[0] == a[0] && all[1..] == a[1..] + [(name, value)] + b;
      HeaderBytesAdd(a[1..], name, value, b);
    }
  }

  function CacheableCopy(f: ResolvedFile): (r: ResolvedFile)
    ensures HeaderBytes(r.requestHeaders) + HeaderBytes(r.responseHeaders) <= MAX_HEADER_BYTES
    ensures r.url == f.url && r.expiresAt == f.expiresAt && r.refreshContext == f.refreshContext
    ensures HeaderBytes(f.requestHeaders) + HeaderBytes(f.responseHeaders) <= 8192 ==> r == f
  {
    if HeaderBytes(f.requestHeaders) + HeaderBytes(f.responseHeaders) > MAX_HEADER_BYTES then
      f.(requestHeaders := [], responseHeaders := [])
    else f
  }

  /** The locked section of run. Only the call of the current generation publishes its outcome. */
  function Complete(e: Entry, call: Call, outcome: Outcome, now1: int, now2: int): Entry {
    var e1 := if e.inflight == Some(call) then e.(inflight := None) else e;
    if call.generation != e.generation then e1
    else
      match outcome
      case Err(err) => e1.(failedAt := Some(now1), failErr := err, cachedUntil := None)
      case Ok(file) =>
        var e2 := e1.(failedAt := None, failErr := "");
        match EffectiveTTL(file.expiresAt, now1)
        case Some(ttl) =>
          e2.(cachedFile := CacheableCopy(file), cachedUntil := Some(now2 + ttl), cachedGeneration := call.generation)
        case None => e2.(cachedUntil := None)
  }

  function Invalidated(e: Entry): Entry {
    e.(generation := e.generation + 1, cachedUntil := None, failedAt := None, failErr := "")
  }

  class HttpResolveEntry {
    var generation: nat
    var inflight: Option<Call>
    var failedAt: Option<int>
    var failErr: string
    var cachedFile: ResolvedFile
    var cachedUntil: Option<int>
    var cachedGeneration: nat

    constructor ()
      ensures Value() == EMPTY_ENTRY
    {
      generation, inflight := 0, None;
      failedAt, failErr := None, "";
      cachedFile, cachedUntil, cachedGeneration := NO_FILE, None, 0;
    }

    ghost function Value(): Entry
      reads this
    {
      Entry(generation, inflight, failedAt, failErr, cachedFile, cachedUntil, cachedGeneration)
    }

    /** Resolve up to its unlock. */
    method ResolveLocked(forced: bool, refreshContext: string, now1: int, now2: int) returns (decision: Decision)
      modifies this
      ensures (Value(), decision) == Decide(old(Value()), forced, refreshContext, now1, now2)
    {
      if forced && refreshContext != "" &&
         cachedUntil.Some? && now1 < cachedUntil.value &&
         cachedFile.refreshContext != "" && cachedFile.refreshContext != refreshContext {
        return Cached(cachedFile);
      }
      if !forced {
        if cachedUntil.Some? && now1 < cachedUntil.value {
          return Cached(cachedFile);
        }
        if inflight.None? && failedAt.Some? && now2 - failedAt.value < FAILURE_COOLDOWN {
          return CoolingDown(failErr);
        }
      }
      var startNew := inflight.None? || (forced && !inflight.value.forced);
      if startNew {
        generation := generation + 1;
        inflight := Some(Call(generation, forced));
        if forced {
          cachedUntil, failedAt, failErr := None, None, "";
        }
      }
      decision := WaitOn(inflight.value, startNew);
    }

    /** run from its lock to its unlock. */
    method CompleteLocked(call: Call, outcome: Outcome, now1: int, now2: int)
      modifies this
      ensures Value() == Complete(old(Value()), call, outcome, now1, now2)
      ensures call.generation == old(generation) && outcome.Ok? ==>
                var file := outcome.value; var ttl := EffectiveTTL(file.expiresAt, now1);
                && cachedUntil == (if ttl.Some? then Some(now2 + ttl.value) else None)
                && (ttl.Some? ==> cachedFile.url == file.url && cachedGeneration == call.generation)
                && failedAt == None
      ensures call.generation == old(generation) && outcome.Err? ==>
                cachedUntil == None && failedAt == Some(now1) && failErr == outcome.error
      ensures inflight == if old(inflight) == Some(call) then None else old(inflight)
    {
      if inflight == Some(call) {
        inflight := None;
      }
      if call.generation == generation {
        match outcome {
          case Err(err) =>
            failedAt, failErr, cachedUntil := Some(now1), err, None;
          case Ok(file) =>
            failedAt, failErr := None, "";
            var ttl := EffectiveTTL(file.expiresAt, now1);
            if ttl.Some? {
              cachedFile := CacheableCopy(file);
              cachedUntil := Some(now2 + ttl.value);
              cachedGeneration := call.generation;
            } else {
              cachedUntil := None;
            }
        }
      }
    }

    method Invalidate()
      modifies this
      ensures Value() == Invalidated(old(Value()))
    {
      generation := generation + 1;
      cachedUntil, failedAt, failErr := None, None, "";
    }
  }
}
