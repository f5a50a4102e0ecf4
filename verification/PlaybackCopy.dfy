/**
 Delivered-byte accounting of copyPlaybackBody in internal/api/mediaflow.go: a copy loop that
 observes what it delivered, keeps the span of a failed observation and retries it grown. Reader,
 writer, clock and observer are a script: one entry for each turn of the loop.
 */
module PlaybackCopy {
  import opened Wrappers

  const RETRY_DELAY := 250_000_000  // nanoseconds

  datatype Span = Span(offset: int, length: int)

  /** One call of Observe. `final` marks the flush at end of input. */
  datatype Attempt = Attempt(span: Span, ok: bool, at: int, final: bool)

  datatype ReadEnd = More | EndOfFile | ReadError

  /** What the world does in one turn: `nr` bytes read, `nw` of them written, the clock, the observer. */
  datatype Turn = Turn(
    nr: nat, nw: nat, writeError: bool, readEnd: ReadEnd,
    now: int, observeOk: bool, finalNow: int, finalOk: bool)

  datatype Outcome = Running | Finished | WriteFailed | ShortWrite | ReadFailed

  /** io.Writer never claims more than it was given. */
  predicate Possible(t: Turn) {
    t.nw <= t.nr
  }

  function TurnOutcome(t: Turn): Outcome {
    if t.nr > 0 && t.writeError then WriteFailed
    else if t.nr > 0 && t.nw != t.nr then ShortWrite
    else match t.readEnd
      case More => Running
      case EndOfFile => Finished
      case ReadError => ReadFailed
  }

  /** The first turn that ends the copy decides its outcome. */
  function ScriptOutcome(script: seq<Turn>): Outcome {
    if script == [] then Running
    else if TurnOutcome(script[0]) != Running then TurnOutcome(script[0])
    else ScriptOutcome(script[1..])
  }

  /** Bytes written up to and including the first turn that ends the copy. */
  function Delivered(script: seq<Turn>): nat {
    if script == [] then 0
    else script[0].nw + if TurnOutcome(script[0]) != Running then 0 else Delivered(script[1..])
  }

  lemma {:induction false} AfterRunningTurns(script: seq<Turn>, i: nat)
    requires i <= |script| && forall j :: 0 <= j < i ==> TurnOutcome(script[j]) == Running
    ensures ScriptOutcome(script) == ScriptOutcome(script[i..])
    ensures Delivered(script) == Delivered(script[..i]) + Delivered(script[i..])
  {
    if i == 0 {
      assert script[0..] == script;
    } else {
      AfterRunningTurns(script[1..], i - 1);
      assert script[1..][i - 1..] == script[i..];
      assert script[..i][1..] == script[1..][..i - 1];
    }
  }

  lemma {:induction false} DeliveredSoFar(script: seq<Turn>, i: nat)
    requires i < |script| && forall j :: 0 <= j < i ==> TurnOutcome(script[j]) == Running
    ensures Delivered(script[..i + 1]) == Delivered(script[..i]) + script[i].nw
    ensures Delivered(script[i..]) == script[i].nw + if TurnOutcome(script[i]) != Running then 0
            else Delivered(script[i + 1..])
    ensures TurnOutcome(script[i]) != Running ==> ScriptOutcome(script[i..]) == TurnOutcome(script[i])
  {
    AfterRunningTurns(script[..i + 1], i);
    assert script[..i + 1][..i] == script[..i] && script[..i + 1][i..] == [script[i]];
    assert script[i..][0] == script[i] && script[i..][1..] == script[i + 1..];
    assert Delivered([script[i]][1..]) == 0;
  }

  ghost predicate RunningUpTo(script: seq<Turn>, i: nat)
    requires i <= |script|
  {
    forall j :: 0 <= j < i ==> TurnOutcome(script[j]) == Running
  }

  /** What the next turn adds, and what it means when that turn ends the copy. */
  lemma OneMoreTurn(script: seq<Turn>, i: nat)
    requires i < |script| && RunningUpTo(script, i)
    ensures Delivered(script[..i + 1]) == Delivered(script[..i]) + script[i].nw
    ensures TurnOutcome(script[i]) != Running ==>
              ScriptOutcome(script) == TurnOutcome(script[i]) && Delivered(script) == Delivered(script[..i + 1])
  {
    AfterRunningTurns(script, i);
    DeliveredSoFar(script, i);
  }

  lemma AllTurnsRunning(script: seq<Turn>)
    requires RunningUpTo(script, |script|)
    ensures ScriptOutcome(script) == Running
  {
    AfterRunningTurns(script, |script|);
  }

  /** Everything read in the turn was written, without an error. */
  predicate WroteAll(t: Turn) {
    t.nr == 0 || (!t.writeError && t.nw == t.nr)
  }

  /** Every turn before the `i`-th wrote all it read and had more to read. */
  ghost predicate SmoothUpTo(script: seq<Turn>, i: int) {
    0 <= i <= |script| && forall j :: 0 <= j < i ==> WroteAll(script[j]) && script[j].readEnd.More?
  }

  /** Why a copy ends at this turn, if it does. */
  predicate EndsWith(t: Turn, outcome: Outcome) {
    match outcome
    case Running => WroteAll(t) && t.readEnd.More?
    case WriteFailed => t.nr > 0 && t.writeError
    case ShortWrite => t.nr > 0 && !t.writeError && t.nw != t.nr
    case Finished => WroteAll(t) && t.readEnd.EndOfFile?
    case ReadFailed => WroteAll(t) && t.readEnd.ReadError?
  }

  /**
   A copy goes on as long as every turn writes all it read and has more to read. It ends with the first
   turn that does not: finished at the end of the input with everything written, or with the error of
   that turn, a failed or short write coming before a failed read.
   */
  lemma CopyEndsForItsReason(script: seq<Turn>, i: int)
    ensures ScriptOutcome(script) == Running <==> SmoothUpTo(script, |script|)
    ensures SmoothUpTo(script, i) && i < |script| && !EndsWith(script[i], Running) ==>
              && EndsWith(script[i], ScriptOutcome(script))
              && forall outcome :: EndsWith(script[i], outcome) ==> outcome == ScriptOutcome(script)
  {
    FirstOtherTurn(script);
    if SmoothUpTo(script, i) && i < |script| && !EndsWith(script[i], Running) {
      OneMoreTurn(script, i);
    }
  }

  lemma {:induction false} FirstOtherTurn(script: seq<Turn>)
    ensures ScriptOutcome(script) == Running <==> SmoothUpTo(script, |script|)
  {
    if script != [] {
      var rest := script[1..];
      FirstOtherTurn(rest);
      assert forall j :: 0 <= j < |rest| ==> rest[j] == script[j + 1];
      if TurnOutcome(script[0]) == Running && SmoothUpTo(rest, |rest|) {
        assert forall j :: 0 < j < |script| ==> script[j] == rest[j - 1];
      }
    }
  }

  // ---------------------------------------------------------------- coverage

  function Successes(attempts: seq<Attempt>): seq<Span> {
    if attempts == [] then []
    else
      var last := attempts[|attempts| - 1];
      Successes(attempts[..|attempts| - 1]) + if last.ok then [last.span] else []
  }

  /** The spans are nonempty, in order, adjacent, and cover exactly [from, to). */
  predicate Tile(spans: seq<Span>, from: int, to: int)
    decreases |spans|
  {
    if spans == [] then from == to
    else
      var last := spans[|spans| - 1];
      last.length > 0 && last.offset + last.length == to && Tile(spans[..|spans| - 1], from, last.offset)
  }

  /** What tiling means byte by byte: no overlap and no gap. */
  lemma {:induction false} TileCoversOnce(spans: seq<Span>, from: int, to: int)
    requires Tile(spans, from, to)
    ensures from <= to
    ensures forall i :: 0 <= i < |spans| ==> from <= spans[i].offset < spans[i].offset + spans[i].length <= to
    ensures forall i, j :: 0 <= i < j < |spans| ==> spans[i].offset + spans[i].length <= spans[j].offset
    ensures forall i :: 0 <= i < |spans| - 1 ==> spans[i].offset + spans[i].length == spans[i + 1].offset
    decreases |spans|
  {
    if spans != [] {
      var n := |spans| - 1;
      TileCoversOnce(spans[..n], from, spans[n].offset);
      assert forall i :: 0 <= i < n ==> spans[i] == spans[..n][i];
      if n > 0 {
        assert Tile(spans[..n], from, spans[n].offset);
        assert spans[..n][n - 1] == spans[n - 1];
      }
    }
  }

  /** A failed observation is retried from the same offset, grown, and not before the delay is over. */
  predicate Retried(failed: Attempt, next: Attempt) {
    && next.span.offset == failed.span.offset
    && (next.span.length > failed.span.length || (next.final && next.span.length == failed.span.length))
    && (next.final || next.at >= failed.at + 250_000_000)
  }

  ghost predicate Disciplined(attempts: seq<Attempt>) {
    forall i :: 0 <= i < |attempts| - 1 && !attempts[i].ok ==> Retried(attempts[i], attempts[i + 1])
  }

  /** Where the spans observed so far have to end: at the retained span, or at what was delivered. */
  ghost predicate Accounted(attempts: seq<Attempt>, initial: int, pendingStart: int, offset: int) {
    && 0 <= initial <= offset && pendingStart < offset
    && Tile(Successes(attempts), initial, if pendingStart >= 0 then pendingStart else offset)
    && Disciplined(attempts)
    && (pendingStart >= 0 <==> attempts != [] && !attempts[|attempts| - 1].ok)
    && (pendingStart >= 0 ==>
          var last := attempts[|attempts| - 1].span;
          last.offset == pendingStart && last.offset + last.length <= offset)
  }

  /** The span the next observation covers. */
  function NextSpan(pendingStart: int, offset: int, length: int): Span {
    if pendingStart >= 0 then Span(pendingStart, offset + length - pendingStart) else Span(offset, length)
  }

  lemma DisciplineExtends(attempts: seq<Attempt>, a: Attempt)
    requires Disciplined(attempts)
    requires attempts != [] && !attempts[|attempts| - 1].ok ==> Retried(attempts[|attempts| - 1], a)
    ensures Disciplined(attempts + [a])
  {
  }

  /** One more observation keeps the account, whatever its outcome. */
  lemma AttemptKeepsAccount(attempts: seq<Attempt>, initial: int, pendingStart: int, offset: int, length: nat,
      a: Attempt)
    requires Accounted(attempts, initial, pendingStart, offset)
    requires a.span == NextSpan(pendingStart, offset, length)
    requires a.final <==> length == 0
    requires length == 0 ==> pendingStart >= 0
    requires pendingStart >= 0 && !a.final ==> a.at >= attempts[|attempts| - 1].at + RETRY_DELAY
    ensures Accounted(attempts + [a], initial,
                      if a.ok then -1 else if pendingStart < 0 then offset else pendingStart, offset + length)
  {
    var longer := attempts + [a];
    assert longer[..|longer| - 1] == attempts;
    DisciplineExtends(attempts, a);
    if a.ok {
      assert Successes(longer) == Successes(attempts) + [a.span];
      assert (Successes(attempts) + [a.span])[..|Successes(attempts)|] == Successes(attempts);
    } else {
      assert Successes(longer) == Successes(attempts);
    }
  }

  /** Bytes delivered without an observation are only ever bytes of the retained span. */
  lemma WaitingKeepsAccount(attempts: seq<Attempt>, initial: int, pendingStart: int, offset: int, length: nat)
    requires Accounted(attempts, initial, pendingStart, offset)
    requires pendingStart >= 0 || length == 0
    ensures Accounted(attempts, initial, pendingStart, offset + length)
  {
  }

  /** The variables that the flushCoverage closure shares with the loop. */
  class Tracker {
    const known: bool  // whether the context carries a representation
    var tracking: bool
    var represented: bool  // whether it has been looked up
    var pendingStart: int
    var retryAfter: Option<int>
    var attempts: seq<Attempt>
    const initial: int

    constructor (tracking: bool, known: bool, initial: int)
      requires initial >= 0
      ensures this.tracking == tracking && this.known == known && this.initial == initial
      ensures attempts == [] && pendingStart < 0 && Valid(initial)
    {
      this.tracking, this.known, this.initial := tracking, known, initial;
      represented, pendingStart, retryAfter, attempts := false, -1, None, [];
    }

    /** `offset` bytes into the object have been delivered; the account of them is complete. */
    ghost predicate Valid(offset: int)
      reads this
    {
      && 0 <= initial <= offset
      && (represented ==> known)
      && (attempts != [] ==> represented)
      && (if tracking then Accounted(attempts, initial, pendingStart, offset) else attempts == [] && pendingStart < 0)
    }

    ghost predicate BackingOff()
      reads this
    {
      pendingStart >= 0 ==> attempts != [] && retryAfter == Some(attempts[|attempts| - 1].at + RETRY_DELAY)
    }

    /** The flushCoverage closure; a zero length asks for the retained span only. */
    method Flush(ok: bool, now: int, offset: int, length: nat)
      requires Valid(offset)
      requires BackingOff() || (length == 0 && retryAfter.None?)
      modifies this
      ensures Valid(offset + length) && BackingOff()
      ensures tracking == (old(tracking) && (known || (length == 0 && old(pendingStart) < 0)))
      ensures attempts == old(attempts) ||
              attempts == old(attempts) + [Attempt(NextSpan(old(pendingStart), offset, length), ok, now, length == 0)]
      ensures ok && old(pendingStart) < 0 ==> pendingStart < 0
      ensures ok && (old(retryAfter).None? || now >= old(retryAfter).value) ==> pendingStart < 0
    {
      if !tracking || (length == 0 && pendingStart < 0) {
        return;
      }
      if !represented {
        if !known {
          tracking := false;
          return;
        }
        represented := true;
      }
      if pendingStart >= 0 && retryAfter.Some? && now < retryAfter.value {
        WaitingKeepsAccount(attempts, initial, pendingStart, offset, length);
        return;
      }
      ObserveSpan(ok, now, offset, length);
    }

    /** The call of Observe and what its outcome does to the retained span. */
    method ObserveSpan(ok: bool, now: int, offset: int, length: nat)
      requires tracking && represented && known && Accounted(attempts, initial, pendingStart, offset)
      requires length == 0 ==> pendingStart >= 0
      requires pendingStart >= 0 && length > 0 ==> now >= attempts[|attempts| - 1].at + RETRY_DELAY
      modifies this`pendingStart, this`retryAfter, this`attempts
      ensures Accounted(attempts, initial, pendingStart, offset + length) && BackingOff()
      ensures attempts == old(attempts) + [Attempt(NextSpan(old(pendingStart), offset, length), ok, now, length == 0)]
      ensures ok ==> pendingStart < 0
    {
      var attempt := Attempt(NextSpan(pendingStart, offset, length), ok, now, length == 0);
      ghost var before, retained := attempts, pendingStart;
      attempts := attempts + [attempt];
      if ok {
        pendingStart, retryAfter := -1, None;
      } else {
        if pendingStart < 0 {
          pendingStart := offset;
        }
        retryAfter := Some(now + RETRY_DELAY);
      }
      AttemptKeepsAccount(before, initial, retained, offset, length, attempt);
    }

    /** What a turn delivered is observed, unless nothing is tracked. */
    method ObserveDelivery(t: Turn, offset: int)
      requires Valid(offset) && BackingOff()
      modifies this
      ensures Valid(offset + t.nw) && BackingOff()
      ensures old(tracking) && known ==> tracking
      ensures t.observeOk && old(pendingStart) < 0 ==> pendingStart < 0
      ensures t.observeOk && t.nw > 0 && (old(retryAfter).None? || t.now >= old(retryAfter).value) ==> pendingStart < 0
    {
      if t.nw > 0 && tracking {
        Flush(t.observeOk, t.now, offset, t.nw);
      }
    }

    /** End of input: the retained span is observed once more, whatever the delay. */
    method ObserveAtEnd(t: Turn, offset: int)
      requires Valid(offset) && BackingOff()
      modifies this
      ensures Valid(offset) && BackingOff()
      ensures old(tracking) && known ==> tracking
      ensures old(pendingStart) < 0 || t.finalOk ==> pendingStart < 0
    {
      if pendingStart >= 0 && tracking {
        retryAfter := None;
        Flush(t.finalOk, t.finalNow, offset, 0);
      }
    }

    /** One turn of the loop. */
    method TakeTurn(t: Turn, offset: int) returns (outcome: Outcome)
      requires Valid(offset) && BackingOff() && Possible(t)
      modifies this
      ensures outcome == TurnOutcome(t)
      ensures Valid(offset + t.nw) && BackingOff()
      ensures old(tracking) && known ==> tracking
      ensures t.observeOk && old(pendingStart) < 0 ==> pendingStart < 0
      ensures t.observeOk && t.nw > 0 && (old(retryAfter).None? || t.now >= old(retryAfter).value) ==> pendingStart < 0
      ensures outcome == Finished && t.finalOk ==> pendingStart < 0
    {
      if t.nr > 0 {
        ObserveDelivery(t, offset);
        if t.writeError {
          return WriteFailed;
        }
        if t.nw != t.nr {
          return ShortWrite;
        }
      }
      if t.readEnd.EndOfFile? {
        ObserveAtEnd(t, offset + t.nw);
        return Finished;
      }
      outcome := if t.readEnd.ReadError? then ReadFailed else Running;
    }

    /**
     copyPlaybackBody over the turns the world takes. Whatever fails when, the spans observed tile
     delivery from the initial offset up to the retained span, or to the last byte written.
     */
    method Copy(script: seq<Turn>) returns (written: nat, outcome: Outcome)
      requires Valid(initial) && attempts == [] && pendingStart < 0
      requires forall i :: 0 <= i < |script| ==> Possible(script[i])
      modifies this
      ensures written == Delivered(script) && outcome == ScriptOutcome(script)
      ensures tracking ==> Tile(Successes(attempts), initial, if pendingStart >= 0 then pendingStart
              else initial + written)
      ensures tracking ==> Disciplined(attempts)
      ensures !tracking ==> attempts == []
      ensures old(tracking) && known ==> tracking
      ensures (forall i :: 0 <= i < |script| ==> script[i].observeOk) ==> pendingStart < 0
      ensures outcome == Finished && (forall i :: 0 <= i < |script| ==> script[i].finalOk) ==> pendingStart < 0
    {
      written := 0;
      for i := 0 to |script|
        invariant RunningUpTo(script, i)
        invariant written == Delivered(script[..i])
        invariant Valid(initial + written) && BackingOff()
        invariant old(tracking) && known ==> tracking
        invariant (forall j :: 0 <= j < |script| ==> script[j].observeOk) ==> pendingStart < 0
      {
        outcome := TakeTurn(script[i], initial + written);
        OneMoreTurn(script, i);
        written := written + script[i].nw;
        if outcome != Running {
          return;
        }
      }
      assert script[..|script|] == script;
      AllTurnsRunning(script);
      outcome := Running;
    }
  }
}
