/**
 The decay audit's rotation, internal/api/decayaudit.go: each cycle samples the next five ready
 items by id after an in-memory cursor, and the cursor wraps when a page comes back short.
 */
module DecayAudit {
  import opened Wrappers
  import Arithmetic

  const PER_TICK: nat := 5

  // ---------------------------------------------------------------- ids and the query

  /** The order of ids in the database. */
  predicate Less(a: string, b: string) {
    b != "" && (a == "" || a[0] < b[0] || (a[0] == b[0] && Less(a[1..], b[1..])))
  }

  lemma {:induction false} LessIsStrictTotalOrder(a: string, b: string, c: string)
    ensures !Less(a, a)
    ensures a == b || Less(a, b) || Less(b, a)
    ensures Less(a, b) && Less(b, c) ==> Less(a, c)
  {
    if a != "" {
      var rest := a[1..];
      LessIsStrictTotalOrder(rest, if b == "" then "" else b[1..], if c == "" then "" else c[1..]);
      if b != "" && a[0] == b[0] && rest == b[1..] {
        assert a == [a[0]] + rest && b == [b[0]] + b[1..];
      }
    }
  }

  /** The eligible rows at one moment: ready torrent items, by their primary key. */
  ghost predicate Table(rows: seq<string>) {
    forall i, j :: 0 <= i < j < |rows| ==> Less(rows[i], rows[j])
  }

  /** WHERE id > after ORDER BY id LIMIT limit */
  function Page(rows: seq<string>, after: string, limit: nat): seq<string> {
    if rows == [] || limit == 0 then []
    else if Less(after, rows[0]) then [rows[0]] + Page(rows[1..], after, limit - 1)
    else Page(rows[1..], after, limit)
  }

  /** The least `limit` rows above the cursor: nothing above it is passed over. */
  lemma {:induction false} PageIsTheNextRows(rows: seq<string>, after: string, limit: nat, x: string)
    requires Table(rows)
    ensures var page := Page(rows, after, limit);
            && |page| <= limit
            && (x in page ==> x in rows && Less(after, x))
            && (x in rows && Less(after, x) && x !in page ==>
              |page| == limit && (page == [] || Less(page[|page| - 1], x)))
  {
    if rows != [] && limit > 0 {
      var rest := rows[1..];
      assert rows == [rows[0]] + rest;
      if Less(after, rows[0]) {
        PageIsTheNextRows(rest, after, limit - 1, x);
        var page := Page(rest, after, limit - 1);
        if x in rest && page == [] {
          var i :| 0 <= i < |rest| && rest[i] == x;
          assert rows[i + 1] == x && Less(rows[0], rows[i + 1]);
          LessIsStrictTotalOrder(after, rows[0], x);
        } else if x in rest {
          var i :| 0 <= i < |rest| && rest[i] == x;
          assert rows[i + 1] == x && Less(rows[0], rows[i + 1]);
          LessIsStrictTotalOrder(after, rows[0], x);
        }
      } else {
        PageIsTheNextRows(rest, after, limit, x);
      }
    }
  }

  // ---------------------------------------------------------------- the rotation

  /** One answered query. */
  datatype Query = Query(after: string, rows: seq<string>)

  function Answer(q: Query): seq<string> {
    Page(q.rows, q.after, PER_TICK)
  }

  predicate Wraps(q: Query) {
    |Answer(q)| < PER_TICK
  }

  /** Where the next query starts. */
  function CursorAfter(q: Query): string {
    if Wraps(q) || Answer(q) == [] then "" else Answer(q)[|Answer(q)| - 1]
  }

  /** Each query starts where the one before it left the cursor; the first from the beginning. */
  ghost predicate Rotation(log: seq<Query>) {
    && (forall k :: 0 <= k < |log| ==> Table(log[k].rows))
    && (forall k :: 0 <= k < |log| ==> log[k].after == if k == 0 then "" else CursorAfter(log[k - 1]))
  }

  /** A lap: from the beginning, or a wrap, up to the next wrap. */
  ghost predicate Lap(log: seq<Query>, i: nat, j: nat) {
    && i <= j < |log| && (i == 0 || Wraps(log[i - 1])) && Wraps(log[j])
    && forall k :: i <= k < j ==> !Wraps(log[k])
  }

  /** An item that could be sampled by every query of the lap. */
  ghost predicate StaysEligible(log: seq<Query>, i: nat, j: nat, x: string)
    requires j < |log|
  {
    x != "" && forall k :: i <= k <= j ==> x in log[k].rows
  }

  /** What the cursor has passed was sampled. */
  lemma {:induction false} PassedIsSampled(log: seq<Query>, i: nat, j: nat, x: string)
    requires Rotation(log) && i <= j < |log| && (i == 0 || Wraps(log[i - 1]))
    requires forall k :: i <= k < j ==> !Wraps(log[k])
    requires StaysEligible(log, i, j, x)
    ensures (exists k :: i <= k <= j && x in Answer(log[k])) || (!Wraps(log[j]) && Less(CursorAfter(log[j]), x))
    decreases j
  {
    assert log[j].after == if j == 0 then "" else CursorAfter(log[j - 1]);
    if i < j {
      PassedIsSampled(log, i, j - 1, x);
    }
    if !(exists k :: i <= k <= j && x in Answer(log[k])) {
      PageIsTheNextRows(log[j].rows, log[j].after, PER_TICK, x);
    }
  }

  /**
   Whatever is inserted, removed or fails between the queries, an item that stays eligible from one
   wrap of the cursor to the next is sampled in between.
   */
  lemma RotationSkipsNothing(log: seq<Query>, i: nat, j: nat, x: string)
    requires Rotation(log) && Lap(log, i, j) && StaysEligible(log, i, j, x)
    ensures exists k :: i <= k <= j && x in Answer(log[k])
  {
    PassedIsSampled(log, i, j, x);
  }

  // ---------------------------------------------------------------- one cycle

  /** The queries a cycle had answered, and the items it sampled. */
  datatype Cycle = Cycle(queries: seq<Query>, sampled: seq<string>)

  /** `first` and `second` are the rows each query finds; nothing for a query that fails. */
  function CycleFrom(cursor: string, first: Option<seq<string>>, second: Option<seq<string>>): Cycle {
    if first.None? then Cycle([], [])
    else
      var q := Query(cursor, first.value);
      if Answer(q) != [] || cursor == "" then Cycle([q], Answer(q))
      else if second.None? then Cycle([q], [])
      else
        var again := Query("", second.value);
        Cycle([q, again], Answer(again))
  }

  /** decayAuditState, with the queries answered so far. */
  class AuditState {
    var cursor: string
    ghost var log: seq<Query>

    ghost predicate Valid()
      reads this
    {
      Rotation(log) && cursor == if log == [] then "" else CursorAfter(log[|log| - 1])
    }

    constructor ()
      ensures Valid() && log == [] && cursor == ""
    {
      cursor, log := "", [];
    }

    /** One query, which may not leave the cursor where it should be yet. */
    method Ask(rows: seq<string>) returns (items: seq<string>)
      requires Valid() && Table(rows)
      modifies this`log
      ensures Rotation(log) && log == old(log) + [Query(cursor, rows)]
      ensures items == Answer(Query(cursor, rows)) && |items| <= PER_TICK
    {
      PageIsTheNextRows(rows, cursor, PER_TICK, "");
      log := log + [Query(cursor, rows)];
      items := Page(rows, cursor, PER_TICK);
    }

    method RunDecayAuditCycle(first: Option<seq<string>>, second: Option<seq<string>>) returns (sampled: seq<string>)
      requires Valid()
      requires (first.Some? ==> Table(first.value)) && (second.Some? ==> Table(second.value))
      modifies this
      ensures Valid()
      ensures log == old(log) + CycleFrom(old(cursor), first, second).queries
      ensures sampled == CycleFrom(old(cursor), first, second).sampled
    {
      sampled := [];
      if first.None? {
        return;
      }
      var last := cursor;
      var items := Ask(first.value);
      if items == [] && cursor != "" {
        cursor := "";
        if second.None? {
          return;
        }
        items := Ask(second.value);
      }
      if items == [] {
        return;
      }
      sampled, last := SampleAll(items, last);
      cursor := if |items| < PER_TICK then "" else last;
    }

    /** The loop over the page. */
    method SampleAll(items: seq<string>, cursor: string) returns (sampled: seq<string>, last: string)
      requires items != []
      ensures sampled == items && last == items[|items| - 1]
    {
      sampled, last := [], cursor;
      for i := 0 to |items|
        invariant sampled == items[..i]
        invariant i > 0 ==> last == items[i - 1]
      {
        last := items[i];
        sampled := sampled + [items[i]];
      }
    }
  }

  // ---------------------------------------------------------------- a library that does not change

  /** What a cycle over fixed rows does to the cursor, and which items it samples. */
  function NextCursor(rows: seq<string>, cursor: string): string {
    var queries := CycleFrom(cursor, Some(rows), Some(rows)).queries;
    CursorAfter(queries[|queries| - 1])
  }

  function Sampled(rows: seq<string>, cursor: string): seq<string> {
    CycleFrom(cursor, Some(rows), Some(rows)).sampled
  }

  function Mover(rows: seq<string>): string -> string {
    cursor => NextCursor(rows, cursor)
  }

  function CursorAt(next: string -> string, t: nat): string {
    if t == 0 then "" else next(CursorAt(next, t - 1))
  }

  /** What cycle `t` samples when the rows were the same from the start. */
  function Sampler(rows: seq<string>): nat -> seq<string> {
    (t: nat) => Sampled(rows, CursorAt(Mover(rows), t))
  }

  /** What `count` consecutive cycles sample, in order. */
  function Samples(sampled: nat -> seq<string>, from: nat, count: nat): seq<string> {
    if count == 0 then [] else Samples(sampled, from, count - 1) + sampled(from + count - 1)
  }

  /** ceil(n / 5) */
  function CyclesPerLap(rows: seq<string>): nat {
    (|rows| + 4) / 5
  }

  function Least(a: nat, b: nat): nat {
    if a < b then a else b
  }

  lemma {:induction false} PageFrom(rows: seq<string>, after: string, limit: nat, i: nat)
    requires i <= |rows|
    requires forall k :: 0 <= k < i ==> !Less(after, rows[k])
    requires forall k :: i <= k < |rows| ==> Less(after, rows[k])
    ensures Page(rows, after, limit) == rows[i..Least(i + limit, |rows|)]
  {
    if rows != [] && limit > 0 {
      assert forall k :: 0 <= k < |rows| - 1 ==> rows[1..][k] == rows[k + 1];
      if i > 0 {
        var rest, n := rows[1..], Least(i + limit, |rows|);
        PageFrom(rest, after, limit, i - 1);
        assert rows[i..n] == rest[i - 1..n - 1];
      } else {
        var rest, n := rows[1..], Least(limit, |rows|);
        PageFrom(rest, after, limit - 1, 0);
        assert Page(rows, after, limit) == [rows[0]] + rest[..n - 1];
        assert rows[..n] == [rows[0]] + rest[..n - 1];
      }
    }
  }

  /** A library with items, none of them without an id. */
  ghost predicate Library(rows: seq<string>) {
    Table(rows) && rows != [] && rows[0] != ""
  }

  /** The page after the first `i` items, or from the beginning. */
  lemma PageAfterItem(rows: seq<string>, i: nat)
    requires Library(rows) && i <= |rows|
    ensures Page(rows, if i == 0 then "" else rows[i - 1], PER_TICK) == rows[i..Least(i + PER_TICK, |rows|)]
  {
    var after := if i == 0 then "" else rows[i - 1];
    forall k | 0 <= k < |rows|
      ensures Less(after, rows[k]) <==> k >= i
    {
      if i == 0 {
        assert k > 0 ==> Less(rows[0], rows[k]);
      } else {
        LessIsStrictTotalOrder(after, rows[k], after);
      }
    }
    PageFrom(rows, after, PER_TICK, i);
  }

  /** Before turn `turn` of a lap the cursor stands after the items of the earlier turns. */
  ghost predicate InStep(rows: seq<string>, cursor: string, turn: nat) {
    if turn == 0 then cursor == "" || (rows != [] && cursor == rows[|rows| - 1])
    else PER_TICK * turn < |rows| && cursor == rows[PER_TICK * turn - 1]
  }

  function TurnItems(rows: seq<string>, turn: nat): seq<string> {
    var n := |rows|;
    rows[Least(PER_TICK * turn, n)..Least(PER_TICK * (turn + 1), n)]
  }

  /** The turn `count` cycles later. */
  function TurnAfter(turn: nat, count: nat, laps: nat): nat {
    if turn + count < laps then turn + count else turn + count - laps
  }

  lemma CycleAfterItem(rows: seq<string>, cursor: string, i: nat)
    requires Library(rows) && i < |rows|
    requires if i == 0 then cursor == "" || cursor == rows[|rows| - 1] else cursor == rows[i - 1]
    ensures Sampled(rows, cursor) == rows[i..Least(i + PER_TICK, |rows|)]
    ensures NextCursor(rows, cursor) == if i + PER_TICK <= |rows| then rows[i + PER_TICK - 1] else ""
  {
    PageAfterItem(rows, i);
    PageAfterItem(rows, |rows|);
  }

  lemma OneCycle(rows: seq<string>, cursor: string, turn: nat)
    requires Library(rows) && turn < CyclesPerLap(rows) && InStep(rows, cursor, turn)
    ensures Sampled(rows, cursor) == TurnItems(rows, turn)
    ensures InStep(rows, NextCursor(rows, cursor), TurnAfter(turn, 1, CyclesPerLap(rows)))
  {
    CycleAfterItem(rows, cursor, PER_TICK * turn);
  }

  lemma ModPlus(a: nat, c: nat, d: nat)
    requires 0 < d && c <= d
    ensures (a + c) % d == TurnAfter(a % d, c, d)
  {
    var q, r := a / d, a % d;
    Arithmetic.DivMod(a, d);
    if r + c < d {
      Arithmetic.QuotientIs(a + c, d, q, r + c);
    } else {
      assert (q + 1) * d == q * d + d;
      Arithmetic.QuotientIs(a + c, d, q + 1, r + c - d);
    }
  }

  /** A state that moves on to the next turn with every step goes round with the time. */
  lemma {:induction false} GoesRound(next: string -> string, inStep: (string, nat) -> bool, laps: nat, t: nat)
    requires laps > 0 && inStep("", 0)
    requires forall cursor, turn: nat {:trigger next(cursor), inStep(cursor, turn)} ::
               turn < laps && inStep(cursor, turn) ==> inStep(next(cursor), TurnAfter(turn, 1, laps))
    ensures inStep(CursorAt(next, t), t % laps)
  {
    if t > 0 {
      GoesRound(next, inStep, laps, t - 1);
      var cursor, turn := CursorAt(next, t - 1), (t - 1) % laps;
      assert inStep(next(cursor), TurnAfter(turn, 1, laps));
      ModPlus(t - 1, 1, laps);
    }
  }

  lemma SampledInTurn(rows: seq<string>, t: nat)
    requires Library(rows)
    ensures Sampler(rows)(t) == TurnItems(rows, t % CyclesPerLap(rows))
  {
    var inStep := (cursor, turn: nat) => InStep(rows, cursor, turn);
    var laps := CyclesPerLap(rows);
    forall cursor, turn: nat | turn < laps && inStep(cursor, turn)
      ensures inStep(Mover(rows)(cursor), TurnAfter(turn, 1, laps))
    {
      OneCycle(rows, cursor, turn);
    }
    GoesRound(Mover(rows), inStep, laps, t);
    OneCycle(rows, CursorAt(Mover(rows), t), t % laps);
  }

  /** The items of `count` turns in a row, going round. */
  function Window(rows: seq<string>, turn: nat, count: nat): seq<string>
    requires turn < CyclesPerLap(rows) && count <= CyclesPerLap(rows)
  {
    if turn + count <= CyclesPerLap(rows) then rows[PER_TICK * turn..Least(PER_TICK * (turn + count), |rows|)]
    else rows[PER_TICK * turn..] + rows[..PER_TICK * (turn + count - CyclesPerLap(rows))]
  }

  lemma WindowGrows(rows: seq<string>, turn: nat, count: nat)
    requires turn < CyclesPerLap(rows) && 0 < count <= CyclesPerLap(rows)
    ensures Window(rows, turn, count) ==
            Window(rows, turn, count - 1) + TurnItems(rows, TurnAfter(turn, count - 1, CyclesPerLap(rows)))
  {
    var laps, n, last := CyclesPerLap(rows), |rows|, turn + count - 1;
    assert 5 * (laps - 1) < n <= 5 * laps;
    if last < laps {
      var first, from, to := 5 * turn, Least(5 * last, n), Least(5 * (last + 1), n);
      assert Window(rows, turn, count - 1) == rows[first..from] && TurnItems(rows, last) == rows[from..to];
      assert rows[first..from] + rows[from..to] == rows[first..to];
    } else {
      var k := last - laps;
      assert TurnItems(rows, k) == rows[5 * k..5 * (k + 1)];
      assert Window(rows, turn, count - 1) == rows[5 * turn..] + rows[..5 * k];
      SlicesMeet(rows[5 * turn..], rows, 5 * k, 5 * (k + 1));
    }
  }

  lemma SlicesMeet(front: seq<string>, rows: seq<string>, b: nat, c: nat)
    requires b <= c <= |rows|
    ensures front + rows[..b] + rows[b..c] == front + rows[..c]
  {
    assert rows[..b] + rows[b..c] == rows[..c];
  }

  lemma {:induction false} SamplesSoFar(rows: seq<string>, sampled: nat -> seq<string>, from: nat, turn: nat,
      count: nat)
    requires turn < CyclesPerLap(rows) && count <= CyclesPerLap(rows)
    requires forall i: nat :: i < count ==> sampled(from + i) == TurnItems(rows, TurnAfter(turn, i, CyclesPerLap(rows)))
    ensures Samples(sampled, from, count) == Window(rows, turn, count)
  {
    if count > 0 {
      SamplesSoFar(rows, sampled, from, turn, count - 1);
      WindowGrows(rows, turn, count);
    }
  }

  lemma WholeWindow(rows: seq<string>, turn: nat)
    requires turn < CyclesPerLap(rows)
    ensures PER_TICK * turn < |rows|
    ensures Window(rows, turn, CyclesPerLap(rows)) == rows[PER_TICK * turn..] + rows[..PER_TICK * turn]
    ensures multiset(Window(rows, turn, CyclesPerLap(rows))) == multiset(rows)
  {
    var start := PER_TICK * turn;
    assert rows == rows[..start] + rows[start..];
  }

  /**
   With a fixed library every ceil(n / 5) consecutive cycles, wherever they start, go round once:
   they sample each item exactly once.
   */
  lemma EveryLapSamplesEachItemOnce(rows: seq<string>, from: nat)
    requires Library(rows)
    ensures var start := 5 * (from % CyclesPerLap(rows));
            start < |rows| && Samples(Sampler(rows), from, CyclesPerLap(rows)) == rows[start..] + rows[..start]
    ensures multiset(Samples(Sampler(rows), from, CyclesPerLap(rows))) == multiset(rows)
  {
    var laps := CyclesPerLap(rows);
    forall i: nat | i < laps
      ensures Sampler(rows)(from + i) == TurnItems(rows, TurnAfter(from % laps, i, laps))
    {
      SampledInTurn(rows, from + i);
      ModPlus(from, i, laps);
    }
    SamplesSoFar(rows, Sampler(rows), from, from % laps, laps);
    WholeWindow(rows, from % laps);
  }
}
