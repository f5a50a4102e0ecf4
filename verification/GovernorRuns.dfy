/**
 The governor object over whole runs: whatever calls are made on it, the state it holds for one
 operation class of fixed capacity is that of a run of the machine in `LeaseRuns`.
 */
module GovernorRuns {
  import opened AccountGovernor
  import opened LeaseFairness
  import opened LeaseRuns
  import opened LeaseSpec

  /** What callers can do next; a call is named as in `LeaseRuns`. */
  datatype Move =
    | Call(priority: int, session: string)
    | Go(step: Step)
    | Elsewhere(other: string, action: Action)

  /** What can happen to another class, whatever state that one is in. */
  datatype Action =
    | Configure(capacity: int)
    | Enter(priority: int, session: string)
    | Cancel(w: Waiter, reason: Reason)
    | Return(w: Waiter)
    | GiveBack

  /** The object agrees with the machine, and its arrival counter is past every name in use. */
  ghost predicate Coupled(g: Governor, op: string, s: System)
    reads g
  {
    && op in g.caps && g.caps[op] == s.capacity
    && g.View(op) == s.op && s.last <= g.lastSeq
    && forall id :: id in s.calls ==> id <= g.lastSeq
  }

  /** A name for a call that was granted at once; such a call draws no arrival number. */
  predicate Unnumbered(s: System, id: int) {
    id < 0 && id !in s.calls
  }

  lemma RunExtends(s: System, steps: seq<Step>, step: Step)
    requires ValidRun(s, steps) && Enabled(After(s, steps), step)
    ensures ValidRun(s, steps + [step]) && After(s, steps + [step]) == Next(After(s, steps), step)
    decreases |steps|
  {
    if steps == [] {
      assert [] + [step] == [step];
      assert [step][1..] == [];
    } else {
      assert (steps + [step])[0] == steps[0] && (steps + [step])[1..] == steps[1..] + [step];
      RunExtends(Next(s, steps[0]), steps[1..], step);
    }
  }

  /** One Acquire, up to its unlock. */
  method Admit(g: Governor, op: string, priority: int, session: string, s: System, spare: int) returns (step: Step)
    requires Coupled(g, op, s) && s.capacity > 0 && Unnumbered(s, spare)
    modifies g
    ensures step.Acquire? && step.priority == priority && step.session == session
    ensures Enabled(s, step) && Coupled(g, op, Next(s, step))
    ensures step.id == spare || step.id > 0
  {
    var granted, w := g.AcquireLocked(op, priority, session);
    step := Acquire(if granted then spare else w.arrival, priority, session);
    assert s.op.inUse < s.capacity <==> granted;
  }

  /** Any other step of a caller; only these reach the governor. */
  method Carry(g: Governor, op: string, step: Step, s: System)
    requires Coupled(g, op, s) && Enabled(s, step) && !step.Acquire?
    modifies g
    ensures Coupled(g, op, Next(s, step))
  {
    match step
    case CancelWaiter(id) =>
      var removed := g.CancelLocked(op, WaiterOf(s, id), s.calls[id].phase.reason);
    case ReturnUnit(id) =>
      g.ReturnUnit(op, WaiterOf(s, id));
    case Release(id) =>
      if s.calls[id].phase != Done {
        g.Release(op);
      }
    case _ =>
  }

  /** Nothing done to another class touches this one. */
  method ActElsewhere(g: Governor, op: string, other: string, action: Action, ghost s: System)
    requires Coupled(g, op, s) && other != op
    modifies g
    ensures Coupled(g, op, s) && g.caps[op] == old(g.caps[op])
  {
    match action
    case Configure(capacity) =>
      g.SetCapacity(other, capacity);
      assert g.Capacity(op) == old(g.Capacity(op));
    case Enter(priority, session) =>
      var granted, w := g.AcquireLocked(other, priority, session);
    case Cancel(w, reason) =>
      var removed := g.CancelLocked(other, w, reason);
    case Return(w) => g.ReturnUnit(other, w);
    case GiveBack => g.Release(other);
  }

  /** After these steps a caller is in a position to make this one. */
  ghost predicate Possible(start: System, steps: seq<Step>, step: Step) {
    ValidRun(start, steps) && !step.Acquire? && Enabled(After(start, steps), step)
  }

  /**
   The steps are the moves on this class, in order: each Call one Acquire with its priority and
   session, and each other step itself, save where no caller was in a position to make it.
   */
  ghost predicate Follows(start: System, moves: seq<Move>, steps: seq<Step>)
    decreases |moves|
  {
    if moves == [] then steps == []
    else
      var earlier := moves[..|moves| - 1];
      match moves[|moves| - 1]
      case Call(priority, session) =>
        && steps != [] && Follows(start, earlier, steps[..|steps| - 1])
        && steps[|steps| - 1].Acquire?
        && steps[|steps| - 1].priority == priority && steps[|steps| - 1].session == session
      case Go(step) =>
        || (Follows(start, earlier, steps) && !Possible(start, steps, step))
        || (steps != [] && Follows(start, earlier, steps[..|steps| - 1])
            && Possible(start, steps[..|steps| - 1], step) && steps[|steps| - 1] == step)
      case Elsewhere(_, _) => Follows(start, earlier, steps)
  }

  /** What one more move adds to the steps. */
  ghost predicate Made(start: System, steps: seq<Step>, move: Move, longer: seq<Step>) {
    match move
    case Call(priority, session) =>
      && |longer| == |steps| + 1 && longer[..|steps|] == steps && longer[|steps|].Acquire?
      && longer[|steps|].priority == priority && longer[|steps|].session == session
    case Go(step) => longer == if Possible(start, steps, step) then steps + [step] else steps
    case Elsewhere(_, _) => longer == steps
  }

  lemma MadeFollows(start: System, moves: seq<Move>, steps: seq<Step>, move: Move, longer: seq<Step>)
    requires Follows(start, moves, steps) && Made(start, steps, move, longer)
    ensures Follows(start, moves + [move], longer)
  {
    assert (moves + [move])[..|moves|] == moves;
    assert longer != [] && longer != steps ==> longer[..|longer| - 1] == steps;
  }

  method Advance(start: System, s: System, ghost steps: seq<Step>, step: Step)
      returns (s': System, ghost longer: seq<Step>)
    requires ValidRun(start, steps) && s == After(start, steps) && Inv(s) && Enabled(s, step)
    ensures s' == Next(s, step) && Inv(s')
    ensures ValidRun(start, longer) && s' == After(start, longer) && longer == steps + [step]
    ensures s'.capacity == s.capacity
    ensures forall id :: id in s'.calls ==> id in s.calls || (step.Acquire? && id == step.id)
  {
    StepKeepsInv(s, step);
    RunExtends(start, steps, step);
    s', longer := Next(s, step), steps + [step];
  }

  /** One move, on the object and on the machine side by side. */
  method MakeMove(g: Governor, op: string, move: Move, start: System, s: System, ghost steps: seq<Step>, spare: int)
    returns (s': System, ghost longer: seq<Step>, spare': int)
    requires ValidRun(start, steps) && s == After(start, steps)
    requires Coupled(g, op, s) && Inv(s) && spare < 0 && forall id :: id in s.calls ==> spare < id
    modifies g
    ensures ValidRun(start, longer) && s' == After(start, longer) && Made(start, steps, move, longer)
    ensures Coupled(g, op, s') && Inv(s') && spare' < 0 && forall id :: id in s'.calls ==> spare' < id
    ensures s'.capacity == s.capacity
  {
    s', longer, spare' := s, steps, spare;
    match move
    case Call(priority, session) =>
      var step := Admit(g, op, priority, session, s, spare);
      s', longer := Advance(start, s, steps, step);
      spare' := spare - 1;
    case Go(step) =>
      if !step.Acquire? && Enabled(s, step) {
        Carry(g, op, step, s);
        s', longer := Advance(start, s, steps, step);
      }
    case Elsewhere(other, action) =>
      if other != op {
        ActElsewhere(g, op, other, action, s);
      }
  }

  /**
   A governor driven by any sequence of moves. Moves that no caller is in a position to make are
   passed over.
   */
  method Drive(g: Governor, op: string, moves: seq<Move>) returns (s: System, ghost steps: seq<Step>)
    requires op in g.caps && g.caps[op] > 0 && g.View(op) == OpState(0, [], map[], map[], {})
    modifies g
    ensures ValidRun(Initial(old(g.caps[op])), steps) && s == After(Initial(old(g.caps[op])), steps)
    ensures Follows(Initial(old(g.caps[op])), moves, steps)
    ensures Coupled(g, op, s) && Inv(s)
    ensures var v := g.View(op);
            && InArrivalOrder(v.waiting) && v.inUse <= g.caps[op]
            && (v.waiting != [] ==> v.inUse == g.caps[op])
  {
    var start := Initial(g.caps[op]);
    s, steps := start, [];
    var spare := -1;
    InitialInv(g.caps[op]);
    for i := 0 to |moves|
      invariant ValidRun(start, steps) && s == After(start, steps) && Follows(start, moves[..i], steps)
      invariant Coupled(g, op, s) && Inv(s) && s.capacity == start.capacity
      invariant spare < 0 && forall id :: id in s.calls ==> spare < id
    {
      ghost var before := steps;
      s, steps, spare := MakeMove(g, op, moves[i], start, s, steps, spare);
      MadeFollows(start, moves[..i], before, moves[i], steps);
      assert moves[..i + 1] == moves[..i] + [moves[i]];
    }
    assert moves[..|moves|] == moves;
  }
}
