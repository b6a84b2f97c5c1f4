/** One window's controller loop: commands, interruptible travel, pulses and snapshots. */
module Controller {
  import opened Bytes
  import opened Window
  import opened Drift

  datatype WindowCommand = SetTarget(target: Position) | StopNow

  /** What the task is woken by: the travel timer, or a command with the time
      the travel had run. */
  datatype Input = TimerFires | Command(command: WindowCommand, elapsedMs: u64)

  datatype Snapshot = Snapshot(percentage: Position, moving: bool)

  // ----- the flat reading of an input stream -----

  /** The travels an input stream makes of a window at `p`, idle or moving to `moving`. */
  function Interpret(p: Positioner, inputs: seq<Input>, moving: Option<Position>): seq<Move>
    decreases |inputs|
  {
    if inputs == [] then []
    else
      var i, rest := inputs[0], inputs[1..];
      match moving
      case None =>
        if i.Command? && i.command.SetTarget? && PlanFor(p.position, i.command.target).Some?
        then Interpret(p, rest, Some(i.command.target))
        else Interpret(p, rest, None)
      case Some(t) =>
        var m := if i.TimerFires? then Drift.Move.Complete(t) else Drift.Move.Interrupted(t, i.elapsedMs);
        var p' := Travelled(p, m);
        if i.Command? && i.command.SetTarget? && PlanFor(p'.position, i.command.target).Some?
        then [m] + Interpret(p', rest, Some(i.command.target))
        else [m] + Interpret(p', rest, None)
  }

  function AfterMoves(p: Positioner, ms: seq<Move>): Positioner
    decreases |ms|
  {
    if ms == [] then p else AfterMoves(Travelled(p, ms[0]), ms[1..])
  }

  /** The pulses of one travel: Open or Close, then Stop unless a boundary travel ran to its timer. */
  function TravelPulses(position: Position, m: Move): seq<Actuation> {
    var plan := PlanFor(position, m.target);
    if plan.None? then []
    else [plan.value.actuation] + if m.Complete? && IsBoundary(m.target) then [] else [Actuation.Stop]
  }

  function Pulses(p: Positioner, ms: seq<Move>): seq<Actuation>
    decreases |ms|
  {
    if ms == [] then [] else TravelPulses(p.position, ms[0]) + Pulses(Travelled(p, ms[0]), ms[1..])
  }

  /** (Open or Close, then optional Stop), repeated. */
  predicate IsPulseTrace(t: seq<Actuation>) {
    || t == []
    || (t[0] != Actuation.Stop && IsPulseTrace(if |t| > 1 && t[1] == Actuation.Stop then t[2..] else t[1..]))
  }

  lemma {:induction false} PulsesFormTrace(p: Positioner, ms: seq<Move>)
    ensures IsPulseTrace(Pulses(p, ms))
    decreases |ms|
  {
    if ms == [] {
    } else {
      var head, tail := TravelPulses(p.position, ms[0]), Pulses(Travelled(p, ms[0]), ms[1..]);
      PulsesFormTrace(Travelled(p, ms[0]), ms[1..]);
      TraceJoins(head, tail);
    }
  }

  lemma TraceJoins(head: seq<Actuation>, tail: seq<Actuation>)
    requires IsPulseTrace(tail)
    requires head == [] || (head[0] != Actuation.Stop && (|head| == 1 || (|head| == 2 && head[1] == Actuation.Stop)))
    ensures IsPulseTrace(head + tail)
  {
    if head == [] {
      assert head + tail == tail;
    } else {
      assert (head + tail)[|head|..] == tail;
      assert tail != [] ==> (head + tail)[|head|] == tail[0];
    }
  }

  /** A new travel may start at any time. */
  lemma {:induction false} TraceAppends(t: seq<Actuation>, a: Actuation)
    requires IsPulseTrace(t) && a != Actuation.Stop
    ensures IsPulseTrace(t + [a])
    decreases |t|
  {
    if t == [] {
      assert IsPulseTrace([]);
      assert [a][1..] == [];
      assert t + [a] == [a];
    } else {
      var n := if |t| > 1 && t[1] == Actuation.Stop then 2 else 1;
      TraceAppends(t[n..], a);
      assert (t + [a])[n..] == t[n..] + [a];
    }
  }

  /** A trace observed at any time is one. */
  lemma {:induction false} TracePrefix(t: seq<Actuation>, n: nat)
    requires IsPulseTrace(t) && n <= |t|
    ensures IsPulseTrace(t[..n])
    decreases |t|
  {
    if n == 0 {
    } else if n == 1 {
      assert IsPulseTrace(t[..1][1..]);
    } else {
      var m := if t[1] == Actuation.Stop then 2 else 1;
      TracePrefix(t[m..], n - m);
      assert t[..n][m..] == t[m..][..n - m];
    }
  }

  lemma {:induction false} MovesConcat(p: Positioner, ms: seq<Move>, ns: seq<Move>)
    ensures AfterMoves(p, ms + ns) == AfterMoves(AfterMoves(p, ms), ns)
    ensures Pulses(p, ms + ns) == Pulses(p, ms) + Pulses(AfterMoves(p, ms), ns)
    decreases |ms|
  {
    if ms == [] {
      assert ms + ns == ns;
    } else {
      assert (ms + ns)[1..] == ms[1..] + ns;
      MovesConcat(Travelled(p, ms[0]), ms[1..], ns);
    }
  }

  /** The tracked half of the drift model is the controller's positioner. */
  lemma {:induction false} AfterMovesIsRun(w: World, ms: seq<Move>)
    ensures AfterMoves(w.tracked, ms) == Run(w, ms).tracked
    decreases |ms|
  {
    if ms == [] {
    } else {
      AfterMovesIsRun(WorldAfter(w, ms[0]), ms[1..]);
    }
  }

  /** The travels that follow a request for `target` at `p`. */
  function Requested(p: Positioner, inputs: seq<Input>, target: Position): seq<Move> {
    Interpret(p, inputs, if PlanFor(p.position, target).Some? then Some(target) else None)
  }

  lemma NotRequested(p: Positioner, inputs: seq<Input>, target: Position)
    requires PlanFor(p.position, target).None?
    ensures Requested(p, inputs, target) == Interpret(p, inputs, None)
  {
  }

  /** A travel ends with the first input; a new target starts the next one. */
  lemma RequestedNext(h: seq<Move>, p: Positioner, inputs: seq<Input>, target: Position)
    requires PlanFor(p.position, target).Some?
    ensures inputs == [] ==> h + Requested(p, inputs, target) == h
    ensures inputs != [] && inputs[0].TimerFires? ==>
              var m := Drift.Move.Complete(target);
              h + Requested(p, inputs, target) == (h + [m]) + Interpret(Travelled(p, m), inputs[1..], None)
    ensures inputs != [] && inputs[0].Command? ==>
              var m := Drift.Move.Interrupted(target, inputs[0].elapsedMs);
              h + Requested(p, inputs, target) == (h + [m]) +
                if inputs[0].command.StopNow? then Interpret(Travelled(p, m), inputs[1..], None)
                else Requested(Travelled(p, m), inputs[1..], inputs[0].command.target)
  {
    hide Travelled, PlanFor;
  }

  /** At rest only a new target matters. */
  lemma IgnoredAtRest(p: Positioner, inputs: seq<Input>)
    requires inputs != []
    ensures !(inputs[0].Command? && inputs[0].command.SetTarget?) ==>
              Interpret(p, inputs, None) == Interpret(p, inputs[1..], None)
  {
    hide PlanFor;
  }

  /** A request from rest is the same as the command that makes it. */
  lemma CommandRequests(p: Positioner, inputs: seq<Input>)
    requires inputs != [] && inputs[0].Command? && inputs[0].command.SetTarget?
    ensures Interpret(p, inputs, None) == Requested(p, inputs[1..], inputs[0].command.target)
  {
    hide PlanFor;
  }

  /** The pulses of one travel: none at a partial target already reached; otherwise Open or
      Close as the target lies, and Stop unless the travel ran on to an end. */
  lemma TravelPulsesExactly(position: Position, m: Move)
    ensures TravelPulses(position, m)
         == if m.target == position && m.target !in {0, 100} then []
            else [if m.target == 100 || (m.target > position && m.target != 0) then Open else Close]
                 + if m.Complete? && m.target in {0, 100} then [] else [Actuation.Stop]
  {
    PlanExactly(position, m.target);
  }

  lemma AfterFirst(p: Positioner, m: Move, ms: seq<Move>)
    ensures AfterMoves(p, [m] + ms) == AfterMoves(Travelled(p, m), ms)
  {
    assert ([m] + ms)[1..] == ms;
  }

  /** Whatever happened before, at rest or on the way to `moving`: a request whose travel is
      left to run ends at its target. */
  lemma {:induction false} TargetReached(p: Positioner, inputs: seq<Input>, moving: Option<Position>,
                                         target: Position, elapsedMs: u64)
    requires moving.Some? ==> PlanFor(p.position, moving.value).Some?
    ensures var all := inputs + [Command(SetTarget(target), elapsedMs), TimerFires];
            AfterMoves(p, Interpret(p, all, moving)).position == target
    decreases |inputs|
  {
    hide Travelled, PlanFor, AfterMoves;
    var all := inputs + [Command(SetTarget(target), elapsedMs), TimerFires];
    var i := all[0];
    if inputs == [] {
      assert all[1..] == [TimerFires];
      RequestRuns(if moving.None? then p else Travelled(p, Drift.Move.Interrupted(moving.value, elapsedMs)), target);
    } else {
      assert all[1..] == inputs[1..] + [Command(SetTarget(target), elapsedMs), TimerFires];
    }
    if moving.Some? {
      var m := if i.TimerFires? then Drift.Move.Complete(moving.value)
               else Drift.Move.Interrupted(moving.value, i.elapsedMs);
      AfterFirst(p, m, Interpret(Travelled(p, m), all[1..], NextTarget(Travelled(p, m), i)));
      if inputs != [] {
        TargetReached(Travelled(p, m), inputs[1..], NextTarget(Travelled(p, m), i), target, elapsedMs);
      }
    } else if inputs != [] {
      TargetReached(p, inputs[1..], NextTarget(p, i), target, elapsedMs);
    }
  }

  /** Where the window heads after an input that finds it at rest at `p`. */
  function NextTarget(p: Positioner, i: Input): Option<Position> {
    if i.Command? && i.command.SetTarget? && PlanFor(p.position, i.command.target).Some? then Some(i.command.target)
    else None
  }

  lemma RequestRuns(p: Positioner, target: Position)
    ensures var moves := Interpret(p, [TimerFires], if PlanFor(p.position, target).Some? then Some(target) else None);
            AfterMoves(p, moves).position == target
  {
    PlanExactly(p.position, target);
    TravelArrives(World(p, 0), target);
    var m := Drift.Move.Complete(target);
    AfterFirst(p, m, []);
    assert [m] + [] == [m];
  }

  /** The inputs end with a request for `target` and its timer. */
  predicate EndsWith(inputs: seq<Input>, target: Position) {
    var n := |inputs|;
    && n >= 2 && inputs[n - 1].TimerFires?
    && inputs[n - 2].Command? && inputs[n - 2].command == SetTarget(target)
  }

  lemma HistoryReaches(origin: Positioner, h: seq<Move>, inputs: seq<Input>)
    ensures forall target: Position | EndsWith(inputs, target) ::
              AfterMoves(origin, h + Interpret(AfterMoves(origin, h), inputs, None)).position == target
  {
    hide Interpret, AfterMoves;
    forall target: Position | EndsWith(inputs, target)
      ensures AfterMoves(origin, h + Interpret(AfterMoves(origin, h), inputs, None)).position == target
    {
      var n, p := |inputs|, AfterMoves(origin, h);
      assert inputs == inputs[..n - 2] + [Command(SetTarget(target), inputs[n - 2].elapsedMs), TimerFires];
      TargetReached(p, inputs[..n - 2], None, target, inputs[n - 2].elapsedMs);
      MovesConcat(origin, h, Interpret(p, inputs, None));
    }
  }

  // ----- the controller -----

  class WindowController {
    const positioner: WindowPositioner
    var inbox: seq<Input>
    var pulses: seq<Actuation>
    var snapshots: seq<Snapshot>
    /** The travels that ended, and the position everything started from. */
    ghost var history: seq<Move>
    ghost const origin: Positioner

    /** Between travels: idle, and all that happened is explained by the history. */
    ghost predicate Idle()
      reads this, positioner
    {
      && positioner.Value().Coherent() && positioner.motion.None?
      && positioner.Value() == AfterMoves(origin, history)
      && pulses == Pulses(origin, history)
      && Published(false)
    }

    /** The last snapshot shows the window as it is. */
    ghost predicate Published(moving: bool)
      reads this, positioner
    {
      snapshots != [] ==> snapshots[|snapshots| - 1] == Snapshot(positioner.position, moving)
    }

    /** A travel has begun and awaits its timer or a command. */
    ghost predicate Travelling()
      reads this, positioner
    {
      && positioner.Value().Coherent() && positioner.motion.Some?
      && positioner.position == AfterMoves(origin, history).position
      && pulses == Pulses(origin, history) + [if positioner.motion.value.direction == Opening then Open else Close]
      && Published(true)
    }

    constructor (positioner: WindowPositioner, inputs: seq<Input>)
      requires positioner.motion.None? && positioner.Value().Coherent()
      ensures Idle() && inbox == inputs && this.positioner == positioner && history == [] && snapshots == []
    {
      this.positioner, inbox := positioner, inputs;
      pulses, snapshots, history, origin := [], [], [], positioner.Value();
    }

    method RecordState()
      modifies this`snapshots
      ensures snapshots == old(snapshots) + [Snapshot(positioner.position, positioner.Value().IsMoving())]
    {
      snapshots := snapshots + [Snapshot(positioner.position, positioner.Value().IsMoving())];
    }

    method Actuate(actuation: Actuation)
      modifies this`pulses
      ensures pulses == old(pulses) + [actuation]
    {
      pulses := pulses + [actuation];
    }

    /** A travel to `target` has begun from `p`. */
    ghost predicate Started(p: Positioner, plan: TravelPlan, target: Position)
      reads this, positioner
    {
      && p == AfterMoves(origin, history) && PlanFor(p.position, target) == Some(plan)
      && positioner.Value() == Window.Started(p, plan)
      && pulses == Pulses(origin, history) + [plan.actuation]
    }

    /** The timer branch: a partial travel is stopped, a boundary is not. */
    method Arrive(plan: TravelPlan, ghost p: Positioner, ghost target: Position)
      requires Started(p, plan, target)
      modifies this`pulses, this`snapshots, this`history, positioner
      ensures Idle() && history == old(history) + [Drift.Move.Complete(target)]
      ensures positioner.Value() == Travelled(p, Drift.Move.Complete(target))
    {
      hide AfterMoves, Pulses, TravelDurationMs, InterruptedPosition;
      if plan.stopAfter {
        Actuate(Actuation.Stop);
      }
      positioner.Finish();
      RecordState();
      Extend(p, Drift.Move.Complete(target));
    }

    /** The command branches: the travel is stopped where it is. */
    method Interrupt(elapsedMs: u64, ghost p: Positioner, ghost plan: TravelPlan, ghost target: Position)
      requires Started(p, plan, target)
      modifies this`pulses, this`snapshots, this`history, positioner
      ensures Idle() && history == old(history) + [Drift.Move.Interrupted(target, elapsedMs)]
      ensures positioner.Value() == Travelled(p, Drift.Move.Interrupted(target, elapsedMs))
    {
      hide AfterMoves, Pulses, TravelDurationMs, InterruptedPosition;
      Actuate(Actuation.Stop);
      var _ := positioner.Stop(elapsedMs);
      RecordState();
      Extend(p, Drift.Move.Interrupted(target, elapsedMs));
    }

    /** Drives towards `target0`, through any retargeting, until the window is idle
        again, or until the inputs run out during a travel (`done` is false). */
    method DriveTo(target0: Position) returns (done: bool)
      requires Idle()
      modifies this`inbox, this`pulses, this`snapshots, this`history, positioner
      ensures done ==> Idle() && |inbox| <= |old(inbox)|
      ensures !done ==> inbox == [] && Travelling()
      ensures old(history) + Requested(old(positioner.Value()), old(inbox), target0)
           == history + if done then Interpret(positioner.Value(), inbox, None) else []
    {
      hide AfterMoves, Pulses, Interpret, Requested, Travelled, TravelDurationMs, InterruptedPosition;
      var target := target0;
      ghost var total := history + Requested(positioner.Value(), inbox, target0);
      while true
        invariant Idle() && |inbox| <= |old(inbox)|
        invariant total == history + Requested(positioner.Value(), inbox, target)
        decreases |inbox|
      {
        ghost var p := positioner.Value();
        var plan := positioner.Request(target);
        if plan.None? {
          NotRequested(p, inbox, target);
          return true;
        }
        RecordState();
        Actuate(plan.value.actuation);
        RequestedNext(history, p, inbox, target);
        if |inbox| == 0 {
          return false;
        }
        var input := inbox[0];
        inbox := inbox[1..];
        if input.TimerFires? {
          Arrive(plan.value, p, target);
          return true;
        }
        Interrupt(input.elapsedMs, p, plan.value, target);
        if input.command.StopNow? {
          return true;
        }
        target := input.command.target;
      }
    }

    /** Books the travel that just ended. */
    ghost method Extend(p: Positioner, m: Move)
      requires p == AfterMoves(origin, history) && PlanFor(p.position, m.target).Some?
      requires pulses == Pulses(origin, history) + TravelPulses(p.position, m)
      requires positioner.Value() == Travelled(p, m) && positioner.Value().Coherent() && positioner.motion.None?
      requires Published(false)
      modifies this`history
      ensures Idle() && history == old(history) + [m]
    {
      MovesConcat(origin, history, [m]);
      assert AfterMoves(p, [m]) == Travelled(p, m);
      assert Pulses(p, [m]) == TravelPulses(p.position, m) + [];
      history := history + [m];
    }

    /** Consumes the whole input stream. The nested loops make exactly the travels
        that the flat reading of the stream makes. */
    method RunAll() returns (done: bool)
      requires Idle()
      modifies this`inbox, this`pulses, this`snapshots, this`history, positioner
      ensures inbox == [] && history == old(history) + Interpret(old(positioner.Value()), old(inbox), None)
      ensures done ==> Idle()
      ensures !done ==> Travelling()
      // The last snapshot shows where the window is, and whether it moves.
      ensures snapshots != [] ==> snapshots[|snapshots| - 1] == Snapshot(positioner.position, !done)
      // A last request that is left to run is where the window ends up.
      ensures forall target: Position | EndsWith(old(inbox), target) :: positioner.position == target
    {
      hide Interpret, Requested, AfterMoves, Pulses, EndsWith;
      HistoryReaches(origin, history, inbox);
      ghost var total := history + Interpret(positioner.Value(), inbox, None);
      while inbox != []
        invariant Idle() && total == history + Interpret(positioner.Value(), inbox, None)
        decreases |inbox|
      {
        var input := inbox[0];
        IgnoredAtRest(positioner.Value(), inbox);
        if input.Command? && input.command.SetTarget? {
          CommandRequests(positioner.Value(), inbox);
        }
        inbox := inbox[1..];
        if input.Command? {
          match input.command {
            case SetTarget(target) =>
              done := DriveTo(target);
              if !done {
                return;
              }
            case StopNow =>
              var _ := positioner.Stop(0);
              RecordState();
          }
        }
      }
      NothingLeft(history, positioner.Value());
      done := true;
    }
  }

  lemma NothingLeft(h: seq<Move>, p: Positioner)
    ensures h + Interpret(p, [], None) == h
  {
  }
}
