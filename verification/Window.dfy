/** Timed travel of one skylight window: integer arithmetic and the positioner. */
module Window {
  import opened Bytes

  const TRAVEL_TIME_MS: u64 := 71_000

  /** A percentage: 0 is closed, 100 open. */
  type Position = p: nat | p <= 100

  datatype Actuation = Open | Close | Stop

  datatype Direction = Opening | Closing

  datatype TravelPlan =
    TravelPlan(actuation: Actuation, direction: Direction, travelMs: u64, target: Position, stopAfter: bool)

  datatype Motion = Motion(start: Position, direction: Direction, target: Position)

  datatype WindowState = IsClosed | IsOpening | IsOpen | IsClosing | IsStopped

  function SaturatingMul(a: u64, b: u64): u64 {
    if a * b < 0x1_0000_0000_0000_0000 then a * b else 0xFFFF_FFFF_FFFF_FFFF
  }

  function TravelDurationMs(from: Position, to: Position): u64 {
    (if from <= to then to - from else from - to) * TRAVEL_TIME_MS / 100
  }

  function InterruptedPosition(start: Position, direction: Direction, elapsedMs: u64): Position {
    var traveled := SaturatingMul(elapsedMs, 100) / TRAVEL_TIME_MS;
    match direction
    case Opening => if start + traveled > 100 then 100 else start + traveled
    case Closing => if start < traveled then 0 else start - traveled
  }

  function CalculateTravelPosition(start: Position, target: Position, elapsedMs: nat, totalMs: nat): Position {
    if totalMs == 0 || elapsedMs >= totalMs then target
    else if start <= target then
      ProgressBound(target - start, elapsedMs, totalMs);
      start + (target - start) * elapsedMs / totalMs
    else
      ProgressBound(start - target, elapsedMs, totalMs);
      start - (start - target) * elapsedMs / totalMs
  }

  lemma ProgressBound(delta: nat, elapsed: nat, total: nat)
    requires elapsed < total
    ensures 0 <= delta * elapsed / total <= delta
  {
    DivAtMost(delta * elapsed, delta, total);
  }

  lemma DivAtMost(a: nat, b: nat, d: nat)
    requires d > 0 && a <= b * d
    ensures a / d <= b
  {
    var q, r := a / d, a % d;
    assert q * d + r == a;
    SmallFactor(q - b, d, a - r - b * d);
  }

  // ----- the arithmetic against plain numbers -----

  function Clamp(x: int): Position {
    if x < 0 then 0 else if x > 100 then 100 else x
  }

  function Signed(direction: Direction, x: int): int {
    if direction == Opening then x else -x
  }

  function Toward(from: Position, to: Position): Direction {
    if from <= to then Opening else Closing
  }

  /** One percent takes exactly 710 ms. */
  lemma TravelDurationExact(from: Position, to: Position)
    ensures TravelDurationMs(from, to) == 710 * (if from <= to then to - from else from - to)
  {
  }

  /** Saturation never shows: the position is the clamped start plus or minus whole 710 ms steps. */
  lemma InterruptedIsClamp(start: Position, direction: Direction, elapsedMs: u64)
    ensures InterruptedPosition(start, direction, elapsedMs) == Clamp(start + Signed(direction, elapsedMs / 710))
  {
    assert elapsedMs * 100 / 71_000 == elapsedMs / 710;
  }

  /** Longer travel never ends up nearer to the start. */
  lemma InterruptedMonotone(start: Position, direction: Direction, e: u64, f: u64)
    requires e <= f
    ensures Signed(direction, InterruptedPosition(start, direction, e))
         <= Signed(direction, InterruptedPosition(start, direction, f))
  {
    InterruptedIsClamp(start, direction, e);
    InterruptedIsClamp(start, direction, f);
    assert e / 710 <= f / 710;
  }

  /** Stopping at exactly the planned time lands on the target. */
  lemma InterruptedInverts(from: Position, to: Position)
    ensures InterruptedPosition(from, Toward(from, to), TravelDurationMs(from, to)) == to
  {
    TravelDurationExact(from, to);
    InterruptedIsClamp(from, Toward(from, to), TravelDurationMs(from, to));
  }

  /** The two interpolations agree for as long as the plan lasts. */
  lemma InterpolationsAgree(from: Position, to: Position, elapsedMs: u64)
    requires elapsedMs <= TravelDurationMs(from, to)
    ensures CalculateTravelPosition(from, to, elapsedMs, TravelDurationMs(from, to))
         == InterruptedPosition(from, Toward(from, to), elapsedMs)
  {
    TravelDurationExact(from, to);
    InterruptedInverts(from, to);
    InterruptedIsClamp(from, Toward(from, to), elapsedMs);
    var delta := if from <= to then to - from else from - to;
    if 0 < delta && elapsedMs < delta * 710 {
      Cancel(delta, elapsedMs);
      assert elapsedMs / 710 < delta;
    }
  }

  /** For any total: the target from the total on, and before it the whole steps that fit the
      elapsed share of the distance, towards the target. */
  lemma CalculatedExactly(start: Position, target: Position, elapsedMs: nat, totalMs: nat)
    ensures var position := CalculateTravelPosition(start, target, elapsedMs, totalMs);
            var (delta, moved) := if start <= target then (target - start, position - start)
                                  else (start - target, start - position);
            if elapsedMs >= totalMs then position == target
            else 0 <= moved && moved * totalMs <= delta * elapsedMs < (moved + 1) * totalMs
  {
    if elapsedMs < totalMs {
      var delta := if start <= target then target - start else start - target;
      Floor(delta * elapsedMs, totalMs);
      ProgressBound(delta, elapsedMs, totalMs);
    }
  }

  lemma Floor(a: nat, d: nat)
    requires d > 0
    ensures a / d * d <= a < (a / d + 1) * d
  {
    var q, r := a / d, a % d;
    assert a == q * d + r;
    assert (q + 1) * d == q * d + d;
  }

  lemma Cancel(delta: nat, e: nat)
    requires delta > 0
    ensures delta * e / (710 * delta) == e / 710
  {
    var q, r := e / 710, e % 710;
    assert delta * e == q * (710 * delta) + delta * r by {
      assert e == 710 * q + r;
    }
    assert 0 <= delta * r < 710 * delta;
    QuotientIs(delta * e, 710 * delta, q, delta * r);
  }

  // ----- the positioner -----

  datatype Positioner = Positioner(position: Position, state: WindowState, motion: Option<Motion>) {
    predicate IsMoving() {
      state.IsOpening? || state.IsClosing?
    }

    /** Moving exactly when there is a motion, in its direction. */
    predicate Coherent() {
      match motion
      case None => !IsMoving()
      case Some(m) => m.start == position && state == if m.direction == Opening then IsOpening else IsClosing
    }
  }

  /** What a request for `target` plans: a boundary always the full travel without
      a stop, a partial target the exact distance with one, the current position nothing. */
  function PlanFor(position: Position, target: Position): Option<TravelPlan> {
    if target == 0 then Some(TravelPlan(Close, Closing, TRAVEL_TIME_MS, 0, false))
    else if target == 100 then Some(TravelPlan(Open, Opening, TRAVEL_TIME_MS, 100, false))
    else if target == position then None
    else if target > position then Some(TravelPlan(Open, Opening, TravelDurationMs(position, target), target, true))
    else Some(TravelPlan(Close, Closing, TravelDurationMs(position, target), target, true))
  }

  /** Nothing is planned exactly when a partial target is where the window is. A plan runs
      towards its target with the pulse and the direction that lead there: 710 ms for each
      percent and a stop, or for a boundary the whole travel and none. */
  lemma PlanExactly(position: Position, target: Position)
    ensures PlanFor(position, target).None? <==> target == position && target !in {0, 100}
    ensures PlanFor(position, target).Some? ==>
              var plan := PlanFor(position, target).value;
              var opens := target == 100 || (target > position && target != 0);
              && plan.target == target && plan.stopAfter == (target !in {0, 100})
              && plan.actuation == (if opens then Open else Close)
              && plan.direction == (if opens then Opening else Closing)
              && plan.travelMs == if target in {0, 100} then 71_000
                                  else 710 * if opens then target - position else position - target
  {
    TravelDurationExact(position, target);
  }

  function Started(p: Positioner, plan: TravelPlan): Positioner {
    Positioner(p.position, if plan.direction == Opening then IsOpening else IsClosing,
               Some(Motion(p.position, plan.direction, plan.target)))
  }

  function Finished(p: Positioner): Positioner {
    match p.motion
    case None => p
    case Some(m) =>
      var state := if m.target == 0 then IsClosed else if m.target == 100 then IsOpen else IsStopped;
      Positioner(m.target, state, None)
  }

  function Stopped(p: Positioner, elapsedMs: u64): Positioner {
    match p.motion
    case None => p
    case Some(m) => Positioner(InterruptedPosition(m.start, m.direction, elapsedMs), IsStopped, None)
  }

  class WindowPositioner {
    var position: Position
    var state: WindowState
    var motion: Option<Motion>

    function Value(): Positioner
      reads this
    {
      Positioner(position, state, motion)
    }

    constructor ()
      ensures Value() == Positioner(0, IsClosed, None) && Value().Coherent()
    {
      position, state, motion := 0, IsClosed, None;
    }

    method StartMotion(direction: Direction, target: Position)
      modifies this
      ensures position == old(position) && motion == Some(Motion(position, direction, target))
      ensures Value().Coherent()
    {
      motion := Some(Motion(position, direction, target));
      state := match direction case Opening => IsOpening case Closing => IsClosing;
    }

    method Request(target: Position) returns (plan: Option<TravelPlan>)
      modifies this
      ensures plan == PlanFor(old(position), target)
      ensures Value() == if plan.None? then old(Value()) else Started(old(Value()), plan.value)
      ensures plan.Some? ==> Value().Coherent() && plan.value.target == target
    {
      if target == 0 {
        StartMotion(Closing, 0);
        return Some(TravelPlan(Close, Closing, TRAVEL_TIME_MS, 0, false));
      }
      if target == 100 {
        StartMotion(Opening, 100);
        return Some(TravelPlan(Open, Opening, TRAVEL_TIME_MS, 100, false));
      }
      if target == position {
        return None;
      }
      var direction, actuation := Closing, Close;
      if target > position {
        direction, actuation := Opening, Open;
      }
      var travelMs := TravelDurationMs(position, target);
      StartMotion(direction, target);
      plan := Some(TravelPlan(actuation, direction, travelMs, target, true));
    }

    method Finish()
      modifies this
      ensures Value() == Finished(old(Value()))
      ensures motion.None? && (old(Value()).Coherent() ==> Value().Coherent())
    {
      if motion.Some? {
        var target := motion.value.target;
        motion, position := None, target;
        state := if target == 0 then IsClosed else if target == 100 then IsOpen else IsStopped;
      }
    }

    method Stop(elapsedMs: u64) returns (p: Position)
      modifies this
      ensures Value() == Stopped(old(Value()), elapsedMs) && p == position
      ensures motion.None? && (old(Value()).Coherent() ==> Value().Coherent())
    {
      if motion.Some? {
        var m := motion.value;
        motion := None;
        position := InterruptedPosition(m.start, m.direction, elapsedMs);
        state := IsStopped;
      }
      p := position;
    }
  }
}
