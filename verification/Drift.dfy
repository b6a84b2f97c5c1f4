/** How far the tracked position can drift from an ideal window that moves one
    percent in 710 ms and stops at its ends. */
module Drift {
  import opened Bytes
  import opened Window

  /** One travel: to its planned end, or interrupted after a while. */
  datatype Move = Complete(target: Position) | Interrupted(target: Position, elapsedMs: u64)

  /** The positioner beside the ideal window, whose place is in milliseconds of
      travel from closed. */
  datatype World = World(tracked: Positioner, place: int)

  /** The ideal window moves as it was last pulsed, until its end stops it. */
  function MoveIdeal(place: int, pulse: Actuation, ms: nat): int {
    var to := match pulse
      case Open => place + ms
      case Close => place - ms
      case Stop => place;
    if to < 0 then 0 else if to > TRAVEL_TIME_MS then TRAVEL_TIME_MS else to
  }

  /** The positioner after one travel. */
  function Travelled(p: Positioner, m: Move): Positioner {
    var plan := PlanFor(p.position, m.target);
    if plan.None? then p
    else if m.Complete? then Finished(Started(p, plan.value))
    else Stopped(Started(p, plan.value), m.elapsedMs)
  }

  function WorldAfter(w: World, m: Move): World {
    var plan := PlanFor(w.tracked.position, m.target);
    if plan.None? then w
    else
      World(Travelled(w.tracked, m),
            MoveIdeal(w.place, plan.value.actuation, if m.Complete? then plan.value.travelMs else m.elapsedMs))
  }

  function Run(w: World, ms: seq<Move>): World
    decreases |ms|
  {
    if ms == [] then w else Run(WorldAfter(w, ms[0]), ms[1..])
  }

  function Error(w: World): nat {
    var d := 710 * w.tracked.position - w.place;
    if d < 0 then -d else d
  }

  predicate OnTrack(w: World) {
    0 <= w.place <= TRAVEL_TIME_MS
  }

  predicate IsBoundary(target: Position) {
    target == 0 || target == 100
  }

  /** The drift allowance: a completed boundary travel clears it, an interruption adds 709 ms. */
  function Allowance(allowed: nat, ms: seq<Move>): nat
    decreases |ms|
  {
    if ms == [] then allowed
    else
      var next := if ms[0].Complete? then if IsBoundary(ms[0].target) then 0 else allowed else allowed + 709;
      Allowance(next, ms[1..])
  }

  /** A travel that runs to its timer ends at its target, in the state that says which end
      that is; and so does an ideal window that was on track, or that travelled to an end. */
  lemma TravelArrives(w: World, target: Position)
    requires OnTrack(w)
    ensures var v := WorldAfter(w, Complete(target));
            && v.tracked.position == target
            && (Error(w) == 0 || IsBoundary(target) ==> v.place == 710 * target)
            && (v.tracked != w.tracked ==>
                  v.tracked.motion.None? && v.tracked.state == if target == 0 then IsClosed
                                                               else if target == 100 then IsOpen else IsStopped)
  {
    PlanExactly(w.tracked.position, target);
  }

  /** Closing or opening to the stop leaves no error at all. */
  lemma BoundaryRecalibrates(w: World, target: Position)
    requires OnTrack(w) && IsBoundary(target)
    ensures Error(WorldAfter(w, Complete(target))) == 0
  {
  }

  /** A partial travel moves both by the same distance, unless the ideal window hits its end. */
  lemma PartialKeepsError(w: World, target: Position)
    requires OnTrack(w) && !IsBoundary(target)
    ensures Error(WorldAfter(w, Complete(target))) <= Error(w)
  {
    TravelDurationExact(w.tracked.position, target);
  }

  /** An interruption rounds away less than one percent. */
  lemma InterruptionAddsLittle(w: World, target: Position, elapsedMs: u64)
    requires OnTrack(w)
    ensures Error(WorldAfter(w, Interrupted(target, elapsedMs))) <= Error(w) + 709
  {
    var plan := PlanFor(w.tracked.position, target);
    if plan.Some? {
      InterruptedIsClamp(w.tracked.position, plan.value.direction, elapsedMs);
      assert elapsedMs - 709 <= 710 * (elapsedMs / 710) <= elapsedMs;
    }
  }

  lemma {:induction false} DriftBound(w: World, ms: seq<Move>, allowed: nat)
    requires OnTrack(w) && Error(w) <= allowed
    ensures OnTrack(Run(w, ms)) && Error(Run(w, ms)) <= Allowance(allowed, ms)
    decreases |ms|
  {
    if ms == [] {
    } else {
      var m := ms[0];
      if m.Interrupted? {
        InterruptionAddsLittle(w, m.target, m.elapsedMs);
      } else if IsBoundary(m.target) {
        BoundaryRecalibrates(w, m.target);
      } else {
        PartialKeepsError(w, m.target);
      }
      var next := if m.Complete? then if IsBoundary(m.target) then 0 else allowed else allowed + 709;
      DriftBound(WorldAfter(w, m), ms[1..], next);
    }
  }

  function Interruptions(ms: seq<Move>): nat {
    if ms == [] then 0 else (if ms[0].Interrupted? then 1 else 0) + Interruptions(ms[1..])
  }

  lemma {:induction false} AllowanceCounts(allowed: nat, ms: seq<Move>)
    ensures Allowance(allowed, ms) <= allowed + 709 * Interruptions(ms)
    decreases |ms|
  {
    if ms == [] {
    } else {
      var m := ms[0];
      AllowanceCounts(if m.Complete? then if IsBoundary(m.target) then 0 else allowed else allowed + 709, ms[1..]);
    }
  }

  /** After any history and a completed boundary travel, the drift is at most
      709 ms for each interruption since. */
  lemma DriftSinceBoundary(w: World, before: seq<Move>, target: Position, since: seq<Move>)
    requires OnTrack(w) && IsBoundary(target)
    ensures Error(Run(WorldAfter(Run(w, before), Complete(target)), since)) <= 709 * Interruptions(since)
  {
    DriftBound(w, before, Error(w));
    var v := WorldAfter(Run(w, before), Complete(target));
    BoundaryRecalibrates(Run(w, before), target);
    DriftBound(v, since, 0);
    AllowanceCounts(0, since);
  }

  function Nudges(k: nat): (ms: seq<Move>)
    ensures |ms| == k
  {
    seq(k, _ => Interrupted(100, 709))
  }

  /** The bound is tight: opening for 709 ms again and again is never noticed. */
  lemma {:induction false} DriftIsReached(w: World, k: nat)
    requires w.tracked.position == 0 && w.place + 709 * k <= TRAVEL_TIME_MS && 0 <= w.place
    ensures Run(w, Nudges(k)).tracked.position == 0 && Run(w, Nudges(k)).place == w.place + 709 * k
    decreases k
  {
    if k == 0 {
    } else {
      InterruptedIsClamp(0, Opening, 709);
      assert Nudges(k)[1..] == Nudges(k - 1);
      DriftIsReached(WorldAfter(w, Interrupted(100, 709)), k - 1);
    }
  }
}
