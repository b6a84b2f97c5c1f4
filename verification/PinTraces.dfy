/** The pins of one window, whatever the other windows do: what its controller asks
    for is what its outputs show. */
module PinTraces {
  import opened Bytes
  import opened Window
  import Controller
  import Drift
  import Interlock

  /** What a controller has asked for: the pulses of its travels, and the first of
      one that is under way. */
  function Requests(origin: Positioner, history: seq<Drift.Move>, underway: Option<Direction>): seq<Actuation> {
    Controller.Pulses(origin, history) +
      match underway
      case None => []
      case Some(Opening) => [Open]
      case Some(Closing) => [Close]
  }

  lemma RequestsFormTrace(origin: Positioner, history: seq<Drift.Move>, underway: Option<Direction>)
    ensures Controller.IsPulseTrace(Requests(origin, history, underway))
  {
    var pulses := Controller.Pulses(origin, history);
    Controller.PulsesFormTrace(origin, history);
    if underway.Some? {
      Controller.TraceAppends(pulses, if underway.value == Opening then Open else Close);
    } else {
      assert pulses + [] == pulses;
    }
  }

  /** In every interleaving of the three tasks, if a window's task has asked for what
      its controller's travels request, the pulse sequences on its pins are those
      requests in order, at most the last one still to come; so they are themselves
      (Open or Close, then optional Stop), repeated. */
  lemma PinsFollowController(actions: seq<Interlock.Action>, t: nat, origin: Positioner, history: seq<Drift.Move>,
                             underway: Option<Direction>)
    requires Interlock.IsRun(Interlock.Boot(), actions) && t < Interlock.WINDOW_COUNT
    requires Interlock.Asks(actions, t) == Requests(origin, history, underway)
    ensures var s := Interlock.Run(Interlock.Boot(), actions);
            var (asked, pulsed) := (Requests(origin, history, underway), Interlock.Pulsed(s.edges, t));
            && pulsed <= asked && |asked| <= |pulsed| + 1
            && (s.tasks[t].Away? ==> pulsed == asked)
            && Controller.IsPulseTrace(pulsed)
  {
    hide Interlock.IsRun, Interlock.Run, Interlock.Asks, Interlock.Pulsed, Requests, Controller.IsPulseTrace;
    var s := Interlock.Run(Interlock.Boot(), actions);
    var asked, pulsed := Requests(origin, history, underway), Interlock.Pulsed(s.edges, t);
    Interlock.AskedIsPulsed(actions, t);
    RequestsFormTrace(origin, history, underway);
    Controller.TracePrefix(asked, |pulsed|);
    assert asked[..|pulsed|] == pulsed;
    assert s.tasks[t].Away? ==> pulsed + [] == pulsed;
  }

  /** The pulses of a controller, at rest or under way, are the requests of its travels. */
  lemma ControllerRequests(c: Controller.WindowController)
    requires c.Idle() || c.Travelling()
    ensures c.pulses == Requests(c.origin, c.history, UnderWay(c))
  {
    hide Controller.Pulses, Controller.AfterMoves;
    if c.Idle() {
      assert c.pulses + [] == c.pulses;
    }
  }

  /** The same for a controller's own pulses: once they are what its task has asked for,
      its pins show them in order, at most the last one still to come. */
  lemma PinsShowController(actions: seq<Interlock.Action>, t: nat, c: Controller.WindowController)
    requires Interlock.IsRun(Interlock.Boot(), actions) && t < Interlock.WINDOW_COUNT
    requires (c.Idle() || c.Travelling()) && Interlock.Asks(actions, t) == c.pulses
    ensures var s := Interlock.Run(Interlock.Boot(), actions);
            var pulsed := Interlock.Pulsed(s.edges, t);
            && pulsed <= c.pulses && |c.pulses| <= |pulsed| + 1
            && (s.tasks[t].Away? ==> pulsed == c.pulses)
            && Controller.IsPulseTrace(pulsed)
  {
    hide Interlock.IsRun, Interlock.Run, Interlock.Asks, Interlock.Pulsed, Requests, Controller.IsPulseTrace;
    hide Controller.WindowController.Idle, Controller.WindowController.Travelling;
    ControllerRequests(c);
    PinsFollowController(actions, t, c.origin, c.history, UnderWay(c));
  }

  ghost function UnderWay(c: Controller.WindowController): Option<Direction>
    requires c.Idle() || c.Travelling()
    reads c, c.positioner
  {
    if c.Idle() then None else Some(c.positioner.motion.value.direction)
  }
}
