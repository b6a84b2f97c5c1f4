/** Three controller tasks sharing one actuation lock: which output is low, and when. */
module Interlock {
  import opened Bytes
  import opened Window

  const WINDOW_COUNT: nat := 3
  const PULSE_LOW_MS: nat := 75
  const PULSE_HIGH_MS: nat := 75
  const PULSE_SETTLE_MS: nat := 400

  /** One of the nine active-low outputs. */
  datatype Line = Line(window: nat, actuation: Actuation)

  datatype Edge = Edge(time: nat, line: Line, falling: bool)

  /** Where one task is in `actuate`: waiting for the lock, about to pull low for
      pulse 0 or 1, holding low, holding high, or settling. */
  datatype Phase =
    | Away
    | Queued(line: Line)
    | Ready(line: Line, pulse: nat)
    | Low(line: Line, pulse: nat, since: nat)
    | High(line: Line, pulse: nat, since: nat)
    | Settling(line: Line, since: nat)
  {
    predicate HoldsLock() {
      !Away? && !Queued?
    }
  }

  datatype System = System(now: nat, holder: Option<nat>, tasks: seq<Phase>, low: set<Line>, edges: seq<Edge>)

  /** A step of one task, or the passing of time. A timer fires at its deadline or later. */
  datatype Action =
    | Ask(task: nat, actuation: Actuation)
    | Acquire(task: nat)
    | PullLow(task: nat)
    | PullHigh(task: nat)
    | HighOver(task: nat)
    | Release(task: nat)
    | Tick(ms: nat)

  predicate Enabled(s: System, a: Action)
    requires |s.tasks| == WINDOW_COUNT
  {
    if a.Tick? then true
    else
      && a.task < WINDOW_COUNT
      && var p := s.tasks[a.task];
         match a
         case Ask(_, _) => p.Away?
         case Acquire(_) => p.Queued? && s.holder.None?
         case PullLow(_) => p.Ready?
         case PullHigh(_) => p.Low? && s.now >= p.since + PULSE_LOW_MS
         case HighOver(_) => p.High? && s.now >= p.since + PULSE_HIGH_MS
         case Release(_) => p.Settling? && s.now >= p.since + PULSE_SETTLE_MS
  }

  function Apply(s: System, a: Action): (r: System)
    requires |s.tasks| == WINDOW_COUNT && Enabled(s, a)
    ensures |r.tasks| == WINDOW_COUNT
  {
    match a
    case Tick(ms) => s.(now := s.now + ms)
    case Ask(t, act) => s.(tasks := s.tasks[t := Queued(Line(t, act))])
    case Acquire(t) => s.(holder := Some(t), tasks := s.tasks[t := Ready(s.tasks[t].line, 0)])
    case PullLow(t) =>
      var line := s.tasks[t].line;
      s.(tasks := s.tasks[t := Low(line, s.tasks[t].pulse, s.now)], low := s.low + {line},
         edges := s.edges + [Edge(s.now, line, true)])
    case PullHigh(t) =>
      var line := s.tasks[t].line;
      s.(tasks := s.tasks[t := High(line, s.tasks[t].pulse, s.now)], low := s.low - {line},
         edges := s.edges + [Edge(s.now, line, false)])
    case HighOver(t) =>
      var p := s.tasks[t];
      s.(tasks := s.tasks[t := if p.pulse == 0 then Ready(p.line, 1) else Settling(p.line, s.now)])
    case Release(t) => s.(holder := None, tasks := s.tasks[t := Away])
  }

  function Boot(): System {
    System(0, None, seq(WINDOW_COUNT, _ => Away), {}, [])
  }

  ghost predicate IsRun(s: System, actions: seq<Action>)
    requires |s.tasks| == WINDOW_COUNT
    decreases |actions|
  {
    actions != [] ==> Enabled(s, actions[0]) && IsRun(Apply(s, actions[0]), actions[1..])
  }

  function Run(s: System, actions: seq<Action>): (r: System)
    requires |s.tasks| == WINDOW_COUNT && IsRun(s, actions)
    ensures |r.tasks| == WINDOW_COUNT
    decreases |actions|
  {
    if actions == [] then s else Run(Apply(s, actions[0]), actions[1..])
  }

  // ----- what the edges must look like -----

  /** Groups of four edges: low, high, low, high on one line, 75 ms apart at
      least, and 475 ms at least before the next group, whoever makes it. */
  ghost predicate IsEdgeTrace(e: seq<Edge>) {
    forall i :: 0 <= i < |e| ==> GoodEdge(e, i)
  }

  predicate GoodEdge(e: seq<Edge>, i: nat)
    requires i < |e|
  {
    && e[i].falling == (i % 2 == 0)
    && (i % 4 != 0 ==> e[i].line == e[i - 1].line && e[i].time >= e[i - 1].time + 75)
    && (i % 4 == 0 && i > 0 ==> e[i].time >= e[i - 1].time + 475)
  }

  lemma EdgeTraceSnoc(e: seq<Edge>, x: Edge)
    requires IsEdgeTrace(e) && GoodEdge(e + [x], |e|)
    ensures IsEdgeTrace(e + [x])
  {
    var f := e + [x];
    forall i | 0 <= i < |f|
      ensures GoodEdge(f, i)
    {
      if i < |e| {
        assert GoodEdge(e, i);
      }
    }
  }

  /** The holder's place in its group of four edges, and the time since the last one. */
  ghost predicate InStep(p: Phase, now: nat, e: seq<Edge>) {
    var n := |e|;
    match p
    case Ready(line, pulse) =>
      if pulse == 0 then n % 4 == 0 && Rested(now, e)
      else pulse == 1 && n % 4 == 2 && e[n - 1].line == line && e[n - 1].time + 75 <= now
    case Low(line, pulse, since) =>
      pulse <= 1 && n % 4 == 2 * pulse + 1 && e[n - 1] == Edge(since, line, true) && since <= now
    case High(line, pulse, since) =>
      pulse <= 1 && n % 4 == (2 * pulse + 2) % 4 && n > 0 && e[n - 1] == Edge(since, line, false) && since <= now
    case Settling(line, since) =>
      n % 4 == 0 && n > 0 && e[n - 1].time + 75 <= since <= now
    case _ => n % 4 == 0 && Rested(now, e)
  }

  predicate Rested(now: nat, e: seq<Edge>) {
    e != [] ==> e[|e| - 1].time + 475 <= now
  }

  ghost predicate Inv(s: System) {
    && |s.tasks| == WINDOW_COUNT
    && IsEdgeTrace(s.edges)
    && (forall t :: 0 <= t < WINDOW_COUNT ==> (s.tasks[t].HoldsLock() <==> s.holder == Some(t)))
    && (forall t :: 0 <= t < WINDOW_COUNT && !s.tasks[t].Away? ==> s.tasks[t].line.window == t)
    && (s.holder.Some? ==> s.holder.value < WINDOW_COUNT)
    && InStep(if s.holder.Some? then s.tasks[s.holder.value] else Away, s.now, s.edges)
    && s.low == LowLines(s)
  }

  /** The lines that are low: the holder's, while it is in a low pulse. */
  function LowLines(s: System): set<Line> {
    if s.holder.Some? && s.holder.value < |s.tasks| && s.tasks[s.holder.value].Low?
    then {s.tasks[s.holder.value].line} else {}
  }

  lemma BootInv()
    ensures Inv(Boot())
  {
  }

  lemma ApplyInv(s: System, a: Action)
    requires Inv(s) && Enabled(s, a)
    ensures Inv(Apply(s, a))
  {
    if a.PullLow? || a.PullHigh? {
      EdgeInv(s, a);
    } else {
      QuietInv(s, a);
    }
  }

  /** Every step but an edge leaves the record of edges and the levels alone. */
  lemma QuietInv(s: System, a: Action)
    requires Inv(s) && Enabled(s, a) && !a.PullLow? && !a.PullHigh?
    ensures Inv(Apply(s, a))
  {
    hide IsEdgeTrace, GoodEdge;
  }

  /** The edge a holder makes next, and where that leaves it. */
  function EdgeOf(p: Phase, now: nat): (Edge, Phase)
    requires p.Ready? || p.Low?
  {
    (Edge(now, p.line, p.Ready?), if p.Ready? then Low(p.line, p.pulse, now) else High(p.line, p.pulse, now))
  }

  lemma NextEdge(p: Phase, now: nat, e: seq<Edge>)
    requires InStep(p, now, e) && (p.Ready? || (p.Low? && now >= p.since + PULSE_LOW_MS))
    ensures var (x, q) := EdgeOf(p, now); GoodEdge(e + [x], |e|) && InStep(q, now, e + [x])
  {
    hide IsEdgeTrace;
    var (x, q) := EdgeOf(p, now);
    var n, f := |e|, e + [x];
    QuarterTurn(n);
    assert |f| == n + 1 && f[n] == x && (n > 0 ==> f[n - 1] == e[n - 1]);
  }

  lemma QuarterTurn(n: nat)
    ensures (n + 1) % 4 == if n % 4 == 3 then 0 else n % 4 + 1
    ensures n % 2 == 0 <==> n % 4 == 0 || n % 4 == 2
  {
  }

  lemma EdgeInv(s: System, a: Action)
    requires Inv(s) && Enabled(s, a) && (a.PullLow? || a.PullHigh?)
    ensures Inv(Apply(s, a))
  {
    hide IsEdgeTrace, GoodEdge, InStep;
    assert s.holder == Some(a.task);
    NextEdge(s.tasks[a.task], s.now, s.edges);
    EdgeTraceSnoc(s.edges, EdgeOf(s.tasks[a.task], s.now).0);
  }

  lemma {:induction false} RunInv(s: System, actions: seq<Action>)
    requires Inv(s) && IsRun(s, actions)
    ensures Inv(Run(s, actions))
    decreases |actions|
  {
    if actions == [] {
    } else {
      ApplyInv(s, actions[0]);
      RunInv(Apply(s, actions[0]), actions[1..]);
    }
  }

  /** In every interleaving: at most one output is low, and it is the lock
      holder's; every sequence is two low pulses on one line; and 475 ms pass
      between the last rising edge of a sequence and the next falling edge of any. */
  lemma InterlockHolds(actions: seq<Action>)
    requires IsRun(Boot(), actions)
    ensures var s := Run(Boot(), actions);
            && |s.low| <= 1
            && (forall line :: line in s.low ==> s.holder == Some(line.window))
            && IsEdgeTrace(s.edges)
  {
    BootInv();
    RunInv(Boot(), actions);
  }

  /** The recorded levels are what the edges say: low after a falling edge only. */
  lemma LowByEdges(actions: seq<Action>)
    requires IsRun(Boot(), actions)
    ensures var s := Run(Boot(), actions); var n := |s.edges|;
            s.low == if n % 2 == 1 then {s.edges[n - 1].line} else {}
  {
    BootInv();
    RunInv(Boot(), actions);
  }

  // ----- a sequence ends -----

  /** What is left of a phase's own wait. */
  function Due(p: Phase, now: nat): nat {
    var deadline := match p
      case Low(_, _, since) => since + PULSE_LOW_MS
      case High(_, _, since) => since + PULSE_HIGH_MS
      case Settling(_, since) => since + PULSE_SETTLE_MS
      case _ => 0;
    if now < deadline then deadline - now else 0
  }

  /** The phases a holder still has to go through. */
  function Rank(p: Phase): nat {
    match p
    case Ready(_, pulse) => if pulse == 0 then 7 else 4
    case Low(_, pulse, _) => if pulse == 0 then 6 else 3
    case High(_, pulse, _) => if pulse == 0 then 5 else 2
    case Settling(_, _) => 1
    case _ => 0
  }

  /** The time and the edges a holder still needs when its timers fire at their deadlines. */
  function TimeLeft(p: Phase, now: nat): nat {
    Due(p, now) + match Rank(p)
      case 7 => 700
      case 6 => 625
      case 5 => 550
      case 4 => 550
      case 3 => 475
      case 2 => 400
      case _ => 0
  }

  function EdgesLeft(p: Phase): nat {
    match Rank(p)
    case 7 => 4
    case 6 => 3
    case 5 => 2
    case 4 => 2
    case 3 => 1
    case _ => 0
  }

  function NextOf(p: Phase, t: nat): Action {
    match p
    case Ready(_, _) => PullLow(t)
    case Low(_, _, _) => PullHigh(t)
    case High(_, _, _) => HighOver(t)
    case _ => Release(t)
  }

  lemma HolderAdvances(s: System, t: nat)
    requires Inv(s) && s.holder == Some(t)
    ensures var p := s.tasks[t]; var w := Apply(s, Tick(Due(p, s.now)));
            && Enabled(w, NextOf(p, t))
            && var r := Apply(w, NextOf(p, t));
               && Inv(r) && Rank(r.tasks[t]) == Rank(p) - 1
               && (if Rank(p) == 1 then r.holder == None && r.tasks[t] == Away else r.holder == Some(t))
               && r.now + TimeLeft(r.tasks[t], r.now) == s.now + TimeLeft(p, s.now)
               && |r.edges| + EdgesLeft(r.tasks[t]) == |s.edges| + EdgesLeft(p)
  {
    hide Inv, InStep, IsEdgeTrace, LowLines;
    HolderPhase(s, t);
    var p := s.tasks[t];
    var w := Apply(s, Tick(Due(p, s.now)));
    ApplyInv(s, Tick(Due(p, s.now)));
    ApplyInv(w, NextOf(p, t));
  }

  lemma AwayIsDone()
    ensures forall t: nat :: TimeLeft(Away, t) == 0
    ensures EdgesLeft(Away) == 0
  {
  }

  lemma HolderPhase(s: System, t: nat)
    requires Inv(s) && s.holder == Some(t)
    ensures |s.tasks| == WINDOW_COUNT && t < WINDOW_COUNT && s.tasks[t].HoldsLock()
    ensures var p := s.tasks[t]; (p.Ready? || p.Low? || p.High? ==> p.pulse <= 1)
  {
  }

  /** What the holder does from here on, every timer firing at its deadline. */
  ghost function Finish(s: System, t: nat): seq<Action>
    requires Inv(s) && s.holder == Some(t)
    decreases Rank(s.tasks[t])
  {
    HolderAdvances(s, t);
    var p := s.tasks[t];
    var r := Apply(Apply(s, Tick(Due(p, s.now))), NextOf(p, t));
    [Tick(Due(p, s.now)), NextOf(p, t)] + if r.holder == None then [] else Finish(r, t)
  }

  /** No reachable state is stuck: whoever holds the lock can finish alone and
      frees it after exactly the time left, a whole sequence taking 700 ms and four edges. */
  lemma {:induction false} HolderFinishes(s: System, t: nat)
    requires Inv(s) && s.holder == Some(t)
    ensures IsRun(s, Finish(s, t))
    ensures var p := s.tasks[t]; var r := Run(s, Finish(s, t));
            && r.holder == None && r.tasks[t] == Away
            && r.now == s.now + TimeLeft(p, s.now) && |r.edges| == |s.edges| + EdgesLeft(p)
    decreases Rank(s.tasks[t])
  {
    hide Inv, InStep, IsEdgeTrace, LowLines, TimeLeft, EdgesLeft, Due, NextOf, Run, IsRun;
    HolderPhase(s, t);
    HolderAdvances(s, t);
    AwayIsDone();
    var p := s.tasks[t];
    var w := Apply(s, Tick(Due(p, s.now)));
    var r := Apply(w, NextOf(p, t));
    var rest := if r.holder == None then [] else Finish(r, t);
    if r.holder == None {
      EmptyRun(r);
    } else {
      HolderFinishes(r, t);
    }
    RunTwo(s, Tick(Due(p, s.now)), NextOf(p, t), rest);
  }

  /** A whole sequence: from taking the lock to freeing it 700 ms and four edges. */
  lemma WholeSequence(s: System, t: nat)
    requires Inv(s) && s.holder == Some(t) && t < WINDOW_COUNT && s.tasks[t].Ready? && s.tasks[t].pulse == 0
    ensures IsRun(s, Finish(s, t))
    ensures var r := Run(s, Finish(s, t));
            r.holder == None && r.tasks[t] == Away && r.now == s.now + 700 && |r.edges| == |s.edges| + 4
  {
    hide Inv, InStep, IsEdgeTrace, LowLines, Finish, IsRun, Run;
    HolderFinishes(s, t);
  }

  lemma EmptyRun(s: System)
    requires |s.tasks| == WINDOW_COUNT
    ensures IsRun(s, []) && Run(s, []) == s
  {
  }

  lemma RunTwo(s: System, a: Action, b: Action, rest: seq<Action>)
    requires |s.tasks| == WINDOW_COUNT && Enabled(s, a)
    requires |Apply(s, a).tasks| == WINDOW_COUNT && Enabled(Apply(s, a), b)
    requires var r := Apply(Apply(s, a), b); |r.tasks| == WINDOW_COUNT && IsRun(r, rest)
    ensures IsRun(s, [a, b] + rest) && Run(s, [a, b] + rest) == Run(Apply(Apply(s, a), b), rest)
  {
    hide Enabled, Apply;
    var all := [a, b] + rest;
    assert all[1..] == [b] + rest && all[1..][1..] == rest;
    assert IsRun(Apply(s, a), all[1..]) && Run(Apply(s, a), all[1..]) == Run(Apply(Apply(s, a), b), rest);
  }

  // ----- what was asked is what is pulsed -----

  /** What task `t` asked for, in order. */
  function Asks(actions: seq<Action>, t: nat): seq<Actuation> {
    if actions == [] then []
    else
      var a := actions[|actions| - 1];
      Asks(actions[..|actions| - 1], t) + if a.Ask? && a.task == t then [a.actuation] else []
  }

  /** The actuations of a window's complete groups of four edges, in order. */
  function Pulsed(e: seq<Edge>, t: nat): seq<Actuation> {
    if |e| < 4 then []
    else
      Pulsed(e[..|e| - 1], t)
      + if |e| % 4 == 0 && e[|e| - 1].line.window == t then [e[|e| - 1].line.actuation] else []
  }

  /** What a task has asked for and not yet pulsed to the end. */
  function Outstanding(p: Phase): seq<Actuation> {
    match p
    case Away => []
    case Queued(line) => [line.actuation]
    case Ready(line, _) => [line.actuation]
    case Low(line, _, _) => [line.actuation]
    case High(line, pulse, _) => if pulse == 0 then [line.actuation] else []
    case Settling(_, _) => []
  }

  lemma PulsedNext(e: seq<Edge>, x: Edge, t: nat)
    ensures Pulsed(e + [x], t) == Pulsed(e, t) +
              if (|e| + 1) % 4 == 0 && x.line.window == t then [x.line.actuation] else []
  {
    assert (e + [x])[..|e|] == e;
  }

  lemma AsksNext(actions: seq<Action>, a: Action, t: nat)
    ensures Asks(actions + [a], t) == Asks(actions, t) + if a.Ask? && a.task == t then [a.actuation] else []
  {
    assert (actions + [a])[..|actions|] == actions;
  }

  /** One step: an ask becomes outstanding, the last edge of a group settles it, and
      nothing else changes the sum, for any window. */
  lemma StepPulses(s: System, a: Action, t: nat)
    requires Inv(s) && Enabled(s, a) && t < WINDOW_COUNT
    ensures var r := Apply(s, a);
            |r.tasks| == WINDOW_COUNT
            && Pulsed(r.edges, t) + Outstanding(r.tasks[t])
            == (Pulsed(s.edges, t) + Outstanding(s.tasks[t])) + if a.Ask? && a.task == t then [a.actuation] else []
  {
    if a.PullLow? || a.PullHigh? {
      EdgePulses(s, a, t);
    } else if a.HighOver? {
      HighOverPulses(s, a.task, t);
    }
  }

  lemma HighOverPulses(s: System, task: nat, t: nat)
    requires Inv(s) && Enabled(s, HighOver(task)) && t < WINDOW_COUNT
    ensures |Apply(s, HighOver(task)).tasks| == WINDOW_COUNT
    ensures Outstanding(Apply(s, HighOver(task)).tasks[t]) == Outstanding(s.tasks[t])
  {
    hide IsEdgeTrace, GoodEdge;
  }

  lemma EdgePulses(s: System, a: Action, t: nat)
    requires Inv(s) && Enabled(s, a) && (a.PullLow? || a.PullHigh?) && t < WINDOW_COUNT
    ensures var r := Apply(s, a);
            |r.tasks| == WINDOW_COUNT
            && Pulsed(r.edges, t) + Outstanding(r.tasks[t]) == Pulsed(s.edges, t) + Outstanding(s.tasks[t])
  {
    hide IsEdgeTrace, GoodEdge, Pulsed, Rested;
    var p := s.tasks[a.task];
    assert s.holder == Some(a.task);
    PulsedNext(s.edges, EdgeOf(p, s.now).0, t);
    QuarterTurn(|s.edges|);
  }

  /** In every interleaving each window's pulse sequences are, in order, exactly what
      its task asked for, but for the one request that is still outstanding. */
  lemma {:induction false} AskedIsPulsed(actions: seq<Action>, t: nat)
    requires IsRun(Boot(), actions) && t < WINDOW_COUNT
    ensures var s := Run(Boot(), actions); Asks(actions, t) == Pulsed(s.edges, t) + Outstanding(s.tasks[t])
  {
    hide Inv, Pulsed, Outstanding, Enabled, Apply, Asks;
    if actions == [] {
      NothingAsked(t);
    } else {
      var before, a := actions[..|actions| - 1], actions[|actions| - 1];
      assert actions == before + [a];
      RunSnoc(Boot(), before, a);
      AskedIsPulsed(before, t);
      BootInv();
      RunInv(Boot(), before);
      StepPulses(Run(Boot(), before), a, t);
      AsksNext(before, a, t);
    }
  }

  lemma NothingAsked(t: nat)
    requires t < WINDOW_COUNT
    ensures Asks([], t) == Pulsed(Boot().edges, t) + Outstanding(Boot().tasks[t])
  {}

  /** A run splits at its last step. */
  lemma {:induction false} RunSnoc(s: System, actions: seq<Action>, a: Action)
    requires |s.tasks| == WINDOW_COUNT && IsRun(s, actions + [a])
    ensures IsRun(s, actions) && Enabled(Run(s, actions), a)
    ensures Run(s, actions + [a]) == Apply(Run(s, actions), a)
    decreases |actions|
  {
    hide Enabled, Apply;
    var all := actions + [a];
    if actions == [] {
      assert all[0] == a && all[1..] == [];
      assert IsRun(Apply(s, a), []) && Run(Apply(s, a), []) == Apply(s, a);
    } else {
      assert all[0] == actions[0] && all[1..] == actions[1..] + [a];
      RunSnoc(Apply(s, all[0]), actions[1..], a);
    }
  }
}
