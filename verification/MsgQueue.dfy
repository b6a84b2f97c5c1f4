/** The message queue of the MQTT client: a ring that overwrites its oldest messages. */
module MsgQueues {
  import opened Bytes

  // ----- what the ring stands for -----

  /** A bounded queue, with what it has handed out and how much it has dropped. */
  datatype Queue<T> = Queue(items: seq<T>, delivered: seq<T>, discards: nat)

  datatype Event<T> = Put(value: T) | Get

  function PutItem<T>(q: Queue<T>, capacity: nat, value: T): Queue<T> {
    var items := q.items + [value];
    if |items| > capacity then q.(items := items[1..], discards := q.discards + 1) else q.(items := items)
  }

  function GetItem<T>(q: Queue<T>): Queue<T>
    requires q.items != []
  {
    q.(items := q.items[1..], delivered := q.delivered + [q.items[0]])
  }

  function Run<T>(capacity: nat, events: seq<Event<T>>): Option<Queue<T>> {
    if events == [] then Some(Queue([], [], 0))
    else
      var before := Run(capacity, events[..|events| - 1]);
      match events[|events| - 1]
      case Put(v) => if before.Some? then Some(PutItem(before.value, capacity, v)) else None
      case Get => if before.Some? && before.value.items != [] then Some(GetItem(before.value)) else None
  }

  /** Every message ever put, in order. */
  function Puts<T>(events: seq<Event<T>>): seq<T> {
    if events == [] then []
    else
      var before := Puts(events[..|events| - 1]);
      match events[|events| - 1]
      case Put(v) => before + [v]
      case Get => before
  }

  function Gets<T>(events: seq<Event<T>>): nat {
    if events == [] then 0
    else Gets(events[..|events| - 1]) + if events[|events| - 1].Get? then 1 else 0
  }

  // ----- the same story told with positions in the log of puts -----

  /** Position of the next message to hand out. A message is out of reach once
      `capacity` newer ones have been put. */
  function Next<T>(capacity: nat, events: seq<Event<T>>): nat {
    if events == [] then 0
    else
      var before := Next(capacity, events[..|events| - 1]);
      match events[|events| - 1]
      case Put(_) =>
        var oldest := |Puts(events)| - capacity;
        if before < oldest then oldest else before
      case Get => before + 1
  }

  /** The positions handed out, in order. */
  function Taken<T>(capacity: nat, events: seq<Event<T>>): seq<nat> {
    if events == [] then []
    else
      var before := events[..|events| - 1];
      if events[|events| - 1].Get? then Taken(capacity, before) + [Next(capacity, before)] else Taken(capacity, before)
  }

  ghost predicate IsTaken(taken: seq<nat>, log: nat, next: nat) {
    && (forall k :: 0 <= k < |taken| ==> taken[k] < next <= log)
    && (forall j, k :: 0 <= j < k < |taken| ==> taken[j] < taken[k])
  }

  /** The queue holds exactly the log from `next` on, at most the newest `capacity`
      messages; what was delivered is the log at strictly increasing positions
      below; and no message is counted twice or lost without being counted. */
  ghost predicate IsWindow<T>(q: Queue<T>, log: seq<T>, next: nat, taken: seq<nat>, capacity: nat) {
    && next <= |log| <= next + capacity
    && q.items == log[next..]
    && IsTaken(taken, |log|, next)
    && |taken| == |q.delivered|
    && (forall k :: 0 <= k < |taken| ==> q.delivered[k] == log[taken[k]])
    && |log| == |q.delivered| + q.discards + |q.items|
  }

  lemma PutWindow<T>(q: Queue<T>, log: seq<T>, next: nat, taken: seq<nat>, capacity: nat, v: T)
    requires IsWindow(q, log, next, taken, capacity)
    ensures var next' := if |log| == next + capacity then next + 1 else next;
            IsWindow(PutItem(q, capacity, v), log + [v], next', taken, capacity)
  {
    var all := log + [v];
    assert forall k :: 0 <= k < |taken| ==> all[taken[k]] == log[taken[k]];
    assert all[next..] == log[next..] + [v];
  }

  lemma GetWindow<T>(q: Queue<T>, log: seq<T>, next: nat, taken: seq<nat>, capacity: nat)
    requires IsWindow(q, log, next, taken, capacity) && q.items != []
    ensures IsWindow(GetItem(q), log, next + 1, taken + [next], capacity)
  {
    assert q.items[0] == log[next];
    assert q.items[1..] == log[next + 1..];
  }

  /** So it is over every run, with as many deliveries as gets. */
  lemma {:induction false} RunIsWindow<T>(capacity: nat, events: seq<Event<T>>)
    requires Run(capacity, events).Some?
    ensures IsWindow(Run(capacity, events).value, Puts(events), Next(capacity, events), Taken(capacity, events),
                     capacity)
    ensures |Taken(capacity, events)| == Gets(events)
  {
    hide IsWindow, PutItem, GetItem, IsTaken, Run, Puts, Next, Taken, Gets;
    LastEvent(capacity, events);
    if events == [] {
      EmptyWindow<T>(capacity);
    } else {
      var before := events[..|events| - 1];
      RunIsWindow(capacity, before);
      var (q, log) := (Run(capacity, before).value, Puts(before));
      var (next, taken) := (Next(capacity, before), Taken(capacity, before));
      WindowBounds(q, log, next, taken, capacity);
      match events[|events| - 1]
      case Put(v) => PutWindow(q, log, next, taken, capacity, v);
      case Get => GetWindow(q, log, next, taken, capacity);
    }
  }

  /** What the last event of a run adds. */
  lemma LastEvent<T>(capacity: nat, events: seq<Event<T>>)
    requires Run(capacity, events).Some?
    ensures events == [] ==>
              && Run(capacity, events).value == Queue([], [], 0) && Puts(events) == [] && Next(capacity, events) == 0
              && Taken(capacity, events) == [] && Gets(events) == 0
    ensures events != [] ==>
              var (before, e) := (events[..|events| - 1], events[|events| - 1]);
              && Run(capacity, before).Some?
              && var (q, log) := (Run(capacity, before).value, Puts(before));
                 var (next, taken) := (Next(capacity, before), Taken(capacity, before));
                 && (e.Get? ==> q.items != [])
                 && Run(capacity, events).value == (if e.Put? then PutItem(q, capacity, e.value) else GetItem(q))
                 && Puts(events) == (if e.Put? then log + [e.value] else log)
                 && Next(capacity, events) == (if e.Get? || next < |log| + 1 - capacity then
                      (if e.Get? then next + 1 else |log| + 1 - capacity) else next)
                 && Taken(capacity, events) == (if e.Get? then taken + [next] else taken)
                 && Gets(events) == Gets(before) + (if e.Get? then 1 else 0)
  {
    hide PutItem, GetItem;
  }

  lemma EmptyWindow<T>(capacity: nat)
    ensures IsWindow(Queue<T>.Queue([], [], 0), [], 0, [], capacity)
  {}

  lemma WindowBounds<T>(q: Queue<T>, log: seq<T>, next: nat, taken: seq<nat>, capacity: nat)
    requires IsWindow(q, log, next, taken, capacity)
    ensures next <= |log| <= next + capacity && IsTaken(taken, |log|, next)
  {}

  /** Which messages are lost: exactly those still waiting when `capacity` newer ones had been put. */
  lemma {:induction false} LostExactly<T>(capacity: nat, events: seq<Event<T>>, i: nat)
    requires Run(capacity, events).Some? && i < |Puts(events)|
    ensures i < Next(capacity, events) || i !in Taken(capacity, events)
    ensures i !in Taken(capacity, events) ==> (i < Next(capacity, events) <==> i + capacity < |Puts(events)|)
  {
    var before := events[..|events| - 1];
    RunIsWindow(capacity, events);
    if i >= |Puts(before)| {
    } else {
      LostExactly(capacity, before, i);
    }
    RunIsWindow(capacity, before);
  }

  // ----- the ring -----

  lemma Wrap(i: nat, size: nat)
    requires i < size
    ensures (i + 1) % size == if i + 1 == size then 0 else i + 1
  {
    if i + 1 < size {
      assert i + 1 == 0 * size + (i + 1);
    }
  }

  /** The cells from `ri` up to `wi`, going round the end. */
  function Between<T>(cells: seq<T>, ri: nat, wi: nat, size: nat): seq<T>
    requires ri < size <= |cells| && wi < size
  {
    if ri <= wi then cells[ri..wi] else cells[ri..size] + cells[..wi]
  }

  lemma BetweenPut<T>(cells: seq<T>, ri: nat, wi: nat, size: nat, v: T)
    requires ri < size <= |cells| && wi < size
    ensures var (w, r) := (if wi + 1 == size then 0 else wi + 1, if ri + 1 == size then 0 else ri + 1);
            var (cells', items) := (cells[wi := v], Between(cells, ri, wi, size) + [v]);
            if w == ri then |items| == size && Between(cells', r, w, size) == items[1..]
            else |items| < size && Between(cells', ri, w, size) == items
  {
    if ri <= wi {
      assert cells[wi := v][ri..wi + 1] == cells[ri..wi] + [v];
    } else {
      assert cells[wi := v][..wi + 1] == cells[..wi] + [v];
      assert cells[wi := v][ri..size] == cells[ri..size];
    }
  }

  lemma EmptyBetween<T>(cells: seq<T>, ri: nat, wi: nat, size: nat)
    requires ri < size <= |cells| && wi < size
    ensures Between(cells, ri, wi, size) == [] <==> ri == wi
  {}

  lemma BetweenNext<T>(cells: seq<T>, ri: nat, wi: nat, size: nat)
    requires ri < size <= |cells| && wi < size && ri != wi
    ensures var r := if ri + 1 == size then 0 else ri + 1;
            Between(cells, ri, wi, size) == [cells[ri]] + Between(cells, r, wi, size)
  {}

  /** One consumer takes from the ring. Where the ring is empty it clears the event
      and waits; the next put sets the event and the consumer goes on. */
  class MsgQueue<T> {
    const q: array<T>
    const size: nat
    var wi: nat
    var ri: nat
    var evt: bool
    var discards: nat
    ghost var delivered: seq<T>
    /** The consumer is waiting, and the last message put. */
    ghost var blocked: bool
    ghost var newest: T

    ghost predicate Valid()
      reads this, q
    {
      && 1 <= size <= q.Length && wi < size && ri < size
      && (blocked && evt ==> if size >= 2 then Items() != [] else q[0] == newest)
    }

    ghost function Items(): seq<T>
      reads this, q
      requires 1 <= size <= q.Length && wi < size && ri < size
    {
      Between(q[..], ri, wi, size)
    }

    ghost function State(): Queue<T>
      reads this, q
      requires Valid()
    {
      Queue(Items(), delivered, discards)
    }

    constructor (size: nat, blank: T)
      requires size >= 1
      ensures Valid() && fresh(q) && this.size == size && !blocked
      ensures State() == Queue([], [], 0)
    {
      q := new T[if size > 4 then size else 4](_ => blank);
      this.size := size;
      wi, ri, evt, discards := 0, 0, false, 0;
      delivered, blocked, newest := [], false, blank;
    }

    method Put(v: T)
      requires Valid()
      modifies this`wi, this`ri, this`evt, this`discards, this`newest, q
      ensures Valid() && evt && newest == v
      ensures State() == PutItem(old(State()), size - 1, v)
    {
      hide Between;
      Wrap(wi, size);
      Wrap(ri, size);
      BetweenPut(q[..], ri, wi, size, v);
      q[wi] := v;
      newest := v;
      evt := true;
      wi := (wi + 1) % size;
      if wi == ri {
        ri := (ri + 1) % size;
        discards := discards + 1;
      }
    }

    /** Hands out the oldest message; an empty queue makes the caller wait. */
    method Next() returns (r: Option<T>)
      requires Valid() && !blocked
      modifies this`ri, this`evt, this`delivered, this`blocked
      ensures Valid() && (blocked <==> r.None?)
      ensures r.None? <==> old(Items()) == []
      ensures r.None? ==> State() == old(State()) && !evt
      ensures r.Some? ==> State() == GetItem(old(State())) && r.value == old(Items())[0]
    {
      hide Between;
      EmptyBetween(q[..], ri, wi, size);
      if ri == wi {
        evt := false;
        blocked := true;
        return None;
      }
      var v := Take();
      r := Some(v);
    }

    /** The wait is over: reads the ring without asking again whether it is empty.
        With two cells or more that is the oldest message; a ring of one cell hands
        out the last message put, although it was counted as discarded. */
    method Resume() returns (r: T)
      requires Valid() && blocked && evt
      modifies this`ri, this`delivered, this`blocked
      ensures Valid() && !blocked
      ensures size >= 2 ==> State() == GetItem(old(State())) && r == old(Items())[0]
      ensures size == 1 ==> r == newest && State() == old(State()).(delivered := old(delivered) + [r])
    {
      hide Between;
      Wrap(ri, size);
      EmptyBetween(q[..], ri, wi, size);
      blocked := false;
      r := Take();
    }

    /** `r = self._q[self._ri]` and the step of the read index. */
    method Take() returns (r: T)
      requires 1 <= size <= q.Length && wi < size && ri < size && !blocked
      modifies this`ri, this`delivered
      ensures Valid() && r == q[old(ri)] && delivered == old(delivered) + [r]
      ensures old(Items()) != [] ==> old(Items()) == [r] + Items()
      ensures size == 1 ==> ri == 0 && Items() == []
    {
      hide Between;
      Wrap(ri, size);
      EmptyBetween(q[..], ri, wi, size);
      if ri != wi {
        BetweenNext(q[..], ri, wi, size);
      }
      r := q[ri];
      delivered := delivered + [r];
      ri := (ri + 1) % size;
      EmptyBetween(q[..], ri, wi, size);
    }
  }

  /** A consumer waiting on a ring of one cell gets the very message counted as discarded. */
  method OneCell(v: int) returns (m: int, discards: nat)
    ensures m == v && discards == 1
  {
    var q := new MsgQueue(1, 0);
    var first := q.Next();
    q.Put(v);
    m := q.Resume();
    discards := q.discards;
  }
}
