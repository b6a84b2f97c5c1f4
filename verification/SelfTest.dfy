/** The self-test after a trial boot: latched health signals judged over a
    30-second window, one mark at the end, and a watchdog fed on the way. */
module SelfTest {
  import opened Bytes
  import opened Arbitration
  import opened Flash
  import DeviceRuns
  import UpdateCheck

  const SELF_TEST_WINDOW_MS: nat := 30_000
  const FEED_INTERVAL_MS: nat := 1_000
  const WATCHDOG_TIMEOUT_MS: nat := 8_000

  datatype Verdict = Pending | Passed | Failed(reason: string)

  class SelfTestTracker {
    const startMs: nat
    const gpioSafe: bool
    var wifiConnected: bool
    var mqttHealthy: bool
    var verdict: Verdict

    constructor (startMs: nat, gpioSafe: bool)
      ensures this.startMs == startMs && this.gpioSafe == gpioSafe
      ensures !wifiConnected && !mqttHealthy && verdict == Pending
    {
      this.startMs, this.gpioSafe := startMs, gpioSafe;
      wifiConnected, mqttHealthy, verdict := false, false, Pending;
    }

    method Observe(wifi: bool, mqtt: bool)
      modifies this`wifiConnected, this`mqttHealthy
      ensures wifiConnected == (old(wifiConnected) || wifi) && mqttHealthy == (old(mqttHealthy) || mqtt)
    {
      wifiConnected := wifiConnected || wifi;
      mqttHealthy := mqttHealthy || mqtt;
    }

    method Fail(reason: string)
      modifies this`verdict
      ensures verdict == Failed(reason)
    {
      verdict := Failed(reason);
    }

    /** A settled verdict stays; an unsafe pin outranks health, health outranks the clock. */
    method Evaluate(nowMs: nat) returns (v: Verdict)
      modifies this`verdict
      ensures v == verdict
      ensures old(verdict) != Pending ==> verdict == old(verdict)
      ensures old(verdict) == Pending ==>
                && (verdict == Failed("gpio") <==> !gpioSafe)
                && (verdict == Passed <==> gpioSafe && wifiConnected && mqttHealthy)
                && (verdict == Pending <==>
                      gpioSafe && !(wifiConnected && mqttHealthy) && nowMs < startMs + 30_000)
                && verdict in {Pending, Passed, Failed("gpio"), Failed("timeout")}
    {
      if verdict != Pending {
        return verdict;
      }
      var elapsed := if nowMs >= startMs then nowMs - startMs else 0;
      if !gpioSafe {
        verdict := Failed("gpio");
      } else if wifiConnected && mqttHealthy {
        verdict := Passed;
      } else if elapsed >= SELF_TEST_WINDOW_MS {
        verdict := Failed("timeout");
      }
      v := verdict;
    }
  }

  // ----- the poll loop -----

  /** One round of the loop: the clock at its start, when the verdict reads it
      and when the watchdog could be fed, and what the receivers say. */
  datatype Poll = Poll(now: nat, evalAt: nat, fedAt: nat, wifi: bool, mqtt: bool)

  ghost predicate WifiSeen(polls: seq<Poll>, n: nat)
    requires n <= |polls|
  {
    exists k :: 0 <= k < n && polls[k].wifi
  }

  ghost predicate MqttSeen(polls: seq<Poll>, n: nat)
    requires n <= |polls|
  {
    exists k :: 0 <= k < n && polls[k].mqtt
  }

  /** Both signals have been seen by poll `i`, not necessarily together. */
  ghost predicate Healthy(polls: seq<Poll>, i: nat)
    requires i < |polls|
  {
    WifiSeen(polls, i + 1) && MqttSeen(polls, i + 1)
  }

  predicate Expired(polls: seq<Poll>, i: nat)
    requires i < |polls|
  {
    polls[i].evalAt >= SELF_TEST_WINDOW_MS
  }

  /** Both signals were seen no later than the first poll past the window. */
  ghost predicate Passes(polls: seq<Poll>) {
    exists i :: 0 <= i < |polls| && Healthy(polls, i) && forall k :: 0 <= k < i ==> !Expired(polls, k)
  }

  ghost predicate TimesOut(polls: seq<Poll>) {
    exists i :: 0 <= i < |polls| && Expired(polls, i) && forall k :: 0 <= k <= i ==> !Healthy(polls, k)
  }

  /** The clock runs, and every round ends within 7 s of the start of the one before. */
  ghost predicate WellPaced(polls: seq<Poll>) {
    && (forall i :: 0 <= i < |polls| ==> polls[i].now <= polls[i].evalAt <= polls[i].fedAt)
    && (forall i :: 0 < i < |polls| ==> polls[i - 1].fedAt <= polls[i].now && polls[i].fedAt < polls[i - 1].now + 7000)
    && (polls != [] ==> polls[0].fedAt < 7000)
  }

  /** When the watchdog was fed in the first `n` rounds, counted from its arming
      `lead` ms before the clock started, and the clock at the start of the round
      that fed it last. */
  function Feeding(polls: seq<Poll>, n: nat, lead: nat): (f: (seq<nat>, nat))
    requires n <= |polls|
    ensures f.0 != [] && f.0[0] == 0
  {
    if n == 0 then ([0], 0)
    else
      var (feeds, last) := Feeding(polls, n - 1, lead);
      var p := polls[n - 1];
      if p.now >= last + FEED_INTERVAL_MS then (feeds + [lead + p.fedAt], p.now) else (feeds, last)
  }

  function LastFeed(polls: seq<Poll>, n: nat, lead: nat): nat
    requires n <= |polls|
  {
    var feeds := Feeding(polls, n, lead).0;
    feeds[|feeds| - 1]
  }

  /** Round `i` ends before the watchdog has gone 8 s without being fed. */
  ghost predicate EndsInTime(polls: seq<Poll>, i: nat, lead: nat)
    requires i < |polls|
  {
    lead + polls[i].fedAt < LastFeed(polls, i, lead) + WATCHDOG_TIMEOUT_MS
  }

  /** The watchdog does not fire in the first `n` rounds. */
  ghost predicate InTime(polls: seq<Poll>, n: nat, lead: nat)
    requires n <= |polls|
  {
    forall i :: 0 <= i < n ==> EndsInTime(polls, i, lead)
  }

  /** No round before round `i` started a second or more after the clock did. */
  predicate NoneDueBefore(polls: seq<Poll>, i: nat)
    requires i <= |polls|
  {
    forall k :: 0 <= k < i ==> polls[k].now < FEED_INTERVAL_MS
  }

  /** Up to and including the first round that feeds, every round ends within 8 s of the arming. */
  ghost predicate FirstInTime(polls: seq<Poll>, n: nat, lead: nat)
    requires n <= |polls|
  {
    forall i :: 0 <= i < n && NoneDueBefore(polls, i) ==> lead + polls[i].fedAt < WATCHDOG_TIMEOUT_MS
  }

  /** What the feeds so far look like: none before the clock's first second, and
      afterwards a last one whose round started less than a second before the current one. */
  lemma {:induction false} FeedingShape(polls: seq<Poll>, n: nat, lead: nat)
    requires n <= |polls| && WellPaced(polls)
    ensures var (feeds, last) := Feeding(polls, n, lead);
            && (n > 0 ==> polls[n - 1].now < last + FEED_INTERVAL_MS)
            && if NoneDueBefore(polls, n) then feeds == [0] && last == 0 else lead + last <= feeds[|feeds| - 1]
  {
    if n == 0 {
    } else {
      FeedingShape(polls, n - 1, lead);
    }
  }

  /** Round `i` feeds the watchdog. */
  predicate Feeds(polls: seq<Poll>, i: nat, lead: nat)
    requires i < |polls|
  {
    Feeding(polls, i + 1, lead).0 == Feeding(polls, i, lead).0 + [lead + polls[i].fedAt]
  }

  lemma {:induction false} NoFeedBetween(polls: seq<Poll>, i: nat, j: nat, lead: nat)
    requires i <= j <= |polls| && forall k :: i <= k < j ==> !Feeds(polls, k, lead)
    ensures Feeding(polls, j, lead) == Feeding(polls, i, lead)
    decreases j
  {
    if i < j {
      NoFeedBetween(polls, i, j - 1, lead);
      assert !Feeds(polls, j - 1, lead);
    }
  }

  /** After a feed the next round that feeds is the first that starts a second or more
      after the round of the last feed started; before any, after the clock did. */
  lemma NextFeed(polls: seq<Poll>, j: nat, lead: nat)
    requires j < |polls|
    ensures (forall k :: 0 <= k < j ==> !Feeds(polls, k, lead)) ==> (Feeds(polls, j, lead) <==> polls[j].now >= 1000)
    ensures forall i | 0 <= i < j && Feeds(polls, i, lead) && (forall k :: i < k < j ==> !Feeds(polls, k, lead)) ::
              Feeds(polls, j, lead) <==> polls[j].now >= polls[i].now + 1000
  {
    hide Feeds;
    FeedsWhenDue(polls, j, lead);
    if forall k :: 0 <= k < j ==> !Feeds(polls, k, lead) {
      NoFeedBetween(polls, 0, j, lead);
    }
    forall i | 0 <= i < j && Feeds(polls, i, lead) && (forall k :: i < k < j ==> !Feeds(polls, k, lead))
      ensures Feeds(polls, j, lead) <==> polls[j].now >= polls[i].now + 1000
    {
      NoFeedBetween(polls, i + 1, j, lead);
      FeedsWhenDue(polls, i, lead);
    }
  }

  lemma FeedsWhenDue(polls: seq<Poll>, i: nat, lead: nat)
    requires i < |polls|
    ensures Feeds(polls, i, lead) <==> polls[i].now >= Feeding(polls, i, lead).1 + 1000
    ensures Feeds(polls, i, lead) ==> Feeding(polls, i + 1, lead).1 == polls[i].now
  {}

  /** When rounds paced under 7 s feed the watchdog in time: exactly when, up to and
      including the first round that feeds, every round ends within 8 s of the arming. */
  lemma FedInTimeExactly(polls: seq<Poll>, n: nat, lead: nat)
    requires n <= |polls| && WellPaced(polls)
    ensures InTime(polls, n, lead) <==> FirstInTime(polls, n, lead)
  {
    forall i | 0 <= i < n
      ensures EndsInTime(polls, i, lead) <==>
              (NoneDueBefore(polls, i) ==> lead + polls[i].fedAt < WATCHDOG_TIMEOUT_MS)
    {
      FeedingShape(polls, i, lead);
    }
  }

  /** Without a lead the pace alone is enough. */
  lemma PaceIsEnough(polls: seq<Poll>, n: nat)
    requires n <= |polls| && WellPaced(polls)
    ensures InTime(polls, n, 0)
  {
    FedInTimeExactly(polls, n, 0);
    forall i | 0 <= i < n && NoneDueBefore(polls, i)
      ensures polls[i].fedAt < WATCHDOG_TIMEOUT_MS
    {
      assert i > 0 ==> polls[i - 1].now < FEED_INTERVAL_MS;
    }
  }

  /** With one it is not: here the first feed is in time only if the clock started
      within 2 ms of the arming. */
  lemma FirstFeedCanBeLate(polls: seq<Poll>, lead: nat)
    requires polls == [Poll(999, 999, 999, false, false), Poll(1000, 1000, 7998, false, false)]
    ensures WellPaced(polls) && (InTime(polls, 2, lead) <==> lead < 2)
  {
    FedInTimeExactly(polls, 2, lead);
    assert NoneDueBefore(polls, 0) && NoneDueBefore(polls, 1);
  }

  ghost predicate WellFed(feeds: seq<nat>) {
    forall k :: 0 < k < |feeds| ==> feeds[k] < feeds[k - 1] + WATCHDOG_TIMEOUT_MS
  }

  lemma {:induction false} InTimeIsWellFed(polls: seq<Poll>, n: nat, lead: nat)
    requires n <= |polls| && InTime(polls, n, lead)
    ensures WellFed(Feeding(polls, n, lead).0)
  {
    if n == 0 {
    } else {
      assert EndsInTime(polls, n - 1, lead);
      InTimeIsWellFed(polls, n - 1, lead);
    }
  }

  /** Polls until a verdict or the end of the observed polls. `rounds` is how many
      polls were taken, `feeds` when the watchdog was fed since it was armed. If the
      rounds are paced, it never fires if and only if the first feed is in time. */
  method Observe(polls: seq<Poll>, gpioSafe: bool, lead: nat) returns (v: Verdict, feeds: seq<nat>, rounds: nat)
    ensures v == Passed <==> gpioSafe && Passes(polls)
    ensures v == Failed("timeout") <==> gpioSafe && TimesOut(polls)
    ensures v == Failed("gpio") <==> !gpioSafe && polls != []
    ensures v in {Pending, Passed, Failed("gpio"), Failed("timeout")}
    ensures rounds <= |polls| && (v == Pending ==> rounds == |polls|) && (v != Pending ==> rounds > 0)
    ensures feeds == Feeding(polls, if v == Pending then rounds else rounds - 1, lead).0
    ensures WellPaced(polls) ==> (InTime(polls, rounds, lead) <==> FirstInTime(polls, rounds, lead))
    ensures InTime(polls, rounds, lead) ==> WellFed(feeds)
  {
    hide WellPaced, WellFed, InTime, FirstInTime;
    var tracker := new SelfTestTracker(0, gpioSafe);
    var lastFeedMs := 0;
    feeds, rounds, v := [0], 0, Pending;
    while rounds < |polls|
      invariant rounds <= |polls| && v == tracker.verdict == Pending
      invariant fresh(tracker) && tracker.startMs == 0 && tracker.gpioSafe == gpioSafe
      invariant tracker.wifiConnected == WifiSeen(polls, rounds) && tracker.mqttHealthy == MqttSeen(polls, rounds)
      invariant rounds > 0 ==> gpioSafe
      invariant forall k :: 0 <= k < rounds ==> !Healthy(polls, k) && !Expired(polls, k)
      invariant (feeds, lastFeedMs) == Feeding(polls, rounds, lead)
      decreases |polls| - rounds
    {
      var p := polls[rounds];
      tracker.Observe(p.wifi, p.mqtt);
      rounds := rounds + 1;
      v := tracker.Evaluate(p.evalAt);
      assert tracker.wifiConnected == WifiSeen(polls, rounds) && tracker.mqttHealthy == MqttSeen(polls, rounds);
      if v != Pending {
        ghost var i := rounds - 1;
        assert v == Passed ==> Healthy(polls, i);
        assert v == Failed("timeout") ==> Expired(polls, i) && !Healthy(polls, i);
        WatchdogReport(polls, rounds, i, lead);
        return;
      }
      var sinceFeed := if p.now >= lastFeedMs then p.now - lastFeedMs else 0;
      if sinceFeed >= FEED_INTERVAL_MS {
        feeds := feeds + [lead + p.fedAt];
        lastFeedMs := p.now;
      }
    }
    WatchdogReport(polls, rounds, rounds, lead);
  }

  lemma WatchdogReport(polls: seq<Poll>, n: nat, fed: nat, lead: nat)
    requires fed <= n <= |polls|
    ensures WellPaced(polls) ==> (InTime(polls, n, lead) <==> FirstInTime(polls, n, lead))
    ensures InTime(polls, n, lead) ==> WellFed(Feeding(polls, fed, lead).0)
  {
    hide WellPaced, WellFed, EndsInTime, FirstInTime, Feeding;
    if WellPaced(polls) {
      FedInTimeExactly(polls, n, lead);
    }
    if InTime(polls, n, lead) {
      InTimeIsWellFed(polls, fed, lead);
    }
  }

  // ----- the task -----

  /** Either mark, cut anywhere, is a step of the device and keeps it bootable. */
  lemma MarkIsStep(c: seq<byte>, d: seq<byte>, passed: bool, cut: CutPoint, image0: seq<byte>, image1: seq<byte>,
                   hash: seq<byte> -> Digest, published: set<Digest>)
    requires SlotsUntouched(c, d) && Resolve(OtadataOf(c)).isTrial
    requires OtadataOf(d) == if passed then MarkValid(OtadataOf(c), cut) else MarkInvalid(OtadataOf(c), cut)
    ensures var before := UpdateCheck.DeviceOf(c, image0, image1); var after := UpdateCheck.DeviceOf(d, image0, image1);
            && after == DeviceRuns.DeviceStep(before, DeviceRuns.Judge(passed, cut))
            && (DeviceRuns.Safe(before, hash, published) ==> DeviceRuns.Safe(after, hash, published))
  {
    hide Resolve, MarkValid, MarkInvalid, SlotOf, OtadataOf, DeviceRuns.Safe;
    var before := UpdateCheck.DeviceOf(c, image0, image1);
    if DeviceRuns.Safe(before, hash, published) {
      DeviceRuns.StepSafeExactly(before, DeviceRuns.Judge(passed, cut), hash, published);
    }
  }

  datatype TestOutcome = Skipped | NoReceiver | Waiting | Confirmed | ConfirmFailed | RolledBack

  /** Nothing happens unless a trial is active and both signals can be received.
      Then a pass marks it valid, a failure marks it invalid, and never both. */
  method SelfTestTask(storage: EspFlashStorage, receivers: bool, polls: seq<Poll>, gpioSafe: bool, lead: nat,
                      ghost hash: seq<byte> -> Digest, ghost published: set<Digest>,
                      ghost image0: seq<byte>, ghost image1: seq<byte>)
    returns (outcome: TestOutcome, ghost cut: CutPoint)
    requires storage.Valid()
    modifies storage.flash, storage.flash.cells
    ensures SlotsUntouched(old(storage.Cells()), storage.Cells())
    ensures old(storage.flash.tick) <= storage.flash.tick
    ensures var o := old(storage.Sectors());
            var fate := MarkFate(storage.flash.plan, AfterReads(storage.flash.plan, old(storage.flash.tick)));
            if !old(storage.Readable()) || !Resolve(o).isTrial then outcome == Skipped && storage.Sectors() == o
            else if !receivers then outcome == NoReceiver && storage.Sectors() == o
            else if gpioSafe && Passes(polls) then
              && outcome == (if fate.0.Ok? then Confirmed else ConfirmFailed) && cut == fate.1
              && storage.Sectors() == MarkValid(o, cut)
            else if (!gpioSafe && polls != []) || TimesOut(polls) then
              outcome == RolledBack && cut == fate.1 && storage.Sectors() == MarkInvalid(o, cut)
            else outcome == Waiting && storage.Sectors() == o
    // A device that boots a complete image still does, wherever the mark stopped.
    ensures DeviceRuns.Safe(UpdateCheck.DeviceOf(old(storage.Cells()), image0, image1), hash, published) ==>
              DeviceRuns.Safe(UpdateCheck.DeviceOf(storage.Cells(), image0, image1), hash, published)
  {
    hide Resolve, MarkValid, MarkInvalid, SlotOf, OtadataOf, MarkFate;
    hide UpdateCheck.DeviceOf, DeviceRuns.DeviceStep, DeviceRuns.Safe;
    ghost var before := storage.Cells();
    cut := BeforeErase;
    var res := storage.ResolveOtadata();
    if res.Err? || !res.value.isTrial {
      return Skipped, cut;
    }
    if !receivers {
      return NoReceiver, cut;
    }
    var verdict, feeds, rounds := Observe(polls, gpioSafe, lead);
    match verdict {
      case Pending =>
        outcome := Waiting;
      case Passed =>
        var marked;
        marked, cut := storage.MarkValid();
        MarkIsStep(before, storage.Cells(), true, cut, image0, image1, hash, published);
        outcome := if marked.Ok? then Confirmed else ConfirmFailed;
      case Failed(reason) =>
        var marked;
        marked, cut := storage.MarkInvalid();
        MarkIsStep(before, storage.Cells(), false, cut, image0, image1, hash, published);
        outcome := RolledBack;
    }
  }
}
