/** The whole life of one device over its flash cells: update checks, self-tests and
    boots in any order, each by the code that performs it. */
module Lifetime {
  import opened Bytes
  import opened Partition
  import opened Arbitration
  import opened Flash
  import opened OtaRuns
  import opened DeviceRuns
  import opened UpdateCheck
  import HeadGrammar
  import SelfTest
  import Session
  import Transport

  /** One thing that happens to the device, with all that its surroundings decide. */
  datatype Episode =
    | Check(stream: seq<byte>, plan: nat -> Transport.ReadFate, expected: Digest)
    | TrialTest(receivers: bool, polls: seq<SelfTest.Poll>, gpioSafe: bool, lead: nat)
    | Boot

  datatype Report = Checked(r: Result<CheckOutcome, OtaError>) | Tested(outcome: SelfTest.TestOutcome) | Booted

  /** What became of one episode: its events, what it reported, and the number of
      flash operations when it ended. */
  datatype Stage = Stage(events: seq<Event>, report: Report, end: nat)

  // ----- what an episode makes -----

  predicate Readable(plan: nat -> Fate, tick: nat) {
    plan(tick).Works? && plan(tick + 1).Works?
  }

  ghost predicate LinkWorks(plan: nat -> Transport.ReadFate, n: nat) {
    forall t :: 0 <= t < n ==> plan(t).Delivers?
  }

  ghost predicate FlashWorks(plan: nat -> Fate, from: nat, to: nat) {
    forall t :: from <= t < to ==> plan(t).Works?
  }

  /** A check reports what the peer's stream and the devices explain. If it streamed an
      image, it updated the slot it had to target; otherwise it did nothing. */
  ghost predicate CheckMakes(episode: Episode, o: Otadata, plan: nat -> Fate, tick: nat, stage: Stage,
                             hash: seq<byte> -> Digest)
    requires episode.Check?
  {
    && stage.report.Checked?
    && (exists n: nat :: Explains(stage.report.r, episode.stream, episode.expected, hash,
          Session.Working(LinkWorks(episode.plan, n), FlashWorks(plan, AfterReads(plan, tick), stage.end))))
    && if Streamed(stage.report.r)
       then exists mem, marked, cut, length, n ::
              CheckUpdates(stage.events, TargetSlot(o, Readable(plan, tick)), mem, marked, cut, episode, hash,
                           length, n)
              && (stage.report.r.Ok? ==> marked && cut == Written(32))
       else stage.events == []
  }

  ghost predicate CheckUpdates(events: seq<Event>, target: Slot, mem: seq<byte>, marked: bool, cut: CutPoint,
                               episode: Episode, hash: seq<byte> -> Digest, length: nat, n: nat)
    requires episode.Check?
  {
    && |mem| == OTA_SLOT_SIZE
    && IsUpdate(events, target, mem, marked, cut, episode.stream, episode.expected, hash, length, n)
  }

  /** On working devices a check reports what is read off the peer's stream. */
  lemma WorkingCheck(episode: Episode, o: Otadata, plan: nat -> Fate, tick: nat, stage: Stage,
                     hash: seq<byte> -> Digest, e: HeadGrammar.HeadEvent, n: nat)
    requires episode.Check? && CheckMakes(episode, o, plan, tick, stage, hash)
    requires (forall k: nat :: episode.plan(k).Delivers?) && FlashWorks(plan, AfterReads(plan, tick), stage.end)
    requires HeadGrammar.IsVerdict(episode.stream, e, n)
    ensures stage.report.r == ResultOf(episode.stream, episode.expected, hash, e, n)
  {
    hide HeadGrammar.IsVerdict, Explains, ResultOf, CheckUpdates;
    Determined(stage.report.r, episode.stream, episode.expected, hash, e, n);
  }

  /** A self-test makes one mark, as its verdict says and cut where its operations
      stopped, or nothing. */
  ghost predicate TestMakes(episode: Episode, o: Otadata, plan: nat -> Fate, tick: nat, stage: Stage)
    requires episode.TrialTest?
  {
    var fate := MarkFate(plan, AfterReads(plan, tick));
    if !Readable(plan, tick) || !Resolve(o).isTrial then stage.events == [] && stage.report == Tested(SelfTest.Skipped)
    else if !episode.receivers then stage.events == [] && stage.report == Tested(SelfTest.NoReceiver)
    else if episode.gpioSafe && SelfTest.Passes(episode.polls) then
      && stage.events == [Judge(true, fate.1)]
      && stage.report == Tested(if fate.0.Ok? then SelfTest.Confirmed else SelfTest.ConfirmFailed)
    else if (!episode.gpioSafe && episode.polls != []) || SelfTest.TimesOut(episode.polls) then
      stage.events == [Judge(false, fate.1)] && stage.report == Tested(SelfTest.RolledBack)
    else stage.events == [] && stage.report == Tested(SelfTest.Waiting)
  }

  /** How far the bootloader's step on a trial comes: it reads both entries, the one
      it boots again, and rewrites that. */
  function BootCut(o: Otadata, plan: nat -> Fate, tick: nat): CutPoint {
    if Readable(plan, tick) && Resolve(o).isTrial && plan(tick + 2).Works? then RewriteFate(plan, tick + 3).1
    else BeforeErase
  }

  /** The whole effect of one episode on a device whose flash has made `tick` operations. */
  ghost predicate Makes(episode: Episode, o: Otadata, plan: nat -> Fate, tick: nat, stage: Stage,
                        hash: seq<byte> -> Digest)
  {
    && tick <= stage.end
    && match episode
       case Check(_, _, _) => CheckMakes(episode, o, plan, tick, stage, hash)
       case TrialTest(_, _, _, _) => TestMakes(episode, o, plan, tick, stage)
       case Boot => stage.events == [PowerOn(BootCut(o, plan, tick))] && stage.report == Booted
  }

  /** Both assumptions hold for whatever starts now: no check during a trial, and none
      that targets the running slot. */
  predicate StartsGuarded(episode: Episode, o: Otadata, readable: bool) {
    episode.Check? ==> RulesMet(o, TargetSlot(o, readable)) == Rules(true, true)
  }

  function RulesAt(episode: Episode, o: Otadata, readable: bool): Rules {
    if episode.Check? then RulesMet(o, TargetSlot(o, readable)) else Rules(true, true)
  }

  /** What an episode makes is a history of the device that meets the rules its start met. */
  lemma MakesRun(episode: Episode, d: Device, plan: nat -> Fate, tick: nat, stage: Stage,
                 hash: seq<byte> -> Digest, published: set<Digest>)
    requires Makes(episode, d.otadata, plan, tick, stage, hash)
    requires episode.Check? ==> episode.expected in published
    ensures IsDeviceRun(d, stage.events, RulesAt(episode, d.otadata, Readable(plan, tick)), hash, published)
  {
    hide Resolve, RulesMet, IsDeviceRun, Explains, IsImage, SelfTest.Passes, SelfTest.TimesOut, BootCut, MarkFate;
    var o, readable := d.otadata, Readable(plan, tick);
    EmptyRun(d, RulesAt(episode, o, readable), hash, published);
    match episode
    case Check(_, _, _) =>
      if Streamed(stage.report.r) {
        var mem, marked, cut, length, n :|
          CheckUpdates(stage.events, TargetSlot(o, readable), mem, marked, cut, episode, hash, length, n);
        UpdateIsRun(d, TargetSlot(o, readable), mem, marked, length, cut, hash, published);
      }
    case TrialTest(_, _, _, _) =>
      if stage.events != [] {
        SingleRun(d, stage.events[0], Rules(true, true), hash, published);
      }
    case Boot =>
      SingleRun(d, stage.events[0], Rules(true, true), hash, published);
  }

  // ----- whole lives -----

  function Events(stages: seq<Stage>): seq<Event> {
    if stages == [] then [] else Events(stages[..|stages| - 1]) + stages[|stages| - 1].events
  }

  function TickAfter(start: nat, stages: seq<Stage>): nat {
    if stages == [] then start else stages[|stages| - 1].end
  }

  /** The device when episode `i` starts. */
  function DeviceAt(d: Device, stages: seq<Stage>, i: nat): Device
    requires i <= |stages|
  {
    DeviceRun(d, Events(stages[..i]))
  }

  /** Stage `i` is what its episode makes of the device and the flash that the stages before it left. */
  ghost predicate MadeAt(d: Device, plan: nat -> Fate, start: nat, episodes: seq<Episode>, stages: seq<Stage>,
                         hash: seq<byte> -> Digest, i: nat)
    requires i < |episodes| == |stages|
  {
    Makes(episodes[i], DeviceAt(d, stages, i).otadata, plan, TickAfter(start, stages[..i]), stages[i], hash)
  }

  ghost predicate GuardedAt(d: Device, plan: nat -> Fate, start: nat, episodes: seq<Episode>, stages: seq<Stage>,
                            i: nat)
    requires i < |episodes| == |stages|
  {
    StartsGuarded(episodes[i], DeviceAt(d, stages, i).otadata, Readable(plan, TickAfter(start, stages[..i])))
  }

  ghost predicate IsLife(d: Device, plan: nat -> Fate, start: nat, episodes: seq<Episode>, stages: seq<Stage>,
                         hash: seq<byte> -> Digest)
  {
    && |stages| == |episodes|
    && forall i :: 0 <= i < |stages| ==> MadeAt(d, plan, start, episodes, stages, hash, i)
  }

  /** Every check of a life started outside a trial and targeted the inactive slot. */
  ghost predicate IsGuardedLife(d: Device, plan: nat -> Fate, start: nat, episodes: seq<Episode>, stages: seq<Stage>)
    requires |stages| == |episodes|
  {
    forall i :: 0 <= i < |stages| ==> GuardedAt(d, plan, start, episodes, stages, i)
  }

  /** A stage does not depend on what comes after it. */
  lemma StageStands(d: Device, plan: nat -> Fate, start: nat, episodes: seq<Episode>, stages: seq<Stage>,
                    episode: Episode, stage: Stage, hash: seq<byte> -> Digest, i: nat)
    requires i < |stages| == |episodes|
    ensures var (es, ss) := (episodes + [episode], stages + [stage]);
            && (MadeAt(d, plan, start, es, ss, hash, i) <==> MadeAt(d, plan, start, episodes, stages, hash, i))
            && (GuardedAt(d, plan, start, es, ss, i) <==> GuardedAt(d, plan, start, episodes, stages, i))
  {
    hide Makes, StartsGuarded, DeviceRun, Readable, Events, TickAfter;
    assert (stages + [stage])[..i] == stages[..i];
  }

  lemma LastStage(d: Device, plan: nat -> Fate, start: nat, episodes: seq<Episode>, stages: seq<Stage>,
                  episode: Episode, stage: Stage, hash: seq<byte> -> Digest)
    requires |stages| == |episodes|
    ensures var (es, ss, n) := (episodes + [episode], stages + [stage], |stages|);
            var (now, tick) := (DeviceRun(d, Events(stages)), TickAfter(start, stages));
            && Events(ss) == Events(stages) + stage.events && TickAfter(start, ss) == stage.end
            && (MadeAt(d, plan, start, es, ss, hash, n) <==> Makes(episode, now.otadata, plan, tick, stage, hash))
            && (GuardedAt(d, plan, start, es, ss, n) <==>
                  StartsGuarded(episode, now.otadata, Readable(plan, tick)))
  {
    hide Makes, StartsGuarded, DeviceRun, Readable;
    assert (stages + [stage])[..|stages|] == stages;
  }

  lemma LifeSnoc(d: Device, plan: nat -> Fate, start: nat, episodes: seq<Episode>, stages: seq<Stage>,
                 episode: Episode, stage: Stage, hash: seq<byte> -> Digest)
    requires |stages| == |episodes|
    ensures var (es, ss) := (episodes + [episode], stages + [stage]);
            var (now, tick) := (DeviceRun(d, Events(stages)), TickAfter(start, stages));
            && Events(ss) == Events(stages) + stage.events && TickAfter(start, ss) == stage.end
            && (IsLife(d, plan, start, es, ss, hash) <==>
                  IsLife(d, plan, start, episodes, stages, hash)
                  && Makes(episode, now.otadata, plan, tick, stage, hash))
            && (IsGuardedLife(d, plan, start, es, ss) <==>
                  IsGuardedLife(d, plan, start, episodes, stages)
                  && StartsGuarded(episode, now.otadata, Readable(plan, tick)))
  {
    hide MadeAt, GuardedAt, Makes, StartsGuarded, DeviceRun, Readable, Events, TickAfter;
    var es, ss, n := episodes + [episode], stages + [stage], |stages|;
    LastStage(d, plan, start, episodes, stages, episode, stage, hash);
    forall i | 0 <= i < n
      ensures MadeAt(d, plan, start, es, ss, hash, i) <==> MadeAt(d, plan, start, episodes, stages, hash, i)
      ensures GuardedAt(d, plan, start, es, ss, i) <==> GuardedAt(d, plan, start, episodes, stages, i)
    {
      StageStands(d, plan, start, episodes, stages, episode, stage, hash, i);
    }
    assert IsLife(d, plan, start, es, ss, hash) <==>
           IsLife(d, plan, start, episodes, stages, hash) && MadeAt(d, plan, start, es, ss, hash, n);
    assert IsGuardedLife(d, plan, start, es, ss) <==>
           IsGuardedLife(d, plan, start, episodes, stages) && GuardedAt(d, plan, start, es, ss, n);
  }

  /** A life is a history of the device, and a guarded one meets both rules throughout. */
  lemma {:induction false} LifeIsRun(d: Device, plan: nat -> Fate, start: nat, episodes: seq<Episode>,
                                     stages: seq<Stage>, hash: seq<byte> -> Digest, published: set<Digest>)
    requires IsLife(d, plan, start, episodes, stages, hash)
    requires forall i :: 0 <= i < |episodes| && episodes[i].Check? ==> episodes[i].expected in published
    ensures var guarded := IsGuardedLife(d, plan, start, episodes, stages);
            IsDeviceRun(d, Events(stages), Rules(guarded, guarded), hash, published)
    decreases |stages|
  {
    hide IsDeviceRun, DeviceRun, IsLife, IsGuardedLife, Makes, StartsGuarded, RulesAt, Readable, Events, TickAfter;
    LifeShape(d, plan, start, episodes, stages, hash);
    var guarded := IsGuardedLife(d, plan, start, episodes, stages);
    if stages == [] {
      EmptyRun(d, Rules(guarded, guarded), hash, published);
    } else {
      var n := |stages| - 1;
      var (es, ss) := (episodes[..n], stages[..n]);
      assert episodes == es + [episodes[n]] && stages == ss + [stages[n]];
      LifeSnoc(d, plan, start, es, ss, episodes[n], stages[n], hash);
      LifeIsRun(d, plan, start, es, ss, hash, published);
      var now, tick := DeviceRun(d, Events(ss)), TickAfter(start, ss);
      MakesRun(episodes[n], now, plan, tick, stages[n], hash, published);
      var before := IsGuardedLife(d, plan, start, es, ss);
      var met := RulesAt(episodes[n], now.otadata, Readable(plan, tick));
      GuardedStart(episodes[n], now.otadata, Readable(plan, tick));
      RunRelaxes(d, Events(ss), Rules(before, before), Rules(guarded, guarded), hash, published);
      RunRelaxes(now, stages[n].events, met, Rules(guarded, guarded), hash, published);
      RunsJoin(d, Events(ss), stages[n].events, Rules(guarded, guarded), hash, published);
    }
  }

  lemma LifeShape(d: Device, plan: nat -> Fate, start: nat, episodes: seq<Episode>, stages: seq<Stage>,
                  hash: seq<byte> -> Digest)
    requires IsLife(d, plan, start, episodes, stages, hash)
    ensures |stages| == |episodes| && (stages == [] ==> Events(stages) == [])
  {
    hide Makes;
  }

  lemma GuardedStart(episode: Episode, o: Otadata, readable: bool)
    ensures StartsGuarded(episode, o, readable) ==> RulesAt(episode, o, readable) == Rules(true, true)
  {}

  /** A safe device stays safe throughout its life if and only if every step is
      harmless; and if every check started outside a trial and targeted the inactive
      slot, it is safe at the end and the slot that boots holds a complete image. */
  lemma LifeSafe(d: Device, plan: nat -> Fate, start: nat, episodes: seq<Episode>, stages: seq<Stage>,
                 hash: seq<byte> -> Digest, published: set<Digest>)
    requires IsLife(d, plan, start, episodes, stages, hash) && Safe(d, hash, published)
    requires forall i :: 0 <= i < |episodes| && episodes[i].Check? ==> episodes[i].expected in published
    ensures StaysSafe(d, Events(stages), hash, published) <==> AllHarmless(d, Events(stages))
    ensures IsGuardedLife(d, plan, start, episodes, stages) ==>
              var end := DeviceRun(d, Events(stages));
              && StaysSafe(d, Events(stages), hash, published)
              && Safe(end, hash, published) && Complete(end, end.Active(), hash, published)
  {
    hide IsLife, IsGuardedLife, IsDeviceRun, DeviceRun, AllHarmless, StaysSafe, Events;
    hide Complete, Settled, View, Resolve;
    LifeShape(d, plan, start, episodes, stages, hash);
    var guarded := IsGuardedLife(d, plan, start, episodes, stages);
    LifeIsRun(d, plan, start, episodes, stages, hash, published);
    RunSafeExactly(d, Events(stages), Rules(guarded, guarded), hash, published);
    if guarded {
      GuardedRunIsHarmless(d, Events(stages), hash, published);
      RunSafe(d, Events(stages), hash, published);
    }
  }

  // ----- the code -----

  /** The cells of a storage as a device, with the images recorded for its slots. */
  ghost predicate Shows(d: Device, storage: EspFlashStorage)
    requires storage.Valid()
    reads storage.flash.cells
  {
    d == DeviceOf(storage.Cells(), d.image0, d.image1)
  }

  lemma ShownByContents(d: Device, c: seq<byte>, image0: seq<byte>, image1: seq<byte>)
    requires |c| == CAPACITY && SameContents(d, DeviceOf(c, image0, image1))
    ensures d == DeviceOf(c, d.image0, d.image1)
  {}

  /** The bootloader's step on the entry it boots. */
  method PowerUp(storage: EspFlashStorage) returns (ghost cut: CutPoint)
    requires storage.Valid()
    modifies storage.flash, storage.flash.cells
    ensures old(storage.flash.tick) <= storage.flash.tick
    ensures cut == BootCut(old(storage.Sectors()), storage.flash.plan, old(storage.flash.tick))
    ensures storage.Sectors() == BootStep(old(storage.Sectors()), cut)
    ensures SlotsUntouched(old(storage.Cells()), storage.Cells())
  {
    hide Resolve, ToBytes, FromBytes, SlotOf, RewriteFate;
    cut := BeforeErase;
    var res := storage.ResolveOtadata();
    if res.Err? || !res.value.isTrial {
      return;
    }
    var entry := storage.ReadSectorEntry(res.value.activeSector);
    if entry.Err? {
      return;
    }
    var e := entry.value;
    var r;
    r, cut := storage.RewriteSector(res.value.activeSector,
                                    e.(otaState := if e.otaState == IMG_NEW then IMG_PENDING_VERIFY else IMG_ABORTED));
  }

  lemma BootIsStep(c: seq<byte>, d: seq<byte>, cut: CutPoint, image0: seq<byte>, image1: seq<byte>)
    requires SlotsUntouched(c, d) && OtadataOf(d) == BootStep(OtadataOf(c), cut)
    ensures DeviceOf(d, image0, image1) == DeviceStep(DeviceOf(c, image0, image1), PowerOn(cut))
  {
    hide BootStep, SlotOf, OtadataOf;
  }

  /** The device after at most one event that is neither an update nor a commit. */
  lemma SingleStep(d: Device, e: Event)
    ensures DeviceRun(d, [e]) == DeviceStep(d, e) && DeviceRun(d, []) == d
  {
    hide DeviceStep;
    assert [e][1..] == [];
    assert DeviceRun(DeviceStep(d, e), []) == DeviceStep(d, e);
  }

  method LiveTest(storage: EspFlashStorage, episode: Episode, ghost hash: seq<byte> -> Digest,
                  ghost published: set<Digest>, ghost d: Device)
    returns (report: Report, ghost events: seq<Event>)
    requires storage.Valid() && episode.TrialTest? && Shows(d, storage)
    modifies storage.flash, storage.flash.cells
    ensures old(storage.flash.tick) <= storage.flash.tick
    ensures TestMakes(episode, d.otadata, storage.flash.plan, old(storage.flash.tick),
                      Stage(events, report, storage.flash.tick))
    ensures Shows(DeviceRun(d, events), storage)
  {
    hide Resolve, SlotOf, OtadataOf, DeviceRun, DeviceStep, MarkValid, MarkInvalid, MarkFate, Safe;
    hide SelfTest.Passes, SelfTest.TimesOut;
    ghost var before, tick := storage.Cells(), storage.flash.tick;
    var outcome;
    ghost var cut;
    outcome, cut := SelfTest.SelfTestTask(storage, episode.receivers, episode.polls, episode.gpioSafe, episode.lead,
                                          hash, published, d.image0, d.image1);
    report := Tested(outcome);
    ghost var marked, passed := outcome in {SelfTest.Confirmed, SelfTest.ConfirmFailed, SelfTest.RolledBack},
                                !outcome.RolledBack?;
    events := if marked then [Judge(passed, cut)] else [];
    SingleStep(d, Judge(passed, cut));
    if marked {
      SelfTest.MarkIsStep(before, storage.Cells(), passed, cut, d.image0, d.image1, hash, published);
    }
  }

  method LiveCheck(storage: EspFlashStorage, leftover: array<byte>, sectorBuf: array<byte>, episode: Episode,
                   hash: seq<byte> -> Digest, ghost published: set<Digest>, ghost d: Device)
    returns (report: Report, ghost events: seq<Event>)
    requires storage.Valid() && leftover.Length == Transport.READ_CHUNK && sectorBuf.Length == 4096
    requires leftover != storage.flash.cells && sectorBuf != storage.flash.cells && leftover != sectorBuf
    requires episode.Check? && episode.expected in published && Shows(d, storage)
    modifies leftover, sectorBuf, storage.flash, storage.flash.cells
    ensures old(storage.flash.tick) <= storage.flash.tick
    ensures CheckMakes(episode, d.otadata, storage.flash.plan, old(storage.flash.tick),
                       Stage(events, report, storage.flash.tick), hash)
    ensures Shows(DeviceRun(d, events), storage)
  {
    hide Resolve, SlotOf, OtadataOf, DeviceRun, IsDeviceRun, IsUpdate, Explains, Safe, RulesMet;
    ghost var tick := storage.flash.tick;
    var link := new Transport.Link(episode.stream, episode.plan);
    var r;
    ghost var marked, cut;
    r, marked, cut, events := CheckImage(link, storage, leftover, sectorBuf, episode.expected, hash, published,
                                         d.image0, d.image1);
    report := Checked(r);
    ShownByContents(DeviceRun(d, events), storage.Cells(), d.image0, d.image1);
    LinkFault(link, 0, link.tick);
    FlashFault(storage.flash, AfterReads(storage.flash.plan, tick), storage.flash.tick);
    if Streamed(r) {
      ghost var target := TargetSlot(d.otadata, Readable(storage.flash.plan, tick));
      ghost var mem := SlotOf(storage.Cells(), target);
      ghost var length, n :|
        IsUpdate(events, target, mem, marked, cut, episode.stream, episode.expected, hash, length, n);
      assert CheckUpdates(events, target, mem, marked, cut, episode, hash, length, n);
    }
  }

  lemma LinkFault(link: Transport.Link, from: nat, n: nat)
    ensures link.NoFault(0, n) <==> LinkWorks(link.plan, n)
  {}

  lemma FlashFault(flash: FlashStorage, from: nat, to: nat)
    ensures flash.NoFault(from, to) <==> FlashWorks(flash.plan, from, to)
  {}

  /** One episode, performed. */
  method Live(storage: EspFlashStorage, leftover: array<byte>, sectorBuf: array<byte>, episode: Episode,
              hash: seq<byte> -> Digest, ghost published: set<Digest>, ghost d: Device)
    returns (report: Report, ghost events: seq<Event>)
    requires storage.Valid() && leftover.Length == Transport.READ_CHUNK && sectorBuf.Length == 4096
    requires leftover != storage.flash.cells && sectorBuf != storage.flash.cells && leftover != sectorBuf
    requires episode.Check? ==> episode.expected in published
    requires Shows(d, storage)
    modifies leftover, sectorBuf, storage.flash, storage.flash.cells
    ensures Makes(episode, d.otadata, storage.flash.plan, old(storage.flash.tick),
                  Stage(events, report, storage.flash.tick), hash)
    ensures Shows(DeviceRun(d, events), storage)
  {
    hide Resolve, SlotOf, OtadataOf, DeviceRun, DeviceStep, BootStep, BootCut, CheckMakes, TestMakes, SlotsUntouched;
    match episode {
      case Check(_, _, _) =>
        report, events := LiveCheck(storage, leftover, sectorBuf, episode, hash, published, d);
      case TrialTest(_, _, _, _) =>
        report, events := LiveTest(storage, episode, hash, published, d);
      case Boot =>
        ghost var before := storage.Cells();
        var cut := PowerUp(storage);
        report, events := Booted, [PowerOn(cut)];
        BootIsStep(before, storage.Cells(), cut, d.image0, d.image1);
        SingleStep(d, PowerOn(cut));
    }
  }

  /** A whole life, performed: the reports and the cells are those of the stages that
      the episodes make one after the other. */
  method LiveThrough(storage: EspFlashStorage, leftover: array<byte>, sectorBuf: array<byte>, episodes: seq<Episode>,
                     hash: seq<byte> -> Digest, ghost published: set<Digest>, ghost d: Device)
    returns (reports: seq<Report>, ghost stages: seq<Stage>)
    requires storage.Valid() && leftover.Length == Transport.READ_CHUNK && sectorBuf.Length == 4096
    requires leftover != storage.flash.cells && sectorBuf != storage.flash.cells && leftover != sectorBuf
    requires forall i :: 0 <= i < |episodes| && episodes[i].Check? ==> episodes[i].expected in published
    requires Shows(d, storage)
    modifies leftover, sectorBuf, storage.flash, storage.flash.cells
    ensures IsLife(d, storage.flash.plan, old(storage.flash.tick), episodes, stages, hash)
    ensures Shows(DeviceRun(d, Events(stages)), storage)
    ensures TickAfter(old(storage.flash.tick), stages) == storage.flash.tick
    ensures |reports| == |stages| && forall i :: 0 <= i < |reports| ==> reports[i] == stages[i].report
  {
    hide DeviceRun, IsLife, IsGuardedLife, Makes, Shows, Events, TickAfter;
    ghost var plan, start := storage.flash.plan, storage.flash.tick;
    reports, stages := [], [];
    NoLife(d, plan, start, hash);
    var i := 0;
    while i < |episodes|
      invariant 0 <= i <= |episodes| && |reports| == |stages| == i
      invariant IsLife(d, plan, start, episodes[..i], stages, hash) && Shows(DeviceRun(d, Events(stages)), storage)
      invariant TickAfter(start, stages) == storage.flash.tick
      invariant forall k :: 0 <= k < i ==> reports[k] == stages[k].report
    {
      ghost var now := DeviceRun(d, Events(stages));
      var report;
      ghost var events;
      report, events := Live(storage, leftover, sectorBuf, episodes[i], hash, published, now);
      ghost var stage := Stage(events, report, storage.flash.tick);
      LifeSnoc(d, plan, start, episodes[..i], stages, episodes[i], stage, hash);
      assert episodes[..i + 1] == episodes[..i] + [episodes[i]];
      RunsJoin(d, Events(stages), events, Rules(false, false), hash, published);
      reports, stages := reports + [report], stages + [stage];
      i := i + 1;
    }
    assert episodes[..|episodes|] == episodes;
  }

  lemma NoLife(d: Device, plan: nat -> Fate, start: nat, hash: seq<byte> -> Digest)
    ensures IsLife(d, plan, start, [], [], hash) && DeviceRun(d, Events([])) == d && TickAfter(start, []) == start
  {}
}
