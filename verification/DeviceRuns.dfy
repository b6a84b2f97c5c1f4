/** The whole device over its history: slot contents as well as `otadata`. The
    slot that arbitration selects always holds a complete verified image. */
module DeviceRuns {
  import opened Bytes
  import opened Partition
  import opened Arbitration
  import opened OtaRuns

  /** `image0` and `image1` record what was hashed and accepted for each slot. */
  datatype Device = Device(otadata: Otadata, ota0: seq<byte>, ota1: seq<byte>, image0: seq<byte>, image1: seq<byte>) {
    function Mem(s: Slot): seq<byte> {
      if s == Ota0 then ota0 else ota1
    }

    function Image(s: Slot): seq<byte> {
      if s == Ota0 then image0 else image1
    }

    function WithMem(s: Slot, m: seq<byte>): Device {
      if s == Ota0 then this.(ota0 := m) else this.(ota1 := m)
    }

    function WithImage(s: Slot, m: seq<byte>): Device {
      if s == Ota0 then this.(image0 := m) else this.(image1 := m)
    }

    function Active(): Slot {
      Resolve(otadata).activeSlot
    }

    function Passive(): Slot {
      Active().Other()
    }
  }

  /** `Program` stands for every intermediate state of an update or an abort:
      the slot it was given may hold anything at all afterwards. */
  datatype Event =
    | Program(target: Slot, mem: seq<byte>)
    | Commit(target: Slot, length: nat, cut: CutPoint)
    | Judge(passed: bool, cut: CutPoint)
    | PowerOn(cut: CutPoint)

  /** A commit follows a matching digest; the self-test marks only trials. */
  ghost predicate Possible(d: Device, e: Event, hash: seq<byte> -> Digest, published: set<Digest>) {
    match e
    case Program(target, mem) => |mem| == OTA_SLOT_SIZE
    case Commit(target, length, cut) => length <= |d.Mem(target)| && hash(d.Mem(target)[..length]) in published
    case Judge(passed, cut) => Resolve(d.otadata).isTrial
    case PowerOn(cut) => true
  }

  predicate Disciplined(d: Device, e: Event) {
    (e.Program? || e.Commit?) ==> !Resolve(d.otadata).isTrial
  }

  predicate Aimed(d: Device, e: Event) {
    (e.Program? || e.Commit?) ==> e.target == d.Passive()
  }

  function OtaEventOf(e: Event): OtaEvent
    requires !e.Program?
  {
    match e
    case Commit(target, length, cut) => Update(target, cut)
    case Judge(passed, cut) => if passed then Confirm(cut) else Invalidate(cut)
    case PowerOn(cut) => Boot(cut)
  }

  function DeviceStep(d: Device, e: Event): Device {
    if e.Program? then d.WithMem(e.target, e.mem)
    else
      var d' := if e.Commit? && e.length <= |d.Mem(e.target)|
                then d.WithImage(e.target, d.Mem(e.target)[..e.length]) else d;
      d'.(otadata := Step(d.otadata, OtaEventOf(e)))
  }

  function DeviceRun(d: Device, es: seq<Event>): Device
    decreases |es|
  {
    if es == [] then d else DeviceRun(DeviceStep(d, es[0]), es[1..])
  }

  /** A history of the device; `rules` says which assumptions every step meets. */
  ghost predicate IsDeviceRun(d: Device, es: seq<Event>, rules: Rules,
                              hash: seq<byte> -> Digest, published: set<Digest>)
    decreases |es|
  {
    es != [] ==>
      && Possible(d, es[0], hash, published)
      && (rules.disciplined ==> Disciplined(d, es[0]))
      && (rules.aimed ==> Aimed(d, es[0]))
      && IsDeviceRun(DeviceStep(d, es[0]), es[1..], rules, hash, published)
  }

  /** The slot starts with the very bytes that were hashed and accepted for it. */
  ghost predicate Complete(d: Device, s: Slot, hash: seq<byte> -> Digest, published: set<Digest>) {
    d.Image(s) <= d.Mem(s) && hash(d.Image(s)) in published
  }

  /** The selected slot is complete, and during a trial so is the one to fall back to. */
  ghost predicate SlotsSafe(d: Device, r: Resolution, hash: seq<byte> -> Digest, published: set<Digest>) {
    && Complete(d, r.activeSlot, hash, published)
    && (r.isTrial ==> Complete(d, r.activeSlot.Other(), hash, published))
  }

  ghost predicate Safe(d: Device, hash: seq<byte> -> Digest, published: set<Digest>) {
    Settled(View(d.otadata)) && SlotsSafe(d, Resolve(d.otadata), hash, published)
  }

  // ----- which steps keep a device safe -----

  /** A trial mark that keeps the entries settled. Outside a trial it has to be for
      the inactive slot or stay without effect; during one it may not have erased
      anything the trial stands on. */
  predicate HarmlessMark(o: Otadata, target: Slot, cut: CutPoint) {
    var stored := OutcomeOf(TrialEntry(o, target), cut) == Landed && CanOutrank(Resolve(o), target);
    if !Resolve(o).isTrial then target == Resolve(o).activeSlot.Other() || !stored
    else cut == BeforeErase || (!stored && Resolve(o).activeSeq == 2)
  }

  /** What a step must respect. Programming is free in the inactive slot outside a
      trial; anywhere else the recorded image has to survive it. */
  predicate Harmless(d: Device, e: Event) {
    match e
    case Program(target, mem) => (target == d.Passive() && !Resolve(d.otadata).isTrial) || d.Image(target) <= mem
    case Commit(target, length, cut) => HarmlessMark(d.otadata, target, cut)
    case Judge(passed, cut) => true
    case PowerOn(cut) => true
  }

  lemma UpdateSettled(v: Claims, target: Slot, outcome: Outcome, cut: CutPoint)
    requires v.InRange() && Settled(v)
    ensures var (r, w) := (v.Resolve(), ClaimsStep(v, Update(target, cut), outcome));
            var stored := outcome == Landed && CanOutrank(r, target);
            Settled(w) <==> if !r.isTrial then target == r.activeSlot.Other() || !stored
                            else outcome == Untouched || (!stored && r.activeSeq == 2)
  {
    hide NextSeqForSlot;
    NextOfActive(v, target);
  }

  lemma NextOfActive(v: Claims, target: Slot)
    requires v.InRange()
    ensures var r := v.Resolve();
            ClaimOf(NextSeqForSlot(r.activeSeq, target), IMG_NEW)
            == if !CanOutrank(r, target) then Nothing
               else Claim(if target == r.activeSlot then r.activeSeq + 2 else r.activeSeq + 1, IMG_NEW)
  {
  }

  /** A trial mark of any slot, cut anywhere, leaves the entries settled if and only if it is harmless. */
  lemma MarkSettled(o: Otadata, target: Slot, cut: CutPoint)
    requires Settled(View(o))
    ensures var p := MarkTrialBoot(o, target, cut);
            && (Settled(View(p)) <==> HarmlessMark(o, target, cut))
            && (Resolve(p) == if TrialStored(o, target, p) then TrialResolution(Resolve(o), target) else Resolve(o))
            && (HarmlessMark(o, target, cut) && TrialStored(o, target, p) ==> target == Resolve(o).activeSlot.Other())
  {
    hide Resolve, View, MarkTrialBoot, Settled, OutcomeOf, TrialStored;
    var outcome := OutcomeOf(TrialEntry(o, target), cut);
    StepClaims(o, Update(target, cut));
    ResolveByClaims(o);
    UpdateSettled(View(o), target, outcome, cut);
    MarkTrialBootAtomic(o, target, cut);
    UntouchedIsCut(TrialEntry(o, target), cut);
  }

  predicate FallsBack(r: Resolution, r': Resolution) {
    r' == r || (r.isTrial && (r'.activeSlot == r.activeSlot || (!r'.isTrial && r'.activeSlot == r.activeSlot.Other())))
  }

  /** Where a self-test mark or a boot can leave arbitration, in a settled state. */
  lemma StepFallsBack(o: Otadata, e: OtaEvent)
    requires OtaRuns.Possible(Resolve(o), e) && !e.Update? && Settled(View(o))
    ensures Settled(View(Step(o, e))) && FallsBack(Resolve(o), Resolve(Step(o, e)))
  {
    hide Resolve, View, Step, Settled, FallsBack, StepOutcome;
    StepClaims(o, e);
    ResolveByClaims(o);
    ResolveByClaims(Step(o, e));
    ClaimsStepSettled(View(o), e, StepOutcome(o, e));
    ClaimsFallBack(View(o), e, StepOutcome(o, e));
  }

  lemma ClaimsFallBack(v: Claims, e: OtaEvent, outcome: Outcome)
    requires v.InRange() && Settled(v) && OtaRuns.Possible(v.Resolve(), e) && !e.Update?
    ensures FallsBack(v.Resolve(), ClaimsStep(v, e, outcome).Resolve())
  {
    if v.Resolve().isTrial {
      SettledFallback(v);
    }
  }

  lemma CommittedSlots(d: Device, target: Slot, length: nat, r: Resolution,
                       hash: seq<byte> -> Digest, published: set<Digest>)
    requires SlotsSafe(d, r, hash, published)
    requires length <= |d.Mem(target)| && hash(d.Mem(target)[..length]) in published
    ensures var d' := d.WithImage(target, d.Mem(target)[..length]);
            && SlotsSafe(d', r, hash, published)
            && (target == r.activeSlot.Other() ==> SlotsSafe(d', TrialResolution(r, target), hash, published))
  {
  }

  lemma RollbackSafe(d: Device, r: Resolution, r': Resolution, hash: seq<byte> -> Digest, published: set<Digest>)
    requires SlotsSafe(d, r, hash, published) && FallsBack(r, r')
    ensures SlotsSafe(d, r', hash, published)
  {
  }

  lemma OtadataIsNotMemory(d: Device, o: Otadata, r: Resolution, hash: seq<byte> -> Digest, published: set<Digest>)
    ensures SlotsSafe(d.(otadata := o), r, hash, published) <==> SlotsSafe(d, r, hash, published)
  {
  }

  lemma ProgrammedSlots(d: Device, target: Slot, mem: seq<byte>, r: Resolution,
                        hash: seq<byte> -> Digest, published: set<Digest>)
    requires SlotsSafe(d, r, hash, published)
    ensures SlotsSafe(d.WithMem(target, mem), r, hash, published)
            <==> (target == r.activeSlot.Other() && !r.isTrial) || d.Image(target) <= mem
  {
  }

  /** Every possible step of a safe device, whatever slot it writes and wherever the
      power goes: the device stays safe if and only if the step is harmless. */
  lemma StepSafeExactly(d: Device, e: Event, hash: seq<byte> -> Digest, published: set<Digest>)
    requires Safe(d, hash, published) && Possible(d, e, hash, published)
    ensures Safe(DeviceStep(d, e), hash, published) <==> Harmless(d, e)
  {
    hide Resolve, View, Settled, Step, SlotsSafe, HarmlessMark;
    if e.Program? {
      ProgrammedSlots(d, e.target, e.mem, Resolve(d.otadata), hash, published);
    } else if e.Commit? {
      CommitSafeExactly(d, e.target, e.length, e.cut, hash, published);
    } else {
      var o := Step(d.otadata, OtaEventOf(e));
      StepFallsBack(d.otadata, OtaEventOf(e));
      RollbackSafe(d, Resolve(d.otadata), Resolve(o), hash, published);
      OtadataIsNotMemory(d, o, Resolve(o), hash, published);
    }
  }

  lemma CommitSafeExactly(d: Device, target: Slot, length: nat, cut: CutPoint,
                          hash: seq<byte> -> Digest, published: set<Digest>)
    requires Safe(d, hash, published)
    requires length <= |d.Mem(target)| && hash(d.Mem(target)[..length]) in published
    ensures Safe(DeviceStep(d, Commit(target, length, cut)), hash, published) <==> HarmlessMark(d.otadata, target, cut)
  {
    hide Resolve, View, Settled, SlotsSafe, MarkTrialBoot, TrialStored, TrialResolution;
    var r, p := Resolve(d.otadata), MarkTrialBoot(d.otadata, target, cut);
    var d' := d.WithImage(target, d.Mem(target)[..length]);
    MarkSettled(d.otadata, target, cut);
    CommittedSlots(d, target, length, r, hash, published);
    OtadataIsNotMemory(d', p, Resolve(p), hash, published);
    assert DeviceStep(d, Commit(target, length, cut)) == d'.(otadata := p);
  }

  /** Under both assumptions no step does harm. */
  lemma GuardedIsHarmless(d: Device, e: Event)
    requires Disciplined(d, e) && Aimed(d, e)
    ensures Harmless(d, e)
  {
  }

  // ----- whole histories -----

  /** Histories join end to end. */
  lemma {:induction false} RunsJoin(d: Device, es: seq<Event>, fs: seq<Event>, rules: Rules,
                                    hash: seq<byte> -> Digest, published: set<Digest>)
    ensures DeviceRun(d, es + fs) == DeviceRun(DeviceRun(d, es), fs)
    ensures IsDeviceRun(d, es + fs, rules, hash, published) <==>
            IsDeviceRun(d, es, rules, hash, published) && IsDeviceRun(DeviceRun(d, es), fs, rules, hash, published)
    decreases |es|
  {
    hide Possible, Disciplined, Aimed, DeviceStep;
    if es == [] {
      assert es + fs == fs;
    } else {
      assert (es + fs)[0] == es[0] && (es + fs)[1..] == es[1..] + fs;
      RunsJoin(DeviceStep(d, es[0]), es[1..], fs, rules, hash, published);
    }
  }

  predicate Implies(strong: Rules, weak: Rules) {
    (weak.disciplined ==> strong.disciplined) && (weak.aimed ==> strong.aimed)
  }

  lemma {:induction false} RunRelaxes(d: Device, es: seq<Event>, strong: Rules, weak: Rules,
                                      hash: seq<byte> -> Digest, published: set<Digest>)
    requires IsDeviceRun(d, es, strong, hash, published) && Implies(strong, weak)
    ensures IsDeviceRun(d, es, weak, hash, published)
    decreases |es|
  {
    hide Possible, Disciplined, Aimed, DeviceStep;
    if es == [] {
    } else {
      RunRelaxes(DeviceStep(d, es[0]), es[1..], strong, weak, hash, published);
    }
  }

  /** A self-test mark or a boot is a history of its own, which meets every rule. */
  lemma SingleRun(d: Device, e: Event, rules: Rules, hash: seq<byte> -> Digest, published: set<Digest>)
    requires Possible(d, e, hash, published) && !e.Program? && !e.Commit?
    ensures IsDeviceRun(d, [e], rules, hash, published) && DeviceRun(d, [e]) == DeviceStep(d, e)
  {
    hide DeviceStep, Possible;
    assert [e][1..] == [];
    assert IsDeviceRun(DeviceStep(d, e), [], rules, hash, published);
    assert DeviceRun(DeviceStep(d, e), []) == DeviceStep(d, e);
  }

  ghost predicate AllHarmless(d: Device, es: seq<Event>)
    decreases |es|
  {
    es != [] ==> Harmless(d, es[0]) && AllHarmless(DeviceStep(d, es[0]), es[1..])
  }

  ghost predicate StaysSafe(d: Device, es: seq<Event>, hash: seq<byte> -> Digest, published: set<Digest>)
    decreases |es|
  {
    Safe(d, hash, published) && (es != [] ==> StaysSafe(DeviceStep(d, es[0]), es[1..], hash, published))
  }

  /** Over every history of a safe device, it is safe throughout if and only if every step is harmless. */
  lemma {:induction false} RunSafeExactly(d: Device, es: seq<Event>, rules: Rules,
                                          hash: seq<byte> -> Digest, published: set<Digest>)
    requires Safe(d, hash, published) && IsDeviceRun(d, es, rules, hash, published)
    ensures StaysSafe(d, es, hash, published) <==> AllHarmless(d, es)
    decreases |es|
  {
    hide Safe, Possible, Harmless, DeviceStep;
    if es == [] {
    } else {
      StepSafeExactly(d, es[0], hash, published);
      if Safe(DeviceStep(d, es[0]), hash, published) {
        RunSafeExactly(DeviceStep(d, es[0]), es[1..], rules, hash, published);
      }
    }
  }

  lemma {:induction false} GuardedRunIsHarmless(d: Device, es: seq<Event>,
                                                hash: seq<byte> -> Digest, published: set<Digest>)
    requires IsDeviceRun(d, es, Rules(true, true), hash, published)
    ensures AllHarmless(d, es)
    decreases |es|
  {
    hide Possible, Harmless, Disciplined, Aimed, DeviceStep;
    if es == [] {
    } else {
      GuardedIsHarmless(d, es[0]);
      GuardedRunIsHarmless(DeviceStep(d, es[0]), es[1..], hash, published);
    }
  }

  lemma {:induction false} SafeAtTheEnd(d: Device, es: seq<Event>, hash: seq<byte> -> Digest, published: set<Digest>)
    requires StaysSafe(d, es, hash, published)
    ensures Safe(DeviceRun(d, es), hash, published)
    decreases |es|
  {
    hide Safe, DeviceStep;
    if es == [] {
    } else {
      SafeAtTheEnd(DeviceStep(d, es[0]), es[1..], hash, published);
    }
  }

  lemma RunSafe(d: Device, es: seq<Event>, hash: seq<byte> -> Digest, published: set<Digest>)
    requires Safe(d, hash, published) && IsDeviceRun(d, es, Rules(true, true), hash, published)
    ensures Safe(DeviceRun(d, es), hash, published)
  {
    hide Safe, IsDeviceRun, AllHarmless, StaysSafe;
    GuardedRunIsHarmless(d, es, hash, published);
    RunSafeExactly(d, es, Rules(true, true), hash, published);
    SafeAtTheEnd(d, es, hash, published);
  }

  /** From a factory device with a good image in ota_0 and erased `otadata`, if no
      update starts during a trial and every update targets the inactive slot, the
      slot that boots always holds a complete, verified, unmodified image. */
  lemma ActiveSlotAlwaysComplete(d: Device, es: seq<Event>, hash: seq<byte> -> Digest, published: set<Digest>)
    requires d.otadata == Fresh() && Complete(d, Ota0, hash, published)
    requires IsDeviceRun(d, es, Rules(true, true), hash, published)
    ensures var d' := DeviceRun(d, es); Complete(d', d'.Active(), hash, published)
  {
    FactoryIsSafe(d, hash, published);
    RunSafe(d, es, hash, published);
  }

  lemma FactoryIsSafe(d: Device, hash: seq<byte> -> Digest, published: set<Digest>)
    requires d.otadata == Fresh() && Complete(d, Ota0, hash, published)
    ensures Safe(d, hash, published)
  {
    hide View, Resolve, Settled;
    FreshClaims();
    FreshIsSettled();
    ResolveByClaims(d.otadata);
  }

  /** During a trial the inactive slot is the way back: programmed, it is what a
      failed self-test boots. */
  lemma ProgramDuringTrial(d: Device, mem: seq<byte>, hash: seq<byte> -> Digest, published: set<Digest>)
    requires Safe(d, hash, published) && Resolve(d.otadata).isTrial
    ensures var d' := DeviceStep(DeviceStep(d, Program(d.Passive(), mem)), Judge(false, Written(32)));
            d'.Active() == d.Passive() && d'.Mem(d'.Active()) == mem
  {
    hide Resolve, View, Settled, MarkInvalid;
    MarksResolve(d.otadata, Written(32));
    ResolveByClaims(d.otadata);
    SettledFallback(View(d.otadata));
  }

  /** The running slot, programmed, is what boots next. */
  lemma ProgramRunningSlot(d: Device, mem: seq<byte>, hash: seq<byte> -> Digest, published: set<Digest>)
    requires Safe(d, hash, published) && |mem| == OTA_SLOT_SIZE
    ensures var d' := DeviceStep(d, Program(d.Active(), mem));
            && d'.Active() == d.Active() && d'.Mem(d'.Active()) == mem
            && (Safe(d', hash, published) <==> d.Image(d.Active()) <= mem)
  {
    hide Resolve, View, Settled;
    StepSafeExactly(d, Program(d.Active(), mem), hash, published);
  }
}
