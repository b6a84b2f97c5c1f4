/** Whole histories of the A/B update: updates of either slot, self-test
    outcomes, bootloader steps and power cuts, in any order. */
module OtaRuns {
  import opened Partition
  import opened Arbitration
  import Crc

  /** An update marks the slot it was given, which is meant to be the inactive one. */
  datatype OtaEvent =
    | Update(target: Slot, cut: CutPoint)
    | Confirm(cut: CutPoint)
    | Invalidate(cut: CutPoint)
    | Boot(cut: CutPoint)

  /** The self-test marks only trials. */
  predicate Possible(r: Resolution, e: OtaEvent) {
    (e.Confirm? || e.Invalidate?) ==> r.isTrial
  }

  /** The discipline the firmware leaves to its operator: no update starts during a trial. */
  predicate Disciplined(r: Resolution, e: OtaEvent) {
    e.Update? ==> !r.isTrial
  }

  /** The aim an unreadable `otadata` can spoil: every update targets the inactive slot. */
  predicate Aimed(r: Resolution, e: OtaEvent) {
    e.Update? ==> e.target == r.activeSlot.Other()
  }

  /** Which of the two assumptions a history is known to meet. */
  datatype Rules = Rules(disciplined: bool, aimed: bool)

  predicate Allowed(r: Resolution, e: OtaEvent, rules: Rules) {
    Possible(r, e) && (rules.disciplined ==> Disciplined(r, e)) && (rules.aimed ==> Aimed(r, e))
  }

  function Step(o: Otadata, e: OtaEvent): Otadata {
    match e
    case Update(target, cut) => MarkTrialBoot(o, target, cut)
    case Confirm(cut) => MarkValid(o, cut)
    case Invalidate(cut) => MarkInvalid(o, cut)
    case Boot(cut) => BootStep(o, cut)
  }

  function Run(o: Otadata, es: seq<OtaEvent>): Otadata
    decreases |es|
  {
    if es == [] then o else Run(Step(o, es[0]), es[1..])
  }

  ghost predicate IsRun(o: Otadata, es: seq<OtaEvent>, rules: Rules)
    decreases |es|
  {
    es != [] ==> Allowed(Resolve(o), es[0], rules) && IsRun(Step(o, es[0]), es[1..], rules)
  }

  function Fresh(): Otadata {
    Otadata(Erased(), Erased())
  }

  // ----- what an event does to the claims -----

  function ClaimsStep(v: Claims, e: OtaEvent, outcome: Outcome): (w: Claims)
    requires v.InRange()
    ensures w.InRange()
  {
    var r := v.Resolve();
    match e
    case Update(target, _) =>
      Rewritten(v, r.activeSector.Other(), ClaimOf(NextSeqForSlot(r.activeSeq, target), IMG_NEW), outcome)
    case Confirm(_) => Rewritten(v, r.activeSector, ClaimOf(r.activeSeq, IMG_VALID), outcome)
    case Invalidate(_) => Rewritten(v, r.activeSector, Nothing, outcome)
    case Boot(_) => if r.isTrial then Rewritten(v, r.activeSector, Booted(v.Active()), outcome) else v
  }

  function StepOutcome(o: Otadata, e: OtaEvent): Outcome {
    match e
    case Update(target, cut) => OutcomeOf(TrialEntry(o, target), cut)
    case Confirm(cut) => OutcomeOf(MarkedEntry(o, IMG_VALID), cut)
    case Invalidate(cut) => OutcomeOf(MarkedEntry(o, IMG_INVALID), cut)
    case Boot(cut) => OutcomeOf(BootedEntry(o), cut)
  }

  /** Exactly what each event, cut anywhere, does to what arbitration sees. */
  lemma StepClaims(o: Otadata, e: OtaEvent)
    ensures View(Step(o, e)) == ClaimsStep(View(o), e, StepOutcome(o, e))
  {
    hide Resolve, View, MarkTrialBoot, MarkInvalid, MarkValid, BootStep, OutcomeOf, Rewritten;
    match e
    case Update(target, cut) => MarkTrialBootClaims(o, target, cut);
    case Confirm(cut) => MarkClaims(o, cut);
    case Invalidate(cut) => MarkClaims(o, cut);
    case Boot(cut) => BootClaims(o, cut);
  }

  lemma FreshClaims()
    ensures View(Fresh()) == Claims(Nothing, Nothing)
  {
    ErasedIsNotValid();
  }

  // ----- how far apart two usable entries are -----

  function Gap(v: Claims): nat
    requires v.claim0.Claim? && v.claim1.Claim?
  {
    if v.claim0.otaSeq >= v.claim1.otaSeq then v.claim0.otaSeq - v.claim1.otaSeq
    else v.claim1.otaSeq - v.claim0.otaSeq
  }

  predicate Near(v: Claims) {
    v.claim0.Claim? && v.claim1.Claim? ==> 1 <= Gap(v) <= 2
  }

  predicate Consecutive(v: Claims) {
    v.claim0.Claim? && v.claim1.Claim? ==> Gap(v) == 1
  }

  lemma ClaimsStepNear(v: Claims, e: OtaEvent, outcome: Outcome)
    requires v.InRange() && Near(v) && Possible(v.Resolve(), e)
    ensures Near(ClaimsStep(v, e, outcome))
  {
  }

  /** An update of the running slot whose entry counts, beside the entry that selected it. */
  predicate Misplaces(v: Claims, e: OtaEvent, outcome: Outcome)
    requires v.InRange()
  {
    && e.Update? && e.target == v.Resolve().activeSlot && v.Active().Claim?
    && outcome == Landed && CanOutrank(v.Resolve(), e.target)
  }

  /** The one way to lose consecutive numbers. */
  lemma ClaimsStepConsecutive(v: Claims, e: OtaEvent, outcome: Outcome)
    requires v.InRange() && Consecutive(v) && Possible(v.Resolve(), e)
    ensures Consecutive(ClaimsStep(v, e, outcome)) <==> !Misplaces(v, e, outcome)
  {
    if e.Update? {
      NextSeqExact(v.Resolve().activeSeq, e.target);
    }
  }

  /** A complete trial mark keeps the entries consecutive if and only if it is
      for the inactive slot, or no entry selected the running one, or its number cannot count. */
  lemma FullMarkKeepsConsecutive(o: Otadata, slot: Slot)
    requires Consecutive(View(o))
    ensures Consecutive(View(MarkTrialBoot(o, slot, Written(32)))) <==>
            slot == Resolve(o).activeSlot.Other() || View(o).Active().Nothing? || !CanOutrank(Resolve(o), slot)
  {
    hide Resolve, View, MarkTrialBoot, OutcomeOf;
    var e := Update(slot, Written(32));
    StepClaims(o, e);
    ResolveByClaims(o);
    TrialLands(o, slot);
    ClaimsStepConsecutive(View(o), e, Landed);
  }

  lemma {:induction false} RunNear(o: Otadata, es: seq<OtaEvent>, rules: Rules)
    requires IsRun(o, es, rules) && Near(View(o))
    ensures Near(View(Run(o, es)))
    decreases |es|
  {
    hide Near, Resolve, View, Step, ClaimsStep;
    if es == [] {
    } else {
      StepClaims(o, es[0]);
      ResolveByClaims(o);
      ClaimsStepNear(View(o), es[0], StepOutcome(o, es[0]));
      RunNear(Step(o, es[0]), es[1..], rules);
    }
  }

  lemma {:induction false} RunConsecutive(o: Otadata, es: seq<OtaEvent>, rules: Rules)
    requires IsRun(o, es, rules) && rules.aimed && Consecutive(View(o))
    ensures Consecutive(View(Run(o, es)))
    decreases |es|
  {
    hide Consecutive, Resolve, View, Step, ClaimsStep;
    if es == [] {
    } else {
      StepClaims(o, es[0]);
      ResolveByClaims(o);
      ClaimsStepConsecutive(View(o), es[0], StepOutcome(o, es[0]));
      RunConsecutive(Step(o, es[0]), es[1..], rules);
    }
  }

  ghost predicate NeverMisplaces(o: Otadata, es: seq<OtaEvent>)
    decreases |es|
  {
    es != [] ==> !Misplaces(View(o), es[0], StepOutcome(o, es[0])) && NeverMisplaces(Step(o, es[0]), es[1..])
  }

  ghost predicate StaysConsecutive(o: Otadata, es: seq<OtaEvent>)
    decreases |es|
  {
    Consecutive(View(o)) && (es != [] ==> StaysConsecutive(Step(o, es[0]), es[1..]))
  }

  /** Over every history, the entries are consecutive throughout if and only if no
      step lands an update of the running slot beside the entry that selected it. */
  lemma {:induction false} RunConsecutiveExactly(o: Otadata, es: seq<OtaEvent>, rules: Rules)
    requires IsRun(o, es, rules) && Consecutive(View(o))
    ensures StaysConsecutive(o, es) <==> NeverMisplaces(o, es)
    decreases |es|
  {
    hide Consecutive, Misplaces, Resolve, View, Step, ClaimsStep;
    if es == [] {
    } else {
      StepClaims(o, es[0]);
      ResolveByClaims(o);
      ClaimsStepConsecutive(View(o), es[0], StepOutcome(o, es[0]));
      if Consecutive(View(Step(o, es[0]))) {
        RunConsecutiveExactly(Step(o, es[0]), es[1..], rules);
      }
    }
  }

  predicate OppositeSlots(e0: Entry, e1: Entry) {
    Slot.FromSeq(e0.otaSeq) == Slot.FromSeq(e1.otaSeq).Other()
  }

  function Distance(e0: Entry, e1: Entry): nat {
    if e0.otaSeq >= e1.otaSeq then e0.otaSeq - e1.otaSeq else e1.otaSeq - e0.otaSeq
  }

  /** The two usable entries, if there are two, differ by one or two and name
      opposite slots exactly when by one. */
  predicate Spaced(o: Otadata, byOne: bool) {
    var (e0, e1) := (FromBytes(o.sector0), FromBytes(o.sector1));
    IsUsable(e0) && IsUsable(e1) ==>
      && 1 <= Distance(e0, e1) <= 2
      && (OppositeSlots(e0, e1) <==> Distance(e0, e1) == 1)
      && (byOne ==> Distance(e0, e1) == 1)
  }

  /** Whatever the history, two usable entries differ by one or two; by one, and so
      on opposite slots, if every update was aimed. */
  lemma TwoUsableEntries(es: seq<OtaEvent>, rules: Rules)
    requires IsRun(Fresh(), es, rules)
    ensures Spaced(Run(Fresh(), es), rules.aimed)
  {
    hide IsRun, Run, Fresh, Spaced, View, Near, Consecutive;
    FreshIsSettled();
    RunNear(Fresh(), es, rules);
    if rules.aimed {
      RunConsecutive(Fresh(), es, rules);
    }
    ClaimsSpaced(Run(Fresh(), es), rules.aimed);
  }

  lemma ClaimsSpaced(o: Otadata, byOne: bool)
    requires Near(View(o)) && (byOne ==> Consecutive(View(o)))
    ensures Spaced(o, byOne)
  {
    var (e0, e1) := (FromBytes(o.sector0), FromBytes(o.sector1));
    if IsUsable(e0) && IsUsable(e1) {
      assert EntryClaim(e0) == Claim(e0.otaSeq, e0.otaState);
      assert EntryClaim(e1) == Claim(e1.otaSeq, e1.otaState);
      SlotsByDistance(e0, e1);
    }
  }

  lemma SlotsByDistance(e0: Entry, e1: Entry)
    requires e0.otaSeq != 0 && e1.otaSeq != 0 && 1 <= Distance(e0, e1) <= 2
    ensures OppositeSlots(e0, e1) <==> Distance(e0, e1) == 1
  {
  }

  // ----- rollback -----

  /** What arbitration falls back to when the active entry is lost. */
  function Fallback(v: Claims): Resolution {
    v.With(v.ActiveSector(), Nothing).Resolve()
  }

  /** Rejecting the active trial of any two sectors changes the slot if and only if
      the other entry names the other slot or, without one, ota_1 was running. */
  lemma InvalidateFlips(o: Otadata)
    requires Resolve(o).isTrial
    ensures Resolve(MarkInvalid(o, Written(32))).activeSlot == Resolve(o).activeSlot.Other()
            <==> if View(o).Inactive().Claim?
                 then Slot.FromSeq(View(o).Inactive().otaSeq) == Resolve(o).activeSlot.Other()
                 else Resolve(o).activeSlot == Ota1
  {
    hide Resolve, View, MarkInvalid, MarkValid;
    MarksResolve(o, Written(32));
    ResolveByClaims(o);
  }

  /** From any two sectors with an active trial, exactly where an interrupted mark leads. */
  lemma MarksResolve(o: Otadata, cut: CutPoint)
    requires Resolve(o).isTrial
    ensures Resolve(MarkInvalid(o, cut)) == if cut == BeforeErase then Resolve(o) else Fallback(View(o))
    ensures Resolve(MarkValid(o, cut)) == match OutcomeOf(MarkedEntry(o, IMG_VALID), cut)
              case Untouched => Resolve(o)
              case Cleared => Fallback(View(o))
              case Landed => Resolve(o).(isTrial := false)
    ensures cut == Written(32) ==> OutcomeOf(MarkedEntry(o, IMG_VALID), cut) == Landed
  {
    hide Resolve, View, MarkInvalid, MarkValid, OutcomeOf, Fallback, NewEntry;
    MarkClaims(o, cut);
    ResolveByClaims(MarkInvalid(o, cut));
    ResolveByClaims(MarkValid(o, cut));
    RewrittenTrial(View(o), OutcomeOf(MarkedEntry(o, IMG_VALID), cut));
    RewrittenTrial(View(o), OutcomeOf(MarkedEntry(o, IMG_INVALID), cut));
    UntouchedIsCut(MarkedEntry(o, IMG_INVALID), cut);
    NewEntryLands(Resolve(o).activeSeq, IMG_VALID);
  }

  lemma UntouchedIsCut(e: Entry, cut: CutPoint)
    ensures OutcomeOf(e, cut) == Untouched <==> cut == BeforeErase
  {
  }

  // ----- what boots do to a trial -----

  /** A new trial (state 0) still runs after one boot, as pending (state 1). A second boot
      without a confirmation abandons it for what arbitration falls back to. */
  lemma UnconfirmedTrialEnds(o: Otadata)
    requires Resolve(o).isTrial && View(o).Active().otaState == 0
    ensures var once := BootStep(o, Written(32));
            && Resolve(once) == Resolve(o) && View(once).Active() == Claim(Resolve(o).activeSeq, 1)
            && Resolve(BootStep(once, Written(32))) == Fallback(View(o))
  {
    hide Resolve, View, BootStep, Fallback;
    var once := BootStep(o, Written(32));
    ResolveByClaims(o);
    ResolveByClaims(once);
    ResolveByClaims(BootStep(once, Written(32)));
    BootClaims(o, Written(32));
    BootLands(o);
    BootedTrial(View(o));
    BootClaims(once, Written(32));
    BootLands(once);
    BootedTrial(View(once));
    FallbackOf(View(o), View(once));
  }

  lemma BootLands(o: Otadata)
    requires Resolve(o).isTrial
    ensures OutcomeOf(BootedEntry(o), Written(32)) == Landed
  {
    hide OutcomeOf, FromBytes, ResolveActiveSlot, Crc.SeqCrc;
    ResolveByClaims(o);
    assert View(o).Active() == EntryClaim(FromBytes(o.At(Resolve(o).activeSector)));
    EndOutcomes(BootedEntry(o));
  }

  lemma BootedTrial(v: Claims)
    requires v.InRange() && v.Resolve().isTrial
    ensures var w := v.With(v.Resolve().activeSector, Booted(v.Active()));
            if v.Active().otaState == 0
            then w.Resolve() == v.Resolve() && w.Active() == Claim(v.Resolve().activeSeq, 1)
            else w.Resolve() == Fallback(v)
  {}

  lemma FallbackOf(v: Claims, w: Claims)
    requires v.InRange() && v.Resolve().isTrial && v.Active().otaState == 0
    requires w == v.With(v.Resolve().activeSector, Booted(v.Active()))
    ensures Fallback(w) == Fallback(v)
  {}

  /** A confirmed trial is not touched by any boot. */
  lemma ConfirmedTrialStays(o: Otadata, cut: CutPoint)
    requires Resolve(o).isTrial
    ensures var confirmed := MarkValid(o, Written(32));
            Resolve(confirmed) == Resolve(o).(isTrial := false) && BootStep(confirmed, cut) == confirmed
  {
    hide Resolve, View, MarkValid, MarkInvalid, OutcomeOf;
    MarksResolve(o, Written(32));
  }

  lemma RewrittenTrial(v: Claims, outcome: Outcome)
    requires v.InRange() && v.Resolve().isTrial
    ensures Rewritten(v, v.Resolve().activeSector, Nothing, outcome).Resolve()
         == if outcome == Untouched then v.Resolve() else Fallback(v)
    ensures Rewritten(v, v.Resolve().activeSector, ClaimOf(v.Resolve().activeSeq, IMG_VALID), outcome).Resolve()
         == match outcome
              case Untouched => v.Resolve()
              case Cleared => Fallback(v)
              case Landed => v.Resolve().(isTrial := false)
  {
    ConfirmedClaim(v);
  }

  lemma ConfirmedClaim(v: Claims)
    requires v.InRange() && v.Resolve().isTrial
    ensures v.With(v.ActiveSector(), Claim(v.Resolve().activeSeq, IMG_VALID)).Resolve()
         == v.Resolve().(isTrial := false)
  {
  }

  /** A trial stands on a settled entry, or is the very first (sequence 2, over the ota_0 default). */
  predicate Settled(v: Claims) {
    && Consecutive(v)
    && !v.Inactive().IsTrial()
    && (v.Active().IsTrial() && v.Inactive().Nothing? ==> v.Active().otaSeq == 2)
  }

  lemma ClaimsStepSettled(v: Claims, e: OtaEvent, outcome: Outcome)
    requires v.InRange() && Settled(v) && Allowed(v.Resolve(), e, Rules(true, true))
    ensures Settled(ClaimsStep(v, e, outcome))
  {
    if e.Update? {
      NextSeqPassive(v.Resolve().activeSeq);
      ConsecutiveSuccessor(v, outcome);
    }
  }

  lemma ConsecutiveSuccessor(v: Claims, outcome: Outcome)
    requires v.InRange() && Settled(v) && !v.Resolve().isTrial
    ensures var r := v.Resolve();
            Settled(Rewritten(v, r.activeSector.Other(), ClaimOf(r.activeSeq + 1, IMG_NEW), outcome))
  {
  }

  lemma {:induction false} RunSettled(o: Otadata, es: seq<OtaEvent>)
    requires IsRun(o, es, Rules(true, true)) && Settled(View(o))
    ensures Settled(View(Run(o, es)))
    decreases |es|
  {
    hide Settled, Resolve, View, Step, ClaimsStep;
    if es == [] {
    } else {
      StepClaims(o, es[0]);
      ResolveByClaims(o);
      ClaimsStepSettled(View(o), es[0], StepOutcome(o, es[0]));
      RunSettled(Step(o, es[0]), es[1..]);
    }
  }

  lemma SettledFallback(v: Claims)
    requires v.InRange() && v.Active().IsTrial() && Settled(v)
    ensures Fallback(v).activeSlot == v.Resolve().activeSlot.Other() && !Fallback(v).isTrial
  {
  }

  /** While a trial is active after a disciplined, aimed history, losing its entry
      selects the other slot, settled; so an interrupted rejection keeps the trial
      or rolls back, and an interrupted confirmation keeps it, rolls back or confirms. */
  lemma TrialCanBeUndone(es: seq<OtaEvent>, cut: CutPoint)
    requires IsRun(Fresh(), es, Rules(true, true)) && Resolve(Run(Fresh(), es)).isTrial
    ensures var o := Run(Fresh(), es); var back := Fallback(View(o));
            && back.activeSlot == Resolve(o).activeSlot.Other() && !back.isTrial
            && Resolve(MarkInvalid(o, cut)) == (if cut == BeforeErase then Resolve(o) else back)
            && Resolve(MarkValid(o, cut)) in {Resolve(o), back, Resolve(o).(isTrial := false)}
            && (cut == Written(32) ==> Resolve(MarkValid(o, cut)) == Resolve(o).(isTrial := false))
  {
    hide Resolve, View, MarkInvalid, MarkValid, Settled, Fallback, OutcomeOf, IsRun, Run;
    var o := Run(Fresh(), es);
    FreshIsSettled();
    RunSettled(Fresh(), es);
    ResolveByClaims(o);
    MarksResolve(o, cut);
    SettledFallback(View(o));
  }

  lemma FreshIsSettled()
    ensures Settled(View(Fresh())) && Near(View(Fresh())) && Consecutive(View(Fresh()))
  {
    FreshClaims();
  }

  // ----- two histories that break a rule -----

  /** Claims after events that all ran to their end. */
  function ClaimsRun(v: Claims, es: seq<OtaEvent>): (w: Claims)
    requires v.InRange()
    ensures w.InRange()
    decreases |es|
  {
    if es == [] then v else ClaimsRun(ClaimsStep(v, es[0], Landed), es[1..])
  }

  predicate ClaimsRunAllowed(v: Claims, es: seq<OtaEvent>, rules: Rules)
    requires v.InRange()
    decreases |es|
  {
    es != [] ==>
      Allowed(v.Resolve(), es[0], rules) && ClaimsRunAllowed(ClaimsStep(v, es[0], Landed), es[1..], rules)
  }

  predicate AreComplete(es: seq<OtaEvent>) {
    forall i :: 0 <= i < |es| ==> es[i].cut == Written(32) && !es[i].Boot?
  }

  lemma {:induction false} CompleteRun(o: Otadata, es: seq<OtaEvent>, rules: Rules)
    requires AreComplete(es)
    ensures View(Run(o, es)) == ClaimsRun(View(o), es)
    ensures IsRun(o, es, rules) <==> ClaimsRunAllowed(View(o), es, rules)
    decreases |es|
  {
    hide Resolve, View, Step, StepOutcome, ClaimsStep, Allowed, Claims.Resolve;
    if es == [] {
    } else {
      ResolveByClaims(o);
      StepClaims(o, es[0]);
      StepLands(o, es[0]);
      CompleteRun(Step(o, es[0]), es[1..], rules);
    }
  }

  lemma StepLands(o: Otadata, e: OtaEvent)
    requires e.cut == Written(32) && !e.Boot?
    ensures StepOutcome(o, e) == Landed
  {
    hide OutcomeOf, View, ResolveActiveSlot;
    ResolveByClaims(o);
    match e
    case Update(target, _) => TrialLands(o, target);
    case Confirm(_) => NewEntryLands(Resolve(o).activeSeq, IMG_VALID);
    case Invalidate(_) => NewEntryLands(Resolve(o).activeSeq, IMG_INVALID);
  }

  /** From the factory the first update that completes puts ota_1 on trial. */
  lemma FirstUpdate(es: seq<OtaEvent>)
    requires es == [Update(Ota1, Written(32))]
    ensures IsRun(Fresh(), es, Rules(true, true)) && Resolve(Run(Fresh(), es)) == Resolution(Ota1, 2, Sector1, true)
  {
    hide Resolve, View, Run, IsRun;
    var v1 := Claims(Nothing, Claim(2, IMG_NEW));
    FreshClaims();
    assert ClaimsStep(Claims(Nothing, Nothing), es[0], Landed) == v1;
    assert es[1..] == [] && ClaimsRun(v1, []) == v1;
    CompleteRun(Fresh(), es, Rules(true, true));
    ResolveByClaims(Run(Fresh(), es));
  }

  lemma NestedClaims(es: seq<OtaEvent>)
    requires var done := Written(32);
             es == [Update(Ota1, done), Update(Ota0, done), Update(Ota1, done), Invalidate(done)]
    ensures ClaimsRunAllowed(Claims(Nothing, Nothing), es, Rules(false, true))
    ensures ClaimsRun(Claims(Nothing, Nothing), es) == Claims(Claim(3, IMG_NEW), Nothing)
  {
    var v1 := Claims(Nothing, Claim(2, IMG_NEW));
    var v2 := Claims(Claim(3, IMG_NEW), Claim(2, IMG_NEW));
    var v3 := Claims(Claim(3, IMG_NEW), Claim(4, IMG_NEW));
    var v4 := Claims(Claim(3, IMG_NEW), Nothing);
    assert ClaimsStep(Claims(Nothing, Nothing), es[0], Landed) == v1 && ClaimsStep(v1, es[1], Landed) == v2;
    assert ClaimsStep(v2, es[2], Landed) == v3 && ClaimsStep(v3, es[3], Landed) == v4;
    assert es[1..][1..] == es[2..] && es[2..][1..] == es[3..] && es[3..][1..] == [];
    assert ClaimsRunAllowed(v4, [], Rules(false, true)) && ClaimsRun(v4, []) == v4;
    assert ClaimsRunAllowed(v3, es[3..], Rules(false, true)) && ClaimsRun(v3, es[3..]) == v4;
    assert ClaimsRunAllowed(v2, es[2..], Rules(false, true)) && ClaimsRun(v2, es[2..]) == v4;
    assert ClaimsRunAllowed(v1, es[1..], Rules(false, true)) && ClaimsRun(v1, es[1..]) == v4;
  }

  /** Updates during trials: two of them overwrite the entry the first trial stood
      on, so once the last is rejected nothing stands under the one before it, and
      rejecting that one boots the same slot again. Every update here is aimed. */
  lemma NestedUpdatesLoseTheWayBack(es: seq<OtaEvent>)
    requires var done := Written(32);
             es == [Update(Ota1, done), Update(Ota0, done), Update(Ota1, done), Invalidate(done)]
    ensures IsRun(Fresh(), es, Rules(false, true)) && RejectionKeepsSlot(Run(Fresh(), es))
  {
    hide Resolve, View, Run, IsRun, ClaimsRun, ClaimsRunAllowed, RejectionKeepsSlot;
    FreshClaims();
    NestedClaims(es);
    CompleteRun(Fresh(), es, Rules(false, true));
    RejectedOverNothing(Run(Fresh(), es));
  }

  predicate RejectionKeepsSlot(o: Otadata) {
    Resolve(o).isTrial && Resolve(MarkInvalid(o, Written(32))).activeSlot == Resolve(o).activeSlot
  }

  lemma RejectedOverNothing(o: Otadata)
    requires View(o) == Claims(Claim(3, IMG_NEW), Nothing)
    ensures RejectionKeepsSlot(o)
  {
    hide Resolve, View, MarkInvalid;
    ResolveByClaims(o);
    InvalidateFlips(o);
  }

  lemma MisaimedClaims(es: seq<OtaEvent>)
    requires es == [Update(Ota1, Written(32)), Confirm(Written(32)), Update(Ota1, Written(32))]
    ensures ClaimsRunAllowed(Claims(Nothing, Nothing), es, Rules(true, false))
    ensures ClaimsRun(Claims(Nothing, Nothing), es) == Claims(Claim(4, IMG_NEW), Claim(2, IMG_VALID))
  {
    var v1 := Claims(Nothing, Claim(2, IMG_NEW));
    var v2 := Claims(Nothing, Claim(2, IMG_VALID));
    var v3 := Claims(Claim(4, IMG_NEW), Claim(2, IMG_VALID));
    assert ClaimsStep(Claims(Nothing, Nothing), es[0], Landed) == v1 && ClaimsStep(v1, es[1], Landed) == v2;
    assert ClaimsStep(v2, es[2], Landed) == v3;
    assert es[1..][1..] == es[2..] && es[2..][1..] == [];
    assert ClaimsRunAllowed(v3, [], Rules(true, false)) && ClaimsRun(v3, []) == v3;
    assert ClaimsRunAllowed(v2, es[2..], Rules(true, false)) && ClaimsRun(v2, es[2..]) == v3;
    assert ClaimsRunAllowed(v1, es[1..], Rules(true, false)) && ClaimsRun(v1, es[1..]) == v3;
  }

  /** A misaimed update: with ota_1 confirmed and running, an update that marks ota_1
      itself leaves two entries that both name ota_1, and rejecting the trial boots
      ota_1 again. No update here starts during a trial. */
  lemma MisaimedUpdateLosesTheWayBack(es: seq<OtaEvent>)
    requires es == [Update(Ota1, Written(32)), Confirm(Written(32)), Update(Ota1, Written(32))]
    ensures IsRun(Fresh(), es, Rules(true, false))
    ensures var o := Run(Fresh(), es); !Consecutive(View(o)) && RejectionKeepsSlot(o)
  {
    hide Resolve, View, Run, IsRun, ClaimsRun, ClaimsRunAllowed, RejectionKeepsSlot;
    FreshClaims();
    MisaimedClaims(es);
    CompleteRun(Fresh(), es, Rules(true, false));
    RejectedOverSameSlot(Run(Fresh(), es));
  }

  lemma RejectedOverSameSlot(o: Otadata)
    requires View(o) == Claims(Claim(4, IMG_NEW), Claim(2, IMG_VALID))
    ensures RejectionKeepsSlot(o)
  {
    hide Resolve, View, MarkInvalid;
    ResolveByClaims(o);
    InvalidateFlips(o);
  }
}
