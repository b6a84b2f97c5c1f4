/** The two `otadata` sectors as the update, the self-test and the bootloader
    rewrite them, with a power cut allowed before the erase or after any byte. */
module Arbitration {
  import opened Bytes
  import opened Partition
  import Crc

  datatype Otadata = Otadata(sector0: EntryBytes, sector1: EntryBytes) {
    function At(s: Sector): EntryBytes {
      if s == Sector0 then sector0 else sector1
    }

    function With(s: Sector, b: EntryBytes): Otadata {
      if s == Sector0 then this.(sector0 := b) else this.(sector1 := b)
    }
  }

  function Erased(): EntryBytes {
    seq(32, _ => 0xFF)
  }

  function Resolve(o: Otadata): Resolution {
    ResolveActiveSlot(FromBytes(o.sector0), FromBytes(o.sector1))
  }

  /** Where an erase-then-write stops: before the (atomic) erase, or after `k` bytes; 32 is the full write. */
  datatype Cut = BeforeErase | Written(k: nat)

  type CutPoint = c: Cut | c.Written? ==> c.k <= 32 witness BeforeErase

  function Rewrite(o: Otadata, s: Sector, e: Entry, cut: CutPoint): Otadata {
    match cut
    case BeforeErase => o
    case Written(k) => o.With(s, Torn(ToBytes(e), k))
  }

  function TrialEntry(o: Otadata, slot: Slot): Entry {
    NewEntry(NextSeqForSlot(Resolve(o).activeSeq, slot), IMG_NEW)
  }

  function MarkTrialBoot(o: Otadata, slot: Slot, cut: CutPoint): Otadata {
    Rewrite(o, Resolve(o).activeSector.Other(), TrialEntry(o, slot), cut)
  }

  function MarkValid(o: Otadata, cut: CutPoint): Otadata {
    Rewrite(o, Resolve(o).activeSector, NewEntry(Resolve(o).activeSeq, IMG_VALID), cut)
  }

  function MarkInvalid(o: Otadata, cut: CutPoint): Otadata {
    Rewrite(o, Resolve(o).activeSector, NewEntry(Resolve(o).activeSeq, IMG_INVALID), cut)
  }

  /** The bootloader's effect on the entry it boots: a new image becomes pending,
      one that is still pending at the next boot is aborted. */
  function BootStep(o: Otadata, cut: CutPoint): Otadata {
    var s := Resolve(o).activeSector;
    var e := FromBytes(o.At(s));
    if !Resolve(o).isTrial then o
    else Rewrite(o, s, e.(otaState := if e.otaState == IMG_NEW then IMG_PENDING_VERIFY else IMG_ABORTED), cut)
  }

  // ----- what arbitration sees of the sectors -----

  datatype Claim = Nothing | Claim(otaSeq: u32, otaState: u32) {
    predicate IsTrial() {
      Claim? && IsTrialState(otaState)
    }
  }

  datatype Claims = Claims(claim0: Claim, claim1: Claim) {
    function At(s: Sector): Claim {
      if s == Sector0 then claim0 else claim1
    }

    function With(s: Sector, c: Claim): Claims {
      if s == Sector0 then this.(claim0 := c) else this.(claim1 := c)
    }

    function ActiveSector(): Sector {
      if claim1.Nothing? || (claim0.Claim? && claim0.otaSeq >= claim1.otaSeq) then Sector0 else Sector1
    }

    function Active(): Claim {
      At(ActiveSector())
    }

    function Inactive(): Claim {
      At(ActiveSector().Other())
    }

    function Resolve(): Resolution {
      var c := Active();
      if c.Nothing? then Resolution(Ota0, 1, Sector0, false)
      else Resolution(Slot.FromSeq(c.otaSeq), c.otaSeq, ActiveSector(), c.IsTrial())
    }

    /** Every claim's sequence number is one that `IsUsable` admits. */
    predicate InRange() {
      && (claim0.Claim? ==> 1 <= claim0.otaSeq < 0xFFFF_FFFF)
      && (claim1.Claim? ==> 1 <= claim1.otaSeq < 0xFFFF_FFFF)
    }
  }

  function ClaimOf(otaSeq: u32, otaState: u32): Claim {
    if otaSeq == 0 || otaSeq == 0xFFFF_FFFF || otaState == IMG_INVALID || otaState == IMG_ABORTED then Nothing
    else Claim(otaSeq, otaState)
  }

  function EntryClaim(e: Entry): Claim {
    if IsCrcValid(e) then ClaimOf(e.otaSeq, e.otaState) else Nothing
  }

  function View(o: Otadata): (v: Claims)
    ensures v.InRange()
  {
    Claims(EntryClaim(FromBytes(o.sector0)), EntryClaim(FromBytes(o.sector1)))
  }

  lemma ResolveByClaims(o: Otadata)
    ensures Resolve(o) == View(o).Resolve()
  {
    var e0, e1 := FromBytes(o.sector0), FromBytes(o.sector1);
    var v0, v1 := IsCrcValid(e0), IsCrcValid(e1);
    assert View(o).claim0 == if v0 then ClaimOf(e0.otaSeq, e0.otaState) else Nothing;
    assert View(o).claim1 == if v1 then ClaimOf(e1.otaSeq, e1.otaState) else Nothing;
  }

  /** What an interrupted rewrite amounts to: nothing yet, an unreadable sector, or the whole entry. */
  datatype Outcome = Untouched | Cleared | Landed

  function OutcomeOf(e: Entry, cut: CutPoint): Outcome {
    match cut
    case BeforeErase => Untouched
    case Written(k) => if Torn(ToBytes(e), k) == ToBytes(e) then Landed else Cleared
  }

  function Rewritten(v: Claims, s: Sector, c: Claim, outcome: Outcome): (w: Claims)
    ensures v.InRange() && (c.Claim? ==> 1 <= c.otaSeq < 0xFFFF_FFFF) ==> w.InRange()
  {
    match outcome
    case Untouched => v
    case Cleared => v.With(s, Nothing)
    case Landed => v.With(s, c)
  }

  /** Exactly what a rewrite cut at any byte shows: the old claims, its sector
      cleared, or its sector with the new claim when the bytes are all there. */
  lemma RewriteClaims(o: Otadata, s: Sector, e: Entry, cut: CutPoint)
    requires IsCrcValid(e) && e.otaSeq != 0
    ensures View(Rewrite(o, s, e, cut)) == Rewritten(View(o), s, ClaimOf(e.otaSeq, e.otaState), OutcomeOf(e, cut))
  {
    hide Torn, ToBytes, FromBytes, IsCrcValid;
    if cut.Written? {
      TornClaim(e, cut.k);
    }
  }

  lemma TornClaim(e: Entry, k: nat)
    requires IsCrcValid(e) && e.otaSeq != 0 && k <= 32
    ensures EntryClaim(FromBytes(Torn(ToBytes(e), k)))
         == if Torn(ToBytes(e), k) == ToBytes(e) then ClaimOf(e.otaSeq, e.otaState) else Nothing
  {
    hide Torn, ToBytes, FromBytes, IsCrcValid;
    TornEntry(e, k);
    FromBytesToBytes(e);
    assert EntryClaim(e) == ClaimOf(e.otaSeq, e.otaState);
  }

  /** A write that ran to its end has landed; one that programmed nothing has not. */
  lemma EndOutcomes(e: Entry)
    requires IsCrcValid(e) && e.otaSeq != 0
    ensures OutcomeOf(e, Written(32)) == Landed && OutcomeOf(e, Written(0)) == Cleared
  {
    assert Torn(ToBytes(e), 32) == ToBytes(e);
    assert Torn(ToBytes(e), 0) == Erased();
    ErasedIsNotValid();
    FromBytesToBytes(e);
  }

  /** Erased flash is never a valid entry, whatever else the rules say of its number. */
  lemma ErasedIsNotValid()
    ensures !IsCrcValid(FromBytes(Erased()))
  {
    ErasedWord(Erased()[28..32]);
    ErasedWord(Erased()[0..4]);
    Crc.ErasedCrc(0xFFFF_FFFF);
  }

  lemma ErasedWord(b: seq<byte>)
    requires |b| == 4 && forall i :: 0 <= i < 4 ==> b[i] == 0xFF
    ensures FromLe(b) == 0xFFFF_FFFF
  {
  }

  lemma NewEntryClaims(o: Otadata, s: Sector, otaSeq: u32, otaState: u32, cut: CutPoint)
    requires otaSeq != 0
    ensures View(Rewrite(o, s, NewEntry(otaSeq, otaState), cut))
         == Rewritten(View(o), s, ClaimOf(otaSeq, otaState), OutcomeOf(NewEntry(otaSeq, otaState), cut))
  {
    hide View, ToBytes, Torn, FromBytes, OutcomeOf, Rewrite;
    RewriteClaims(o, s, NewEntry(otaSeq, otaState), cut);
  }

  /** A trial mark of either slot touches the inactive sector only. */
  lemma MarkTrialBootClaims(o: Otadata, slot: Slot, cut: CutPoint)
    ensures var v := View(o); var r := v.Resolve();
            && Resolve(o) == r
            && View(MarkTrialBoot(o, slot, cut)) == Rewritten(v, r.activeSector.Other(),
                 ClaimOf(NextSeqForSlot(r.activeSeq, slot), IMG_NEW), OutcomeOf(TrialEntry(o, slot), cut))
  {
    hide View, ToBytes, Torn, FromBytes, IsCrcValid, ResolveActiveSlot, OutcomeOf, Rewrite;
    ResolveByClaims(o);
    NewEntryClaims(o, Resolve(o).activeSector.Other(), NextSeqForSlot(Resolve(o).activeSeq, slot), IMG_NEW, cut);
  }

  function MarkedEntry(o: Otadata, otaState: u32): Entry {
    NewEntry(Resolve(o).activeSeq, otaState)
  }

  lemma MarkClaims(o: Otadata, cut: CutPoint)
    ensures var v := View(o); var r := v.Resolve();
            && Resolve(o) == r
            && View(MarkValid(o, cut)) == Rewritten(v, r.activeSector, ClaimOf(r.activeSeq, IMG_VALID),
                 OutcomeOf(MarkedEntry(o, IMG_VALID), cut))
            && View(MarkInvalid(o, cut)) == Rewritten(v, r.activeSector, Nothing,
                 OutcomeOf(MarkedEntry(o, IMG_INVALID), cut))
  {
    hide View, ToBytes, Torn, FromBytes, IsCrcValid, ResolveActiveSlot, OutcomeOf, Rewrite;
    ResolveByClaims(o);
    NewEntryClaims(o, Resolve(o).activeSector, Resolve(o).activeSeq, IMG_VALID, cut);
    NewEntryClaims(o, Resolve(o).activeSector, Resolve(o).activeSeq, IMG_INVALID, cut);
  }

  function BootedEntry(o: Otadata): Entry {
    var e := FromBytes(o.At(Resolve(o).activeSector));
    e.(otaState := if e.otaState == IMG_NEW then IMG_PENDING_VERIFY else IMG_ABORTED)
  }

  function Booted(c: Claim): Claim {
    if c.Claim? && c.otaState == IMG_NEW then Claim(c.otaSeq, IMG_PENDING_VERIFY) else Nothing
  }

  lemma BootClaims(o: Otadata, cut: CutPoint)
    ensures var v := View(o); var r := v.Resolve();
            && Resolve(o) == r
            && View(BootStep(o, cut)) == if r.isTrial
                 then Rewritten(v, r.activeSector, Booted(v.Active()), OutcomeOf(BootedEntry(o), cut)) else v
  {
    hide ToBytes, Torn, FromBytes, ResolveActiveSlot, OutcomeOf, Rewrite;
    ResolveByClaims(o);
    var r := Resolve(o);
    if r.isTrial {
      assert View(o).Active() == EntryClaim(FromBytes(o.At(r.activeSector)));
      RewriteClaims(o, r.activeSector, BootedEntry(o), cut);
    }
  }

  lemma NewEntryLands(otaSeq: u32, otaState: u32)
    requires otaSeq != 0
    ensures OutcomeOf(NewEntry(otaSeq, otaState), Written(32)) == Landed
  {
    hide ToBytes, Torn;
    EndOutcomes(NewEntry(otaSeq, otaState));
  }

  lemma TrialLands(o: Otadata, slot: Slot)
    ensures OutcomeOf(TrialEntry(o, slot), Written(32)) == Landed
  {
    hide ToBytes, Torn, OutcomeOf, ResolveActiveSlot, View;
    ResolveByClaims(o);
    NewEntryLands(NextSeqForSlot(Resolve(o).activeSeq, slot), IMG_NEW);
  }

  // ----- one interrupted rewrite, from any contents whatever -----

  /** The new entry's number is one that arbitration accepts. */
  predicate CanOutrank(r: Resolution, slot: Slot) {
    r.activeSeq <= 0xFFFF_FFFC || (r.activeSeq == 0xFFFF_FFFD && slot == Ota1)
  }

  function TrialResolution(r: Resolution, slot: Slot): Resolution {
    Resolution(slot, NextSeqForSlot(r.activeSeq, slot), r.activeSector.Other(), true)
  }

  /** The whole trial entry is in place and its number counts. */
  predicate TrialStored(o: Otadata, slot: Slot, after: Otadata) {
    && after.At(Resolve(o).activeSector.Other()) == ToBytes(TrialEntry(o, slot))
    && CanOutrank(Resolve(o), slot)
  }

  /** Arbitration selects the new trial if and only if its whole entry is in place
      and its number counts, and is unchanged otherwise. */
  predicate SelectsTrial(before: Otadata, slot: Slot, after: Otadata) {
    Resolve(after)
    == if TrialStored(before, slot, after) then TrialResolution(Resolve(before), slot) else Resolve(before)
  }

  /** Power-cut atomicity, exactly: whatever the two sectors held and whichever
      slot is marked, an interrupted mark resolves to the new trial if and only if
      all of the entry's bytes are in place and its number counts, and as before otherwise. */
  lemma MarkTrialBootAtomic(o: Otadata, slot: Slot, cut: CutPoint)
    ensures var p := MarkTrialBoot(o, slot, cut);
            && SelectsTrial(o, slot, p)
            && Resolve(o) != TrialResolution(Resolve(o), slot)
            && (TrialStored(o, slot, p) <==>
                  OutcomeOf(TrialEntry(o, slot), cut) == Landed && CanOutrank(Resolve(o), slot))
  {
    hide Resolve, View, MarkTrialBoot, TrialEntry, OutcomeOf;
    var p := MarkTrialBoot(o, slot, cut);
    MarkTrialBootClaims(o, slot, cut);
    ResolveByClaims(p);
    Outrank(View(o), slot);
    StoredOrNot(o, slot, cut);
  }

  lemma NothingStored(o: Otadata, slot: Slot)
    ensures SelectsTrial(o, slot, o)
  {
    hide Resolve, TrialStored, TrialResolution;
    MarkTrialBootAtomic(o, slot, BeforeErase);
  }

  /** Before the erase the inactive sector cannot already hold an entry that would outrank the active one. */
  lemma StoredOrNot(o: Otadata, slot: Slot, cut: CutPoint)
    ensures CanOutrank(Resolve(o), slot) ==>
              (MarkTrialBoot(o, slot, cut).At(Resolve(o).activeSector.Other()) == ToBytes(TrialEntry(o, slot))
               <==> OutcomeOf(TrialEntry(o, slot), cut) == Landed)
  {
    hide FromBytes, ToBytes, Torn, IsCrcValid, ResolveActiveSlot, NextSeqForSlot;
    var r, e := Resolve(o), TrialEntry(o, slot);
    NextSeqExact(r.activeSeq, slot);
    StoredClaim(o, r.activeSector.Other(), e.otaSeq, IMG_NEW);
    ResolveByClaims(o);
    InactiveBelow(View(o));
  }

  lemma StoredClaim(o: Otadata, s: Sector, otaSeq: u32, otaState: u32)
    ensures o.At(s) == ToBytes(NewEntry(otaSeq, otaState)) ==> View(o).At(s) == ClaimOf(otaSeq, otaState)
  {
    FromBytesToBytes(NewEntry(otaSeq, otaState));
  }

  lemma InactiveBelow(v: Claims)
    requires v.InRange()
    ensures v.Inactive().Claim? ==> v.Inactive().otaSeq <= v.Resolve().activeSeq
  {
  }

  /** Only a higher number in the inactive sector can take over; clearing that sector changes nothing. */
  lemma Outrank(v: Claims, slot: Slot)
    requires v.InRange()
    ensures var r := v.Resolve(); var s := r.activeSector.Other();
            && v.With(s, Nothing).Resolve() == r
            && v.With(s, ClaimOf(NextSeqForSlot(r.activeSeq, slot), IMG_NEW)).Resolve()
               == if CanOutrank(r, slot) then TrialResolution(r, slot) else r
  {
    NextSeqExact(v.Resolve().activeSeq, slot);
  }
}
