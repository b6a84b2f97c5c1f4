/** Slot geometry, the 32-byte `otadata` entry and the boot arbitration rules. */
module Partition {
  import opened Bytes
  import Crc

  const OTA_SLOT_SIZE: u32 := 1856 * 1024
  const OTA_0_OFFSET: u32 := 0x02_0000
  const OTA_1_OFFSET: u32 := 0x1F_0000
  const OTADATA_OFFSET: u32 := 0x00_E000
  const FLASH_SECTOR_SIZE: u32 := 4096

  const IMG_NEW: u32 := 0
  const IMG_PENDING_VERIFY: u32 := 1
  const IMG_VALID: u32 := 2
  const IMG_INVALID: u32 := 3
  const IMG_ABORTED: u32 := 4

  datatype Slot = Ota0 | Ota1 {
    function Other(): Slot {
      match this
      case Ota0 => Ota1
      case Ota1 => Ota0
    }

    function Offset(): u32 {
      match this
      case Ota0 => OTA_0_OFFSET
      case Ota1 => OTA_1_OFFSET
    }

    static function FromSeq(otaSeq: u32): Slot {
      if otaSeq == 0 || (otaSeq - 1) % 2 == 0 then Ota0 else Ota1
    }
  }

  datatype Sector = Sector0 | Sector1 {
    function Other(): Sector {
      match this
      case Sector0 => Sector1
      case Sector1 => Sector0
    }

    function FlashOffset(): u32 {
      match this
      case Sector0 => OTADATA_OFFSET
      case Sector1 => OTADATA_OFFSET + FLASH_SECTOR_SIZE
    }
  }

  datatype RawEntry = Entry(otaSeq: u32, seqLabel: seq<byte>, otaState: u32, crc: u32)

  /** `EspOtaSelectEntry`: the label is always 20 bytes. */
  type Entry = e: RawEntry | |e.seqLabel| == 20 witness Entry(0, seq(20, _ => 0), 0, 0)

  type EntryBytes = b: seq<byte> | |b| == 32 witness seq(32, _ => 0)

  function ToBytes(e: Entry): EntryBytes {
    ToLe(e.otaSeq) + e.seqLabel + ToLe(e.otaState) + ToLe(e.crc)
  }

  function FromBytes(b: EntryBytes): Entry {
    Entry(FromLe(b[0..4]), b[4..24], FromLe(b[24..28]), FromLe(b[28..32]))
  }

  predicate IsCrcValid(e: Entry) {
    e.crc == Crc.SeqCrc(e.otaSeq)
  }

  function NewEntry(otaSeq: u32, otaState: u32): Entry {
    Entry(otaSeq, seq(20, _ => 0), otaState, Crc.SeqCrc(otaSeq))
  }

  predicate IsUsable(e: Entry) {
    && IsCrcValid(e)
    && e.otaSeq != 0
    && e.otaSeq != 0xFFFF_FFFF
    && e.otaState != IMG_INVALID
    && e.otaState != IMG_ABORTED
  }

  predicate IsTrialState(state: u32) {
    state == IMG_NEW || state == IMG_PENDING_VERIFY
  }

  datatype Resolution = Resolution(activeSlot: Slot, activeSeq: u32, activeSector: Sector, isTrial: bool)

  function Select(e: Entry, sector: Sector): Resolution {
    Resolution(Slot.FromSeq(e.otaSeq), e.otaSeq, sector, IsTrialState(e.otaState))
  }

  function ResolveActiveSlot(entry0: Entry, entry1: Entry): Resolution {
    match (IsUsable(entry0), IsUsable(entry1))
    case (true, true) =>
      if entry0.otaSeq >= entry1.otaSeq then Select(entry0, Sector0) else Select(entry1, Sector1)
    case (true, false) => Select(entry0, Sector0)
    case (false, true) => Select(entry1, Sector1)
    case (false, false) => Resolution(Ota0, 1, Sector0, false)
  }

  function SaturatingSucc(x: u32): u32 {
    if x == 0xFFFF_FFFF then x else x + 1
  }

  function NextSeqForSlot(currentSeq: u32, target: Slot): u32 {
    if currentSeq == 0 then
      if target == Ota0 then 1 else 2
    else
      var candidate := SaturatingSucc(currentSeq);
      if ((candidate - 1) % 2 == 0) == (target == Ota0) then candidate else SaturatingSucc(candidate)
  }

  // ----- properties -----

  /** Exactly when the next sequence number selects the wanted slot, outranks
      the current one and is one that arbitration accepts. */
  lemma NextSeqExact(currentSeq: u32, target: Slot)
    ensures var next := NextSeqForSlot(currentSeq, target);
            (Slot.FromSeq(next) == target && currentSeq < next < 0xFFFF_FFFF)
            <==> (currentSeq <= 0xFFFF_FFFC || (currentSeq == 0xFFFF_FFFD && target == Ota1))
  {
  }

  /** For the passive slot it is the successor. */
  lemma NextSeqPassive(currentSeq: u32)
    requires 1 <= currentSeq < 0xFFFF_FFFF
    ensures NextSeqForSlot(currentSeq, Slot.FromSeq(currentSeq).Other()) == currentSeq + 1
    ensures Slot.FromSeq(currentSeq + 1) == Slot.FromSeq(currentSeq).Other()
  {
  }

  /** If any number above the current one selects the wanted slot, it is the least of them. */
  lemma NextSeqLeast(currentSeq: u32, target: Slot, s: u32)
    requires currentSeq < s && (target == Ota0 <==> s % 2 == 1)
    ensures NextSeqForSlot(currentSeq, target) <= s
    ensures currentSeq < NextSeqForSlot(currentSeq, target)
    ensures target == Ota0 <==> NextSeqForSlot(currentSeq, target) % 2 == 1
  {
  }

  function EntryIn(e0: Entry, e1: Entry, s: Sector): Entry {
    if s == Sector0 then e0 else e1
  }

  /** Usable: the CRC matches, the number is neither 0 nor all ones, and the state is
      neither 3 (invalid) nor 4 (aborted). */
  predicate Bootable(e: Entry) {
    e.crc == Crc.SeqCrc(e.otaSeq) && e.otaSeq !in {0, 0xFFFF_FFFF} && e.otaState !in {3, 4}
  }

  /** The highest bootable number is active, sector 0 on a tie: odd numbers boot ota_0 and
      even ones ota_1, and states 0 and 1 are trials. Without one ota_0 boots as number 1. */
  lemma HighestWins(e0: Entry, e1: Entry)
    ensures var r := ResolveActiveSlot(e0, e1); var e := EntryIn(e0, e1, r.activeSector);
            if !Bootable(e0) && !Bootable(e1) then r == Resolution(Ota0, 1, Sector0, false)
            else
              && Bootable(e) && r.activeSeq == e.otaSeq
              && (forall s :: Bootable(EntryIn(e0, e1, s)) ==> EntryIn(e0, e1, s).otaSeq <= r.activeSeq)
              && (Bootable(e0) && e0.otaSeq == r.activeSeq ==> r.activeSector == Sector0)
              && (r.activeSlot == Ota0 <==> r.activeSeq % 2 == 1)
              && (r.isTrial <==> e.otaState in {0, 1})
  {
    hide Crc.SeqCrc;
  }

  /** The partition table: two `otadata` sectors, and two adjacent slots of 1856 KiB on
      64 KiB boundaries, in 4 MiB of flash. */
  lemma FlashMap()
    ensures Sector0.FlashOffset() == 0xE000 && Sector1.FlashOffset() == 0xF000
    ensures Ota0.Offset() == 0x2_0000 && Ota0.Offset() + OTA_SLOT_SIZE == Ota1.Offset() == 0x1F_0000
    ensures Ota1.Offset() + OTA_SLOT_SIZE == 0x3C_0000 && OTA_SLOT_SIZE == 0x1D_0000
  {
  }

  lemma FromBytesToBytes(e: Entry)
    ensures FromBytes(ToBytes(e)) == e
  {
    FromLeToLe(e.otaSeq);
    FromLeToLe(e.otaState);
    FromLeToLe(e.crc);
    var b := ToBytes(e);
    assert b[0..4] == ToLe(e.otaSeq) && b[4..24] == e.seqLabel;
    assert b[24..28] == ToLe(e.otaState) && b[28..32] == ToLe(e.crc);
  }

  lemma ToBytesFromBytes(b: EntryBytes)
    ensures ToBytes(FromBytes(b)) == b
  {
    ToLeFromLe(b[0..4]);
    ToLeFromLe(b[24..28]);
    ToLeFromLe(b[28..32]);
    assert b == b[0..4] + b[4..24] + b[24..28] + b[28..32];
  }

  /** The four bytes at `at` spell `w`, least significant first. */
  predicate WordAt(b: seq<byte>, at: nat, w: nat)
    requires at + 4 <= |b|
  {
    b[at] as int + 0x100 * b[at + 1] as int + 0x1_0000 * b[at + 2] as int + 0x100_0000 * b[at + 3] as int == w
  }

  lemma LeWord(w: u32)
    ensures WordAt(ToLe(w), 0, w)
  {
    FromLeToLe(w);
  }

  /** Where the bootloader finds the fields of an entry. */
  lemma Layout(e: Entry)
    ensures var b := ToBytes(e);
            && WordAt(b, 0, e.otaSeq) && b[4..24] == e.seqLabel
            && WordAt(b, 24, e.otaState) && WordAt(b, 28, e.crc)
  {
    hide WordAt, ToLe;
    var b := ToBytes(e);
    assert b[0..4] == ToLe(e.otaSeq) && b[4..24] == e.seqLabel;
    assert b[24..28] == ToLe(e.otaState) && b[28..32] == ToLe(e.crc);
    LeWord(e.otaSeq);
    LeWord(e.otaState);
    LeWord(e.crc);
    WordInside(b, 0, e.otaSeq);
    WordInside(b, 24, e.otaState);
    WordInside(b, 28, e.crc);
  }

  lemma WordInside(b: seq<byte>, at: nat, w: nat)
    requires at + 4 <= |b|
    ensures WordAt(b, at, w) <==> WordAt(b[at..at + 4], 0, w)
  {}

  /** And where the firmware does. */
  lemma LayoutRead(b: EntryBytes)
    ensures var e := FromBytes(b);
            && WordAt(b, 0, e.otaSeq) && e.seqLabel == b[4..24]
            && WordAt(b, 24, e.otaState) && WordAt(b, 28, e.crc)
  {
    hide FromBytes, ToBytes, WordAt;
    ToBytesFromBytes(b);
    Layout(FromBytes(b));
  }

  /** What the head of an erased sector shows after the first `k` bytes of an entry were programmed. */
  function Torn(b: EntryBytes, k: nat): EntryBytes
    requires k <= 32
  {
    b[..k] + seq(32 - k, _ => 0xFF)
  }

  /** A torn write of a nonzero sequence is either rejected by its CRC or complete. */
  lemma TornEntry(e: Entry, k: nat)
    requires IsCrcValid(e) && e.otaSeq != 0 && k <= 32
    ensures !IsCrcValid(FromBytes(Torn(ToBytes(e), k))) || Torn(ToBytes(e), k) == ToBytes(e)
  {
    var b := Torn(ToBytes(e), k);
    var t := FromBytes(b);
    FromBytesToBytes(e);
    Crc.ErasedCrc(t.otaSeq);
    if k < 28 {
      assert b[28..32] == [0xFF, 0xFF, 0xFF, 0xFF];
      assert t.crc == 0xFFFF_FFFF;
      if k < 4 {
        assert b[0..4][3] == 0xFF;
      } else {
        assert b[0..4] == ToBytes(e)[0..4];
      }
      assert t.otaSeq != 0;
    } else if IsCrcValid(t) {
      assert b[0..4] == ToBytes(e)[0..4] && b[4..24] == ToBytes(e)[4..24] && b[24..28] == ToBytes(e)[24..28];
      ToBytesFromBytes(b);
    }
  }
}
