/** NOR flash: erasing sets bytes to 0xFF, programming only clears bits. Any
    operation may fail, and a failure can also be a power cut: an erase happened
    or did not, a write left some prefix of its bytes, perhaps all of them. */
module Flash {
  import opened Bytes
  import opened Partition
  import opened Arbitration
  import Crc

  const CAPACITY: nat := 0x40_0000

  // ----- contents as values -----

  function AndByte(a: byte, b: byte): byte {
    Pow2Word();
    Val(seq(8, i requires 0 <= i < 8 => Bits(a, 8)[i] && Bits(b, 8)[i]))
  }

  lemma AndErased(b: byte)
    ensures AndByte(0xFF, b) == b
  {
    Pow2Word();
    BitsOnes(8);
    ValBits(b, 8);
    assert seq(8, i requires 0 <= i < 8 => Bits(0xFF, 8)[i] && Bits(b, 8)[i]) == Bits(b, 8);
  }

  /** Programming clears bits and sets none: a bit stays set exactly if it was and the data has it set. */
  lemma AndBits(a: byte, b: byte, i: nat)
    requires i < 8
    ensures Bits(AndByte(a, b), 8)[i] <==> Bits(a, 8)[i] && Bits(b, 8)[i]
  {
    Pow2Word();
    BitsVal(seq(8, i requires 0 <= i < 8 => Bits(a, 8)[i] && Bits(b, 8)[i]));
  }

  /** So programming 0xFF changes nothing. */
  lemma AndBlankByte(a: byte)
    ensures AndByte(a, 0xFF) == a
  {
    Pow2Word();
    BitsOnes(8);
    ValBits(a, 8);
    assert seq(8, i requires 0 <= i < 8 => Bits(a, 8)[i] && Bits(0xFF, 8)[i]) == Bits(a, 8);
  }

  function Blank(n: nat): (b: seq<byte>)
    ensures |b| == n
  {
    seq(n, _ => 0xFF)
  }

  function EraseAt(c: seq<byte>, from: nat, to: nat): (c': seq<byte>)
    requires from <= to <= |c|
    ensures |c'| == |c|
  {
    c[..from] + Blank(to - from) + c[to..]
  }

  function AndBytes(a: seq<byte>, b: seq<byte>): (c: seq<byte>)
    requires |a| == |b|
    ensures |c| == |a|
  {
    seq(|a|, i requires 0 <= i < |a| => AndByte(a[i], b[i]))
  }

  function ProgramAt(c: seq<byte>, at: nat, data: seq<byte>): (c': seq<byte>)
    requires at + |data| <= |c|
    ensures |c'| == |c|
  {
    c[..at] + AndBytes(c[at..at + |data|], data) + c[at + |data|..]
  }

  lemma ProgramTwice(c: seq<byte>, at: nat, d: seq<byte>, e: seq<byte>)
    requires at + |d| + |e| <= |c|
    ensures ProgramAt(ProgramAt(c, at, d), at + |d|, e) == ProgramAt(c, at, d + e)
  {
    var p := ProgramAt(c, at, d);
    assert p[..at + |d|] == c[..at] + AndBytes(c[at..at + |d|], d);
    assert p[at + |d|..at + |d| + |e|] == c[at + |d|..at + |d| + |e|];
    assert p[at + |d| + |e|..] == c[at + |d| + |e|..];
    assert AndBytes(c[at..at + |d|], d) + AndBytes(c[at + |d|..at + |d| + |e|], e)
        == AndBytes(c[at..at + |d + e|], d + e);
  }

  function SlotOf(c: seq<byte>, slot: Slot): (m: seq<byte>)
    requires |c| == CAPACITY
    ensures |m| == OTA_SLOT_SIZE
  {
    c[slot.Offset()..slot.Offset() + OTA_SLOT_SIZE]
  }

  function EntryAt(c: seq<byte>, s: Sector): EntryBytes
    requires |c| == CAPACITY
  {
    c[s.FlashOffset()..s.FlashOffset() + 32]
  }

  function OtadataOf(c: seq<byte>): Otadata
    requires |c| == CAPACITY
  {
    Otadata(EntryAt(c, Sector0), EntryAt(c, Sector1))
  }

  /** Nothing outside one application slot differs. */
  ghost predicate OnlySlotDiffers(c: seq<byte>, d: seq<byte>, slot: Slot) {
    && |c| == |d| == CAPACITY
    && d[..slot.Offset()] == c[..slot.Offset()]
    && d[slot.Offset() + OTA_SLOT_SIZE..] == c[slot.Offset() + OTA_SLOT_SIZE..]
  }

  lemma AgreeBefore(c: seq<byte>, d: seq<byte>, n: nat, lo: nat, hi: nat)
    requires lo <= hi <= n <= |c| == |d| && d[..n] == c[..n]
    ensures d[lo..hi] == c[lo..hi]
  {
    assert d[lo..hi] == d[..n][lo..hi] && c[lo..hi] == c[..n][lo..hi];
  }

  lemma AgreeAfter(c: seq<byte>, d: seq<byte>, n: nat, lo: nat, hi: nat)
    requires n <= lo <= hi <= |c| == |d| && d[n..] == c[n..]
    ensures d[lo..hi] == c[lo..hi]
  {
    forall i | lo <= i < hi
      ensures d[i] == c[i]
    {
      assert d[n..][i - n] == d[i] && c[n..][i - n] == c[i];
    }
  }

  lemma OnlySlotDiffersViews(c: seq<byte>, d: seq<byte>, slot: Slot)
    requires OnlySlotDiffers(c, d, slot)
    ensures OtadataOf(d) == OtadataOf(c) && SlotOf(d, slot.Other()) == SlotOf(c, slot.Other())
  {
    var n, other := slot.Offset(), slot.Other().Offset();
    AgreeBefore(c, d, n, Sector0.FlashOffset(), Sector0.FlashOffset() + 32);
    AgreeBefore(c, d, n, Sector1.FlashOffset(), Sector1.FlashOffset() + 32);
    if slot == Ota1 {
      AgreeBefore(c, d, n, other, other + OTA_SLOT_SIZE);
    } else {
      AgreeAfter(c, d, n + OTA_SLOT_SIZE, other, other + OTA_SLOT_SIZE);
    }
  }

  /** The bytes of a sector that the bootloader reads: number, empty label, state and check word. */
  ghost predicate Spells(c: seq<byte>, s: Sector, otaSeq: u32, otaState: nat)
    requires |c| == CAPACITY
  {
    var at := s.FlashOffset();
    && WordAt(c, at, otaSeq) && (forall i :: at + 4 <= i < at + 24 ==> c[i] == 0)
    && WordAt(c, at + 24, otaState) && WordAt(c, at + 28, Crc.SeqCrc(otaSeq))
  }

  /** A complete rewrite spells its entry in the sector's first 32 bytes. */
  lemma RewriteSpells(c: seq<byte>, o: Otadata, s: Sector, otaSeq: u32, otaState: u32)
    requires |c| == CAPACITY && OtadataOf(c) == Rewrite(o, s, NewEntry(otaSeq, otaState), Written(32))
    ensures Spells(c, s, otaSeq, otaState)
  {
    hide ToBytes, WordAt, Crc.SeqCrc;
    var e, at := NewEntry(otaSeq, otaState), s.FlashOffset();
    assert Torn(ToBytes(e), 32) == ToBytes(e);
    assert EntryAt(c, s) == ToBytes(e);
    Layout(e);
    forall i | at + 4 <= i < at + 24
      ensures c[i] == 0
    {
      assert c[i] == EntryAt(c, s)[i - at] == EntryAt(c, s)[4..24][i - at - 4] == e.seqLabel[i - at - 4];
    }
    WordSlice(c, at, 0, otaSeq);
    WordSlice(c, at, 24, otaState);
    WordSlice(c, at, 28, Crc.SeqCrc(otaSeq));
  }

  lemma WordSlice(c: seq<byte>, at: nat, k: nat, w: nat)
    requires k + 4 <= 32 && at + 32 <= |c|
    ensures WordAt(c[at..at + 32], k, w) <==> WordAt(c, at + k, w)
  {}

  // ----- the device -----

  datatype FlashOp = Erased(addr: nat, len: nat) | Programmed(addr: nat, len: nat)

  /** One erase and one program of an `otadata` sector. */
  function EntryOps(s: Sector): seq<FlashOp> {
    [Erased(s.FlashOffset(), 4096), Programmed(s.FlashOffset(), 32)]
  }

  /** What becomes of one device operation. A failing erase still takes place unless
      `after` is 0; a failing write programs its first `after` bytes. */
  datatype Fate = Works | Fails(after: nat)

  class FlashStorage {
    const cells: array<byte>
    /** The fate of every operation, and how many there were. */
    const plan: nat -> Fate
    var tick: nat
    /** The operations that completed, in order. */
    ghost var ops: seq<FlashOp>

    constructor (contents: array<byte>, plan: nat -> Fate)
      requires contents.Length == CAPACITY
      ensures cells == contents && this.plan == plan && tick == 0 && ops == []
    {
      cells, this.plan := contents, plan;
      tick, ops := 0, [];
    }

    /** Every operation from the `from`th up to the `to`th works. */
    ghost predicate NoFault(from: nat, to: nat) {
      forall t :: from <= t < to ==> plan(t).Works?
    }

    lemma NoFaultJoins(a: nat, b: nat, c: nat)
      requires a <= b <= c
      ensures NoFault(a, c) <==> NoFault(a, b) && NoFault(b, c)
      ensures NoFault(a, a)
    {}

    method Read(offset: nat, len: nat) returns (r: Option<seq<byte>>)
      requires offset + len <= cells.Length
      modifies `tick
      ensures tick == old(tick) + 1
      ensures r == if plan(old(tick)).Works? then Some(cells[offset..offset + len]) else None
    {
      r := if plan(tick).Works? then Some(cells[offset..offset + len]) else None;
      tick := tick + 1;
    }

    method Erase(from: nat, to: nat) returns (ok: bool)
      requires from <= to <= cells.Length && from % FLASH_SECTOR_SIZE == 0 && to % FLASH_SECTOR_SIZE == 0
      modifies this, cells
      ensures tick == old(tick) + 1 && ok == plan(old(tick)).Works?
      ensures cells[..] == if plan(old(tick)) == Fails(0) then old(cells[..]) else EraseAt(old(cells[..]), from, to)
      ensures ops == if ok then old(ops) + [Erased(from, to - from)] else old(ops)
    {
      var fate := plan(tick);
      tick := tick + 1;
      if fate == Fails(0) {
        return false;
      }
      forall i | from <= i < to {
        cells[i] := 0xFF;
      }
      assert cells[..] == EraseAt(old(cells[..]), from, to);
      ok := fate.Works?;
      if ok {
        ops := ops + [Erased(from, to - from)];
      }
    }

    /** Programs a prefix of the data, all of it when it succeeds. */
    method Write(offset: nat, data: seq<byte>) returns (ok: bool)
      requires offset + |data| <= cells.Length && offset % 4 == 0 && |data| % 4 == 0
      modifies this, cells
      ensures tick == old(tick) + 1 && ok == plan(old(tick)).Works?
      ensures cells[..] == ProgramAt(old(cells[..]), offset, data[..Reached(plan(old(tick)), |data|)])
      ensures ops == if ok then old(ops) + [Programmed(offset, |data|)] else old(ops)
    {
      hide ProgramAt, AndByte;
      var stop := Reached(plan(tick), |data|);
      var i := 0;
      while i < stop
        invariant 0 <= i <= stop
        invariant forall k :: 0 <= k < cells.Length ==>
          cells[k] == if offset <= k < offset + i then AndByte(old(cells[k]), data[k - offset]) else old(cells[k])
        invariant ops == old(ops) && tick == old(tick)
      {
        cells[offset + i] := AndByte(cells[offset + i], data[i]);
        i := i + 1;
      }
      ProgrammedCells(old(cells[..]), cells[..], offset, data[..stop]);
      ok := plan(tick).Works?;
      tick := tick + 1;
      if ok {
        ops := ops + [Programmed(offset, |data|)];
      }
    }
  }

  /** How many of a write's bytes are programmed. */
  function Reached(fate: Fate, length: nat): (n: nat)
    ensures n <= length && (fate.Works? ==> n == length)
  {
    if fate.Works? || fate.after > length then length else fate.after
  }

  /** The same for whole words and a padded last one, written one after the other. */
  function WordsReached(plan: nat -> Fate, tick: nat, length: nat): nat {
    var aligned := length - length % 4;
    if aligned == 0 then Reached(plan(tick), 4)
    else if !plan(tick).Works? || aligned == length then Reached(plan(tick), aligned)
    else aligned + Reached(plan(tick + 1), 4)
  }

  lemma ProgrammedCells(c: seq<byte>, d: seq<byte>, at: nat, data: seq<byte>)
    requires at + |data| <= |c| == |d|
    requires forall k :: 0 <= k < |c| ==> d[k] == if at <= k < at + |data| then AndByte(c[k], data[k - at]) else c[k]
    ensures d == ProgramAt(c, at, data)
  {
    hide AndByte;
    assert d[at..at + |data|] == AndBytes(c[at..at + |data|], data);
    assert d == d[..at] + d[at..at + |data|] + d[at + |data|..];
  }

  // ----- the OTA storage driver -----

  datatype FlashError = OutOfBounds | AlignmentError | EraseError | WriteError | ReadError

  datatype Unit = Done

  /** Data padded with 0xFF to a whole 4-byte word. */
  function WordPadded(data: seq<byte>): (d: seq<byte>)
    ensures |d| % 4 == 0 && |data| <= |d| < |data| + 4
  {
    data + Blank((4 - |data| % 4) % 4)
  }

  /** The padding of a write programs nothing. */
  lemma PaddingIsInvisible(c: seq<byte>, at: nat, data: seq<byte>)
    requires at + |WordPadded(data)| <= |c|
    ensures ProgramAt(c, at, WordPadded(data)) == ProgramAt(c, at, data)
  {
    hide AndByte;
    var padded := WordPadded(data);
    forall i | |data| <= i < |padded|
      ensures AndByte(c[at + i], padded[i]) == c[at + i]
    {
      AndBlankByte(c[at + i]);
    }
    assert AndBytes(c[at..at + |padded|], padded)
        == AndBytes(c[at..at + |data|], data) + c[at + |data|..at + |padded|];
  }

  lemma ProgramNothing(c: seq<byte>, at: nat)
    requires at <= |c|
    ensures ProgramAt(c, at, []) == c
  {
  }

  lemma PaddedAlready(data: seq<byte>)
    requires |data| % 4 == 0
    ensures WordPadded(data) == data
  {
  }

  lemma TakeAll(s: seq<byte>)
    ensures s[..|s|] == s
  {
  }

  lemma TakeTake(s: seq<byte>, n: nat, k: nat)
    requires k <= n <= |s|
    ensures s[..n][..k] == s[..k]
  {
  }

  lemma TakeTail(s: seq<byte>, n: nat, k: nat)
    requires n + k <= |s|
    ensures s[..n] + s[n..][..k] == s[..n + k]
  {
  }

  lemma WordParts(data: seq<byte>, aligned: nat)
    requires aligned == |data| - |data| % 4
    ensures aligned % 4 == 0 && |WordPadded(data)| == if aligned == |data| then aligned else aligned + 4
    ensures WordPadded(data)[..aligned] == data[..aligned]
    ensures aligned < |data| ==> WordPadded(data)[aligned..] == data[aligned..] + Blank(4 - |data| % 4)
    ensures aligned == |data| ==> WordPadded(data) == data
  {
  }

  /** The count of operations after the entries were read: the second is not when the first fails. */
  function AfterReads(plan: nat -> Fate, tick: nat): nat {
    tick + if plan(tick).Works? then 2 else 1
  }

  /** Where an update goes, given whether `otadata` can be read when it asks. */
  function TargetSlot(o: Otadata, readable: bool): Slot {
    if readable then Resolve(o).activeSlot.Other() else Ota1
  }

  class EspFlashStorage {
    const flash: FlashStorage

    constructor (device: FlashStorage)
      ensures flash == device
    {
      flash := device;
    }

    ghost predicate Valid() {
      flash.cells.Length == CAPACITY
    }

    ghost function Cells(): (c: seq<byte>)
      requires Valid()
      reads flash.cells
      ensures |c| == CAPACITY
    {
      flash.cells[..]
    }

    ghost function Sectors(): Otadata
      requires Valid()
      reads flash.cells
    {
      OtadataOf(Cells())
    }

    /** What an erase and a write ask of their range; a write of nothing asks less. */
    static predicate EraseFits(offset: u32, len: u32) {
      offset + len <= OTA_SLOT_SIZE && offset % FLASH_SECTOR_SIZE == 0 && len % FLASH_SECTOR_SIZE == 0
    }

    static predicate WriteFits(offset: u32, data: seq<byte>) {
      data != [] && offset + |data| <= OTA_SLOT_SIZE && offset % 4 == 0
    }

    /** Whether the next two reads will work. */
    predicate Readable()
      reads flash`tick
    {
      flash.plan(flash.tick).Works? && flash.plan(flash.tick + 1).Works?
    }

    method ReadSectorEntry(s: Sector) returns (r: Result<Entry, FlashError>)
      requires Valid()
      modifies flash`tick
      ensures flash.tick == old(flash.tick) + 1
      ensures r == if flash.plan(old(flash.tick)).Works? then Ok(FromBytes(EntryAt(Cells(), s))) else Err(ReadError)
    {
      hide FromBytes;
      var buf := flash.Read(s.FlashOffset(), 32);
      if buf.None? {
        return Err(ReadError);
      }
      r := Ok(FromBytes(buf.value));
    }

    method ResolveOtadata() returns (r: Result<Resolution, FlashError>)
      requires Valid()
      modifies flash`tick
      ensures r == if old(Readable()) then Ok(Resolve(Sectors())) else Err(ReadError)
      ensures flash.tick == AfterReads(flash.plan, old(flash.tick))
      ensures old(flash.tick) <= flash.tick && (r.Ok? <==> flash.NoFault(old(flash.tick), flash.tick))
    {
      hide FromBytes, ResolveActiveSlot;
      var entry0 := ReadSectorEntry(Sector0);
      if entry0.Err? {
        return Err(entry0.error);
      }
      var entry1 := ReadSectorEntry(Sector1);
      if entry1.Err? {
        return Err(entry1.error);
      }
      r := Ok(ResolveActiveSlot(entry0.value, entry1.value));
    }

    /** An unreadable `otadata` counts as ota_0. */
    method ActiveSlot() returns (slot: Slot)
      requires Valid()
      modifies flash`tick
      ensures flash.tick == AfterReads(flash.plan, old(flash.tick))
      ensures slot == if old(Readable()) then Resolve(Sectors()).activeSlot else Ota0
    {
      var res := ResolveOtadata();
      slot := if res.Ok? then res.value.activeSlot else Ota0;
    }

    /** The slot an update targets. It is the inactive one exactly when `otadata`
        could be read or ota_0 is active; otherwise it is the running one. */
    method PassiveSlot() returns (slot: Slot)
      requires Valid()
      modifies flash`tick
      ensures flash.tick == AfterReads(flash.plan, old(flash.tick))
      ensures slot == TargetSlot(Sectors(), old(Readable()))
      ensures slot == Resolve(Sectors()).activeSlot.Other()
              <==> old(Readable()) || Resolve(Sectors()).activeSlot == Ota0
    {
      var active := ActiveSlot();
      slot := active.Other();
    }

    method EraseRange(slot: Slot, offset: u32, len: u32) returns (r: Result<Unit, FlashError>)
      requires Valid()
      modifies flash, flash.cells
      ensures OnlySlotDiffers(old(Cells()), Cells(), slot)
      ensures offset + len > OTA_SLOT_SIZE ==> r == Err(OutOfBounds)
      ensures offset + len <= OTA_SLOT_SIZE && (offset % FLASH_SECTOR_SIZE != 0 || len % FLASH_SECTOR_SIZE != 0) ==>
                r == Err(AlignmentError)
      ensures EraseFits(offset, len) ==>
                && r == (if flash.plan(old(flash.tick)).Works? then Ok(Done) else Err(EraseError))
                && Cells() == (if flash.plan(old(flash.tick)) == Fails(0) then old(Cells())
                               else EraseAt(old(Cells()), slot.Offset() + offset, slot.Offset() + offset + len))
      ensures r.Ok? ==> flash.ops == old(flash.ops) + [Erased(slot.Offset() + offset, len)]
      ensures flash.tick == old(flash.tick) + if EraseFits(offset, len) then 1 else 0
      ensures !EraseFits(offset, len) ==> Cells() == old(Cells())
    {
      hide EraseAt, OnlySlotDiffers;
      NothingDiffers(Cells(), slot);
      if offset + len > OTA_SLOT_SIZE {
        return Err(OutOfBounds);
      }
      if offset % FLASH_SECTOR_SIZE != 0 || len % FLASH_SECTOR_SIZE != 0 {
        return Err(AlignmentError);
      }
      var start := slot.Offset() + offset;
      ErasedInSlot(Cells(), slot, start, start + len);
      var ok := flash.Erase(start, start + len);
      r := if ok then Ok(Done) else Err(EraseError);
    }

    /** Programs one more word at `at`, right after `head`. */
    method WriteNext(at: nat, word: seq<byte>, ghost addr: nat, ghost head: seq<byte>, ghost before: seq<byte>)
      returns (ok: bool, ghost done: nat)
      requires Valid() && |before| == CAPACITY && |word| == 4 && at == addr + |head| && at % 4 == 0
      requires at + 4 <= CAPACITY && Cells() == ProgramAt(before, addr, head)
      modifies flash, flash.cells
      ensures done == Reached(flash.plan(old(flash.tick)), 4) && ok == flash.plan(old(flash.tick)).Works?
      ensures flash.tick == old(flash.tick) + 1
      ensures Cells() == ProgramAt(before, addr, head + word[..done])
    {
      done := Reached(flash.plan(flash.tick), 4);
      ok := flash.Write(at, word);
      ProgramTwice(before, addr, head, word[..done]);
    }

    /** The whole words of `data`, then its tail padded to a word. */
    method WriteWords(addr: nat, data: seq<byte>) returns (ok: bool, ghost done: nat)
      requires Valid() && data != [] && addr % 4 == 0 && addr + |WordPadded(data)| <= CAPACITY
      modifies flash, flash.cells
      ensures done == WordsReached(flash.plan, old(flash.tick), |data|) <= |WordPadded(data)|
      ensures old(flash.tick) < flash.tick && (ok <==> flash.NoFault(old(flash.tick), flash.tick))
      ensures ok ==> done == |WordPadded(data)|
      ensures Cells() == ProgramAt(old(Cells()), addr, WordPadded(data)[..done])
      ensures ok && |data| % 4 == 0 ==> flash.ops == old(flash.ops) + [Programmed(addr, |data|)]
    {
      hide EraseAt, ProgramAt, SlotOf, OtadataOf, Blank;
      var aligned := |data| - |data| % 4;
      ghost var before := Cells();
      WordParts(data, aligned);
      ProgramNothing(before, addr);
      done := 0;
      if aligned > 0 {
        done := Reached(flash.plan(flash.tick), aligned);
        ok := flash.Write(addr, data[..aligned]);
        TakeTake(WordPadded(data), aligned, done);
        if !ok {
          return;
        }
      }
      if aligned < |data| {
        ghost var tail := 0;
        ok, tail := WriteNext(addr + aligned, data[aligned..] + Blank(4 - |data| % 4), addr, data[..aligned], before);
        TakeTail(WordPadded(data), aligned, tail);
        done := aligned + tail;
      }
    }

    method WriteChunk(slot: Slot, offset: u32, data: seq<byte>) returns (r: Result<Unit, FlashError>)
      requires Valid()
      modifies flash, flash.cells
      ensures OnlySlotDiffers(old(Cells()), Cells(), slot)
      ensures offset + |data| > OTA_SLOT_SIZE ==> r == Err(OutOfBounds)
      ensures offset + |data| <= OTA_SLOT_SIZE && data != [] && offset % 4 != 0 ==> r == Err(AlignmentError)
      ensures data == [] && offset <= OTA_SLOT_SIZE ==> r == Ok(Done) && Cells() == old(Cells())
      ensures WriteFits(offset, data) ==>
                && r == (if flash.NoFault(old(flash.tick), flash.tick) then Ok(Done) else Err(WriteError))
                && WordsReached(flash.plan, old(flash.tick), |data|) <= |WordPadded(data)|
                && Cells() == ProgramAt(old(Cells()), slot.Offset() + offset,
                                        WordPadded(data)[..WordsReached(flash.plan, old(flash.tick), |data|)])
                && (r.Ok? ==> Cells() == ProgramAt(old(Cells()), slot.Offset() + offset, WordPadded(data)))
      ensures old(flash.tick) <= flash.tick && (!WriteFits(offset, data) ==> flash.tick == old(flash.tick))
      ensures r.Ok? && data != [] && |data| % 4 == 0 ==>
                flash.ops == old(flash.ops) + [Programmed(slot.Offset() + offset, |data|)]
      ensures !WriteFits(offset, data) ==> Cells() == old(Cells())
    {
      hide EraseAt, ProgramAt, SlotOf, OtadataOf, Blank, WordsReached, WordPadded, FlashStorage.NoFault;
      NothingDiffers(Cells(), slot);
      if offset + |data| > OTA_SLOT_SIZE {
        return Err(OutOfBounds);
      }
      if |data| == 0 {
        ProgramNothing(Cells(), slot.Offset() + offset);
        return Ok(Done);
      }
      if offset % 4 != 0 {
        return Err(AlignmentError);
      }
      PaddedFits(slot, offset, data);
      var ok := WriteInSlot(slot, slot.Offset() + offset, data);
      r := if ok then Ok(Done) else Err(WriteError);
    }

    method WriteInSlot(ghost slot: Slot, addr: nat, data: seq<byte>) returns (ok: bool)
      requires Valid() && data != [] && addr % 4 == 0
      requires slot.Offset() <= addr && addr + |WordPadded(data)| <= slot.Offset() + OTA_SLOT_SIZE
      modifies flash, flash.cells
      ensures OnlySlotDiffers(old(Cells()), Cells(), slot)
      ensures old(flash.tick) < flash.tick && (ok <==> flash.NoFault(old(flash.tick), flash.tick))
      ensures var done := WordsReached(flash.plan, old(flash.tick), |data|);
              done <= |WordPadded(data)| && Cells() == ProgramAt(old(Cells()), addr, WordPadded(data)[..done])
      ensures ok ==> Cells() == ProgramAt(old(Cells()), addr, WordPadded(data))
      ensures ok && |data| % 4 == 0 ==> flash.ops == old(flash.ops) + [Programmed(addr, |data|)]
    {
      hide ProgramAt, WordPadded, WordsReached, OnlySlotDiffers, FlashStorage.NoFault;
      ghost var before, padded := Cells(), WordPadded(data);
      ghost var done;
      ok, done := WriteWords(addr, data);
      InSlot(before, slot, addr, padded[..done]);
      TakeAll(padded);
    }

    /** Erase, then write one entry at the head of an `otadata` sector. The
        result and the cut are those of the fates of the two operations. */
    method RewriteSector(s: Sector, e: Entry) returns (r: Result<Unit, FlashError>, ghost cut: CutPoint)
      requires Valid()
      modifies flash, flash.cells
      ensures (r, cut) == RewriteFate(flash.plan, old(flash.tick))
      ensures old(flash.tick) <= flash.tick && (r.Ok? <==> flash.NoFault(old(flash.tick), flash.tick))
      ensures Sectors() == Rewrite(old(Sectors()), s, e, cut)
      ensures r.Ok? ==> flash.ops == old(flash.ops) + EntryOps(s)
      ensures SlotsUntouched(old(Cells()), Cells())
    {
      hide EraseAt, ProgramAt, ToBytes, SlotOf, Torn;
      ghost var before := Cells();
      var addr := s.FlashOffset();
      cut := RewriteFate(flash.plan, flash.tick).1;
      var erased := flash.Erase(addr, addr + FLASH_SECTOR_SIZE);
      if !erased {
        ProgramNothing(Cells(), addr);
        RewriteCells(before, s, ToBytes(e), 0);
        return Err(EraseError), cut;
      }
      ghost var done := Reached(flash.plan(flash.tick), 32);
      var ok := flash.Write(addr, ToBytes(e));
      RewriteCells(before, s, ToBytes(e), done);
      r := if ok then Ok(Done) else Err(WriteError);
    }

    /** Whatever the outcome, arbitration selects the new trial if and only if the
        whole entry is in place and its number counts, and is unchanged otherwise. */
    method MarkTrialBoot(slot: Slot) returns (r: Result<Unit, FlashError>, ghost cut: CutPoint)
      requires Valid()
      modifies flash, flash.cells
      ensures (r, cut) == MarkFate(flash.plan, old(flash.tick))
      ensures old(flash.tick) <= flash.tick && (r.Ok? <==> flash.NoFault(old(flash.tick), flash.tick))
      ensures Sectors() == Arbitration.MarkTrialBoot(old(Sectors()), slot, cut)
      ensures SelectsTrial(old(Sectors()), slot, Sectors())
      ensures r.Ok? ==> flash.ops == old(flash.ops) + EntryOps(Resolve(old(Sectors())).activeSector.Other())
      ensures var before := Resolve(old(Sectors()));
              r.Ok? ==> Spells(Cells(), before.activeSector.Other(), NextSeqForSlot(before.activeSeq, slot), 0)
      ensures SlotsUntouched(old(Cells()), Cells())
    {
      hide Resolve, RewriteFate, SelectsTrial, TrialStored, TrialResolution, SlotOf, OtadataOf, OutcomeOf, NewEntry;
      hide Spells;
      ghost var o := Sectors();
      cut := MarkFate(flash.plan, flash.tick).1;
      MarkTrialBootAtomic(o, slot, cut);
      var res := ResolveOtadata();
      if res.Err? {
        return Err(res.error), cut;
      }
      var nextSeq := NextSeqForSlot(res.value.activeSeq, slot);
      var target := res.value.activeSector.Other();
      r, cut := RewriteSector(target, NewEntry(nextSeq, IMG_NEW));
      if r.Ok? {
        RewriteSpells(Cells(), o, target, nextSeq, IMG_NEW);
      }
    }

    method MarkValid() returns (r: Result<Unit, FlashError>, ghost cut: CutPoint)
      requires Valid()
      modifies flash, flash.cells
      ensures (r, cut) == MarkFate(flash.plan, old(flash.tick))
      ensures old(flash.tick) <= flash.tick && (r.Ok? <==> flash.NoFault(old(flash.tick), flash.tick))
      ensures Sectors() == Arbitration.MarkValid(old(Sectors()), cut)
      ensures var before := Resolve(old(Sectors()));
              r.Ok? ==> Spells(Cells(), before.activeSector, before.activeSeq, 2)
      ensures SlotsUntouched(old(Cells()), Cells())
    {
      hide Resolve, RewriteFate, SlotOf, OtadataOf, Spells, NewEntry;
      ghost var o := Sectors();
      var res := ResolveOtadata();
      if res.Err? {
        return Err(res.error), BeforeErase;
      }
      r, cut := RewriteSector(res.value.activeSector, NewEntry(res.value.activeSeq, IMG_VALID));
      if r.Ok? {
        RewriteSpells(Cells(), o, res.value.activeSector, res.value.activeSeq, IMG_VALID);
      }
    }

    method MarkInvalid() returns (r: Result<Unit, FlashError>, ghost cut: CutPoint)
      requires Valid()
      modifies flash, flash.cells
      ensures (r, cut) == MarkFate(flash.plan, old(flash.tick))
      ensures old(flash.tick) <= flash.tick && (r.Ok? <==> flash.NoFault(old(flash.tick), flash.tick))
      ensures Sectors() == Arbitration.MarkInvalid(old(Sectors()), cut)
      ensures var before := Resolve(old(Sectors()));
              r.Ok? ==> Spells(Cells(), before.activeSector, before.activeSeq, 3)
      ensures SlotsUntouched(old(Cells()), Cells())
    {
      hide Resolve, RewriteFate, SlotOf, OtadataOf, Spells, NewEntry;
      ghost var o := Sectors();
      var res := ResolveOtadata();
      if res.Err? {
        return Err(res.error), BeforeErase;
      }
      r, cut := RewriteSector(res.value.activeSector, NewEntry(res.value.activeSeq, IMG_INVALID));
      if r.Ok? {
        RewriteSpells(Cells(), o, res.value.activeSector, res.value.activeSeq, IMG_INVALID);
      }
    }
  }

  /** A commit that lands and is reported as a failure: the write programs all 32
      bytes and then fails. The resolution is the new trial's, the result an error. */
  method FailedCommitLands(storage: EspFlashStorage, slot: Slot) returns (r: Result<Unit, FlashError>)
    requires storage.Valid() && CanOutrank(Resolve(storage.Sectors()), slot)
    requires var (plan, t) := (storage.flash.plan, storage.flash.tick);
             plan(t).Works? && plan(t + 1).Works? && plan(t + 2).Works? && plan(t + 3) == Fails(32)
    modifies storage.flash, storage.flash.cells
    ensures r == Err(WriteError)
    ensures Resolve(storage.Sectors()) == TrialResolution(Resolve(old(storage.Sectors())), slot)
  {
    hide Resolve, OutcomeOf, SlotOf, OtadataOf;
    ghost var o := storage.Sectors();
    ghost var cut;
    r, cut := storage.MarkTrialBoot(slot);
    MarkTrialBootAtomic(o, slot, cut);
    TrialLands(o, slot);
  }

  /** The result of an erase and a write of 32 bytes, and where they leave the sector. */
  function RewriteFate(plan: nat -> Fate, tick: nat): (f: (Result<Unit, FlashError>, CutPoint))
    ensures f.0.Ok? ==> f.1 == Written(32)
  {
    match plan(tick)
    case Fails(after) => (Err(EraseError), if after == 0 then BeforeErase else Written(0))
    case Works =>
      (if plan(tick + 1).Works? then Ok(Done) else Err(WriteError), Written(Reached(plan(tick + 1), 32)))
  }

  /** The same for a mark, which reads both sectors first. */
  function MarkFate(plan: nat -> Fate, tick: nat): (f: (Result<Unit, FlashError>, CutPoint))
    ensures f.0.Ok? ==> f.1 == Written(32)
  {
    if plan(tick).Works? && plan(tick + 1).Works? then RewriteFate(plan, tick + 2) else (Err(ReadError), BeforeErase)
  }

  ghost predicate SlotsUntouched(c: seq<byte>, d: seq<byte>) {
    |c| == |d| == CAPACITY && SlotOf(d, Ota0) == SlotOf(c, Ota0) && SlotOf(d, Ota1) == SlotOf(c, Ota1)
  }

  lemma AndBlank(data: seq<byte>)
    ensures AndBytes(Blank(|data|), data) == data
  {
    forall i | 0 <= i < |data|
      ensures AndByte(0xFF, data[i]) == data[i]
    {
      AndErased(data[i]);
    }
  }

  /** Programming erased bytes stores exactly the data. */
  lemma ProgramBlank(c: seq<byte>, from: nat, to: nat, data: seq<byte>)
    requires from + |data| <= to <= |c|
    ensures ProgramAt(EraseAt(c, from, to), from, data) == c[..from] + (data + Blank(to - from - |data|)) + c[to..]
  {
    var e := EraseAt(c, from, to);
    AndBlank(data);
    assert e[..from] == c[..from] && e[from..from + |data|] == Blank(|data|);
    assert e[from + |data|..] == Blank(to - from - |data|) + c[to..];
  }

  /** A patch does not show in a slice that does not overlap it. */
  lemma SliceElsewhere(c: seq<byte>, a: nat, x: seq<byte>, lo: nat, hi: nat)
    requires a + |x| <= |c| && lo <= hi <= |c| && (hi <= a || a + |x| <= lo)
    ensures (c[..a] + x + c[a + |x|..])[lo..hi] == c[lo..hi]
  {
  }

  lemma RewriteCells(c: seq<byte>, s: Sector, b: EntryBytes, k: nat)
    requires |c| == CAPACITY && k <= 32
    ensures var a := s.FlashOffset(); var d := ProgramAt(EraseAt(c, a, a + FLASH_SECTOR_SIZE), a, b[..k]);
            OtadataOf(d) == OtadataOf(c).With(s, Torn(b, k)) && SlotsUntouched(c, d)
  {
    hide EraseAt, ProgramAt, Torn, Blank;
    var a, other := s.FlashOffset(), s.Other().FlashOffset();
    ProgramBlank(c, a, a + 4096, b[..k]);
    var x := b[..k] + Blank(4096 - k);
    SliceElsewhere(c, a, x, other, other + 32);
    SliceElsewhere(c, a, x, OTA_0_OFFSET, OTA_0_OFFSET + OTA_SLOT_SIZE);
    SliceElsewhere(c, a, x, OTA_1_OFFSET, OTA_1_OFFSET + OTA_SLOT_SIZE);
    EntrySlice(c, a, b, k);
  }

  lemma EntrySlice(c: seq<byte>, a: nat, b: EntryBytes, k: nat)
    requires a + 4096 <= |c| && k <= 32
    ensures (c[..a] + (b[..k] + Blank(4096 - k)) + c[a + 4096..])[a..a + 32] == Torn(b, k)
  {}

  lemma PaddedFits(slot: Slot, offset: nat, data: seq<byte>)
    requires offset % 4 == 0 && offset + |data| <= OTA_SLOT_SIZE
    ensures offset + |WordPadded(data)| <= OTA_SLOT_SIZE && (slot.Offset() + offset) % 4 == 0
  {
  }

  lemma NothingDiffers(c: seq<byte>, slot: Slot)
    requires |c| == CAPACITY
    ensures OnlySlotDiffers(c, c, slot)
  {
  }

  lemma DifferTwice(c: seq<byte>, d: seq<byte>, e: seq<byte>, slot: Slot)
    requires OnlySlotDiffers(c, d, slot) && OnlySlotDiffers(d, e, slot)
    ensures OnlySlotDiffers(c, e, slot)
  {
  }

  lemma ErasedInSlot(c: seq<byte>, slot: Slot, from: nat, to: nat)
    requires |c| == CAPACITY && slot.Offset() <= from <= to <= slot.Offset() + OTA_SLOT_SIZE
    ensures OnlySlotDiffers(c, EraseAt(c, from, to), slot)
  {
    var d := EraseAt(c, from, to);
    assert d[..slot.Offset()] == c[..slot.Offset()];
    assert d[slot.Offset() + OTA_SLOT_SIZE..] == c[slot.Offset() + OTA_SLOT_SIZE..];
  }

  lemma InSlot(c: seq<byte>, slot: Slot, addr: nat, data: seq<byte>)
    requires |c| == CAPACITY && slot.Offset() <= addr && addr + |data| <= slot.Offset() + OTA_SLOT_SIZE
    ensures OnlySlotDiffers(c, ProgramAt(c, addr, data), slot)
  {
  }
}
