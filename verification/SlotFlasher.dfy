/** Re-blocks a stream of arbitrary chunks into whole, aligned flash sectors. */
module SlotFlashing {
  import opened Bytes
  import opened Partition
  import opened Arbitration
  import opened Flash

  /** The slot after a stream was burned into it: the stream, 0xFF to the end of
      its last sector, and the old contents beyond. */
  function Burned(base: seq<byte>, stream: seq<byte>): (m: seq<byte>)
    requires |base| == OTA_SLOT_SIZE && |stream| <= OTA_SLOT_SIZE
    ensures |m| == OTA_SLOT_SIZE && stream <= m
  {
    var end := (|stream| + 4095) / 4096 * 4096;
    stream + Blank(end - |stream|) + base[end..]
  }

  function SectorOps(slot: Slot, sector: nat, length: nat): seq<FlashOp> {
    [Erased(slot.Offset() + sector * 4096, 4096), Programmed(slot.Offset() + sector * 4096, length)]
  }

  /** The operations behind the first `n` full sectors: each erased once, then programmed once. */
  function FullSectorOps(slot: Slot, n: nat): seq<FlashOp> {
    if n == 0 then [] else FullSectorOps(slot, n - 1) + SectorOps(slot, n - 1, 4096)
  }

  function BurnOps(slot: Slot, length: nat): seq<FlashOp> {
    FullSectorOps(slot, length / 4096)
    + if length % 4096 == 0 then [] else SectorOps(slot, length / 4096, (length % 4096 + 3) / 4 * 4)
  }

  lemma BurnOpsNext(slot: Slot, sector: nat, len: nat)
    requires 0 < len <= 4096
    ensures FullSectorOps(slot, sector) + SectorOps(slot, sector, (len + 3) / 4 * 4)
         == BurnOps(slot, sector * 4096 + len)
    ensures len == 4096 ==> BurnOps(slot, sector * 4096 + len) == FullSectorOps(slot, sector + 1)
  {
  }

  /** Byte by byte: the stream, then 0xFF up to the end of its last sector, then what was there. */
  lemma BurnedAt(base: seq<byte>, stream: seq<byte>, i: nat)
    requires |base| == OTA_SLOT_SIZE && |stream| <= OTA_SLOT_SIZE && i < OTA_SLOT_SIZE
    ensures Burned(base, stream)[i] == if i < |stream| then stream[i]
                                       else if i / 4096 * 4096 < |stream| then 0xFF else base[i]
  {
    var end := (|stream| + 4095) / 4096 * 4096;
    assert i < end <==> i / 4096 * 4096 < |stream| by {
      SectorEnd(|stream|, i);
    }
  }

  lemma SectorEnd(n: nat, i: nat)
    ensures i < (n + 4095) / 4096 * 4096 <==> i / 4096 * 4096 < n
  {}

  lemma {:induction false} FullSectorOpsAt(slot: Slot, n: nat, k: nat)
    requires k < n
    ensures |FullSectorOps(slot, n)| == 2 * n
    ensures FullSectorOps(slot, n)[2 * k] == Erased(slot.Offset() + k * 4096, 4096)
    ensures FullSectorOps(slot, n)[2 * k + 1] == Programmed(slot.Offset() + k * 4096, 4096)
    decreases n
  {
    if n > 1 {
      FullSectorOpsAt(slot, n - 1, if k < n - 1 then k else 0);
    }
  }

  /** Every sector of a stream is erased once and then programmed once, in order, the last
      one with whole words covering what is left; and nothing else is done. */
  lemma BurnOpsAt(slot: Slot, length: nat, k: nat)
    requires k * 4096 < length
    ensures |BurnOps(slot, length)| == 2 * ((length + 4095) / 4096)
    ensures BurnOps(slot, length)[2 * k] == Erased(slot.Offset() + k * 4096, 4096)
    ensures var left := length - k * 4096; var op := BurnOps(slot, length)[2 * k + 1];
            && op.Programmed? && op.addr == slot.Offset() + k * 4096
            && if left >= 4096 then op.len == 4096 else left <= op.len < left + 4 && op.len % 4 == 0
  {
    var n := length / 4096;
    assert (length + 4095) / 4096 == if length % 4096 == 0 then n else n + 1;
    if n > 0 {
      FullSectorOpsAt(slot, n, if k < n then k else 0);
    }
  }

  lemma PatchInside(c: seq<byte>, lo: nat, hi: nat, a: nat, x: seq<byte>)
    requires lo <= a && a + |x| <= hi <= |c|
    ensures (c[..a] + x + c[a + |x|..])[lo..hi] == c[lo..hi][..a - lo] + x + c[lo..hi][a + |x| - lo..]
  {
  }

  /** One more sector, or the padded last part of one. */
  lemma BurnedNext(base: seq<byte>, done: seq<byte>, tail: seq<byte>, x: seq<byte>)
    requires |base| == OTA_SLOT_SIZE && |done| % 4096 == 0 && |done| + 4096 <= OTA_SLOT_SIZE && 0 < |tail| <= 4096
    requires x == tail + Blank(4096 - |tail|)
    ensures Burned(base, done)[..|done|] + x + Burned(base, done)[|done| + 4096..] == Burned(base, done + tail)
  {
    assert (|done| + 4095) / 4096 * 4096 == |done|;
    assert (|done + tail| + 4095) / 4096 * 4096 == |done| + 4096;
    var m := Burned(base, done);
    assert m == done + base[|done|..];
    assert m[|done| + 4096..] == base[|done| + 4096..];
  }

  lemma FlushedCells(c: seq<byte>, d: seq<byte>, e: seq<byte>, slot: Slot, base: seq<byte>, done: seq<byte>,
                     tail: seq<byte>, pad: nat, a: nat)
    requires |c| == CAPACITY && |base| == OTA_SLOT_SIZE
    requires |done| % 4096 == 0 && |done| + 4096 <= OTA_SLOT_SIZE && 0 < |tail| && |tail| + pad <= 4096
    requires SlotOf(c, slot) == Burned(base, done) && a == slot.Offset() + |done|
    requires d == EraseAt(c, a, a + 4096) && e == ProgramAt(d, a, tail + Blank(pad))
    ensures SlotOf(e, slot) == Burned(base, done + tail)
  {
    ProgramBlank(c, a, a + 4096, tail + Blank(pad));
    BlankJoin(tail, pad);
    var x := tail + Blank(4096 - |tail|);
    PatchInside(c, slot.Offset(), slot.Offset() + OTA_SLOT_SIZE, a, x);
    BurnedNext(base, done, tail, x);
  }

  lemma BlankJoin(tail: seq<byte>, pad: nat)
    requires |tail| + pad <= 4096
    ensures (tail + Blank(pad)) + Blank(4096 - |tail| - pad) == tail + Blank(4096 - |tail|)
  {
  }

  lemma HeadErased(c: seq<byte>, slot: Slot)
    requires |c| == CAPACITY
    ensures SlotOf(EraseAt(c, slot.Offset(), slot.Offset() + 4096), slot) == EraseAt(SlotOf(c, slot), 0, 4096)
  {
    PatchInside(c, slot.Offset(), slot.Offset() + OTA_SLOT_SIZE, slot.Offset(), Blank(4096));
  }

  lemma MoveAcross(s: seq<byte>, rest: seq<byte>, take: nat)
    requires take <= |rest|
    ensures (s + rest[..take]) + rest[take..] == s + rest
  {
  }

  /** The full sectors of a stream this long lie in the slot. */
  predicate SectorsFit(length: nat) {
    length / 4096 * 4096 <= OTA_SLOT_SIZE
  }

  lemma SectorBounds(sector: nat, data: seq<byte>)
    requires sector * 4096 <= OTA_SLOT_SIZE && 0 < |data| <= 4096
    ensures EspFlashStorage.EraseFits(sector * 4096, 4096) <==> sector * 4096 < OTA_SLOT_SIZE
    ensures sector * 4096 < OTA_SLOT_SIZE ==> EspFlashStorage.WriteFits(sector * 4096, data)
    ensures sector * 4096 < OTA_SLOT_SIZE ==> sector * 4096 + 4096 <= OTA_SLOT_SIZE
  {
  }

  class SlotFlasher {
    const storage: EspFlashStorage
    const slot: Slot
    const buf: array<byte>
    var len: nat
    var sector: nat
    /** Every byte accepted so far, the slot and the log before the first, and
        whether every offset passed so far was the stream position. */
    ghost var stream: seq<byte>
    ghost const base: seq<byte>
    ghost const ops0: seq<FlashOp>
    ghost var inStep: bool

    ghost predicate Shaped() {
      && storage.Valid() && buf != storage.flash.cells && buf.Length == 4096 && |base| == OTA_SLOT_SIZE
    }

    ghost predicate Valid()
      reads this, buf, storage.flash, storage.flash.cells
      ensures Valid() ==> Shaped()
    {
      && Shaped()
      && len <= 4096 && sector * 4096 <= OTA_SLOT_SIZE
      && |stream| == sector * 4096 + len
      && stream[sector * 4096..] == buf[..len]
      && SlotOf(storage.Cells(), slot) == Burned(base, stream[..sector * 4096])
      && storage.flash.ops == ops0 + FullSectorOps(slot, sector)
    }

    constructor (storage: EspFlashStorage, slot: Slot, buf: array<byte>)
      requires storage.Valid() && buf != storage.flash.cells && buf.Length == 4096
      ensures Valid() && len == 0 && stream == [] && inStep
      ensures this.storage == storage && this.slot == slot && this.buf == buf
      ensures base == SlotOf(storage.Cells(), slot) && ops0 == storage.flash.ops
    {
      this.storage, this.slot, this.buf := storage, slot, buf;
      len, sector := 0, 0;
      stream, inStep := [], true;
      base, ops0 := SlotOf(storage.Cells(), slot), storage.flash.ops;
    }

    /** Pads the buffered bytes with 0xFF to a 4-byte word. */
    method PadToWord() returns (end: nat)
      requires Shaped() && len <= 4096
      modifies buf
      ensures end == (len + 3) / 4 * 4 <= 4096 && buf[..end] == old(buf[..len]) + Blank(end - len)
    {
      end := len;
      while end % 4 != 0
        invariant len <= end <= 4096
        invariant buf[..end] == old(buf[..len]) + Blank(end - len)
        invariant end <= (len + 3) / 4 * 4
        decreases 4096 - end
      {
        buf[end] := 0xFF;
        end := end + 1;
      }
    }

    ghost predicate Holds()
      requires Shaped()
      reads this, storage.flash.cells
    {
      |stream| <= OTA_SLOT_SIZE && SlotOf(storage.Cells(), slot) == Burned(base, stream)
    }

    /** Nothing is buffered: the slot holds the whole stream. */
    ghost predicate Flushed()
      reads this, storage.flash, storage.flash.cells
    {
      && Shaped()
      && len == 0 && |stream| <= sector * 4096 <= OTA_SLOT_SIZE && sector * 4096 < |stream| + 4096
      && Holds()
      && storage.flash.ops == ops0 + BurnOps(slot, |stream|)
    }

    /** Every flash operation from the `from`th on has worked. */
    ghost predicate NoFaultSince(from: nat)
      reads storage.flash`tick
    {
      storage.flash.NoFault(from, storage.flash.tick)
    }

    lemma OneTick(t: nat)
      ensures storage.flash.NoFault(t, t + 1) <==> storage.flash.plan(t).Works?
    {}

    lemma FlushedIsValid()
      requires Flushed() && |stream| == sector * 4096
      ensures Valid()
    {
      hide SlotOf, Burned, FullSectorOps, SectorOps;
      assert stream[..sector * 4096] == stream;
      assert |stream| / 4096 == sector && |stream| % 4096 == 0;
    }

    lemma ValidIsFlushed()
      requires Valid() && len == 0
      ensures Flushed()
    {
      hide SlotOf, Burned, FullSectorOps, SectorOps;
      assert stream[..sector * 4096] == stream;
    }

    /** Erases and writes the buffered sector, padded to a 4-byte word with 0xFF. */
    method FlushSector() returns (r: Result<Unit, FlashError>)
      requires Valid() && len > 0
      modifies this`len, this`sector, buf, storage.flash, storage.flash.cells
      ensures Shaped() && OnlySlotDiffers(old(storage.Cells()), storage.Cells(), slot)
      ensures old(storage.flash.tick) <= storage.flash.tick
      ensures r.Ok? <==> old(sector) * 4096 < OTA_SLOT_SIZE && NoFaultSince(old(storage.flash.tick))
      ensures r.Ok? ==> Flushed() && sector == old(sector) + 1
    {
      hide SlotOf, Burned, FullSectorOps, SectorOps, BurnOps, Blank, OtadataOf;
      ghost var done, tail := stream[..sector * 4096], buf[..len];
      var end := PadToWord();
      r := BurnSector(buf[..end], done, tail, end - len);
      if r.Err? {
        return;
      }
      assert stream == done + tail;
      BurnOpsNext(slot, sector, len);
      sector := sector + 1;
      len := 0;
    }

    /** One erase and one program of the current sector. */
    method BurnSector(data: seq<byte>, ghost done: seq<byte>, ghost tail: seq<byte>, ghost pad: nat)
      returns (r: Result<Unit, FlashError>)
      requires Shaped() && |done| == sector * 4096 <= OTA_SLOT_SIZE
      requires SlotOf(storage.Cells(), slot) == Burned(base, done)
      requires data == tail + Blank(pad) && 0 < |data| <= 4096 && |data| % 4 == 0 && 0 < |tail|
      modifies storage.flash, storage.flash.cells
      ensures OnlySlotDiffers(old(storage.Cells()), storage.Cells(), slot)
      ensures old(storage.flash.tick) <= storage.flash.tick
      ensures r.Ok? <==> sector * 4096 < OTA_SLOT_SIZE && NoFaultSince(old(storage.flash.tick))
      ensures r.Ok? ==>
                && sector * 4096 + 4096 <= OTA_SLOT_SIZE
                && SlotOf(storage.Cells(), slot) == Burned(base, done + tail)
                && storage.flash.ops == old(storage.flash.ops) + SectorOps(slot, sector, |data|)
    {
      hide EraseAt, ProgramAt, SlotOf, Burned, OtadataOf, Blank, OnlySlotDiffers;
      hide WordPadded, WordsReached, FlashStorage.NoFault, EspFlashStorage.EraseFits, EspFlashStorage.WriteFits;
      ghost var before, tick := storage.Cells(), storage.flash.tick;
      var offset := sector * 4096;
      PaddedAlready(data);
      SectorBounds(sector, data);
      r := storage.EraseRange(slot, offset, FLASH_SECTOR_SIZE);
      if r.Err? {
        OneTick(tick);
        return;
      }
      ghost var erased, now := storage.Cells(), storage.flash.tick;
      OneTick(tick);
      r := storage.WriteChunk(slot, offset, data);
      DifferTwice(before, erased, storage.Cells(), slot);
      storage.flash.NoFaultJoins(tick, now, storage.flash.tick);
      if r.Ok? {
        FlushedCells(before, erased, storage.Cells(), slot, base, done, tail, pad, slot.Offset() + offset);
      }
    }

    /** Buffers `data`, flushing whenever a sector is full. The offset is not used. */
    method Write(offset: nat, data: seq<byte>) returns (r: Result<Unit, FlashError>)
      requires Valid() && len < 4096
      modifies this, buf, storage.flash, storage.flash.cells
      ensures Shaped() && OnlySlotDiffers(old(storage.Cells()), storage.Cells(), slot)
      ensures old(storage.flash.tick) <= storage.flash.tick
      ensures r.Ok? <==> SectorsFit(|old(stream)| + |data|) && NoFaultSince(old(storage.flash.tick))
      ensures r.Ok? ==> Valid() && len < 4096 && stream == old(stream) + data
      ensures inStep == (old(inStep) && offset == |old(stream)|)
    {
      hide SlotOf, Burned, FullSectorOps, BurnOps, OtadataOf, OnlySlotDiffers, FlashStorage.NoFault;
      ghost var before, tick := storage.Cells(), storage.flash.tick;
      NothingDiffers(before, slot);
      storage.flash.NoFaultJoins(tick, tick, tick);
      inStep := inStep && offset == |stream|;
      ghost var total := stream + data;
      var rest := data;
      while rest != []
        invariant Valid() && len < 4096 && stream + rest == total
        invariant old(storage.flash.tick) <= storage.flash.tick && NoFaultSince(old(storage.flash.tick))
        invariant OnlySlotDiffers(old(storage.Cells()), storage.Cells(), slot)
        invariant inStep == (old(inStep) && offset == |old(stream)|)
        decreases |rest|
      {
        var space := buf.Length - len;
        var take := if space <= |rest| then space else |rest|;
        MoveAcross(stream, rest, take);
        ghost var cells, now := storage.Cells(), storage.flash.tick;
        r := FillAndFlush(rest[..take]);
        DifferTwice(before, cells, storage.Cells(), slot);
        storage.flash.NoFaultJoins(tick, now, storage.flash.tick);
        if r.Err? {
          return;
        }
        rest := rest[take..];
      }
      r := Ok(Done);
    }

    /** One round of `Write`: buffer a chunk that fits, flush if that fills the sector. */
    method FillAndFlush(chunk: seq<byte>) returns (r: Result<Unit, FlashError>)
      requires Valid() && len + |chunk| <= 4096
      modifies this`len, this`stream, this`sector, buf, storage.flash, storage.flash.cells
      ensures Shaped() && OnlySlotDiffers(old(storage.Cells()), storage.Cells(), slot)
      ensures old(storage.flash.tick) <= storage.flash.tick
      ensures r.Ok? <==> SectorsFit(|old(stream)| + |chunk|) && NoFaultSince(old(storage.flash.tick))
      ensures r.Ok? ==> Valid() && len < 4096 && stream == old(stream) + chunk
    {
      hide SlotOf, Burned, FullSectorOps, BurnOps, OtadataOf, OnlySlotDiffers, FlashStorage.NoFault;
      NothingDiffers(storage.Cells(), slot);
      storage.flash.NoFaultJoins(storage.flash.tick, storage.flash.tick, storage.flash.tick);
      Fill(chunk);
      if len == buf.Length {
        r := FlushSector();
        if r.Ok? {
          FlushedIsValid();
        }
      } else {
        r := Ok(Done);
      }
    }

    /** Appends a chunk that fits to the buffer. */
    method Fill(chunk: seq<byte>)
      requires Valid() && len + |chunk| <= 4096
      modifies this`len, this`stream, buf
      ensures Valid() && len == old(len) + |chunk| && stream == old(stream) + chunk
      ensures storage.flash.tick == old(storage.flash.tick)
      ensures storage.Cells() == old(storage.Cells())
    {
      forall k | 0 <= k < |chunk| {
        buf[len + k] := chunk[k];
      }
      assert buf[..len + |chunk|] == old(buf[..len]) + chunk;
      len := len + |chunk|;
      stream := stream + chunk;
      assert stream[..sector * 4096] == old(stream)[..sector * 4096];
      assert stream[sector * 4096..] == old(stream)[sector * 4096..] + chunk;
    }

    /** Flushes what is buffered, then marks the slot for a trial boot. `marked`
        says whether the mark was begun, `cut` how far it came. */
    method MarkUpdated() returns (r: Result<Unit, FlashError>, ghost marked: bool, ghost cut: CutPoint)
      requires Valid()
      modifies this`len, this`sector, buf, storage.flash, storage.flash.cells
      ensures Shaped() && SlotOf(storage.Cells(), slot.Other()) == old(SlotOf(storage.Cells(), slot.Other()))
      ensures old(storage.flash.tick) <= storage.flash.tick
      ensures r.Ok? <==> |stream| <= OTA_SLOT_SIZE && NoFaultSince(old(storage.flash.tick))
      ensures r.Ok? ==> marked && cut == Written(32)
      ensures if marked
              then Holds() && storage.Sectors() == MarkTrialBoot(old(storage.Sectors()), slot, cut)
              else storage.Sectors() == old(storage.Sectors())
      ensures SelectsTrial(old(storage.Sectors()), slot, storage.Sectors())
      ensures var target := Resolve(old(storage.Sectors())).activeSector.Other();
              r.Ok? ==> storage.flash.ops == ops0 + BurnOps(slot, |stream|) + EntryOps(target)
    {
      hide Resolve, SelectsTrial, SlotOf, OtadataOf, Burned, BurnOps, FullSectorOps, Arbitration.MarkTrialBoot;
      hide FlashStorage.NoFault;
      ghost var tick := storage.flash.tick;
      storage.flash.NoFaultJoins(tick, tick, tick);
      marked, cut := false, BeforeErase;
      NothingStored(storage.Sectors(), slot);
      if len > 0 {
        r := FlushSector();
        OnlySlotDiffersViews(old(storage.Cells()), storage.Cells(), slot);
        if r.Err? {
          return;
        }
      } else {
        ValidIsFlushed();
      }
      marked := true;
      ghost var now := storage.flash.tick;
      r, cut := storage.MarkTrialBoot(slot);
      storage.flash.NoFaultJoins(tick, now, storage.flash.tick);
    }

    /** Erases the slot's first sector so a rejected image is never selectable. */
    method Abort() returns (r: Result<Unit, FlashError>)
      requires Shaped()
      modifies storage.flash, storage.flash.cells
      ensures OnlySlotDiffers(old(storage.Cells()), storage.Cells(), slot)
      ensures storage.flash.tick == old(storage.flash.tick) + 1
      ensures r.Ok? <==> NoFaultSince(old(storage.flash.tick))
      ensures SlotOf(storage.Cells(), slot) == if storage.flash.plan(old(storage.flash.tick)) == Fails(0)
                                               then old(SlotOf(storage.Cells(), slot))
                                               else EraseAt(old(SlotOf(storage.Cells(), slot)), 0, 4096)
    {
      hide ProgramAt, OtadataOf, OnlySlotDiffers, EraseAt, SlotOf;
      ghost var before := storage.Cells();
      r := storage.EraseRange(slot, 0, FLASH_SECTOR_SIZE);
      HeadErased(before, slot);
    }
  }
}
