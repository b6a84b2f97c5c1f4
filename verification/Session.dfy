/** The streaming verified update: exactly Content-Length bytes through the hash
    into flash, and a commit only for the expected digest. */
module Session {
  import opened Bytes
  import opened Partition
  import opened Arbitration
  import opened Flash
  import opened SlotFlashing
  import opened Transport

  const CHUNK_BYTES: nat := 4096

  datatype UpdateError =
    | Oversize(length: nat, capacity: nat)
    | TooShort
    | HashMismatch
    | FlashFailed(flashError: FlashError)
    | BodyFailed

  /** Streaming SHA-256 as the bytes it has absorbed; `hash` stands for the function itself. */
  class Hasher {
    var data: seq<byte>

    constructor ()
      ensures data == []
    {
      data := [];
    }

    method Update(chunk: seq<byte>)
      modifies this
      ensures data == old(data) + chunk
    {
      data := data + chunk;
    }

    method Finalize(hash: seq<byte> -> Digest) returns (d: Digest)
      ensures d == hash(data)
    {
      d := hash(data);
    }
  }

  /** The body has `contentLength` bytes that fit the slot and have the expected digest. */
  predicate Accepted(contentLength: nat, body: seq<byte>, expected: Digest, hash: seq<byte> -> Digest) {
    contentLength <= OTA_SLOT_SIZE && contentLength <= |body| && hash(body[..contentLength]) == expected
  }

  /** Which of the two devices worked throughout. */
  datatype Working = Working(link: bool, flash: bool)

  /** Why an update was refused, in terms of the body the peer sent and the devices. */
  predicate Refused(e: UpdateError, contentLength: nat, body: seq<byte>, expected: Digest,
                    hash: seq<byte> -> Digest, working: Working)
  {
    match e
    case Oversize(length, capacity) => length == contentLength > capacity == OTA_SLOT_SIZE
    case TooShort => contentLength <= OTA_SLOT_SIZE && |body| < contentLength
    case HashMismatch =>
      contentLength <= OTA_SLOT_SIZE && contentLength <= |body| && hash(body[..contentLength]) != expected
    case FlashFailed(_) => contentLength <= OTA_SLOT_SIZE && !working.flash
    case BodyFailed => contentLength <= OTA_SLOT_SIZE && !working.link
  }

  ghost function WorkingSince(flasher: SlotFlasher, body: HttpBody, flashFrom: nat, linkFrom: nat): Working
    reads flasher.storage.flash`tick, body.link`tick
  {
    Working(body.link.NoFault(linkFrom, body.link.tick), flasher.NoFaultSince(flashFrom))
  }

  /** Reads, hashes and writes until `contentLength` bytes went through, never asking for more. */
  method StreamBody(flasher: SlotFlasher, body: HttpBody, contentLength: nat, hasher: Hasher)
    returns (e: Option<UpdateError>, total: nat)
    requires flasher.Valid() && flasher.stream == hasher.data == [] && flasher.len < 4096 && flasher.inStep
    requires contentLength <= OTA_SLOT_SIZE
    modifies flasher, flasher.buf, flasher.storage.flash, flasher.storage.flash.cells, body, body.link, hasher
    ensures flasher.Shaped() && flasher.inStep
    ensures OnlySlotDiffers(old(flasher.storage.Cells()), flasher.storage.Cells(), flasher.slot)
    ensures e.None? ==>
              && flasher.Valid() && total == |flasher.stream| <= contentLength
              && hasher.data == flasher.stream && flasher.stream + body.Remaining() == old(body.Remaining())
              && (total < contentLength ==> body.Remaining() == [])
    ensures old(body.link.tick) <= body.link.tick && old(flasher.storage.flash.tick) <= flasher.storage.flash.tick
    ensures var working := WorkingSince(flasher, body, old(flasher.storage.flash.tick), old(body.link.tick));
            && (e.None? <==> working == Working(true, true))
            && (e.Some? ==> if e.value.BodyFailed? then !working.link else e.value.FlashFailed? && !working.flash)
  {
    hide SlotFlasher.Valid, OnlySlotDiffers, FlashStorage.NoFault, Link.NoFault;
    var offset := 0;
    total := 0;
    ghost var stream, before := body.Remaining(), flasher.storage.Cells();
    ghost var start, from := flasher.storage.flash.tick, body.link.tick;
    NothingDiffers(before, flasher.slot);
    flasher.storage.flash.NoFaultJoins(start, start, start);
    body.link.NoFaultJoins(from, from, from);
    while total < contentLength
      invariant flasher.Valid() && flasher.Shaped() && flasher.len < 4096 && flasher.inStep
      invariant total <= contentLength && offset == total == |flasher.stream|
      invariant hasher.data == flasher.stream && flasher.stream + body.Remaining() == stream
      invariant OnlySlotDiffers(before, flasher.storage.Cells(), flasher.slot)
      invariant start <= flasher.storage.flash.tick && from <= body.link.tick
      invariant WorkingSince(flasher, body, start, from) == Working(true, true)
      decreases contentLength - total
    {
      ghost var cells, now, last := flasher.storage.Cells(), flasher.storage.flash.tick, body.link.tick;
      var remaining := if contentLength - total <= CHUNK_BYTES then contentLength - total else CHUNK_BYTES;
      var read := body.Read(remaining);
      body.link.NoFaultJoins(from, last, body.link.tick);
      if read.None? {
        return Some(BodyFailed), total;
      }
      var chunk := read.value;
      if |chunk| == 0 {
        break;
      }
      // `HttpBody` never returns more than it was asked for, so the overrun error
      // (session.rs:84-86) cannot occur.
      assert |chunk| <= remaining;
      total := total + |chunk|;
      hasher.Update(chunk);
      Reassociate(flasher.stream, chunk, body.Remaining());
      var written := flasher.Write(offset, chunk);
      DifferTwice(before, cells, flasher.storage.Cells(), flasher.slot);
      flasher.storage.flash.NoFaultJoins(start, now, flasher.storage.flash.tick);
      if written.Err? {
        return Some(FlashFailed(written.error)), total;
      }
      offset := offset + |chunk|;
    }
    e := None;
  }

  lemma Reassociate(a: seq<byte>, b: seq<byte>, c: seq<byte>)
    ensures a + (b + c) == (a + b) + c
  {
  }

  /** Streams `contentLength` bytes of the body into the slot. `marked` says
      whether the trial mark was begun: only then is `otadata` touched, and then
      the slot already starts with exactly those bytes and their digest is the
      expected one. */
  method ApplyUpdate(flasher: SlotFlasher, body: HttpBody, contentLength: nat, expected: Digest,
                     hash: seq<byte> -> Digest)
    returns (r: Result<Unit, UpdateError>, ghost marked: bool, ghost cut: CutPoint)
    requires flasher.Valid() && flasher.stream == [] && flasher.len == 0 && flasher.inStep
    modifies flasher, flasher.buf, flasher.storage.flash, flasher.storage.flash.cells, body, body.link
    ensures flasher.Shaped() && flasher.inStep
    ensures SlotOf(flasher.storage.Cells(), flasher.slot.Other())
         == old(SlotOf(flasher.storage.Cells(), flasher.slot.Other()))
    ensures contentLength > OTA_SLOT_SIZE ==> r.Err? && flasher.storage.Cells() == old(flasher.storage.Cells())
    ensures if marked
            then && contentLength <= |old(body.Remaining())|
                 && flasher.stream == old(body.Remaining())[..contentLength] && flasher.Holds()
                 && hash(flasher.stream) == expected
                 && flasher.storage.Sectors() == MarkTrialBoot(old(flasher.storage.Sectors()), flasher.slot, cut)
            else flasher.storage.Sectors() == old(flasher.storage.Sectors())
    ensures r.Ok? ==> marked && cut == Written(32)
    ensures SelectsTrial(old(flasher.storage.Sectors()), flasher.slot, flasher.storage.Sectors())
    ensures marked && r.Err? ==> r.error.FlashFailed?
    // The outcome: a commit exactly of an acceptable body on working devices, and the cause of every refusal.
    ensures old(body.link.tick) <= body.link.tick && old(flasher.storage.flash.tick) <= flasher.storage.flash.tick
    ensures var working := WorkingSince(flasher, body, old(flasher.storage.flash.tick), old(body.link.tick));
            && (r.Ok? <==> working == Working(true, true)
                           && Accepted(contentLength, old(body.Remaining()), expected, hash))
            && (r.Err? ==> Refused(r.error, contentLength, old(body.Remaining()), expected, hash, working))
    ensures r.Err? && r.error.Oversize? ==> body.Remaining() == old(body.Remaining())
    ensures r.Err? && r.error.TooShort? ==> body.Remaining() == []
  {
    hide SlotOf, Burned, OtadataOf, FullSectorOps, MarkTrialBoot, Resolve, SelectsTrial;
    hide SlotFlasher.Valid, SlotFlasher.Holds, FlashStorage.NoFault, Link.NoFault;
    ghost var start, from := flasher.storage.flash.tick, body.link.tick;
    flasher.storage.flash.NoFaultJoins(start, start, start);
    body.link.NoFaultJoins(from, from, from);
    marked, cut := false, BeforeErase;
    NothingStored(flasher.storage.Sectors(), flasher.slot);
    if contentLength > OTA_SLOT_SIZE {
      return Err(Oversize(contentLength, OTA_SLOT_SIZE)), marked, cut;
    }
    ghost var stream, before := body.Remaining(), flasher.storage.Cells();
    var hasher := new Hasher();
    var e, total := StreamBody(flasher, body, contentLength, hasher);
    OnlySlotDiffersViews(before, flasher.storage.Cells(), flasher.slot);
    if e.Some? {
      return Err(e.value), marked, cut;
    }
    Parts(flasher.stream, body.Remaining());
    if total != contentLength {
      assert flasher.stream + [] == flasher.stream;
      return Err(TooShort), marked, cut;
    }
    var digest := hasher.Finalize(hash);
    if digest != expected {
      return Err(HashMismatch), marked, cut;
    }
    var commit;
    ghost var now := flasher.storage.flash.tick;
    commit, marked, cut := flasher.MarkUpdated();
    flasher.storage.flash.NoFaultJoins(start, now, flasher.storage.flash.tick);
    r := if commit.Ok? then Ok(Done) else Err(FlashFailed(commit.error));
  }

  lemma Parts(a: seq<byte>, b: seq<byte>)
    ensures (a + b)[..|a|] == a && (a + b)[|a|..] == b
  {
  }
}
