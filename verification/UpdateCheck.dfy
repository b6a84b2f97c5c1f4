/** The image stage of one update check: response head, passive slot, verified
    stream, commit or abort. Its effect is a history of the whole device. */
module UpdateCheck {
  import opened Bytes
  import opened Partition
  import opened Arbitration
  import opened Flash
  import opened SlotFlashing
  import opened HeadGrammar
  import opened Transport
  import opened Session
  import opened OtaRuns
  import opened DeviceRuns
  import ResponseHeads

  datatype OtaError = FetchFailed(fetchError: FetchError) | NoLength | UpdateFailed(updateError: UpdateError)

  datatype CheckOutcome = NotAvailable | Committed

  function DeviceOf(c: seq<byte>, image0: seq<byte>, image1: seq<byte>): Device
    requires |c| == CAPACITY
  {
    Device(OtadataOf(c), SlotOf(c, Ota0), SlotOf(c, Ota1), image0, image1)
  }

  /** `d` up to the record of accepted images. */
  ghost predicate SameContents(d: Device, e: Device) {
    d.otadata == e.otadata && d.ota0 == e.ota0 && d.ota1 == e.ota1
  }

  /** An update leaves anything in the slot it was given; if it commits, a verified image. */
  function UpdateEvents(target: Slot, mem: seq<byte>, marked: bool, length: nat, cut: CutPoint): seq<Event> {
    [Program(target, mem)] + if marked then [Commit(target, length, cut)] else []
  }

  /** The assumptions an update meets when it starts. */
  function RulesMet(o: Otadata, target: Slot): Rules {
    Rules(!Resolve(o).isTrial, target == Resolve(o).activeSlot.Other())
  }

  lemma UpdateIsRun(d: Device, target: Slot, mem: seq<byte>, marked: bool, length: nat, cut: CutPoint,
                    hash: seq<byte> -> Digest, published: set<Digest>)
    requires |mem| == OTA_SLOT_SIZE
    requires marked ==> length <= |mem| && hash(mem[..length]) in published
    ensures IsDeviceRun(d, UpdateEvents(target, mem, marked, length, cut), RulesMet(d.otadata, target), hash, published)
  {
    hide Resolve, DeviceRuns.DeviceStep;
    var es, rules := UpdateEvents(target, mem, marked, length, cut), RulesMet(d.otadata, target);
    var d1 := DeviceStep(d, Program(target, mem));
    ProgramStep(d, target, mem);
    if marked {
      assert es[1..] == [Commit(target, length, cut)] && es[1..][1..] == [];
      assert IsDeviceRun(DeviceStep(d1, Commit(target, length, cut)), [], rules, hash, published);
      assert IsDeviceRun(d1, es[1..], rules, hash, published);
    } else {
      assert es[1..] == [];
    }
  }

  lemma ProgramStep(d: Device, target: Slot, mem: seq<byte>)
    ensures var d1 := DeviceStep(d, Program(target, mem));
            && d1.otadata == d.otadata && d1.Passive() == d.Passive()
            && d1.Mem(target) == mem && d1.Mem(target.Other()) == d.Mem(target.Other())
  {
  }

  lemma UpdateEffect(d: Device, target: Slot, mem: seq<byte>, marked: bool, length: nat, cut: CutPoint)
    ensures var e := DeviceRun(d, UpdateEvents(target, mem, marked, length, cut));
            && e.Mem(target) == mem && e.Mem(target.Other()) == d.Mem(target.Other())
            && e.otadata == if marked then MarkTrialBoot(d.otadata, target, cut) else d.otadata
  {
    hide Resolve, MarkTrialBoot;
    var es := UpdateEvents(target, mem, marked, length, cut);
    var d1 := DeviceStep(d, Program(target, mem));
    ProgramStep(d, target, mem);
    if marked {
      var commit := Commit(target, length, cut);
      CommitStep(d1, target, length, cut);
      assert es[1..] == [commit] && es[1..][1..] == [];
      assert DeviceRun(DeviceStep(d1, commit), []) == DeviceStep(d1, commit);
      assert DeviceRun(d1, [commit]) == DeviceStep(d1, commit);
    } else {
      assert es[1..] == [];
    }
  }

  lemma CommitStep(d: Device, target: Slot, length: nat, cut: CutPoint)
    ensures var e := DeviceStep(d, Commit(target, length, cut));
            e.ota0 == d.ota0 && e.ota1 == d.ota1 && e.otadata == MarkTrialBoot(d.otadata, target, cut)
  {
  }

  lemma EmptyRun(d: Device, rules: Rules, hash: seq<byte> -> Digest, published: set<Digest>)
    ensures IsDeviceRun(d, [], rules, hash, published) && DeviceRun(d, []) == d
  {
  }

  lemma SameByParts(d: Device, c: seq<byte>, s: Slot, image0: seq<byte>, image1: seq<byte>)
    requires |c| == CAPACITY && d.otadata == OtadataOf(c)
    requires d.Mem(s) == SlotOf(c, s) && d.Mem(s.Other()) == SlotOf(c, s.Other())
    ensures SameContents(d, DeviceOf(c, image0, image1))
  {
  }

  lemma OneFault(flash: FlashStorage, t: nat)
    ensures flash.NoFault(t, t + 1) <==> flash.plan(t).Works?
  {}

  /** Streams the body into `slot`, commits it if it verifies, erases its head if it does not. */
  method StoreImage(storage: EspFlashStorage, slot: Slot, sectorBuf: array<byte>, body: HttpBody, length: nat,
                    expected: Digest, hash: seq<byte> -> Digest)
    returns (r: Result<Unit, UpdateError>, ghost marked: bool, ghost cut: CutPoint)
    requires storage.Valid() && sectorBuf.Length == 4096 && sectorBuf != storage.flash.cells
    modifies sectorBuf, storage.flash, storage.flash.cells, body, body.link
    ensures SlotOf(storage.Cells(), slot.Other()) == old(SlotOf(storage.Cells(), slot.Other()))
    ensures if marked
            then && length <= |old(body.Remaining())| && length <= OTA_SLOT_SIZE
                 && SlotOf(storage.Cells(), slot)[..length] == old(body.Remaining())[..length]
                 && hash(old(body.Remaining())[..length]) == expected
                 && storage.Sectors() == MarkTrialBoot(old(storage.Sectors()), slot, cut)
            else storage.Sectors() == old(storage.Sectors())
    ensures old(body.link.tick) <= body.link.tick && old(storage.flash.tick) <= storage.flash.tick
    ensures var working := Working(body.link.NoFault(old(body.link.tick), body.link.tick),
                                   storage.flash.NoFault(old(storage.flash.tick), storage.flash.tick));
            && (r.Ok? <==> working == Working(true, true) && Accepted(length, old(body.Remaining()), expected, hash))
            && (r.Err? ==> Refused(r.error, length, old(body.Remaining()), expected, hash, working))
            // A mismatched image is not left selectable.
            && (r == Err(HashMismatch) && working.flash ==> SlotOf(storage.Cells(), slot)[..4096] == Blank(4096))
    ensures r.Ok? ==> marked && cut == Written(32)
    ensures SelectsTrial(old(storage.Sectors()), slot, storage.Sectors())
    ensures r.Err? && r.error.HashMismatch? ==> !marked
  {
    hide Resolve, MarkTrialBoot, SelectsTrial, SlotOf, OtadataOf, SlotFlasher.Valid, FlashStorage.NoFault, Link.NoFault;
    ghost var start := storage.flash.tick;
    var flasher := new SlotFlasher(storage, slot, sectorBuf);
    r, marked, cut := ApplyUpdate(flasher, body, length, expected, hash);
    if r.Err? && r.error.HashMismatch? {
      ghost var before, now := storage.Cells(), storage.flash.tick;
      var _ := flasher.Abort();
      OnlySlotDiffersViews(before, storage.Cells(), slot);
      storage.flash.NoFaultJoins(start, now, storage.flash.tick);
      OneFault(storage.flash, now);
    }
  }

  /** The memory starts with the body of the peer's complete 200 response, which has the expected digest. */
  ghost predicate HoldsBody(mem: seq<byte>, stream: seq<byte>, expected: Digest,
                            hash: seq<byte> -> Digest)
  {
    exists length: nat, consumed: nat :: IsBody(mem, stream, expected, hash, length, consumed)
  }

  ghost predicate IsBody(mem: seq<byte>, stream: seq<byte>, expected: Digest,
                         hash: seq<byte> -> Digest, length: nat, consumed: nat)
  {
    && consumed + length <= |stream| && length <= |mem|
    && IsVerdict(stream, Complete(ResponseHead(200, Some(length))), consumed)
    && mem[..length] == stream[consumed..consumed + length]
    && hash(stream[consumed..consumed + length]) == expected
  }

  /** The bytes of the stream after its first `n`. */
  function After(stream: seq<byte>, n: nat): seq<byte> {
    if n <= |stream| then stream[n..] else []
  }

  ghost predicate IsImage(stream: seq<byte>, length: nat, n: nat) {
    IsVerdict(stream, Complete(ResponseHead(200, Some(length))), n)
  }

  /** What the result of a check says of the peer's stream and of the devices. */
  ghost predicate Explains(r: Result<CheckOutcome, OtaError>, stream: seq<byte>, expected: Digest,
                           hash: seq<byte> -> Digest, working: Working)
  {
    match r
    case Ok(NotAvailable) =>
      exists head: ResponseHead, n: nat :: IsVerdict(stream, Complete(head), n) && head.status != 200
    case Ok(Committed) =>
      exists length: nat, n: nat :: IsImage(stream, length, n) && Accepted(length, After(stream, n), expected, hash)
    case Err(FetchFailed(ReadFailed)) => !working.link
    case Err(FetchFailed(Closed)) => exists n: nat :: IsVerdict(stream, NeedMore, n)
    case Err(FetchFailed(Head(e))) => exists n: nat :: IsVerdict(stream, Reject(e), n)
    case Err(NoLength) => false
    case Err(UpdateFailed(e)) =>
      exists length: nat, n: nat :: IsImage(stream, length, n)
                                    && Refused(e, length, After(stream, n), expected, hash, working)
  }

  lemma OneImage(stream: seq<byte>, length: nat, n: nat, e: HeadEvent, m: nat)
    requires IsImage(stream, length, n) && IsVerdict(stream, e, m)
    ensures e == Complete(ResponseHead(200, Some(length))) && m == n
  {
    VerdictUnique(stream, e, m, Complete(ResponseHead(200, Some(length))), n);
  }

  /** The result, read off the verdict. */
  function ResultOf(stream: seq<byte>, expected: Digest, hash: seq<byte> -> Digest, e: HeadEvent, n: nat)
    : Result<CheckOutcome, OtaError>
  {
    match e
    case NeedMore => Err(FetchFailed(Closed))
    case Reject(error) => Err(FetchFailed(Head(error)))
    case Complete(head) =>
      if head.status != 200 then Ok(NotAvailable)
      else if head.contentLength.None? then Err(NoLength)
      else
        var (length, body) := (head.contentLength.value, After(stream, n));
        if length > OTA_SLOT_SIZE then Err(UpdateFailed(Oversize(length, OTA_SLOT_SIZE)))
        else if |body| < length then Err(UpdateFailed(TooShort))
        else if hash(body[..length]) != expected then Err(UpdateFailed(HashMismatch))
        else Ok(Committed)
  }

  /** On working devices the result is the one read off the stream's verdict. */
  lemma Determined(r: Result<CheckOutcome, OtaError>, stream: seq<byte>, expected: Digest, hash: seq<byte> -> Digest,
                   e: HeadEvent, n: nat)
    requires Explains(r, stream, expected, hash, Working(true, true)) && IsVerdict(stream, e, n)
    ensures r == ResultOf(stream, expected, hash, e, n)
  {
    hide IsVerdict;
    match r
    case Ok(NotAvailable) =>
      var head: ResponseHead, m: nat :| IsVerdict(stream, Complete(head), m) && head.status != 200;
      VerdictUnique(stream, e, n, Complete(head), m);
    case Ok(Committed) =>
      var length: nat, m: nat :| IsImage(stream, length, m) && Accepted(length, After(stream, m), expected, hash);
      OneImage(stream, length, m, e, n);
    case Err(FetchFailed(ReadFailed)) =>
    case Err(FetchFailed(Closed)) =>
      var m: nat :| IsVerdict(stream, NeedMore, m);
      VerdictUnique(stream, e, n, NeedMore, m);
    case Err(FetchFailed(Head(error))) =>
      var m: nat :| IsVerdict(stream, Reject(error), m);
      VerdictUnique(stream, e, n, Reject(error), m);
    case Err(NoLength) =>
    case Err(UpdateFailed(error)) =>
      var length: nat, m: nat :| IsImage(stream, length, m)
                                 && Refused(error, length, After(stream, m), expected, hash, Working(true, true));
      OneImage(stream, length, m, e, n);
  }

  /** A server that writes its head and then `body`, read on working devices: the image is
      committed exactly if the head announces a 200 response of at most 1856 KiB, the body is
      as long as announced and its digest is the expected one; and what else is reported. */
  lemma ServedImage(r: Result<CheckOutcome, OtaError>, served: ResponseHeads.Response, body: seq<byte>,
                    expected: Digest, hash: seq<byte> -> Digest)
    requires ResponseHeads.IsResponse(served) && ResponseHeads.SingleLength(served.fields)
    requires |ResponseHeads.HeadText(served)| <= 2048
    requires Explains(r, ResponseHeads.HeadText(served) + body, expected, hash, Working(true, true))
    ensures var length := ResponseHeads.LengthOf(served.fields);
            if ResponseHeads.Chunked(served.fields) then r == Err(FetchFailed(Head(TransferEncodingError)))
            else if served.status == 404 then r == Ok(NotAvailable)
            else if served.status < 200 || served.status > 299 then r == Err(FetchFailed(Head(UnexpectedStatus)))
            else if length.None? then r == Err(FetchFailed(Head(MissingContentLength)))
            else if served.status != 200 then r == Ok(NotAvailable)
            else if length.value > 0x1D_0000 then r == Err(UpdateFailed(Oversize(length.value, 0x1D_0000)))
            else if |body| < length.value then r == Err(UpdateFailed(TooShort))
            else r == if hash(body[..length.value]) == expected then Ok(Committed)
                      else Err(UpdateFailed(HashMismatch))
  {
    hide ResponseHeads.IsResponse, ResponseHeads.HeadText, ResponseHeads.LengthOf, ResponseHeads.Chunked, IsVerdict;
    var head := ResponseHeads.HeadText(served);
    ResponseHeads.HeadReadBack(served, body);
    assert (head + body)[|head|..] == body;
    Determined(r, head + body, expected, hash, ResponseHeads.Meaning(served), |head|);
  }

  /** The check got as far as streaming an image. */
  predicate Streamed(r: Result<CheckOutcome, OtaError>) {
    r == Ok(Committed) || (r.Err? && r.error.UpdateFailed?)
  }

  /** The history of a check that streamed the body of the peer's 200 response, of
      `length` bytes after the first `n`, into `target`. */
  ghost predicate IsUpdate(events: seq<Event>, target: Slot, mem: seq<byte>, marked: bool, cut: CutPoint,
                           stream: seq<byte>, expected: Digest, hash: seq<byte> -> Digest, length: nat, n: nat)
  {
    && events == UpdateEvents(target, mem, marked, length, cut)
    && IsImage(stream, length, n)
    && (marked ==> IsBody(mem, stream, expected, hash, length, n))
  }

  lemma UpdateMade(events: seq<Event>, target: Slot, mem: seq<byte>, marked: bool, cut: CutPoint, stream: seq<byte>,
                   expected: Digest, hash: seq<byte> -> Digest, length: nat, n: nat)
    requires events == UpdateEvents(target, mem, marked, length, cut)
    requires IsVerdict(stream, Complete(ResponseHead(200, Some(length))), n)
    requires marked ==> IsBody(mem, stream, expected, hash, length, n)
    ensures IsUpdate(events, target, mem, marked, cut, stream, expected, hash, length, n) && IsImage(stream, length, n)
  {
    hide IsVerdict, IsBody;
  }

  /** One check of the image, whatever fails on the way: the device goes through the
      history `events`, which meets the rules that held at its start. `marked`
      says whether the trial mark was begun; then, and only then, `otadata` may
      differ, and the whole verified body is already in the slot. */
  method CheckImage(link: Link, storage: EspFlashStorage, leftover: array<byte>, sectorBuf: array<byte>,
                    expected: Digest, hash: seq<byte> -> Digest,
                    ghost published: set<Digest>, ghost image0: seq<byte>, ghost image1: seq<byte>)
    returns (r: Result<CheckOutcome, OtaError>, ghost marked: bool, ghost cut: CutPoint, ghost events: seq<Event>)
    requires storage.Valid() && leftover.Length == READ_CHUNK && sectorBuf.Length == 4096
    requires leftover != storage.flash.cells && sectorBuf != storage.flash.cells && leftover != sectorBuf
    requires expected in published
    modifies link, leftover, sectorBuf, storage.flash, storage.flash.cells
    // Only the target slot's memory can change.
    ensures var target := TargetSlot(old(storage.Sectors()), old(storage.Readable()));
            SlotOf(storage.Cells(), target.Other()) == old(SlotOf(storage.Cells(), target.Other()))
    // The check is a history of the device ...
    ensures var d := DeviceOf(old(storage.Cells()), image0, image1);
            var target := TargetSlot(old(storage.Sectors()), old(storage.Readable()));
            && IsDeviceRun(d, events, RulesMet(d.otadata, target), hash, published)
            && SameContents(DeviceRun(d, events), DeviceOf(storage.Cells(), image0, image1))
    // ... which keeps a bootable device bootable outside a trial, if its target is the inactive slot.
    ensures var d := DeviceOf(old(storage.Cells()), image0, image1);
            var target := TargetSlot(old(storage.Sectors()), old(storage.Readable()));
            RulesMet(d.otadata, target) == Rules(true, true) && Safe(d, hash, published) ==>
              Safe(DeviceRun(d, events), hash, published)
    // What is in the slot and in `otadata`.
    ensures var target := TargetSlot(old(storage.Sectors()), old(storage.Readable()));
            && SelectsTrial(old(storage.Sectors()), target, storage.Sectors())
            && if marked
               then && HoldsBody(SlotOf(storage.Cells(), target), old(link.incoming), expected, hash)
                    && storage.Sectors() == MarkTrialBoot(old(storage.Sectors()), target, cut)
               else storage.Sectors() == old(storage.Sectors())
    ensures r == Ok(Committed) ==> marked && cut == Written(32)
    ensures old(storage.flash.tick) <= storage.flash.tick
    ensures if Streamed(r)
            then exists length, n :: IsUpdate(events, TargetSlot(old(storage.Sectors()), old(storage.Readable())),
                   SlotOf(storage.Cells(), TargetSlot(old(storage.Sectors()), old(storage.Readable()))),
                   marked, cut, old(link.incoming), expected, hash, length, n)
            else events == [] && !marked
    // The result says why; with both devices working it is the one read off the peer's stream.
    ensures var working := Working(link.NoFault(old(link.tick), link.tick),
              storage.flash.NoFault(AfterReads(storage.flash.plan, old(storage.flash.tick)), storage.flash.tick));
            && Explains(r, old(link.incoming), expected, hash, working)
            && (r == Err(UpdateFailed(HashMismatch)) && working.flash ==>
                  var target := TargetSlot(old(storage.Sectors()), old(storage.Readable()));
                  SlotOf(storage.Cells(), target)[..4096] == Blank(4096))
  {
    hide Resolve, MarkTrialBoot, SelectsTrial, SlotOf, OtadataOf, IsVerdict, DeviceRun, IsDeviceRun, DeviceStep, Safe;
    hide RulesMet, HoldsBody, IsBody, IsImage, IsUpdate, FlashStorage.NoFault, Link.NoFault;
    hide Accepted, Refused, Explains, UpdateEvents;
    ghost var cells0, o, stream := storage.Cells(), storage.Sectors(), link.incoming;
    ghost var d := DeviceOf(cells0, image0, image1);
    ghost var target := TargetSlot(o, storage.Readable());
    ghost var from, start := link.tick, storage.flash.tick;
    NoStart(storage.flash);
    marked, cut, events := false, BeforeErase, [];
    EmptyRun(d, RulesMet(o, target), hash, published);
    NothingStored(o, target);
    var response, consumed := Get(link, leftover);
    if response.Err? {
      FetchExplained(response.error, stream, consumed, expected, hash, Working(link.NoFault(from, link.tick), true));
      return Err(FetchFailed(response.error)), marked, cut, events;
    }
    var (head, extra) := response.value;
    if head.status != 200 {
      NotAvailableExplained(head, stream, consumed, expected, hash, Working(link.NoFault(from, link.tick), true));
      return Ok(NotAvailable), marked, cut, events;
    }
    // Only a 404 response is complete without a length, so the missing-length error
    // (mod.rs:290) cannot occur.
    LengthUnlessMissing(stream, head, consumed);
    assert head.contentLength.Some?;
    var length := head.contentLength.value;
    ghost var last := link.tick;
    var slot := storage.PassiveSlot();
    var body := new HttpBody(link, leftover[..extra]);
    var result;
    result, marked, cut := StoreImage(storage, slot, sectorBuf, body, length, expected, hash);
    ghost var mem := SlotOf(storage.Cells(), slot);
    events := UpdateEvents(slot, mem, marked, length, cut);
    UpdateEffect(d, slot, mem, marked, length, cut);
    SameByParts(DeviceRun(d, events), storage.Cells(), slot, image0, image1);
    UpdateIsRun(d, slot, mem, marked, length, cut, hash, published);
    if RulesMet(o, slot) == Rules(true, true) && Safe(d, hash, published) {
      RunSafe(d, events, hash, published);
    }
    if marked {
      BodyHeld(mem, stream, expected, hash, length, consumed);
    }
    UpdateMade(events, slot, mem, marked, cut, stream, expected, hash, length, consumed);
    r := if result.Ok? then Ok(Committed) else Err(UpdateFailed(result.error));
    link.NoFaultJoins(from, last, link.tick);
    ImageExplained(result, stream, length, consumed, expected, hash, Working(link.NoFault(from, link.tick),
      storage.flash.NoFault(AfterReads(storage.flash.plan, start), storage.flash.tick)));
  }

  lemma NoStart(flash: FlashStorage)
    ensures flash.NoFault(AfterReads(flash.plan, flash.tick), flash.tick)
  {}

  lemma FetchExplained(e: FetchError, stream: seq<byte>, n: nat, expected: Digest, hash: seq<byte> -> Digest,
                       working: Working)
    requires match e
             case ReadFailed => !working.link
             case Closed => IsVerdict(stream, NeedMore, n)
             case Head(error) => IsVerdict(stream, Reject(error), n)
    ensures Explains(Err(FetchFailed(e)), stream, expected, hash, working)
  {
    hide IsVerdict;
  }

  lemma NotAvailableExplained(head: ResponseHead, stream: seq<byte>, n: nat, expected: Digest,
                              hash: seq<byte> -> Digest, working: Working)
    requires IsVerdict(stream, Complete(head), n) && head.status != 200
    ensures Explains(Ok(NotAvailable), stream, expected, hash, working)
  {
    hide IsVerdict;
  }

  lemma ImageExplained(result: Result<Unit, UpdateError>, stream: seq<byte>, length: nat, n: nat, expected: Digest,
                       hash: seq<byte> -> Digest, working: Working)
    requires n <= |stream| && IsImage(stream, length, n)
    requires result.Ok? ==> Accepted(length, stream[n..], expected, hash)
    requires result.Err? ==> Refused(result.error, length, stream[n..], expected, hash, working)
    ensures Explains(if result.Ok? then Ok(Committed) else Err(UpdateFailed(result.error)), stream, expected, hash,
                     working)
  {
    hide IsVerdict, Accepted;
  }

  lemma BodyHeld(mem: seq<byte>, stream: seq<byte>, expected: Digest,
                 hash: seq<byte> -> Digest, length: nat, consumed: nat)
    requires consumed <= |stream| && length <= |mem| && length <= |stream[consumed..]|
    requires IsVerdict(stream, Complete(ResponseHead(200, Some(length))), consumed)
    requires mem[..length] == stream[consumed..][..length] && hash(stream[consumed..][..length]) == expected
    ensures HoldsBody(mem, stream, expected, hash) && IsBody(mem, stream, expected, hash, length, consumed)
  {
    hide IsVerdict;
    assert stream[consumed..][..length] == stream[consumed..consumed + length];
    assert IsBody(mem, stream, expected, hash, length, consumed);
  }
}
