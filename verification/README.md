# Skylights, verified

Skylights opens and closes three roof windows from a microcontroller, and updates its own
firmware over the air into one of two flash slots. This project models the parts of it whose
correctness is an argument and not a look at one function, and proves that argument.

## The A/B update

The device has two application slots and two `otadata` sectors, each of which holds one 32-byte
entry: a sequence number, a state and a CRC of the sequence number. The entry with the higher
usable number selects the slot that boots. An update writes the other slot, then writes a new
entry into the other sector; the new image runs on trial until the self-test confirms or rejects it.

- `Crc` gives the bit-serial definition of the CRC, proves the 256-entry table and the byte loop
  equal to it, and proves the algebra the design relies on. The polynomial's top bit is set, so each
  shift can be undone; hence the check word is a bijection on sequence numbers, erased flash is never a
  valid entry, and no change confined to four consecutive bytes goes unnoticed. `CrcVectors` says which CRC
  it is: the generator by its exponents, and the published check values.
- `Partition` and `Arbitration` model the entry, its bytes, the arbitration rules and the three
  rewrites (trial mark, confirmation, rejection) together with the bootloader's effect on the booted
  entry. Each rewrite is an erase and a 32-byte program and may stop before the erase or after any byte.
- `OtaRuns` proves what every history of updates, self-test outcomes, boots and power cuts keeps. An
  update in a history marks whichever slot it was given. Two assumptions are named and used only where a
  theorem says so: `Disciplined`, no update starts during a trial, and `Aimed`, every update targets the
  inactive slot.
- `Flash` and `SlotFlashing` are the flash chip as an array of bytes, the storage driver over it and the
  re-blocking of arbitrary chunks into sectors. Erasing sets bytes to 0xFF and programming clears bits. A
  plan gives every device operation its fate; a failing write leaves any prefix of its bytes programmed, so
  a power cut inside a driver call is one of its failures. All results hold for every plan.
- `HeadGrammar` says what an HTTP response head means as a whole string; `HeadParsing` is the byte-fed
  parser, proved to give that meaning; `ResponseHeads` is the other side, the heads a server writes, each
  proved to be understood as it was meant; `Transport` splits an arbitrarily chunked connection into
  head and body; `Session` streams the body through the hash into flash.
- `DeviceRuns` and `UpdateCheck` compose the layers. A device history has slot contents as well as
  `otadata`. `DeviceRuns` says of every possible step exactly when it keeps a safe device safe, and so which
  histories do; under the two assumptions the slot that boots always holds a complete, verified, unmodified
  image. The real update code, whatever fails in it, is shown to make exactly such a history, and its result
  to say why: with both devices working it is determined by the peer's stream. `Lifetime` says
  what each update check, self-test and boot makes of the flash cells, and joins any sequence of them into one
  history.
- `SelfTest` is the health window after a trial boot, its watchdog and its one mark.

## The windows

`Window` has the travel arithmetic and the positioner, `Drift` the distance between the tracked
position and an ideal window moving one percent per 710 ms, `Controller` the nested command loop and its
pulses, and `Interlock` three controller tasks sharing one actuation lock, in every interleaving.
`PinTraces` joins the last two: what shows on a window's pins is what its controller asked for.

## Codecs and the queue

`Base64` (section 4 of RFC 4648) with the Basic credentials built on it, `Mqtt` (PUBLISH framing and
acknowledgements, MQTT 3.1.1), `MsgQueues` (the overwriting ring), and `Text` (trimming, checked
decimal numbers, the hex digest).

## What the proofs turned up

1. Nothing in the firmware keeps an update from starting while a trial is active. Programming the inactive
   slot then destroys the image a rejected trial falls back to, and a failed self-test boots whatever was
   programmed (`DeviceRuns.ProgramDuringTrial`). After two updates during trials one rejection can leave a
   trial with nothing under it, and rejecting that one boots the same slot again
   (`OtaRuns.NestedUpdatesLoseTheWayBack`).
2. `active_slot` answers ota_0 when `otadata` cannot be read. If ota_1 is running, the update then goes to
   the running slot (`Flash.EspFlashStorage.PassiveSlot`): it overwrites the image that boots next
   (`DeviceRuns.ProgramRunningSlot`), and if its mark lands, both entries name ota_1 and a rejection boots
   ota_1 again (`OtaRuns.MisaimedUpdateLosesTheWayBack`, in which no update starts during a trial).
   `OtaRuns.FullMarkKeepsConsecutive` says exactly which marks keep the two entries on consecutive numbers.
   Without any assumption they still differ by one or two, so arbitration never meets a tie.
3. Both together: `DeviceRuns.StepSafeExactly` gives, for every possible step of a safe device, the exact
   condition under which it stays safe, and `OtaRuns.InvalidateFlips` exactly when a rejection changes the slot.
4. The update session is documented as never marking the image on an error path. Every error before the
   commit does leave `otadata` as it was. An error of the commit itself need not: the write of the entry can
   be complete and still be reported as failed (`Flash.FailedCommitLands`). Whatever is reported, the new
   trial is selected if and only if the whole entry is in its sector and its number counts
   (`Arbitration.MarkTrialBootAtomic`, and so for `Session.ApplyUpdate` and `UpdateCheck.CheckImage`).
5. Sequence numbers near the top of their range are safe without any bound, because arbitration rejects
   0xFFFFFFFF: a trial mark that cannot outrank the current entry leaves the resolution as it was.
   The bound matters only for the mark to take effect; `Partition.NextSeqExact` gives it exactly.
6. Four error branches cannot be taken and are proved unreachable where they stand: the parser's line
   overflow, the transport's leftover overflow, the session's overrun and the update check's missing length
   (`HeadGrammar.LengthUnlessMissing`).
7. A base64 credential pair can be read back by the server exactly when the user name holds no
   colon (`Base64.CredentialsRecovered`).
8. The self-test counts its first feeding interval from its own clock, not from the watchdog's arming, so
   rounds under 7 s apart do not by themselves feed it within 8 s (`SelfTest.FirstFeedCanBeLate`). They do if
   and only if, up to and including the first round that feeds, every round ends within 8 s of the arming
   (`SelfTest.FedInTimeExactly`).
9. A message queue of one cell hands a waiting consumer a message it has counted as discarded
   (`MsgQueues.OneCell`); from two cells on, waiting and taking at once are the same.
10. An MQTT publication survives the trip exactly when its topic is shorter than 65536 bytes
   (`Mqtt.PublicationReceivedExactly`); nothing before the two-byte length field checks that.

## Conventions

Machine integers are subset types of the integers with the source's widths, and saturation and overflow
checks are written out. A CRC register is its 32 bits, least significant first. The hash is an
arbitrary function of a byte string; the streaming hasher is the bytes it absorbed. Failing devices,
connections and clocks are parameters or nondeterministic choices. Ghost fields record what a proof
needs to speak about: every byte fed, every flash operation completed, every travel ended.

## Model

| member | source | states |
|---|---|---|
| Crc.StepInverse | skylights-core/src/ota/partition.rs:106-124 | because the polynomial's top bit is set, one shift of the register can be undone from its result alone |
| Crc.StepsInverse | skylights-core/src/ota/partition.rs:106-124 | any number of shifts can be undone |
| Crc.SeqCrcBijective | skylights-core/src/ota/partition.rs:172-180 | the check word is a bijection on 32-bit sequence numbers: an explicit inverse works on both sides, so no two numbers share a check word |
| Crc.ErasedCrc | skylights-core/src/ota/partition.rs:172-185 | only sequence number 0 has the check word 0xFFFFFFFF that erased flash shows |
| Crc.StepsLinear | skylights-core/src/ota/partition.rs:106-124 | shifting distributes over exclusive or |
| Crc.FeedIsSteps | skylights-core/src/ota/partition.rs:133-143 | up to 32 message bits may be added to the register at once and then shifted in |
| Crc.TableStep | skylights-core/src/ota/partition.rs:137-140 | one table lookup does the work of eight message bits |
| Crc.ShiftByte | skylights-core/src/ota/partition.rs:111-119 | the inner loop of the table construction makes eight shifts |
| Crc.MakeTable | skylights-core/src/ota/partition.rs:106-124 | every one of the 256 table words is its index shifted eight times |
| Crc.MakeCrc32Table | skylights-core/src/ota/partition.rs:127 | the constant table is the one for the reflected polynomial 0xEDB88320 |
| Crc.TableCrc | skylights-core/src/ota/partition.rs:133-143 | the byte loop over the table equals the bit-serial register for every seed and message |
| Crc.Crc32Ieee | skylights-core/src/ota/partition.rs:133-143 | the CRC of every byte string is its bit-serial CRC-32 |
| Crc.ComputeCrc | skylights-core/src/ota/partition.rs:172-180 | four lookups over the little-endian sequence bytes equal 32 shifts of the whole word, inverted |
| Crc.LeBytesAsWord | skylights-core/src/ota/partition.rs:172-180 | feeding the four little-endian bytes from seed 0 is shifting the word 32 times |
| Crc.FeedConcat | skylights-core/src/ota/partition.rs:133-143 | the register after a concatenation is the register after its parts in order |
| Crc.FeedKeepsDifference | skylights-core/src/ota/partition.rs:133-143 | registers that differ still differ after any common message |
| Crc.Crc32Burst | skylights-core/src/ota/partition.rs:133-143 | two messages whose bits differ only inside one burst of at most 32 bits, wherever it starts, never share a CRC |
| Crc.Crc32Window | skylights-core/src/ota/partition.rs:133-143 | in particular two strings of equal length that differ only inside one window of at most four bytes never share a CRC |
| CrcVectors.Generator | skylights-core/src/ota/partition.rs:105-127 | the polynomial by its exponents: bit i of the register is the coefficient of x to the power 31 - i of the IEEE 802.3 generator |
| CrcVectors.FactoryCheckWord | skylights-core/src/ota/partition.rs:172-180 | the check word of sequence number 1 is 0x4743989A |
| CrcVectors.FirstTrialCheckWord | skylights-core/src/ota/partition.rs:172-180 | the check word of the first trial entry, number 2, is 0x55F63774 |
| CrcVectors.CheckValue | skylights-core/src/ota/partition.rs:129-143 | the CRC of "123456789" is 0xCBF43926, which fixes polynomial, seed, bit order and inversion |
| Partition.FromBytesToBytes | skylights-core/src/ota/partition.rs:188-210 | an entry survives the trip to bytes and back |
| Partition.ToBytesFromBytes | skylights-core/src/ota/partition.rs:188-210 | 32 bytes survive the trip to an entry and back |
| Partition.Layout | skylights-core/src/ota/partition.rs:146-195 | where the bootloader finds the fields: the number at byte 0, the label at 4, the state at 24 and the check word at 28, least significant byte first |
| Partition.LayoutRead | skylights-core/src/ota/partition.rs:198-210 | and the firmware reads them from there |
| Partition.FlashMap | skylights-core/src/ota/partition.rs:10-26 | the two sectors and the two slots lie where the partition table puts them, the slots adjacent and of 1856 KiB |
| Partition.HighestWins | skylights-core/src/ota/partition.rs:237-348 | the highest number with a matching check word, neither 0 nor all ones, in neither state 3 nor 4, is active; odd numbers boot ota_0, even ones ota_1, and states 0 and 1 are trials; without one ota_0 boots as number 1 |
| Partition.NextSeqExact | skylights-core/src/ota/partition.rs:351-368 | the next number selects the wanted slot, outranks the current one and is acceptable exactly up to 0xFFFFFFFC, or at 0xFFFFFFFD for ota_1 |
| Partition.NextSeqLeast | skylights-core/src/ota/partition.rs:351-368 | if any number above the current one selects the wanted slot, the next number is the least of them |
| Partition.NextSeqPassive | skylights-core/src/ota/partition.rs:351-368 | for the passive slot the next number is the successor, which names the other slot |
| Partition.TornEntry | skylights-core/src/ota/partition.rs:172-195 | an entry of nonzero sequence torn after any number of bytes fails its CRC or is byte-identical to the whole entry |
| Arbitration.ResolveByClaims | skylights-core/src/ota/partition.rs:237-348 | the resolution of any two sectors depends only on their usable sequence numbers and states |
| Arbitration.RewriteClaims | skylights-app/src/flash.rs:117-188 | exactly what an erase-then-write cut at any byte shows: the old claims, its own sector cleared, or the new claim when all bytes are in place |
| Arbitration.EndOutcomes | skylights-app/src/flash.rs:117-188 | a write that ran to its end has landed and one that programmed nothing has not |
| Arbitration.ErasedIsNotValid | skylights-core/src/ota/partition.rs:172-185 | the CRC alone rejects an erased entry |
| Arbitration.MarkTrialBootClaims | skylights-app/src/flash.rs:117-139 | a cut trial mark of either slot touches the inactive sector only, and does exactly so much to it |
| Arbitration.MarkClaims | skylights-app/src/flash.rs:141-188 | a cut confirmation or rejection touches the active sector only, and does exactly so much to it |
| Arbitration.BootClaims | skylights-core/src/ota/partition.rs:28-41 | the bootloader touches a trial's own entry and nothing else |
| Arbitration.MarkTrialBootAtomic | skylights-app/src/flash.rs:117-139 | power-cut atomicity from any sector contents, for either slot: a mark cut anywhere resolves to the new trial if and only if its whole entry is in place and its number counts, and as before otherwise |
| Arbitration.StoredOrNot | skylights-app/src/flash.rs:117-139 | the entry is in place exactly when the write landed; it cannot have been there before |
| Arbitration.Outrank | skylights-core/src/ota/partition.rs:301-368 | only a higher number in the inactive sector can take over, exactly while it is acceptable; clearing that sector changes nothing |
| OtaRuns.StepClaims | skylights-app/src/flash.rs:117-188 | exactly what each event of a history, for either slot and cut anywhere, does to the two claims |
| OtaRuns.ClaimsStepConsecutive | skylights-core/src/ota/partition.rs:301-368 | a step loses consecutive numbers if and only if it is a landed update of the running slot beside the entry that selected it |
| OtaRuns.FullMarkKeepsConsecutive | skylights-app/src/flash.rs:117-139 | a complete mark keeps the entries consecutive if and only if it is for the inactive slot, or no entry selected the running one, or its number cannot count |
| OtaRuns.RunNear | skylights-core/src/ota/partition.rs:301-368 | over every history without assumption, two usable entries differ by one or two |
| OtaRuns.RunConsecutive | skylights-core/src/ota/partition.rs:301-368 | over every aimed history, two usable entries stay consecutive |
| OtaRuns.RunConsecutiveExactly | skylights-core/src/ota/partition.rs:301-368 | over every history two usable entries are consecutive throughout if and only if no step lands an update of the running slot beside the entry that selected it |
| OtaRuns.RunSettled | skylights-core/src/ota/partition.rs:301-368 | over every disciplined, aimed history, a trial stands on a settled entry or is the very first |
| OtaRuns.TwoUsableEntries | skylights-core/src/ota/partition.rs:301-368 | from erased `otadata`, after any history two usable entries differ by one or two and name opposite slots exactly when by one, which they do if every update was aimed |
| OtaRuns.InvalidateFlips | skylights-app/src/flash.rs:164-188 | from any two sectors, rejecting the active trial changes the slot if and only if the other entry names the other slot or, without one, ota_1 was running |
| OtaRuns.MarksResolve | skylights-app/src/flash.rs:141-188 | from any two sectors with an active trial, exactly where a rejection or confirmation cut anywhere leads |
| OtaRuns.TrialCanBeUndone | skylights-app/src/flash.rs:141-188 | after a disciplined, aimed history a lost trial entry selects the other, settled slot; a cut rejection keeps the trial or rolls back, a cut confirmation keeps it, rolls back or confirms |
| OtaRuns.UnconfirmedTrialEnds | skylights-core/src/ota/partition.rs:28-41 | a new trial still runs after one boot, as pending, and a second boot without a confirmation abandons it for what arbitration falls back to |
| OtaRuns.ConfirmedTrialStays | skylights-app/src/flash.rs:141-162 | a confirmed trial keeps its slot and is not touched by any boot |
| OtaRuns.FirstUpdate | skylights-app/src/flash.rs:117-139 | from erased `otadata` a complete first update is a disciplined history and puts ota_1 on trial with sequence 2 |
| OtaRuns.NestedUpdatesLoseTheWayBack | skylights-app/src/flash.rs:164-188 | a concrete aimed history with updates during trials after which a rejection boots the same slot again |
| OtaRuns.MisaimedUpdateLosesTheWayBack | skylights-app/src/flash.rs:55-60 | a concrete disciplined history whose last update targets the running slot: the entries are not consecutive and a rejection boots the same slot again |
| DeviceRuns.MarkSettled | skylights-app/src/flash.rs:117-139 | a trial mark of any slot, cut anywhere, leaves settled entries settled if and only if it is harmless |
| DeviceRuns.StepFallsBack | skylights-core/src/ota/partition.rs:301-348 | a self-test mark or a boot keeps the slot or falls back to the other one settled |
| DeviceRuns.StepSafeExactly | skylights-app/src/ota/mod.rs:293-316 | every possible step of a safe device, whatever slot it writes and wherever it is cut, keeps it safe if and only if it is harmless |
| DeviceRuns.RunSafeExactly | skylights-app/src/ota/mod.rs:293-316 | over every history a safe device is safe throughout if and only if every step is harmless |
| DeviceRuns.GuardedIsHarmless | skylights-app/src/ota/mod.rs:293-316 | a disciplined, aimed step is harmless |
| DeviceRuns.RunSafe | skylights-app/src/ota/mod.rs:293-316 | so a disciplined, aimed history keeps a safe device safe |
| DeviceRuns.ActiveSlotAlwaysComplete | skylights-app/src/ota/mod.rs:103-133 | from a factory device, after any disciplined, aimed history cut anywhere, the slot that boots holds a complete, verified, unmodified image |
| DeviceRuns.ProgramDuringTrial | skylights-app/src/ota/mod.rs:146-180 | programmed during a trial, the inactive slot is what a failed self-test boots |
| DeviceRuns.ProgramRunningSlot | skylights-app/src/flash.rs:55-60 | programmed, the running slot is what boots next; the device stays safe if and only if the recorded image survives |
| DeviceRuns.RunsJoin | skylights-app/src/ota/mod.rs:146-175 | histories of the device join end to end |
| Flash.AndErased | skylights-app/src/flash.rs:79-115 | programming an erased byte stores the byte |
| Flash.AndBits | skylights-app/src/flash.rs:79-115 | programming sets no bit: a bit stays set exactly if it was and the data has it set |
| Flash.ProgramBlank | skylights-app/src/flash.rs:79-115 | programming erased flash stores exactly the data, with 0xFF after it and nothing changed around |
| Flash.ProgramTwice | skylights-app/src/flash.rs:97-113 | programming two adjacent parts is programming the whole |
| Flash.PaddingIsInvisible | skylights-app/src/flash.rs:97-113 | the padding of a write to whole words programs nothing |
| Flash.OnlySlotDiffersViews | skylights-app/src/flash.rs:62-115 | a change confined to one slot leaves `otadata` and the other slot as they were |
| Flash.RewriteCells | skylights-app/src/flash.rs:117-188 | at the level of cells, erasing a sector and programming k bytes of an entry is the torn rewrite of that sector and touches no slot |
| Flash.RewriteSpells | skylights-app/src/flash.rs:117-188 | a complete rewrite spells number, empty label, state and check word at their places in the sector |
| Flash.EspFlashStorage.ReadSectorEntry | skylights-app/src/flash.rs:31-45 | the entry spelled by the sector's first 32 bytes exactly when the read works |
| Flash.EspFlashStorage.ResolveOtadata | skylights-app/src/flash.rs:47-51 | arbitration over what the two sectors hold exactly when both reads work |
| Flash.EspFlashStorage.ActiveSlot | skylights-app/src/flash.rs:55-60 | the arbitrated slot, or ota_0 when `otadata` cannot be read |
| Flash.EspFlashStorage.PassiveSlot | skylights-core/src/ota/partition.rs:415-417 | the inactive slot if and only if the reads work or ota_0 is active, and otherwise ota_1 |
| Flash.EspFlashStorage.EraseRange | skylights-app/src/flash.rs:62-77 | bounds before alignment before the device; an erase that fits succeeds exactly when the device works, and the cells are exactly those its fate leaves; no outcome changes a byte outside the slot |
| Flash.EspFlashStorage.WriteWords | skylights-app/src/flash.rs:93-113 | whole words then the padded tail program one contiguous prefix, exactly as far as the fates of the writes let it; it succeeds exactly when they all work |
| Flash.EspFlashStorage.WriteChunk | skylights-app/src/flash.rs:79-115 | bounds before the empty chunk before alignment; a write that fits succeeds exactly when the device works and otherwise programs exactly the prefix its fate lets it; no outcome changes a byte outside the slot |
| Flash.EspFlashStorage.RewriteSector | skylights-app/src/flash.rs:124-138 | for every fate of the erase and the write, the result and the rewrite of the sector, cut where the write stopped |
| Flash.EspFlashStorage.MarkTrialBoot | skylights-app/src/flash.rs:117-139 | for every fate of its operations the sectors become the mark at that cut, slots untouched; the new trial is selected if and only if its whole entry is in place and its number counts, whatever is reported; after a success the bytes of the inactive sector spell the next number and state 0 |
| Flash.EspFlashStorage.MarkValid | skylights-app/src/flash.rs:141-162 | for every fate of its operations the sectors become the confirmation at that cut, slots untouched; after a success the bytes of the active sector spell its number and state 2 |
| Flash.EspFlashStorage.MarkInvalid | skylights-app/src/flash.rs:164-188 | for every fate of its operations the sectors become the rejection at that cut, slots untouched; after a success the bytes of the active sector spell its number and state 3 |
| Flash.FailedCommitLands | skylights-app/src/flash.rs:117-139 | a commit whose write programs everything and then fails is reported as an error and selects the new trial |
| SlotFlashing.BurnedNext | skylights-app/src/ota/mod.rs:77-99 | one more burned sector, or its padded part, extends the burned stream |
| SlotFlashing.FlushedCells | skylights-app/src/ota/mod.rs:77-99 | erasing and programming the current sector turns the slot with the stream so far into the slot with the buffer added |
| SlotFlashing.BurnOpsNext | skylights-app/src/ota/mod.rs:77-99 | each sector adds one erase and one program to the log |
| SlotFlashing.BurnedAt | skylights-app/src/ota/mod.rs:77-99 | byte by byte: the stream, then 0xFF up to the end of its last sector, then the old contents |
| SlotFlashing.BurnOpsAt | skylights-app/src/ota/mod.rs:77-99 | every sector of a stream is erased once and then programmed once, in order, the last one with whole words, and nothing else is done |
| SlotFlashing.SlotFlasher.FlushSector | skylights-app/src/ota/mod.rs:77-99 | succeeds exactly when the sector lies in the slot and no operation failed; then nothing remains buffered, the slot holds the whole stream padded with 0xFF, and each touched sector was erased once, right before its one aligned program |
| SlotFlashing.SlotFlasher.Write | skylights-app/src/ota/mod.rs:113-126 | succeeds exactly when the full sectors lie in the slot and no operation failed; then for any split into calls the accepted stream has grown by the data and the slot holds its full sectors; nothing outside the slot changes, and the record of whether every ignored offset was the stream position is kept |
| SlotFlashing.SlotFlasher.MarkUpdated | skylights-app/src/ota/mod.rs:128-133 | succeeds exactly when the stream fits the slot and no operation failed; the mark is begun only when the slot holds the whole stream, and until then `otadata` is unchanged; the log is the burn and then one sector rewrite |
| SlotFlashing.SlotFlasher.Abort | skylights-app/src/ota/mod.rs:103-107 | the first sector of the slot is erased unless the erase never happened; nothing outside the slot changes |
| HeadGrammar.SplitJoins | skylights-core/src/ota/http.rs:91-150 | splitting into lines loses no byte and leaves no line feed inside a line |
| HeadGrammar.VerdictExists | skylights-core/src/ota/http.rs:91-150 | every byte string has a verdict and a consumed length |
| HeadGrammar.VerdictUnique | skylights-core/src/ota/http.rs:91-150 | every byte string has at most one verdict and one consumed length |
| HeadGrammar.LengthUnlessMissing | skylights-core/src/ota/http.rs:212-224 | only a 404 response is accepted without a content length |
| HeadGrammar.VerdictStands | skylights-core/src/ota/http.rs:91-98 | once settled, a verdict and its length stand however the stream goes on |
| HeadParsing.StatusTokens | skylights-core/src/ota/http.rs:152-178 | counting tokens by spaces finds fewer than two exactly when only spaces follow the version |
| HeadParsing.ParseStatus | skylights-core/src/ota/http.rs:152-178 | the status helper returns the grammar's code or its first error |
| HeadParsing.ParseHeader | skylights-core/src/ota/http.rs:180-210 | the header helper returns the grammar's field: Content-Length is its exact decimal value or a rejection above 64 bits |
| HeadParsing.HeadParser.Push | skylights-core/src/ota/http.rs:91-150 | after any bytes the event and the consumed count are the grammar's verdict on everything fed: first error in stream order, encoding, status and length judged only at the blank line |
| HeadParsing.HeadParser.EndOfLine | skylights-core/src/ota/http.rs:108-150 | a completed line leaves the parser agreeing with the grammar |
| HeadParsing.HeadParser.Finish | skylights-core/src/ota/http.rs:212-224 | the blank line's verdict is latched |
| HeadParsing.NextLine | skylights-core/src/ota/http.rs:108-150 | what one more line adds to the encoding, the length and the verdict so far |
| ResponseHeads.StatusExactly | skylights-core/src/ota/http.rs:152-178 | exactly the lines of an HTTP/1.0 or 1.1 version, the digits of a 16-bit code with any zeros before them, and nothing or a space and any reason have that status |
| ResponseHeads.FieldExactly | skylights-core/src/ota/http.rs:180-210 | a field is a length exactly if its name is a spelling of content-length in either case between white space and its value the digits of a 64-bit number between white space; any other value of that name is refused; every field of another name but transfer-encoding is let through |
| ResponseHeads.FieldNeedsColon | skylights-core/src/ota/http.rs:181-184 | a line without a colon is refused |
| ResponseHeads.OneCrStripped | skylights-core/src/ota/http.rs:108-112 | one CR before the line feed belongs to the line's end, and no more than one |
| ResponseHeads.HeadReadBack | skylights-core/src/ota/http.rs:91-224 | every head a server can write, with any status, reason, fields in any order and capitals, and at most one length, is understood as it was meant, up to its last byte and whatever follows it |
| ResponseHeads.SecondLength | skylights-core/src/ota/http.rs:131-137 | a second length is refused at the end of its own line |
| ResponseHeads.HeadTooLong | skylights-core/src/ota/http.rs:95-98 | a head of more than 2048 bytes is refused at the next byte |
| ResponseHeads.PlainResponse | skylights-core/src/ota/http.rs:91-224 | for every accepted status, every 64-bit length and all capitals of its field's name, the plainest response completes with that status and length |
| Transport.VerdictStandsLong | skylights-core/src/ota/http.rs:91-98 | a settled verdict stands for every continuation of the stream |
| Transport.FeedChunk | skylights-app/src/ota/transport.rs:379-392 | the bytes of one read are pushed up to the deciding one and no further |
| Transport.Get | skylights-app/src/ota/transport.rs:358-394 | a read failure is reported exactly when a read failed; otherwise, whatever the pieces, the outcome is the verdict on the peer's whole stream, leftover and connection together are exactly the stream after the head, and a closed connection means the head was incomplete |
| Transport.HttpBody.Read | skylights-app/src/ota/transport.rs:410-422 | the body continues the stream without loss or repetition, never more than asked for, and is empty only at its end; it fails exactly when the connection does |
| Session.StreamBody | skylights-core/src/ota/session.rs:67-94 | what went through the hash is what went to flash, in order, never past the content length, and each write's offset is the stream position; it fails exactly when a device does, and names which |
| Session.ApplyUpdate | skylights-core/src/ota/session.rs:54-106 | succeeds if and only if both devices worked, the body has that many bytes, they fit the slot and have the expected digest; each refusal names its true cause; `otadata` is touched only with exactly those bytes in the slot, and the resolution changes if and only if the trial entry is in place and counts |
| UpdateCheck.UpdateIsRun | skylights-app/src/ota/mod.rs:293-316 | programming a slot and committing a verified image is a history of the device, meeting the rules that held at its start |
| UpdateCheck.UpdateEffect | skylights-app/src/ota/mod.rs:293-316 | the effect of that history on slots and `otadata` |
| UpdateCheck.StoreImage | skylights-app/src/ota/mod.rs:294-310 | stored and committed exactly on working devices with an acceptable body, and otherwise refused for the cause named; a mismatch is never marked and its first sector is erased; the other slot is untouched |
| UpdateCheck.CheckImage | skylights-app/src/ota/mod.rs:278-316 | end to end from connection to flash, whatever fails: every result is explained by the peer's stream or by the device that failed; the check is a history of the device for the slot it targeted; a begun mark means the peer's body is in the slot, whole and verified; outside a trial and with the inactive slot as target a bootable device stays bootable |
| UpdateCheck.Determined | skylights-app/src/ota/mod.rs:278-316 | on working devices the result is the one read off the stream's verdict, a commit exactly for a complete 200 response with an acceptable body |
| UpdateCheck.ServedImage | skylights-app/src/ota/mod.rs:278-316 | for every head a server writes and any body after it, on working devices: the image is committed exactly if the head announces a 200 response of at most 0x1D0000 bytes, the body is that long and its digest is the expected one; and exactly what is reported otherwise |
| Lifetime.MakesRun | skylights-app/src/ota/mod.rs:146-175 | what an update check, a self-test or a boot makes is a history of the device that meets the rules its start met |
| Lifetime.WorkingCheck | skylights-app/src/ota/mod.rs:278-316 | on working devices a check reports what is read off the peer's stream |
| Lifetime.LifeIsRun | skylights-app/src/ota/mod.rs:146-175 | a whole life in any order is one history of the device, and meets both rules throughout when every check started outside a trial and targeted the inactive slot |
| Lifetime.LifeSafe | skylights-app/src/ota/mod.rs:146-175 | a safe device stays safe throughout its life if and only if every step is harmless; when every check started outside a trial and targeted the inactive slot it does, and the slot that boots at the end holds a complete image |
| Lifetime.PowerUp | skylights-core/src/ota/partition.rs:28-41 | the bootloader's step on the flash cells, cut exactly where its operations stop |
| Lifetime.LiveTest | skylights-app/src/ota/selftest.rs:62-134 | the self-test's code makes exactly the mark its verdict calls for, cut where its operations stop, or nothing |
| Lifetime.LiveCheck | skylights-app/src/ota/mod.rs:278-316 | the update code makes nothing, or an update of the slot it had to target with the peer's body in it, and reports what the stream and the devices explain |
| Lifetime.Live | skylights-app/src/ota/mod.rs:146-175 | each episode, performed by its code, makes on the cells exactly what is said of its kind |
| Lifetime.LiveThrough | skylights-app/src/ota/mod.rs:146-175 | a whole life, performed: its reports, its flash operations and its cells are those of the stages the episodes make one after the other |
| SelfTest.SelfTestTracker.Observe | skylights-core/src/ota/selftest.rs:55-60 | a signal once seen stays seen |
| SelfTest.SelfTestTracker.Fail | skylights-core/src/ota/selftest.rs:62-64 | a failure replaces any verdict, and later evaluations keep it |
| SelfTest.SelfTestTracker.Evaluate | skylights-core/src/ota/selftest.rs:67-80 | a settled verdict stays; an unsafe pin outranks health, health outranks the clock |
| SelfTest.Observe | skylights-app/src/ota/selftest.rs:77-133 | passed exactly when both signals were seen by the first poll past the window, timed out and unsafe exactly otherwise; paced rounds keep the watchdog from firing if and only if the first feed is in time |
| SelfTest.FeedingShape | skylights-app/src/ota/selftest.rs:128-131 | before the clock's first second the watchdog is not fed; afterwards its last feed belongs to a round begun less than a second ago |
| SelfTest.NextFeed | skylights-app/src/ota/selftest.rs:128-131 | the next round that feeds is the first to start a second or more after the round of the last feed started |
| SelfTest.FedInTimeExactly | skylights-app/src/ota/selftest.rs:77-133 | rounds paced under 7 s feed the watchdog within 8 s if and only if, up to and including the first round that feeds, every round ends within 8 s of the arming |
| SelfTest.PaceIsEnough | skylights-app/src/ota/selftest.rs:92-133 | when the clock starts at the arming the pace alone is enough |
| SelfTest.InTimeIsWellFed | skylights-app/src/ota/selftest.rs:128-131 | and then consecutive feeds are under 8 s apart |
| SelfTest.FirstFeedCanBeLate | skylights-app/src/ota/selftest.rs:77-133 | concrete rounds under 7 s apart for which the first feed is in time only if the clock started within 2 ms of the arming |
| SelfTest.MarkIsStep | skylights-app/src/ota/selftest.rs:97-126 | either mark, cut anywhere, is a step of the device history and keeps it safe |
| SelfTest.SelfTestTask | skylights-app/src/ota/selftest.rs:62-134 | without a readable trial or a free receiver nothing is marked; otherwise exactly one of confirmation and rejection is, as the verdict says; wherever it stops, a device that boots a complete image still does |
| Window.ProgressBound | skylights-core/src/lib.rs:135-159 | the interpolated progress never passes the target |
| Window.TravelDurationExact | skylights-core/src/window.rs:81-84 | one percent takes exactly 710 ms |
| Window.InterruptedIsClamp | skylights-core/src/window.rs:90-98 | the saturating computation equals the unbounded clamp of start plus or minus whole 710 ms steps, for every elapsed time |
| Window.InterruptedMonotone | skylights-core/src/window.rs:90-98 | longer travel never ends nearer to the start |
| Window.InterruptedInverts | skylights-core/src/window.rs:81-98 | stopping at exactly the planned time lands on the target |
| Window.InterpolationsAgree | skylights-core/src/lib.rs:135-159 | the two interpolations agree for as long as the plan lasts |
| Window.CalculatedExactly | skylights-core/src/lib.rs:135-159 | for any total: the target from the total on, and before it exactly the whole steps of the elapsed share of the distance |
| Window.PlanExactly | skylights-core/src/window.rs:150-196 | nothing is planned exactly when a partial target is where the window is; otherwise pulse, direction, duration and stop are those that lead to the target |
| Window.WindowPositioner.Request | skylights-core/src/window.rs:150-196 | a boundary always plans the full travel without a stop, a partial target the exact distance with one, the current position nothing |
| Window.WindowPositioner.Finish | skylights-core/src/window.rs:199-213 | the motion ends at its target and the state says which end that is |
| Window.WindowPositioner.Stop | skylights-core/src/window.rs:217-224 | the motion ends at the interrupted position |
| Drift.BoundaryRecalibrates | skylights-core/src/window.rs:150-213 | a completed 0% or 100% travel leaves no error at all, however large it was |
| Drift.TravelArrives | skylights-core/src/window.rs:150-213 | a completed travel ends at its target in the state that says which end that is, and an ideal window driven by the same pulses does too if it was on track or went to an end |
| Drift.PartialKeepsError | skylights-core/src/window.rs:150-213 | a completed partial travel never increases the error |
| Drift.InterruptionAddsLittle | skylights-core/src/window.rs:217-224 | an interruption adds at most 709 ms of travel |
| Drift.DriftBound | skylights-core/src/window.rs:150-236 | over every run of travels the error stays within its allowance |
| Drift.DriftSinceBoundary | skylights-core/src/window.rs:150-236 | after any history the error is at most 709 ms per interruption since the last completed boundary travel |
| Drift.DriftIsReached | skylights-core/src/window.rs:90-98 | the bound is tight: a run that reaches 709 ms for every interruption |
| Controller.PulsesFormTrace | skylights-app/src/window.rs:199-265 | every window's pulses are Open or Close then an optional Stop, repeated |
| Controller.TraceAppends | skylights-app/src/window.rs:199-265 | a new travel may follow any pulse trace |
| Controller.TracePrefix | skylights-app/src/window.rs:199-265 | a pulse trace observed at any time is one |
| Controller.MovesConcat | skylights-app/src/window.rs:199-265 | pulses and position of a history are those of its parts in order |
| Controller.AfterMovesIsRun | skylights-app/src/window.rs:199-265 | the tracked half of the drift model is the controller's positioner |
| Controller.RequestedNext | skylights-app/src/window.rs:199-265 | a travel ends with the first input after it began, and a new target starts the next one |
| Controller.TravelPulsesExactly | skylights-app/src/window.rs:199-265 | the pulses of one travel: none at a partial target already reached; otherwise Open or Close as the target lies, and Stop unless the travel ran on to an end |
| Controller.TargetReached | skylights-app/src/window.rs:182-265 | whatever happened before, at rest or under way, a request whose travel is left to run ends at its target |
| Controller.WindowController.Arrive | skylights-app/src/window.rs:221-236 | the timer branch completes the travel, with a stop pulse exactly for a partial target |
| Controller.WindowController.Interrupt | skylights-app/src/window.rs:237-262 | the command branches stop the travel where it is |
| Controller.WindowController.DriveTo | skylights-app/src/window.rs:199-265 | every exit leaves the positioner idle; the travels made, pulses and snapshots are those of the flat reading of the inputs consumed |
| Controller.WindowController.RunAll | skylights-app/src/window.rs:182-196 | the nested loops make exactly the travels of the flat reading of the whole command stream, and a request is never made in motion; a last request that is left to run is where the window ends up, and the last snapshot shows its position and whether it moves |
| Interlock.ApplyInv | skylights-app/src/window.rs:106-142 | every step of every task keeps the interlock invariant |
| Interlock.RunInv | skylights-app/src/window.rs:106-142 | so does every interleaving |
| Interlock.InterlockHolds | skylights-app/src/window.rs:40-142 | at most one of the nine outputs is low, only the lock holder's; each sequence is two low pulses on one line; 475 ms separate the last rising edge of a sequence from the next falling edge of any line |
| Interlock.HolderFinishes | skylights-core/src/window.rs:16-30 | no reachable state is stuck: the lock holder can finish alone and frees the lock after exactly the time left, a whole sequence taking 700 ms and four edges |
| Interlock.WholeSequence | skylights-core/src/window.rs:16-30 | from taking the lock to freeing it a sequence takes 700 ms and four edges |
| Interlock.LowByEdges | skylights-app/src/window.rs:106-142 | the output levels are what the edge record says |
| Interlock.StepPulses | skylights-app/src/window.rs:106-142 | one step of any task adds to a window's pulsed and outstanding actuations exactly what its own task asks for |
| Interlock.AskedIsPulsed | skylights-app/src/window.rs:106-142 | in every interleaving each window's pulse sequences are, in order, exactly what its task asked for, but for the one request still outstanding |
| PinTraces.ControllerRequests | skylights-app/src/window.rs:182-265 | at rest or under way, a controller's pulses are the requests of its travels |
| PinTraces.PinsFollowController | skylights-app/src/window.rs:106-265 | in every interleaving what shows on a window's pins is, in order, what its controller's travels request, at most the last one still to come, and so itself Open or Close then an optional Stop, repeated |
| PinTraces.PinsShowController | skylights-app/src/window.rs:106-265 | for a controller's own pulses, at rest or under way: once its task has asked for them its pins show them in order, at most the last one still to come |
| Text.TrimAscii | skylights-core/src/ota/mod.rs:259-270 | exactly the outer white space is removed |
| Text.TrimPadded | skylights-core/src/ota/mod.rs:259-270 | white space around a text that neither starts nor ends with any is trimmed, and nothing else |
| Text.TrimParts | skylights-core/src/ota/mod.rs:259-270 | what trimming takes away is white space, and nothing more could go |
| Text.FoldsCase | skylights-core/src/ota/http.rs:189-193 | ignoring case accepts exactly the spellings of a name's letters in either case |
| Text.DigitsRead | skylights-core/src/ota/mod.rs:160-170 | the decimal spelling of every number is read back |
| Text.NumberTexts | skylights-core/src/ota/mod.rs:160-170 | exactly the texts of white space, zeros, the digits of a number and white space are read as that number |
| Text.ParseChecked | skylights-core/src/ota/http.rs:167-207 | checked accumulation yields the mathematical decimal value exactly when the text is a number within the limit |
| Text.ParseVersion | skylights-core/src/ota/mod.rs:157-170 | a number is returned exactly for the texts of white space, zeros, its digits and white space, if it has 32 bits, and for nothing else |
| Text.ParseSha256Hex | skylights-core/src/ota/mod.rs:172-194 | accepts exactly the lower-case spellings of 32 bytes and returns those bytes |
| Text.HexSpelling | skylights-core/src/ota/mod.rs:172-194 | each byte is spelled by its high digit and then its low one, in lower case |
| Text.ToHexInjective | skylights-core/src/ota/mod.rs:172-194 | no two byte strings of one length share a spelling |
| Base64.UngroupGroup | skylights-core/src/ota/mod.rs:225-257 | four symbols give back their three bytes |
| Base64.DecodeEncode | skylights-core/src/ota/mod.rs:225-257 | a strict decoder that never consults the encoder's table inverts the encoding of every byte string |
| Base64.EncodeDecode | skylights-core/src/ota/mod.rs:225-257 | every text the strict decoder accepts is the encoding of what it reads |
| Base64.EncodeLength | skylights-core/src/ota/mod.rs:228-257 | the length is four symbols for every three bytes begun |
| Base64.SymbolsInOrder | skylights-core/src/ota/mod.rs:224-225 | the symbols by value: capitals, small letters, figures, plus and slash |
| Base64.GroupDigits | skylights-core/src/ota/mod.rs:241-252 | the four symbols of a group stand for its 24 bits, six by six from the highest |
| Base64.KnownTexts | skylights-core/src/ota/mod.rs:228-257 | the encodings of "f", "fo", "foo" and of a text with the last two symbols, padding included |
| Base64.GroupOfWord | skylights-core/src/ota/mod.rs:241-252 | the shifts of the 24-bit word pick the six-bit digits of the group |
| Base64.ProgressNext | skylights-core/src/ota/mod.rs:228-257 | one round of the loop writes one group of what is still to come |
| Base64.Base64Fill | skylights-core/src/ota/mod.rs:228-257 | none exactly when the encoding does not fit; the buffer holds the groups that fit and is otherwise unchanged |
| Base64.EncodeInto | skylights-core/src/ota/mod.rs:196-202 | succeeds exactly when the buffer has room, and what is written decodes to the input |
| Base64.BasicAuthorization | skylights-core/src/ota/mod.rs:204-222 | none exactly for two empty strings or too small a buffer; otherwise the prefix and a text that decodes to user, colon, password |
| Base64.CredentialsRecovered | skylights-core/src/ota/mod.rs:204-222 | the pair is recovered at the first colon exactly when the user holds none |
| MsgQueues.RunIsWindow | mqtt_as.py:56-82 | over every run of puts and non-empty gets the queue holds the newest pending messages in order, deliveries are in order and never repeated, and every put is delivered, discarded or still held |
| MsgQueues.LostExactly | mqtt_as.py:65-71 | a message not delivered is lost exactly when as many newer ones as the capacity were put |
| MsgQueues.BetweenPut | mqtt_as.py:65-71 | in the ring: the indices meet exactly when the queue was full, and dropping the oldest keeps the newest |
| MsgQueues.MsgQueue.Put | mqtt_as.py:65-71 | the ring refines the bounded queue of one less than its size |
| MsgQueues.MsgQueue.Next | mqtt_as.py:76-82 | the oldest message is handed out, or the event is cleared and the caller waits with nothing changed |
| MsgQueues.MsgQueue.Resume | mqtt_as.py:79-82 | a wait that ends takes the oldest message from two cells on; from one cell it takes the last one put, already counted as discarded |
| MsgQueues.OneCell | mqtt_as.py:65-82 | a consumer waiting on a ring of one cell gets the very message counted as discarded |
| Mqtt.OrAbove | mqtt_as.py:259-268 | while the new bits lie above the old ones, or is addition |
| Mqtt.ReadVarintInverts | mqtt_as.py:433-438 | reading a Remaining Length gives back the number and consumes exactly its bytes |
| Mqtt.VarintSpells | mqtt_as.py:432-437 | the length field is the number in base 128, least significant first, with bit 7 set in all bytes but the last |
| Mqtt.VarintRanges | mqtt_as.py:432-437 | the ends of the ranges of one, two and three bytes |
| Mqtt.VarintLength | mqtt_as.py:425-438 | the length takes at most three bytes exactly below the size limit, so the four-byte header is never overrun |
| Mqtt.ResumesNext | mqtt_as.py:259-268 | one byte of a length field advances the accumulated value by seven bits |
| Mqtt.FlagBits | mqtt_as.py:425-426 | the parts of the first byte do not overlap |
| Mqtt.FirstByte | mqtt_as.py:425-426 | retain is bit 0, the level bits 1 and 2, dup bit 3 and the packet type 3 above them |
| Mqtt.PublicationLayout | mqtt_as.py:424-443 | the bytes of a publication: a length that counts all that follows it, topic length and topic, the identifier except at level 0, the payload, numbers most significant byte first |
| Mqtt.PublicationReceived | mqtt_as.py:477-546 | a published packet comes out with its topic, payload and retain flag, the bytes after it untouched; level 1 is acknowledged, level 2 delivered and then refused |
| Mqtt.PublicationReceivedExactly | mqtt_as.py:255-257 | a packet comes out as it was published if and only if its topic is shorter than 65536 bytes |
| Mqtt.StreamReceived | mqtt_as.py:477-546 | every concatenation of packets of level 0 or 1 comes out in order, and the bytes after it are untouched |
| Mqtt.StreamEnds | mqtt_as.py:675-684 | the first packet that fails ends the run, here one of level 2, which is still delivered; what comes after it is not read |
| Mqtt.CutPublication | mqtt_as.py:477-546 | a publication that the connection cuts short anywhere fails, and nothing is delivered, acknowledged or settled |
| Mqtt.LengthTooSmall | mqtt_as.py:527-535 | a length that does not cover the topic and the identifier is an error once they are read |
| Mqtt.HandshakeCompletes | mqtt_as.py:495-504 | the acknowledgement `40 02` and the identifier, most significant byte first, settles the sender's identifier, and only a pending one |
| Mqtt.WrongPuback | mqtt_as.py:495-498 | an acknowledgement of any other length fails at its length byte |
| Mqtt.SubackSettles | mqtt_as.py:506-514 | a subscription is settled by its own acknowledgement, `90 03`, identifier and code, unless the code is 0x80, and only a pending one |
| Mqtt.UnsubackSettles | mqtt_as.py:516-522 | an unsubscription is settled by its own acknowledgement, `B0 02` and identifier, and only a pending one |
| Mqtt.CutAcknowledgement | mqtt_as.py:495-522 | an acknowledgement that the connection cuts short fails with nothing settled |
| Mqtt.PingIsSkipped | mqtt_as.py:490-492 | a ping response is two bytes that change nothing |
| Mqtt.OthersIgnored | mqtt_as.py:524-525 | of any other packet only the first byte is taken |
| Mqtt.NothingToRead | mqtt_as.py:478-488 | without a byte nothing happens, unless the peer has closed the connection |
| Mqtt.RepliesSettle | mqtt_as.py:495-504 | the replies to a batch settle exactly the batch's identifiers |
| Mqtt.MqttClient.ReceiveLength | mqtt_as.py:259-268 | the shift-and-or loop computes the base-128 value and leaves the stream right after it |
| Mqtt.MqttClient.PutLength | mqtt_as.py:432-437 | the header array holds the first byte and the length, within its four bytes |
| Mqtt.MqttClient.Publish | mqtt_as.py:424-443 | refused exactly from the size limit on with nothing written, or for a topic too long to pack with only the header written; otherwise one whole packet is written |
| Mqtt.MqttClient.ReceivePuback | mqtt_as.py:495-504 | settles a pending identifier or fails, with exactly so much read |
| Mqtt.MqttClient.ReceiveSuback | mqtt_as.py:506-522 | settles a pending identifier or fails, with exactly so much read |
| Mqtt.MqttClient.ReceivePublish | mqtt_as.py:526-546 | step-by-step reading delivers, replies and consumes as the whole-packet reading says |
| Mqtt.MqttClient.WaitMsg | mqtt_as.py:477-546 | one incoming packet of any kind, or none, or a closed connection, handled as the whole-packet reading says, with exactly so much read even when it fails |
| Mqtt.MqttClient.HandleMessages | mqtt_as.py:675-684 | packet after packet until one fails, as the reading of the whole stream says |
| Mqtt.MqttClient.ReceiveStream | mqtt_as.py:675-684 | a stream of publications is delivered and acknowledged in order by the message loop, and what follows is left |

## Left out

- Transport security, TCP, name resolution, sending the request and the stored credentials: calls into libraries. A read that fails or times out is one failing outcome.
- SHA-256: an arbitrary function of the byte string stands for it.
- The version and digest stages of an update check, `decide`, `read_small` and `parse_url`: their text parsing is in `Text`, the rest would add easy members.
- The RAM double `MockOtaStorage`: it repeats the driver modelled in `Flash` on an array.
- The second-stage bootloader beyond its effect on the two entries, and the image header checks it makes.
- An erase cut part-way: an erase happens as a whole or not at all.
- MQTT and JSON glue, Wi-Fi and network supervision, the host-side version parser, logging, heap and pin setup: range checks or library behaviour.
- DeviceRuns.ActiveSlotAlwaysComplete: assumes that no update starts during a trial and that every update targets the inactive slot, neither of which the firmware enforces; `DeviceRuns.RunSafeExactly` is the exact condition without them.
- OtaRuns.TrialCanBeUndone: the same two assumptions; `OtaRuns.InvalidateFlips` and `OtaRuns.MarksResolve` are exact without them.
- OtaRuns.RunConsecutive: assumes that every update targets the inactive slot; `OtaRuns.RunConsecutiveExactly` is the exact condition and `OtaRuns.RunNear` holds without it.
- Window.InterpolationsAgree: `calculate_travel_position` multiplies in 64 bits and could overflow for totals far beyond a travel; the model multiplies without bound there, and the two agree over every planned travel.
- Drift.DriftBound: the ideal window moves for exactly the measured time, so the lag of a stop pulse behind its interruption is not counted.
- Controller.WindowController.DriveTo: the shared table of snapshots is one list per window; the lock and the change signal around it are not modelled, and pulse timing is in `Interlock`.
- MsgQueues.MsgQueue.Resume: one consumer, as the queue is used; two waiting at once would both be woken by one put. A queue of size 0 is never built and its modulus would be zero.
- Mqtt.MqttClient.Publish: identifiers below 65536 and levels of two bits, as its callers give; text is bytes, so a topic whose characters are wider than a byte is not covered. Whether packing rejects a number that is too large depends on the interpreter and is a parameter.
- Mqtt.StreamReceived: levels 0 and 1, the ones `publish` lets through; a single packet of any level is covered by `Mqtt.PublicationReceived`.
- Mqtt.MqttClient.WaitMsg: every exception is one failing outcome; the reconnect and keep-alive tasks are not modelled.
