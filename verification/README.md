# A verified model of the blind controller

The blind controller is the firmware of a motorised window blind on an ESP32.  It updates
itself over the network into one of two firmware slots, keeps its Wi-Fi credentials in flash,
its clock in the registers of the real-time domain and its last access point in memory that
outlives a deep sleep, and moves a stepper motor on a daily schedule or on request of a web
page.  This project models the parts of it that are state machines, crash protocols or exact
arithmetic, and proves what they keep.  `dafny verify dfyconfig.toml` checks all of it.

## How it is built

Code that changes things in place is a class with methods, each proved against a function of
the old state; the laws are lemmas about those functions.  Tasks that run at the same time are
step systems in which the events of all tasks come in any order, and power may go at any point.

| file | models |
|---|---|
| `Bytes`, `Wrappers` | bytes, 32-bit words and their little-endian layout; optional values |
| `Polynomials`, `CrcRegister`, `Crc` | the checksum of a select entry, as a bit-serial register and as a remainder of polynomials |
| `Flash` | the partition layout, a write, and what an interrupted write leaves |
| `SelectEntry` | the two 32-byte entries that say which slot is current |
| `SlotChoice` | the two separate decisions which slot an update goes to |
| `Ota`, `Firmware` | prepare, write, commit; the update as the program drives it |
| `OtaRuns`, `OtaSafety`, `OtaDiscipline`, `OtaNumbers`, `FirmwareSafety`, `FirstUpdate`, `OtaMishaps` | whole runs of the update protocol with power losses, the boot loader and the confirming application |
| `Nvs`, `Credentials` | the store with its validity magic; saving and loading credentials |
| `Clock`, `Ntp` | the calibrated clock and its correction from a time server |
| `Motor`, `Scheduler`, `CommandSystem` | the stepper motor, the daily schedule, and both around the queue that web handlers share |
| `WifiCache`, `WifiShutdown` | what survives a deep sleep; the two-signal shutdown |

An interrupted flash write leaves a prefix of the new bytes; if the chip had erased the sector
in order to rewrite it, the rest of that sector is still erased.  Any read or write may fail,
unless the chip is a reliable one; then every operation succeeds that is not refused for cause.
The release profile does not check for overflow, so machine arithmetic wraps and the lemmas say
when that matters.  What is stored is stated once more on plain bytes at plain addresses, so that
no law about entries or credentials rests on how the model names them.

## What the proofs found

Where a property one would expect does not hold of the code, the model keeps the code, and a
lemma gives the exact condition or a concrete counterexample.

- The slot an update is written to and the slot a commit makes current are worked out by
  different rules, and an assertion demands that they agree.  They differ exactly on the
  entries that `SlotChoice.Disagree` describes, among them an entry 0 not marked valid beside an
  unconfirmed entry 1, and two confirmed entries of equal number (`SlotChoice.ExactAgreement`).
  Blank OTA data is of the first kind: the first commit panics (`OtaMishaps.BlankDataPanics`).
- In runs from a freshly flashed device the assertion fires exactly if the update under way is
  stale, that is, writes to the newest confirmed slot (`OtaSafety.CommitPanicsIfStale`), and it
  becomes stale exactly when its entry is confirmed in the meantime as the newest
  (`OtaSafety.StaleBegins`).  `OtaMishaps.ConfirmedThenCommitted` is such a run.
- The newest confirmed image is lost exactly if an entry is confirmed as the newest after its
  image was overwritten, or if a stale update writes anything but what is there already, or is
  cut by power in a write that does not spare it (`OtaSafety.RunsAreSafe`).  A cut spares the
  image exactly if the bytes before it repeat the image and, where the sector was erased, the
  rest of the image in that sector is erased bytes (`OtaSafety.CutOverImage`).  The first loss
  takes an update prepared while the previous one is undecided
  (`OtaMishaps.OverwrittenThenConfirmed`), the second a confirmation during the update
  (`OtaMishaps.ConfirmedThenOverwritten`); deciding before preparing rules them all out
  (`OtaDiscipline.DisciplinedRunsAreSafe`).  A commit, cut or complete, makes what was streamed
  the image of its entry; one cut so that it changed no byte of the entry leaves it its old one.
- A cut commit can leave a third entry that passes its checksum, neither old nor new, exactly in
  the two cases that `SelectEntry.Revives` describes (`OtaRuns.CommitIsAtomic`): a stored
  checksum that fits the number while it is replaced, or the same number written once more.
  `OtaMishaps.RejectedEntryRevived` is a run in which two cut commits bring a rejected entry back.
- Commit numbers do not always increase: the highest number in use falls exactly when a commit
  over the newest entry is cut so that none counts, or finds no number left
  (`OtaNumbers.NumbersFall`).  `OtaMishaps.NumbersComeRound` is a run in which a number is used
  twice; without such a commit in between numbers increase (`OtaNumbers.CommitNumbersIncrease`).
- A cut save can leave credentials that are marked valid and do not parse, exactly if it fell in
  the last write, found the sector erased and the credentials not yet all back
  (`Credentials.SaveIsAtomic`); every save can be cut like that (`Credentials.SaveCanGarble`).  A
  mix of old and new never loads.
- The store accepts ranges outside its partition exactly if their end wraps around 32 bits
  (`Nvs.ValidOffsetExact`).
- A jog's step count is doubled in 32 bits, and is made in full exactly if that does not
  overflow (`Motor.JogExact`).
- However a clock jumps, every raise is on a later date than the one before exactly if the clock
  comes into the hours from half past twelve until sunset on later and later dates
  (`Scheduler.RaisedDailyExactly`).  Within one date it raises the blind twice exactly if the time
  leaves those hours, at either end, and comes back into them (`Scheduler.RaisedTwiceExactly`;
  `Scheduler.RaisedTwice` is an instance).
- The cached static address is not tied to a network.  It is used only where it was lent exactly
  if every start of the radio that found it lent and not worn out was for the network that was
  connected when it came (`WifiCache.AddressStaysHome`, told by the events alone);
  `WifiCache.AddressOutlivesNetwork` is a run in which it was not.
- A shutdown does not always return to a stopped radio.  If nobody restarts between the call and
  its return, it can find the radio resumed exactly if a restart was signalled before the call
  while the task was neither stopped nor failed (`WifiShutdown.CallFindsResumed`); for a call
  already waiting the condition is `WifiShutdown.ReturnFindsResumed`.
  `WifiShutdown.EarlyRestart` is such a run; a caller who restarts only what was shut down is
  safe from it (`WifiShutdown.StaysStopped`).
- Shutting down twice waits for a restart (`WifiShutdown.SecondCallWaits`): a waiting call whose
  task lives can get on exactly if it is complete, or the task is not stopped, or a restart is
  signalled (`WifiShutdown.CallGetsOn`).
- A clock set to time 0 reads as the largest time until the counter moves
  (`Clock.ReadAfterSet`).

## Model

| member | source | states |
|---|---|---|
| `CrcRegister.PolyIsReflected` | src/ota.rs:14-24 | the register feeds back 0x04C11DB7 with its bits reversed, or nothing (the generator of section 8 of RFC 1952) |
| `CrcRegister.StepsInjective` | src/ota.rs:14-24 | any number of register clocks is a bijection on words: equal results come from equal starts |
| `CrcRegister.BytesAreBits` | src/ota.rs:64-67 | taking a message in byte by byte or bit by bit gives the same register, for every message |
| `CrcRegister.WordSerial` | src/ota.rs:64-67 | the byte-serial checksum of a word is the word itself clocked 32 times and complemented |
| `Crc.SeqChecksumInjective` | src/ota.rs:64-72 | no two of the 2^32 sequence numbers share a checksum |
| `Crc.SeqChecksumErased` | src/ota.rs:64-72 | a checksum reads as erased flash if and only if the number is 0 |
| `Crc.SeqChecksumIsRemainder` | src/ota.rs:14-24 | for every number, a word is its checksum if and only if the word's complement is the remainder of the number, lowest bit first, times x^32 by the generator 0x1_04C1_1DB7 over two elements |
| `Crc.StoredSumPasses` | src/ota.rs:64-72 | the same for the four bytes that store a checksum, as a plain 32-bit number |
| `Crc.ChecksumOfOne` | src/ota.rs:64-67 | number 1 has the checksum 0x4743989A |
| `SelectEntry.LoneChangeDetected` | src/ota.rs:69-72 | if only the number or only the checksum of a good entry changes, the check fails |
| `Flash.FlashStorage.Write` | src/ota.rs:103 | bounds are checked first; success leaves exactly the new bytes in place; failure leaves an interrupted write |
| `Flash.FlashStorage.Read` | src/ota.rs:111 | success returns exactly the bytes in range; out of bounds is the one predictable error |
| `Flash.TornOutside` | src/ota.rs:103 | an interrupted write never reaches beyond the sectors of its range |
| `Flash.TornRange` | src/ota.rs:103 | within its range it leaves a prefix of the new bytes over the old ones or over erased flash |
| `Flash.TornEnds` | src/ota.rs:103 | the untouched and the fully written flash are the two ends of an interrupted write |
| `SelectEntry.EntryRoundTrip` | src/ota.rs:81-142 | reading a written entry gives back every field, for every entry |
| `SelectEntry.EntryOnBytes` | src/ota.rs:107-142 | at 0xD000 and 0xE000: number, label and checksum by their bytes, each state if and only if its word holds its code, and the check passes if and only if the stored sum is the remainder |
| `SelectEntry.EncodedBytes` | src/ota.rs:81-105 | the bytes written for number, label, each state and the checksum |
| `SelectEntry.MixedFields` | src/ota.rs:88-103 | what any prefix of an entry write leaves of number, state and checksum |
| `SelectEntry.ErasedEntry` | src/ota.rs:69-72 | an erased entry has the erased number and never passes its checksum |
| `SelectEntry.TornEntry` | src/ota.rs:81-105 | every cut of an entry write, over the old bytes or erased flash, leaves the old entry, the new entry, or one that fails its checksum, if and only if the write cannot revive a third; any old entry is allowed |
| `SelectEntry.NothingToRevive` | src/ota.rs:81-105 | over erased flash, and over an entry that passes under another number, nothing is revived |
| `SelectEntry.OtaSelectEntry.Reset` | src/ota.rs:74-79 | a reset entry has the erased number, label and state and passes its checksum |
| `SelectEntry.OtaSelectEntry.Write` | src/ota.rs:81-105 | refuses an entry of bad checksum unless told to renew it; else flash holds the encoded entry in its sector and nothing else changed |
| `SelectEntry.OtaSelectEntry.Store` | src/ota.rs:88-104 | the encoded entry in its sector, or an interrupted write of it |
| `SelectEntry.OtaSelectEntry.Read` | src/ota.rs:107-142 | returns the entry that the bytes of the sector spell, or the storage error of a chip that is not reliable |
| `SlotChoice.ExactAgreement` | src/ota.rs:229-348 | update and commit choose the same slot if and only if the entries are not of the three kinds that disagree |
| `SlotChoice.ChoicesSpareNewest` | src/ota.rs:236-255 | both choices avoid the slot of the newest confirmed entry |
| `SlotChoice.CommitSeqIsNext` | src/ota.rs:308-331 | the number of a commit is one above the highest number in use, 1 if there is none |
| `Ota.ChosenSlotOnBytes` | src/ota.rs:229-258 | the slot to update, for any flash, by the bytes of both entries |
| `Ota.CommitSlotOnBytes` | src/ota.rs:289-348 | the slot and the number of a commit, for any flash, by the bytes of both entries |
| `Ota.CommittedOnBytes` | src/ota.rs:308-360 | a commit changes 32 bytes: they hold the next number, the label of an entry that passed or erased bytes, state word 0 and a checksum that passes |
| `Ota.Ota.UpdateSlot` | src/ota.rs:229-258 | returns the slot chosen on the entries in flash; only a chip that is not reliable makes it fail |
| `Ota.Ota.GetSlotSeq` | src/ota.rs:264-280 | a number counts as erased exactly if its entry's checksum fails |
| `Ota.Ota.GetOtaEntries` | src/ota.rs:282-287 | both entries as they are in flash |
| `Ota.Ota.PrepareForUpdate` | src/ota.rs:197-201 | a new update starts at offset 0 of the chosen slot; on an error, which a reliable chip rules out, the update in progress stays |
| `Ota.Ota.WriteUpdate` | src/ota.rs:210-227 | a chunk is appended, refused as too large without any effect exactly if it exceeds the slot, or fails inside the slot, which a reliable chip rules out; without a preparation it panics |
| `Ota.Ota.CommitUpdate` | src/ota.rs:203-208 | ends the update in any case; panics if there is none; on a reliable chip it succeeds exactly if the slots agree and panics if not; success leaves the committed entry, an I/O error is the only other one |
| `Ota.Ota.ReadCleaned` | src/ota.rs:295-305 | an entry of bad checksum is reset in memory only |
| `Ota.Ota.SetCurrentSlot` | src/ota.rs:289-364 | on a reliable chip it succeeds exactly if the recomputed slot is the expected one, else the assertion fires, before anything is written; success leaves exactly the committed flash, an I/O error an interrupted commit |
| `Ota.Ota.WriteNew` | src/ota.rs:356-360 | the chosen entry gets the new number, the state New and a matching checksum, unless the chip fails |
| `Ota.StreamIsOneWrite` | src/ota.rs:210-227 | chunks that fit, however cut, leave what one write of their concatenation leaves, and the offset is its length |
| `Ota.StreamOverflows` | src/ota.rs:214-216 | writing gives up exactly if the whole image does not fit the slot |
| `Ota.StreamStaysInSlot` | src/ota.rs:210-227 | no byte outside the slot changes, whether the chunks fit or not |
| `Ota.FirmwareKeepsOtherSlot` | partitions.csv:5-6 | a change inside one firmware slot leaves the other slot as it was |
| `Firmware.ImageKeepsOtaData` | src/ota.rs:210-227 | the commit sees the OTA data that the preparation saw |
| `Firmware.WriteImage` | src/bin/blind.rs:623-630 | all chunks written leave the image at the start of the slot; an error leaves everything outside the slot alone |
| `Firmware.UpdateFirmware` | src/bin/blind.rs:618-634 | what a whole update leaves of the flash for each ending, a download that breaks off after any chunk among them; on a reliable chip the ending follows from the image, the download and the slots, and is success if the image is complete and fits and the slots agree |
| `Firmware.UpdatedBytes` | src/bin/blind.rs:618-634 | a successful update has put the image at 0x10000 or 0x190000 and a new entry at 0xD000 or 0xE000, and changed no other byte |
| `OtaRuns.CommitIsAtomic` | src/ota.rs:289-364 | from any flash, every interruption of a commit leaves its target old, new or failing its checksum and the other entry untouched, if and only if the entry write cannot revive a third entry |
| `OtaSafety.CommitKeepsCore` | src/ota.rs:289-364 | however many commits are cut one after the other, the other entry can never pass for a confirmed one as new as the anchor |
| `OtaSafety.ConfirmKeepsCore` | src/ota.rs:30-37 | confirming an entry keeps the two-entry invariant with the newer one as anchor |
| `OtaSafety.ChoicesAgree` | src/ota.rs:289-348 | with an anchor, preparation and commit pick the slot of the other entry |
| `OtaSafety.StepKeepsSound` | src/ota.rs:197-364 | every event at any time either is harmless and keeps the invariant, or makes the device unsafe |
| `OtaSafety.WriteOverImage` | src/ota.rs:218-221 | a write into a slot keeps the image there exactly if it repeats the bytes it goes over |
| `OtaSafety.CutOverImage` | src/ota.rs:218-221 | a write cut at any address, with the sector erased or not, keeps the image it goes over exactly if it spares it, whatever is in flash |
| `OtaSafety.CommitSlotOfUpdate` | src/ota.rs:308-348 | the recomputed slot differs from that of the update exactly if the update is stale |
| `OtaSafety.StaleBegins` | src/ota.rs:30-37 | an update becomes stale exactly by the confirmation of its own entry as the newest |
| `OtaSafety.CommitPanicsIfStale` | src/ota.rs:203-208 | in a run that was harmless so far, committing fires the assertion exactly if the update is stale |
| `OtaSafety.LostImageConfirmed` | src/ota.rs:236-241 | confirming an entry as the newest after its image was lost breaks safety, always |
| `OtaSafety.RunsAreSafe` | src/ota.rs:197-364 | over every run, confirmations at any time included: some entry is bootable, confirmed numbers differ, the newest confirmed image is intact and the assertion has not fired, at every moment, if and only if every event was harmless, which is told by the state and the event before it happens |
| `OtaDiscipline.DisciplinedRunsAreSafe` | src/ota.rs:197-364 | if every commit is decided before the next preparation, every event is harmless whenever it comes, and the newest entry that is not rejected always has its image, too |
| `OtaNumbers.CommitSupremacy` | src/ota.rs:289-363 | a commit changes one entry and nothing else in flash; read back it is New, passes its checksum and is numbered above all in use, and it counts exactly while numbers last |
| `OtaNumbers.NumbersFall` | src/ota.rs:308-331 | the highest number in use falls exactly if a commit, cut or not, replaces the newest entry and leaves none that counts; a complete commit raises it while numbers last |
| `OtaNumbers.CommitNumbersIncrease` | src/ota.rs:308-331 | the numbers of any two commits of a run increase strictly, unless a commit between them replaces the newest entry and is cut or has no number left |
| `OtaNumbers.CutCommitReusesNumbers` | src/ota.rs:308-331 | a commit over the newest entry cut after the number makes the next number the one after the older entry's, which is smaller |
| `OtaMishaps.NumbersComeRound` | src/ota.rs:308-331 | from every fresh device, a run with two complete commits of the same number and one cut in between |
| `OtaNumbers.ConfirmDuringUpdate` | src/ota.rs:229-348 | for any two entries one of which is bootable, confirming the other between the two choices makes them differ exactly if it is the newer, or for entry 0 as new |
| `OtaNumbers.ConfirmThenCommit` | src/ota.rs:203-208 | from any state of the invariant with an update under way: confirm an entry, then commit; the assertion fires exactly if that entry is the newer |
| `OtaMishaps.ConfirmedThenCommitted` | src/ota.rs:203-208 | from every fresh device, a run of prepare, write, commit, prepare, confirm and commit that ends in the panic |
| `OtaNumbers.OverwrittenImage` | src/ota.rs:236-241 | preparing and writing keeps every entry, but no longer the image of the undecided one |
| `OtaNumbers.ConfirmOverwrittenImage` | src/ota.rs:197-201 | prepare, write, power loss and confirmation from any state with a newer undecided entry end unsafe |
| `OtaMishaps.OverwrittenThenConfirmed` | src/ota.rs:197-201 | from every fresh device, such a run, safe up to its last event and unsafe after it |
| `OtaMishaps.ConfirmedThenOverwritten` | src/ota.rs:210-227 | from every fresh device, a run in which an update turns stale and then overwrites the newest confirmed image |
| `OtaMishaps.RejectedEntryRevived` | src/ota.rs:81-105 | from every fresh device, a run in which two cut commits make a rejected entry pass its checksum again, neither old nor new |
| `OtaMishaps.BlankDataPanics` | src/ota.rs:229-348 | on blank OTA data preparation chooses slot 0 and commit slot 1, so the commit panics |
| `FirmwareSafety.UpdateKeepsDevice` | src/bin/blind.rs:618-634 | from any state of the invariant, one driven update never panics whatever fails, chip or download, keeps the device bootable with its image, and on success leaves the new image under a newer New entry that counts exactly while numbers last |
| `FirmwareSafety.ReliableUpdateSucceeds` | src/bin/blind.rs:618-634 | from any state of the invariant, on a reliable chip every completely downloaded image of at most 0x180000 bytes is committed, and a larger one is too large |
| `FirstUpdate.FreshDevice` | src/ota.rs:289-323 | a device from which the runs start exists: erased, with entry 0 confirmed under number 1 |
| `FirstUpdate.FirstUpdateSucceeds` | src/ota.rs:197-227 | from every fresh device and for every image that fits there is a disciplined run that ends with the image confirmed in slot 1 under number 2 |
| `Nvs.ValidOffsetExact` | src/nvs.rs:42-48 | every range in the store is accepted, and beyond those exactly the ranges whose end wraps around to before the end of the partition |
| `Nvs.MagicIsReadBack` | src/nvs.rs:50-69 | the store reads as valid after setting it valid and as invalid after setting it invalid |
| `Nvs.ValidOnBytes` | src/nvs.rs:50-57 | the store is valid if and only if the bytes at 0x9000 are EF BE AD DE |
| `Nvs.Nvs.IsValidMagic` | src/nvs.rs:50-57 | reports whether the first four bytes hold the magic |
| `Nvs.Nvs.SetValid` | src/nvs.rs:59-69 | writes the magic or zeroes, nothing else |
| `Nvs.Nvs.Read` | src/nvs.rs:71-75 | refuses exactly the ranges that are out of bounds, else returns the bytes there |
| `Nvs.Nvs.Write` | src/nvs.rs:77-81 | refuses exactly the ranges that are out of bounds, else changes just these bytes |
| `Credentials.NoErasedByte` | src/bin/blind.rs:556-570 | bytes with an erased one among them are not UTF-8 |
| `Credentials.Utf8IsText` | src/bin/blind.rs:556-570 | bytes are accepted as a string if and only if they are the encoding of some sequence of Unicode scalar values, so overlong forms and surrogates are not |
| `Credentials.LoadOnBytes` | src/bin/blind.rs:540-582 | a pair loads if and only if magic, lengths up to 32 and 64 and two encoded texts lie at their addresses |
| `Credentials.SavedBytes` | src/bin/blind.rs:520-534 | the value of every byte of flash after a complete save |
| `Credentials.SaveThenLoad` | src/bin/blind.rs:520-579 | a complete save is read back as exactly the pair saved, whatever flash held before |
| `Credentials.LastWriteCut` | src/bin/blind.rs:534 | what loads after a cut in the last write, for every place it can fall: nothing, nothing that parses, or the new pair |
| `Credentials.SaveIsAtomic` | src/bin/blind.rs:520-534 | after a cut anywhere in a save: flash untouched, no credentials, the complete new pair, or none that parse, the last exactly if the cut found the sector of the last write erased and the credentials not all back; never a mix |
| `Credentials.SaveCanGarble` | src/bin/blind.rs:520-534 | from any flash, a save of any credentials has a cut after which the magic is valid and nothing parses |
| `Credentials.SaveCredentials` | src/bin/blind.rs:514-538 | the program makes these writes in this order; failing, which a reliable chip rules out, it leaves a cut of the sequence; longer than 32 or 64 bytes, it leaves all as it was |
| `Credentials.LoadFromStrings` | src/bin/blind.rs:540-582 | loading is reading two length-prefixed strings, each of which may be too long or not UTF-8 |
| `Credentials.LoadString` | src/bin/blind.rs:548-554 | reads the string of the stored length, or reports that it does not fit |
| `Credentials.LoadCredentials` | src/bin/blind.rs:540-582 | returns what the store holds, unless the chip fails, and marks it invalid exactly if the lengths fit but the strings are none |
| `Clock.MicrosExact` | src/system_time.rs:230-254 | the split multiplication is the exact product rounded down once, and no 64-bit step overflows |
| `Clock.MicrosSteady` | src/system_time.rs:230-254 | conversion is monotone, and converting in two portions loses at most one microsecond |
| `Clock.ReadingModulo` | src/system_time.rs:162-177 | boot time and counter add up modulo 2^64-1 |
| `Clock.ReadAfterSet` | src/system_time.rs:138-177 | after setting the time the clock reads it plus the counter's advance, exactly unless that leaves 64 bits or time 0 was set and the counter stands |
| `Clock.RefreshKeepsReadings` | src/system_time.rs:156-159 | refreshing the boot time at one counter value changes no later reading, with the one exception named |
| `Clock.ReadAfterRefreshes` | src/system_time.rs:138-177 | over any number of refreshes the clock loses exactly what the counter advanced within them |
| `Clock.SystemTime.Configure` | src/system_time.rs:74-81 | stores calibration and offset and leaves the boot time |
| `Clock.SystemTime.GetBootTimeUs` | src/system_time.rs:41-53 | joins the two register halves |
| `Clock.SystemTime.SetBootTimeUs` | src/system_time.rs:55-65 | the two halves written read back as the whole |
| `Clock.SystemTime.GetRtcTimeUs` | src/system_time.rs:67-72 | ticks times calibration over 2^19 for every 48-bit tick count and 32-bit calibration |
| `Clock.SystemTime.GetTimeUs` | src/system_time.rs:162-177 | the reading for the boot time and counter |
| `Clock.SystemTime.SetTimeUs` | src/system_time.rs:138-154 | stores the boot time for the given time and counter |
| `Clock.SystemTime.UpdateBoot` | src/system_time.rs:156-159 | is one refresh, with the counter read twice |
| `Ntp.ShiftedExact` | src/ntp.rs:149-156 | negating, reinterpreting and wrapping add up to the signed sum, for every offset |
| `Ntp.AdjustmentExact` | src/ntp.rs:183-190 | the adjustment returned is the distance of old and new time exactly if that fits a signed word |
| `Ntp.ReadAfterCorrection` | src/ntp.rs:143-184 | after a correction the clock reads the sampled time plus offset plus the counter's advance since |
| `Ntp.CorrectionShiftsClock` | src/ntp.rs:143-190 | at a standing counter the clock jumps by exactly the offset and the adjustment is its magnitude |
| `Ntp.Correct` | src/ntp.rs:137-192 | the new boot time, the server's time and the adjustment, for both modes |
| `Ntp.TimestampGen.Init` | src/ntp.rs:40-57 | seconds and microseconds rebuild the clock's reading, the latter below a million |
| `Motor.RampLaws` | src/bin/blind.rs:438-446 | n toggles have min(n, 200) slow pauses, the duration that follows, and the same profile backwards |
| `Motor.PulsesFollowRamp` | src/bin/blind.rs:441-446 | the pulses of a movement alternate, start by leaving the level, and pause along the ramp |
| `Motor.JogExact` | src/bin/blind.rs:429-436 | a jog makes its count of steps exactly if doubling it does not overflow |
| `Motor.FullTravel` | src/bin/blind.rs:429-446 | a raise or lower that is not skipped moves 4450 steps in 8900 toggles, which take 14.05 seconds |
| `Motor.AppliedMoves` | src/bin/blind.rs:415-448 | one command moves the blind by its jog and the change of its rest, and restores the step line |
| `Motor.PositionAccounted` | src/bin/blind.rs:409-450 | for every command sequence: flag, step line and position are those of the last raise or lower and the net jogs |
| `Motor.MotorTask.Handle` | src/bin/blind.rs:412-449 | carries out one command: skipped if redundant, else exactly its toggles, pulse by pulse |
| `Motor.MotorTask.Step` | src/bin/blind.rs:438-446 | toggles the step line n times along the ramp |
| `Scheduler.ScheduleTask.Poll` | src/bin/blind.rs:299-334 | one round of the schedule; the branch without a sunset is never taken |
| `Scheduler.PollFollowsSun` | src/bin/blind.rs:275-334 | a poll succeeds exactly if clock and calculation do; then the cache is today's, kept or calculated with the reading's fraction of a second, and the state is up exactly from half past twelve until the cached sunset; else nothing changes |
| `Scheduler.CacheIsExact` | src/bin/blind.rs:275-306 | cached and fresh sunset want different commands exactly within the second of sunset, until the fraction of a second that the cache kept |
| `Scheduler.RunFollowsSun` | src/bin/blind.rs:297-334 | over any run, even of a clock that jumps, the cache is right, the state is the last command sent, and commands alternate |
| `Scheduler.DailyOrders` | src/bin/blind.rs:299-334 | on a clock that does not go back: at most one raise per date and at most 2D+1 commands over D dates |
| `Scheduler.RaisedTwiceExactly` | src/bin/blind.rs:299-334 | for every sequence of readings of one date: two raises are sent exactly if the time is within the hours, then outside, then within again |
| `Scheduler.RaisedTwice` | src/bin/blind.rs:299-334 | a clock set back across sunset sends two raises on one date |
| `Scheduler.RaisedDailyExactly` | src/bin/blind.rs:299-334 | for every sequence of readings, of any dates in any order: the raises are on later and later dates if and only if the clock comes into the hours on later and later dates |
| `CommandSystem.StepKeepsInv` | src/bin/blind.rs:241-450 | every event of scheduler, web handlers, queue and motor keeps the invariant |
| `CommandSystem.NothingLost` | src/bin/blind.rs:636-638 | in every interleaving each task's requests are its consumed, queued and waiting ones, in order; the queue holds at most ten |
| `CommandSystem.SendersWait` | src/bin/blind.rs:636-638 | requests are never more than thirteen ahead of the motor: ten queued and one for each sender |
| `CommandSystem.SendersCanWait` | src/bin/blind.rs:636-638 | a run that reaches this bound: all three senders wait on a full queue |
| `CommandSystem.PositionBetweenCommands` | src/bin/blind.rs:409-450 | whenever the motor waits, the position is that of the consumed commands |
| `CommandSystem.PositionAtAnyMoment` | src/bin/blind.rs:441-446 | in the middle of a movement the blind is between its start and its end |
| `CommandSystem.StaysInFrame` | src/bin/blind.rs:415-433 | without jogs the blind never leaves its frame, at any moment of any interleaving |
| `CommandSystem.ScheduleReachesMotor` | src/bin/blind.rs:291-343 | what the motor hears of the schedule is a prefix of its orders, so it alternates and keeps the daily bound |
| `CommandSystem.WorkFalls` | src/bin/blind.rs:409-450 | every event that needs nothing from outside brings the end of all work nearer |
| `CommandSystem.NeverStuck` | src/bin/blind.rs:409-450 | while anything is left to do, some task can go on |
| `CommandSystem.AllCarriedOut` | src/bin/blind.rs:241-450 | without new requests every order of events ends, and only with every requested command carried out |
| `WifiCache.RtcMemory.Connect` | src/wifi.rs:228-262 | which access point and address are reused, and what that leaves in the cells |
| `WifiCache.RtcMemory.Claim` | src/wifi.rs:332-347 | the cells after the connection task claims them for its network |
| `WifiCache.RtcMemory.Remember` | src/wifi.rs:378-387 | access point, channel and, if reported, method of the scan are kept, and nothing else changes |
| `WifiCache.RtcMemory.Lease` | src/wifi.rs:147-152 | an address is stored only if there is none |
| `WifiCache.StepKeepsInv` | src/wifi.rs:228-428 | every event of both tasks, a deep sleep or power-up at any await keeps the cells coherent |
| `WifiCache.NeverMixesNetworks` | src/wifi.rs:235-249 | every target the radio is given names an access point and channel found by one scan of that very network |
| `WifiCache.TargetsAsTold` | src/wifi.rs:228-402 | over every run, everything the radio is told follows from the events alone: the network, the access point and channel its last scan found, and the method last reported since power-up or the last start for another network, the default only if none was |
| `WifiCache.AddressWearsOut` | src/wifi.rs:255-262 | a cached address is used at most ten times per power-up |
| `WifiCache.EventsTellCells` | src/wifi.rs:147-262 | which address is cached, who lent it and how often it was used follow from the events since power-up |
| `WifiCache.AddressStaysHome` | src/wifi.rs:255-262 | cached addresses are used only on the network that lent them if and only if, by the events alone, every start of the radio since power-up with an address lent and not worn out was for the network connected when that address came |
| `WifiCache.AddressOutlivesNetwork` | src/wifi.rs:255-262 | a run in which one network's address is used on another |
| `WifiShutdown.StepKeepsInv` | src/wifi.rs:200-207 | every event keeps the order of calls, stops and returns |
| `WifiShutdown.ReturnsAfterStop` | src/wifi.rs:200-207 | whatever is restarted when: calls, stops and returns take turns, so a call returns only after a stop of its own and each completion is taken once; at the return the task waits exactly if the radio's last act was a stop |
| `WifiShutdown.ReturnFindsResumed` | src/wifi.rs:200-207 | in every reachable state with a call waiting: without further restarts it can return to a radio not stopped if and only if a restart is still pending |
| `WifiShutdown.CallFindsResumed` | src/wifi.rs:412-428 | before any call: without restarts after it, it can return to a radio not stopped if and only if a restart is signalled and the task is neither stopped nor failed |
| `WifiShutdown.CallGetsOn` | src/wifi.rs:200-207 | a waiting call with a live task can get on without a restart or luck if and only if it is complete, or the task is not stopped, or a restart is signalled |
| `WifiShutdown.StaysStopped` | src/wifi.rs:412-428 | with a caller who restarts only what was shut down: call, stop, return and restart take turns, and the radio stays stopped until the restart |
| `WifiShutdown.NeverStuck` | src/wifi.rs:200-207 | while a caller who restarts only what was shut down waits and the task lives, an event that helps is possible |
| `WifiShutdown.DistanceFalls` | src/wifi.rs:200-207 | every event but a failed join brings the return nearer by one, or is the return |
| `WifiShutdown.CallReturns` | src/wifi.rs:200-207 | until the call returns there are at most four events besides failed joins, and always one more is possible |
| `WifiShutdown.EarlyRestart` | src/wifi.rs:422-428 | an early restart resumes the radio before the caller is told it stopped |
| `WifiShutdown.SecondCallWaits` | src/wifi.rs:200-207 | a second shutdown waits until somebody restarts |

## Left out

- HTTP, TLS, DNS and redirects: the download is an arbitrary sequence of chunks that may break off.
- The flash driver's inside: a write is a byte range, with every interruption that erasing and rewriting its sectors allows.
- The boot loader's choice of slot and its checks of images: it is an environment that moves undecided entries on, at any time; an entry whose number reads as erased is no longer moved.
- A write that returns an I/O error and is retried by the same update: a run ends the update at its first error, as the program does.
- The flag that tells the main loop to reboot after an update.
- The daylight-saving rule of the time task and its calendar arithmetic.
- The position of the sun: sunset is any second of the day for each date, or an error.
- Register access, pins, timers and the wait for the counter to become valid: values read are parameters.
- The time task's wait for synchronisation before the first poll of the schedule.
- Formatting for the log, with the conversions in it that can panic on times far in the future.
- The inside of queue and signals: a queue is first in, first out with ten places, a signal holds one value.
- A web request that is abandoned while its command waits for the queue.
- The random number adapter, the logger, the partition macro, the build script, and the hardware drawings.
