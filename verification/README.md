# Models of the native-init protocols

This project models five stateful protocols of the device software in Dafny and proves what they are for:

- the boot self-flash ladder: the flash commands F1, F2 and F3, the write-probe rungs E1 to E5, the candidate scan and the target plan;
- the automatic handoff, which dispatches switch-root at most once across boots, failures and power cuts, and the replay of its evidence log;
- the audio calibration session, its manifest, and the playback of PCM files under a peak cap;
- the framed tty protocol of the echo and the control daemon, with its CRC-32;
- the cmdv1x argument decoder.

`dafny verify dfyconfig.toml` checks everything.

## How to read it

Each module begins with what it models. The code of the sources is imperative, and so are the models: classes for the partition with its staging directory, the state files, the calibration session, the serial line and the daemons; arrays for the buffers that are split or filled in place; loops with invariants. What a method promises is stated against functions and predicates that describe the result, and the lemmas beside them say what those mean.

Failures are nondeterministic choices inside the primitives. A `quiet` device, kernel, line or source never fails, and clauses about `quiet` ones say that a command does succeed. `faults` counts failed calls, so that a clause can speak of a run in which none failed; calls whose outcome the source does not look at are not among them.

- Flash: every primitive that changes the disk appends the new state to `trail`, so statements about the trail hold wherever a run is cut off. A `faithful` device stores a prefix of what is written; any other may store anything and report success, and then only digests are claimed. SHA-256 is an arbitrary function `sha`: "the original" means its digest, and its bytes on a faithful device. `saved` is what the synced directory holds. Sizes and the chunk length are parameters.
- Handoff: a state file is the list of versions that a power cut may leave; a directory sync shortens it to what is seen, and a file that was not synced may be torn.
- Calibration: descriptors carry a label saying who holds them, and closing or unmapping anything not held is excluded by precondition.
- Daemons: every turn that leaves a mark is an event of a log, and counters, responses, exit code and verdict are stated as functions of the log. Lemmas named `...Counted` and `...Are` say what these functions are in terms of positions.
- PCM: the device's answers are an arbitrary function of the call number, so claims range over every pattern of retries and short writes. `stalled` records that a read reported that it would block; the code then fills up with silence, and claims are for runs in which that did not happen, as with regular files.

Where code and expectation part, both halves are proved: the directory sync whose failure is ignored (`FlashF1`, `FlashLeave`), the retry that reads on past what was scanned (`CapIsExact`), the 32-bit counters that can come back to zero (`CounterIsExact`, `HonestyIsExact`), the verdict that counts echoes before they are answered (`PassWithoutAnswers`, `AnsweredWithReopens`), the error burst that reaches the length field or across an edge of the checksum field (`BurstsDetected`).

Assumptions: a failing call sets a nonzero error number; no other process writes the partition or the files; reads return what is stored or fail; the compiled-in lines of a handoff record are whole lines without NUL and without a second intent key; interrupted calls are part of the retries inside a primitive.

## Model

| member | source | states |
|---|---|---|
| FlashCommands.FlashF1 | workspace/public/src/native-init/a90_boot_write_e1.c:2312-2739 | In every state the disk passes through, for every pattern of failed, short or cut-off I/O, the partition is as it was or the complete snapshot of it is under the snapshot name, no older snapshot is lost, only this rung's files change, and nothing is written if the name was taken. 0 is returned only after reading back the original, the target and the original digest, in that order; a restore is attempted exactly if the partition was opened for writing, and if it succeeds the original is back even when the target phase failed; a failed run keeps its snapshot. Without faults a successful run leaves neither snapshot nor temporary file and everything else as it was. If no call fails, the code is 0 exactly for an accepted command with an acceptable candidate and a free name, and otherwise that of the first test not passed (or EIO on an unfaithful device); after a success every state was covered against a power cut exactly if the directory sync works |
| FlashCommands.FlashF1Repeatedly | workspace/public/src/native-init/a90_boot_write_e1.c:2312-2739 | Without faults F1 can be repeated any number of times: every run returns 0 and the partition stays as it was |
| FlashCommands.LeftClean | workspace/public/src/native-init/a90_boot_write_e1.c:2721-2728 | What a successful F1 leaves: the files of the start without the temporary one, and nothing saved under its name |
| FlashCommands.RoundTrip | workspace/public/src/native-init/a90_boot_write_e1.c:2600-2706 | The writing part of F1: a restore is attempted exactly when the partition was opened for writing, the code is 0 exactly when both phases succeeded and otherwise the restore's error or else the target's, and the two read-backs are target then original |
| FlashCommands.FlashLeave | workspace/public/src/native-init/a90_boot_write_e1.c:2741-3166 | The same safety for F2 and F3. 0 is returned only with the target digest read back last and on the partition (the target image itself on a faithful device); a restore is attempted exactly if writing had begun and the target phase failed; the snapshot is kept. If no call fails, the code is that of the first test not passed, or 0. The directory sync is not checked, so after a success on a faithful device a power cut is covered exactly if that sync works; a snapshot left by a run that began writing is saved if it does |
| FlashCommands.WriteAndLeave | workspace/public/src/native-init/a90_boot_write_e1.c:3031-3140 | The writing part of F2 and F3: restore attempted exactly when a started target phase failed; both outcomes of restore and target phase characterised; the exact power-cut condition |
| FlashCommands.Session | workspace/public/src/native-init/a90_boot_write_e1.c:725-816 | Over any sequence of flash commands, with power cuts between and inside them, no state on the way has lost or changed a snapshot that was saved at the start; without cuts, no snapshot that was there; and each command takes the disk to the next state as its outcome says, or leaves a way back to the original if it was cut off and the directory sync works |
| FlashCommands.Attempt | workspace/public/src/native-init/a90_boot_write_e1.c:2312-2739 | The same of one command that runs to its end or up to a power cut |
| FlashCommands.ReportF1 | workspace/public/src/native-init/a90_boot_write_e1.c:2708-2739 | Removing the temporary file and, after a success, the snapshot keeps every state safe and every older snapshot; without faults the temporary file is gone, and after a success the snapshot and what was saved of it too |
| FlashDevice.LeftByCut | workspace/public/src/native-init/a90_boot_write_e1.c:711-723 | A snapshot is certain to be left by a power cut exactly if it has been saved |
| FlashDevice.Device.PowerCut | workspace/public/src/native-init/a90_boot_write_e1.c:711-723 | The partition and the saved snapshots stay; whether anything else is left in the directory is open |
| FlashCommands.Sweep | workspace/public/src/native-init/a90_boot_write_e1.c:2708-2739 | Removing the temporary file leaves every snapshot, and the protection it gives, as it was; without faults the file is gone |
| Flash.Preflight | workspace/public/src/native-init/a90_boot_write_e1.c:2312-2598 | Nothing is written; Ready means that the candidate has a valid header that fits it, the expected digest and the marker, and that the target image differs from the partition, with the digests of both; if no call fails every acceptable candidate is Ready, and any other is stopped with the error of the first test it does not pass |
| Flash.PreflightCandidate | workspace/public/src/native-init/a90_boot_write_e1.c:2460-2598 | The candidate's part of the same, both directions, with the error |
| Flash.CheckHeader | workspace/public/src/native-init/a90_boot_write_e1.c:2403-2447 | If the read does not fail: EIO for less than a sector, EINVAL for a header that does not parse, and otherwise 0 with the used length it describes |
| Flash.Refusal | workspace/public/src/native-init/a90_boot_write_e1.c:2403-2598 | The error of the first test not passed, which is none exactly for acceptable candidates |
| Flash.SecureSnapshot | workspace/public/src/native-init/a90_boot_write_e1.c:2600-2629 | 0 only if the snapshot name was free and now holds a full-length copy whose digest was re-read and matches; the partition is untouched either way |
| Flash.CaptureSnapshot | workspace/public/src/native-init/a90_boot_write_e1.c:725-816 | An existing snapshot is refused and left alone; success leaves a full copy under the name and nothing else changed; failure leaves only temporary files changed; every state on the way is safe |
| Flash.AbandonTemp | workspace/public/src/native-init/a90_boot_write_e1.c:759-816 | A failed capture leaves at most a temporary file, and on a quiet device none |
| Flash.TempChanged | workspace/public/src/native-init/a90_boot_write_e1.c:725-816 | A change of the temporary file alone leaves every snapshot and everything saved as it was |
| Flash.CopyPartition | workspace/public/src/native-init/a90_boot_write_e1.c:759-790 | The temporary file ends up with as many bytes as the partition, and on a faithful device with its content |
| Flash.PublishTemp | workspace/public/src/native-init/a90_boot_write_e1.c:807-816 | The rename either gives the snapshot its name and syncs the directory, or leaves only temporary files changed |
| Flash.WriteAll | workspace/public/src/native-init/a90_boot_write_e1.c:699-709 | However the writes are split, success means that the whole buffer was appended |
| Flash.WriteImage | workspace/public/src/native-init/a90_boot_write_e1.c:818-877 | With a verified snapshot in place every intermediate partition content is safe, and success leaves the snapshot with the candidate laid over its front |
| Flash.WriteTarget | workspace/public/src/native-init/a90_boot_write_e1.c:2631-2663 | 0 only if the target digest was read back, and EIO for another digest; nothing is written unless the partition was opened for writing |
| Flash.RestoreOriginal | workspace/public/src/native-init/a90_boot_write_e1.c:2665-2696 | 0 only if the original digest was read back, EIO for another digest, and on a faithful device the original content is back |
| FlashDevice.Device.FullSha | workspace/public/src/native-init/a90_boot_write_e1.c:396-440 | A digest is that of the whole partition, however its reads were split |
| FlashDevice.Device.StreamSha | workspace/public/src/native-init/a90_boot_write_e1.c:442-472 | A digest is that of exactly the first `size` bytes |
| FlashDevice.Device.Pwrite | workspace/public/src/native-init/a90_boot_write_e1.c:915-933 | One partition write; a faithful device stores a prefix of the buffer, all of it on success, and every state is added to the trail |
| FlashDevice.Device.OpenForWriting | workspace/public/src/native-init/a90_boot_write_e1.c:2631-2645 | Counts the times the partition was opened for writing |
| FlashDevice.Device.SyncDirectory | workspace/public/src/native-init/a90_boot_write_e1.c:711-723 | A failing directory sync leaves what a power cut would find as it was, and is not reported to the caller |
| FlashDevice.Device.UnlinkSnapshot | workspace/public/src/native-init/a90_boot_write_e1.c:2722-2731 | After a successful unlink nothing is certain to be left under the name |
| TargetPlan.ComputeTargetPlan | workspace/public/src/native-init/a90_boot_write_e1.c:630-694 | The planned digest is that of the candidate followed by the rest of the partition; changed bytes and chunks are the numbers of differing positions and of chunks that contain one |
| TargetPlan.CompareChunk | workspace/public/src/native-init/a90_boot_write_e1.c:671-676 | Counts the differing positions |
| TargetPlan.DifferencesCounted | workspace/public/src/native-init/a90_boot_write_e1.c:671-676 | The number of changed bytes is the number of positions at which the images differ |
| TargetPlan.ChunksCounted | workspace/public/src/native-init/a90_boot_write_e1.c:671-682 | The number of changed chunks is the number of chunks that contain such a position |
| TargetPlan.TargetAt | workspace/public/src/native-init/a90_boot_write_e1.c:648-670 | The planned image byte by byte: the candidate, then the partition |
| TargetPlan.DifferencesZero | workspace/public/src/native-init/a90_boot_write_e1.c:2593-2597 | No changed bytes exactly when the two images are equal, which is the test that refuses a no-op flash |
| TargetPlan.DifferencesConcat | workspace/public/src/native-init/a90_boot_write_e1.c:671-679 | Differing positions add up over consecutive pieces |
| TargetPlan.OverlaidIsTarget | workspace/public/src/native-init/a90_boot_write_e1.c:845-859 | What the write phase puts into a chunk is that chunk of the planned image |
| TargetPlan.PlanStep | workspace/public/src/native-init/a90_boot_write_e1.c:648-682 | One chunk's share of the byte and chunk counts |
| MarkerScan.ScanCandidate | workspace/public/src/native-init/a90_boot_write_e1.c:550-628 | For every chunk size of at least one and every marker of 1 to 128 bytes, found is reported exactly when the marker occurs in the scanned bytes, and the digest is over the same bytes; other marker lengths are refused; the buffers do not overflow |
| MarkerScan.OccursAcross | workspace/public/src/native-init/a90_boot_write_e1.c:580-595 | A marker occurs in a concatenation exactly when it occurs in one of the parts or across the seam, within the last and first length-minus-one bytes |
| MarkerScan.LastOfConcat | workspace/public/src/native-init/a90_boot_write_e1.c:596-617 | The carried tail can be kept chunk by chunk |
| MarkerScan.SearchChunk | workspace/public/src/native-init/a90_boot_write_e1.c:580-595 | A chunk and the carried tail suffice to decide whether the marker occurs in everything so far; the overlap buffer does not overflow |
| MarkerScan.KeepTail | workspace/public/src/native-init/a90_boot_write_e1.c:596-617 | The new tail is the last length-minus-one bytes of everything so far; the merge buffer does not overflow |
| MarkerScan.MemContains | workspace/public/src/native-init/a90_boot_write_e1.c:534-548 | True exactly if the needle occurs; the empty needle always does |
| BootHeader.RoundUpLeast | workspace/public/src/native-init/a90_boot_write_e1.c:324-329 | Rounding up gives the least multiple not below its argument |
| BootHeader.UsedLenIsLayout | workspace/public/src/native-init/a90_boot_write_e1.c:1033-1042 | The used length is a layout: a page for the header, then each section whose size the header gives, from the first page boundary after the one before it, and it is the page boundary after the last |
| BootHeader.UsedLenFits | workspace/public/src/native-init/a90_boot_write_e1.c:1033-1042 | The used length of an accepted header cannot wrap 64-bit arithmetic and is at least a page |
| SpreadIndex.PickedIsEven | workspace/public/src/native-init/a90_boot_write_e1.c:897-913 | For at least two targets and enough candidates neither clamp acts: the picked index is floor(i*(z-1)/(t-1)), in range, strictly above the one before, first 0 and last z-1 |
| SpreadIndex.PickedAscending | workspace/public/src/native-init/a90_boot_write_e1.c:1112-1116 | Any later pick is strictly larger than any earlier one and in range |
| SpreadIndex.EvenLeavesRoom | workspace/public/src/native-init/a90_boot_write_e1.c:901-911 | After each even index enough candidates are left for the remaining picks, so the upper clamp is inert |
| SpreadIndex.EvenIncreases | workspace/public/src/native-init/a90_boot_write_e1.c:900-908 | The even indices increase by at least one, so the lower clamp is inert |
| SpreadIndex.EvenEnds | workspace/public/src/native-init/a90_boot_write_e1.c:902-905 | The even indices run from the first candidate to the last |
| IdentityRungs.SlackRung | workspace/public/src/native-init/a90_boot_write_e1.c:935-1212 | E1, E2 and E3a: no state has other partition bytes than before; the writes go to the first zero sector of the window (E1) or to the even spread over all of them, in order; these are distinct, aligned, all zero and between the rounded-up used length and the last MiB; if no call fails the code is 0 exactly if the window has enough zero sectors and, for a spread, not too many, and otherwise says which; success means two equal digests around the writes |
| IdentityRungs.ChooseTargets | workspace/public/src/native-init/a90_boot_write_e1.c:1046-1150 | The targets are the first zero sector of the window or the even spread over all of them; if no call fails the code is 0 exactly when that is feasible and otherwise says why not |
| IdentityRungs.PickTargets | workspace/public/src/native-init/a90_boot_write_e1.c:1112-1138 | The targets are the evenly spread choice among the zero sectors, each re-read as zero |
| IdentityRungs.AtPickedAscending | workspace/public/src/native-init/a90_boot_write_e1.c:1112-1116 | An even choice from ascending sectors is ascending |
| IdentityRungs.ScanZeroSectors | workspace/public/src/native-init/a90_boot_write_e1.c:1082-1106 | Finds all zero sectors of the window in order, up to 1024; with more the error is E2BIG |
| IdentityRungs.FindZeroSector | workspace/public/src/native-init/a90_boot_write_e1.c:879-895 | Finds the first zero sector; if no read fails ENOSPC is reported exactly if there is none |
| IdentityRungs.ZeroSectorsInRange | workspace/public/src/native-init/a90_boot_write_e1.c:1082-1106 | The zero sectors are ascending, and they are all and only the aligned sectors of the window that are zero |
| IdentityRungs.SlackWindow | workspace/public/src/native-init/a90_boot_write_e1.c:1046-1058 | The window starts at the used length rounded up to a sector and ends one MiB before the partition's end |
| IdentityRungs.WriteTargets | workspace/public/src/native-init/a90_boot_write_e1.c:1193-1211 | Writes the sectors back in order, stops at the first failure and changes no byte |
| IdentityRungs.WriteBack | workspace/public/src/native-init/a90_boot_write_e1.c:915-933 | Writing back what was read changes nothing, wherever the write stops |
| IdentityRungs.ContiguousRung | workspace/public/src/native-init/a90_boot_write_e1.c:1283-1553 | E3b: no state differs; at most one write, of whole sectors right after the image, before the last MiB and not over zeros only; if no call fails the code is 0 exactly if there are such sectors and otherwise says why not; success means two equal digests around the writes |
| IdentityRungs.HeaderRung | workspace/public/src/native-init/a90_boot_write_e1.c:1555-1788 | E4: no state differs; at most one write, to the header sector, and one on success, which needs a header that parses; if no call fails it succeeds exactly then; success means two equal digests around the writes |
| IdentityRungs.ProbeBlock | workspace/public/src/native-init/a90_boot_write_e1.c:1453-1553 | The block between two digests: no state differs, and success means that it was written once |
| IdentityRungs.StreamRung | workspace/public/src/native-init/a90_boot_write_e1.c:1790-2017 | E5: no state differs; on success the writes tile the whole partition in order; it needs a header that parses, and if no call fails succeeds exactly then; success means two equal digests around the writes |
| IdentityRungs.StreamBack | workspace/public/src/native-init/a90_boot_write_e1.c:1957-1976 | The chunk loop of E5 |
| Handoff.Device.Lifetime | workspace/public/src/native-init/a90_auto_handoff.c:768-947 | In any life of the device, over boots, failures, power cuts and arm commands in any order, switch-root is dispatched at most once, for the intent of the command that wrote the enable record, and from then on the latch is durable and holds exactly the dispatched record of that intent. A life of boots, runs and arm commands that starts afresh and in which nothing fails dispatches exactly what its commands call for |
| Handoff.Device.Act | workspace/public/src/native-init/a90_auto_handoff.c:422-947 | One step of such a life: the records and the dispatch that it leaves |
| Handoff.Device.RunOnce | workspace/public/src/native-init/a90_auto_handoff.c:768-947 | With the latch or without an enable record nothing happens; dispatches only extend, and after one the latch is the complete dispatched record of that intent, durable, and the enable record is as it was. Without faults: 1 exactly for a latch, 2 exactly without latch and record, EINVAL for a record that is not honoured, EOVERFLOW for a latch that does not fit, and an armed record is dispatched for its intent exactly if the latch fits |
| Handoff.Device.Arm | workspace/public/src/native-init/a90_auto_handoff.c:422-484 | Never replaces an existing record and does nothing once latched; success means that the complete record of this intent is durable and no latch can appear after a power cut; without faults the error tells a latch, an existing record, a bad intent and a record that is too long apart; after a single failure no record is left of it |
| Handoff.Device.ArmReboot | workspace/public/src/native-init/a90_auto_handoff.c:502-544 | Returns only with an error, the arming's or else the cancel's if one failed; when neither did, the record is gone for good, and without faults the cancel does not fail |
| Handoff.Device.CancelEnable | workspace/public/src/native-init/a90_auto_handoff.c:486-500 | Another intent's record is not touched; success means the record is gone for good; the latch is as it was; without faults an armed record of this intent is taken back, and otherwise the error is ESTALE |
| Handoff.Device.ArmThenBoot | workspace/public/src/native-init/a90_auto_handoff.c:422-484 | A successful arm survives the power cut after it: the next boot dispatches exactly for its intent, unless its latch does not fit the buffer |
| Handoff.Device.CreateState | workspace/public/src/native-init/a90_auto_handoff.c:151-184 | A file that was already there is neither written nor removed; success makes content and directory entry durable; the other state file is as it was; after a single failure nothing is left of it |
| Handoff.Device.FillState | workspace/public/src/native-init/a90_auto_handoff.c:163-183 | Content and entry are durable after a success |
| Handoff.Device.WriteAll | workspace/public/src/native-init/a90_auto_handoff.c:163-169 | However writes are split, the file holds a prefix of the content, all of it on success |
| Handoff.Device.ReadEnable | workspace/public/src/native-init/a90_auto_handoff.c:301-377 | 1 only for the complete record of the intent the file was created for, even if a power cut tore it; without faults always for such a record, 0 exactly without one and EINVAL for any other |
| Handoff.Device.StatePath | workspace/public/src/native-init/a90_auto_handoff.c:121-132 | 0 for absent, 1 for present, negative if it cannot be told |
| Handoff.Device.SyncDirectory | workspace/public/src/native-init/a90_auto_handoff.c:134-149 | After a success a power cut can only leave what is seen now |
| EnableRecord.EnableExact | workspace/public/src/native-init/a90_auto_handoff.c:301-377 | A record is honoured for an intent exactly if its text up to the first NUL is the armed record of that intent |
| EnableRecord.KeyPosition | workspace/public/src/native-init/a90_auto_handoff.c:354-359 | The first intent key in an armed record is the one the formatter wrote |
| EnableRecord.IntentField | workspace/public/src/native-init/a90_auto_handoff.c:359-365 | The 64 characters up to the newline after the key are the intent |
| EnableRecord.FormatIsPlain | workspace/public/src/native-init/a90_auto_handoff.c:186-266 | A formatted record has no NUL and a known length |
| EnableRecord.TornRecordNamesItsWriter | workspace/public/src/native-init/a90_auto_handoff.c:301-377 | A torn record is honoured only if it is complete, and then for its writer's intent |
| Evidence.Replay | workspace/public/src/native-init/a90_auto_handoff.c:665-766 | For NUL-free files: the newest 64 marker records among the complete lines that start in the looked-at tail, in file order; for any file: the same of the text up to the first NUL; the count is returned, and ENOENT for a file that cannot be opened |
| Evidence.SkippingKeepsTailLines | workspace/public/src/native-init/a90_auto_handoff.c:719-731 | Skipping to the first line start keeps exactly the complete lines that start in the tail |
| Evidence.ReplayedLines | workspace/public/src/native-init/a90_auto_handoff.c:665-766 | What is split is exactly the lines of the whole file that start in the tail |
| Evidence.LookedAtPlain | workspace/public/src/native-init/a90_auto_handoff.c:686-731 | For NUL-free files the text looked at starts at the first line start of the last 65536 bytes, or is the whole file if that has at most 65537 |
| Evidence.FirstLine | workspace/public/src/native-init/a90_auto_handoff.c:719-731 | Where splitting starts, including the file of exactly 65537 bytes |
| Evidence.ReadTail | workspace/public/src/native-init/a90_auto_handoff.c:695-717 | The buffer holds the file from the start offset on, however reads are split |
| Evidence.SplitLines | workspace/public/src/native-init/a90_auto_handoff.c:732-753 | The ring holds the newest records of all complete lines |
| Evidence.TakeLine | workspace/public/src/native-init/a90_auto_handoff.c:733-752 | One line: terminated in place, its record pushed, earlier records and unread text intact |
| Evidence.TerminateLine | workspace/public/src/native-init/a90_auto_handoff.c:742-746 | The line becomes a C string without its trailing carriage returns, and nothing else changes |
| Evidence.Emit | workspace/public/src/native-init/a90_auto_handoff.c:754-765 | The newest 64 records, oldest first |
| Evidence.RingPushed | workspace/public/src/native-init/a90_auto_handoff.c:747-750 | A push overwrites exactly the oldest of 64 |
| Evidence.RingKept | workspace/public/src/native-init/a90_auto_handoff.c:742-751 | Terminating later lines does not disturb stored records |
| Evidence.LinesAre | workspace/public/src/native-init/a90_auto_handoff.c:732-741 | Splitting loses nothing: the lines with their newlines and an unterminated rest are the text |
| Evidence.LinesAtAre | workspace/public/src/native-init/a90_auto_handoff.c:719-741 | Each line starts where the lines before it end |
| Evidence.StartingFromIs | workspace/public/src/native-init/a90_auto_handoff.c:719-731 | The lines kept are those from the first that starts late enough on |
| Evidence.StrippedIs | workspace/public/src/native-init/a90_auto_handoff.c:742-746 | Exactly the trailing carriage returns are cut off |
| Evidence.RecordIs | workspace/public/src/native-init/a90_auto_handoff.c:747-750 | A record is the text from the first marker on, and there is none exactly without a marker |
| Evidence.RecordsAre | workspace/public/src/native-init/a90_auto_handoff.c:732-753 | The records are those of just the lines that have one, in order |
| Manifest.Verify | workspace/public/src/native-init/a90_audio.c:757-901 | A manifest is marked valid exactly if every line is legible, each slot is given exactly once with its planned type, role, payload flag and good files, the counts, version and profile fit and reading succeeded; then each item is in its slot and the totals depend on the slots only; EIO exactly if only reading failed, EINVAL otherwise |
| Manifest.LastSetting | workspace/public/src/native-init/a90_audio.c:811-839 | Each setting is that of the last line of its kind, or the default |
| Manifest.ItemsAre | workspace/public/src/native-init/a90_audio.c:840-852 | The items are those of just the entry lines, in order |
| Manifest.EntryLinesCounted | workspace/public/src/native-init/a90_audio.c:840-846 | The parsed count is the number of entry lines, legible or not |
| Manifest.EntriesCounted | workspace/public/src/native-init/a90_audio.c:691-699 | The entry totals are the number of filled slots |
| Manifest.PayloadsCounted | workspace/public/src/native-init/a90_audio.c:691-699 | The payload entries are the slots whose item is flagged |
| Manifest.TotalsAreSums | workspace/public/src/native-init/a90_audio.c:691-699 | The byte totals are the sums of the positive sizes |
| Manifest.EntryOrderIrrelevant | workspace/public/src/native-init/a90_audio.c:757-901 | Permuting the entry lines, wherever they stand among the other lines, changes neither acceptance nor the plan nor the totals |
| Manifest.EntriesSetNothing | workspace/public/src/native-init/a90_audio.c:819-839 | Settings and legibility depend on the lines that are not entries only |
| Manifest.AcceptedFills | workspace/public/src/native-init/a90_audio.c:665-690 | An accepted manifest fills every slot, with an item of the planned type, role and flag; entries and payload entries are those of the table |
| Manifest.VerifyEntry | workspace/public/src/native-init/a90_audio.c:623-755 | 0 exactly for an entry as planned, with good files, in a new slot; then exactly its slot, mark and totals change |
| Manifest.TakeEntry | workspace/public/src/native-init/a90_audio.c:840-852 | An error once seen stays; otherwise the entry decides |
| Manifest.VerifyLines | workspace/public/src/native-init/a90_audio.c:811-855 | No error exactly for clean lines (with a known profile); settings follow the last line of each kind |
| Manifest.CleanSnoc | workspace/public/src/native-init/a90_audio.c:811-855 | Which further lines keep a manifest clean |
| Manifest.AllSeen | workspace/public/src/native-init/a90_audio.c:884-889 | True exactly if no slot is missing |
| Manifest.StoredIs | workspace/public/src/native-init/a90_audio.c:588-621 | With distinct sequence numbers every item is found in its slot and nothing else is |
| Manifest.FillSlot | workspace/public/src/native-init/a90_audio.c:691-699 | Filling an empty slot adds its item to the totals, whichever slot it is |
| Manifest.PlanRequests | workspace/public/src/native-init/a90_audio.c:955-1049 | An accepted manifest gives one ION request per entry with a payload, in slot order, and their total length is the manifest's payload byte total; a refused one gives none |
| Manifest.RequestsBySlot | workspace/public/src/native-init/a90_audio.c:955-1049 | The requests of an accepted manifest are one for each slot of the table with a payload, in slot order, with the slot's type and the size that the manifest gives and that was checked |
| Manifest.FlaggedAre | workspace/public/src/native-init/a90_audio.c:955-983 | The allocation plan is the items of just the slots with a payload, in order |
| Manifest.PlanSpeaker | workspace/public/src/native-init/a90_audio.c:295-307 | For the internal speaker: eleven entries and four requests |
| Manifest.BuildAllocation | workspace/public/src/native-init/a90_audio.c:955-983 | The present entries with a payload in slot order, and their total; nothing for an invalid plan |
| Manifest.BuildRequests | workspace/public/src/native-init/a90_audio.c:1016-1049 | The requests for entries with a positive size, and their total length |
| Manifest.RequestedLength | workspace/public/src/native-init/a90_audio.c:1016-1049 | The requests ask for exactly the payload bytes of the allocation plan |
| Manifest.RequestedAll | workspace/public/src/native-init/a90_audio.c:1016-1049 | If every payload has a positive size, each gets its request |
| Manifest.FlaggedTotals | workspace/public/src/native-init/a90_audio.c:955-983 | The allocation plan's bytes and count are the manifest totals' |
| SetCalSession.Execute | workspace/public/src/native-init/a90_audio.c:1649-1659 | For every plan and every pattern of failures: the ioctls are a prefix of the schedule (allocate if payload, then set, in order) that stops at the first failure, then one deallocate with the allocation's packet for each successful allocation and nothing else, last entry first. Every packet is its entry's argument but for the size and handle fields: size 0 to allocate; the payload's length and the allocation's handle to set; without a payload the argument itself, with handle -1 exactly if it has no data and a handle. As long as descriptors fit a C int, the handle names the mapped buffer of the call's own entry. Descriptors and mappings are as before; a second cleanup does nothing. 0 only for a complete run; without faults exactly if every entry is usable; a bad plan is EINVAL and issues nothing |
| SetCal.UndoneInReverse | workspace/public/src/native-init/a90_audio.c:1594-1626 | Deallocations that mirror the allocations are one for each, with its packet, last entry first |
| SetCal.ScheduleInOrder | workspace/public/src/native-init/a90_audio.c:1561-1589 | Step by step: an allocation only for a payload, each setting right after it, entries in order |
| SetCal.ScheduleAscends | workspace/public/src/native-init/a90_audio.c:1561-1589 | A later step is never for an earlier entry |
| SetCalSession.PacketsFit | workspace/public/src/native-init/a90_audio.c:1403-1475 | What the packets of a prepared entry are, field by field |
| SetCalSession.Session.NamesOwn | workspace/public/src/native-init/a90_audio.c:1456-1475 | A packet with the handle of an entry's mapped buffer names that entry |
| SetCalSession.Session.Start | workspace/public/src/native-init/a90_audio.c:1523-1592 | Follows the schedule; what was allocated is what is recorded as pending; nothing is issued without the device open; every packet fits its entry; a bad plan is EINVAL |
| SetCalSession.Session.Cleanup | workspace/public/src/native-init/a90_audio.c:1594-1647 | Deallocates exactly the pending entries in reverse and restores the tables of open descriptors and mappings; on a session already cleaned up it does nothing; an earlier error is returned as it is |
| SetCalSession.Session.NothingLeaks | workspace/public/src/native-init/a90_audio.c:1222-1248 | With every state released and the device closed, open descriptors and mappings are what they were before the session |
| SetCalSession.Session.DeallocateAll | workspace/public/src/native-init/a90_audio.c:1607-1626 | One deallocation per pending entry, last first, and the first failure is reported |
| SetCalSession.Session.DriveAll | workspace/public/src/native-init/a90_audio.c:1561-1591 | The calls follow the schedule and their successful allocations are the pending entries |
| SetCalSession.Session.DriveEntry | workspace/public/src/native-init/a90_audio.c:1562-1588 | One entry's part: at most allocate then set, stopping at a failure, each with the packet its argument calls for |
| SetCalSession.Session.PrepareAll | workspace/public/src/native-init/a90_audio.c:1536-1548 | All entries prepared, or an error with everything taken so far still recorded |
| SetCalSession.Session.PrepareEntry | workspace/public/src/native-init/a90_audio.c:1363-1482 | 0 only for a usable entry, with its packets made from its own argument and descriptor; without faults for every usable entry; other entries untouched; EINVAL for one whose files can be read but are not usable |
| SetCalSession.Session.TakeBuffer | workspace/public/src/native-init/a90_audio.c:1250-1305 | Ion descriptor, buffer and mapping, with what was taken recorded on failure; an ion descriptor is kept exactly if the buffer was opened |
| SetCalSession.Session.ReleaseState | workspace/public/src/native-init/a90_audio.c:1222-1248 | The entry's mapping and descriptors are released, each once |
| SetCalSession.Session.ReleaseAll | workspace/public/src/native-init/a90_audio.c:1630-1635 | The same for all entries |
| SetCalSession.HeaderOnly | workspace/public/src/native-init/a90_audio.c:1412-1424 | Only the handle field may change, and a header without data never carries a stale handle |
| SetCal.Patched | workspace/public/src/native-init/a90_audio.c:1456-1475 | Only the size and handle fields change, and they read back as written |
| SetCal.WriteI32 | workspace/public/src/native-init/a90_audio.c:1084-1101 | A little-endian signed field reads back as written and nothing else changes |
| SetCal.AllocationsConcat | workspace/public/src/native-init/a90_audio.c:1561-1589 | Successful allocations of consecutive runs concatenate |
| SetCal.ScheduleGrows | workspace/public/src/native-init/a90_audio.c:1561-1589 | The schedule of fewer entries is a prefix |
| PlaybackCap.PlayFile | workspace/public/src/native-init/a90_audio.c:2599-2834 | Every sample the device takes is within the peak limit whenever the run had no retries, or the file has no frames to spare beyond the clip; 0 means that every frame of the clip was taken; a cleared file that the device takes without retries is played whole under the gain; nothing is played unless the path was allowed and the geometry valid, and the error of a refused file says why |
| PlaybackCap.CapIsExact | workspace/public/src/native-init/a90_audio.c:2744-2834 | The check before playing keeps every run within the cap, retries or not, exactly for file sizes that leave no room for a chunk beyond the clip, or gains at which nothing can be too loud, or that the check refuses |
| PlaybackCap.RetryFreeBounded | workspace/public/src/native-init/a90_audio.c:2744-2804 | Without retries a cleared file is played within the cap, including the zero-padded tail |
| PlaybackCap.NoSpareBounded | workspace/public/src/native-init/a90_audio.c:2744-2834 | With any retries, the same for files without spare frames |
| PlaybackCap.SpareBreaks | workspace/public/src/native-init/a90_audio.c:2804-2834 | For every size with spare frames there is a cleared file and a single retry that play a sample above the cap |
| PlaybackCap.LoudIsCleared | workspace/public/src/native-init/a90_audio.c:2499-2547 | The file of that counterexample passes the check |
| PlaybackCap.HarmlessBounded | workspace/public/src/native-init/a90_audio.c:2172-2192 | If the gain brings even the loudest sample within the cap, so is everything played |
| PlaybackCap.FetchedWithin | workspace/public/src/native-init/a90_audio.c:2499-2547 | Whatever was scanned, or is silence after it, is within the cap after the gain |
| PlaybackCap.GridReach | workspace/public/src/native-init/a90_audio.c:2744-2748 | As long as nothing beyond the clip was read, a chunk ends within the clip or needs all of the spare frames |
| PlaybackCap.BoundedStep | workspace/public/src/native-init/a90_audio.c:2744-2834 | A run stays within the cap exactly if what the device takes of this chunk does and the rest does |
| PlaybackCap.TakenWithin | workspace/public/src/native-init/a90_audio.c:2194-2223 | Of a chunk within the cap every part that a short write takes is within it |
| Playback.Play | workspace/public/src/native-init/a90_audio.c:2744-2834 | What the device has taken is what the chunk-by-chunk description says, up to a failed read, and 0 means that it completed |
| PlaybackRuns.PlaysClip | workspace/public/src/native-init/a90_audio.c:2744-2834 | An undisturbed run completes and plays the file under the gain, cut off at the clip's end or continued with silence, once and in order, however it is cut into chunks |
| PlaybackRuns.Completed | workspace/public/src/native-init/a90_audio.c:2744-2834 | A run that completes played as many samples as the clip has, and its retry counts are the numbers of such answers, within their bounds |
| PlaybackRuns.FetchedIsSlice | workspace/public/src/native-init/a90_audio.c:2749-2804 | What is read for a chunk within the clip is that part of the clip |
| Playback.NextChunk | workspace/public/src/native-init/a90_audio.c:2749-2804 | The samples are the next part of the file, or silence past its end, under the gain |
| Pcm.OpenValidated | workspace/public/src/native-init/a90_audio.c:2403-2557 | 0 only if the size is allowed and every scanned sample passes the cap; without faults exactly then, EINVAL for a bad size or gain and EPERM for a path not allowed or a file too loud |
| Pcm.PeakLimitGreatest | workspace/public/src/native-init/a90_audio.c:2537-2547 | The limit is the greatest sample that the given thousandths of full scale allow |
| Pcm.CappedExactly | workspace/public/src/native-init/a90_audio.c:2537-2547 | A sample passes the cap exactly if its magnitude times the gain is within a thousand limits |
| Pcm.ScaledIs | workspace/public/src/native-init/a90_audio.c:2172-2192 | A scaled sample: untouched at unity or above, silence without gain, and in between the product over a thousand rounded toward zero |
| Pcm.SampleOfBytes | workspace/public/src/native-init/a90_audio.c:2522-2533 | Little-endian sample bytes read back as the sample |
| Pcm.ScanPeak | workspace/public/src/native-init/a90_audio.c:2505-2535 | The peak is the loudest magnitude of the scanned samples, however reads are split |
| Pcm.LoudestOf | workspace/public/src/native-init/a90_audio.c:2522-2533 | The loudest of a buffer, or the value before |
| Pcm.LoudestDecides | workspace/public/src/native-init/a90_audio.c:2537-2547 | The rounded-up scaled peak is within the limit exactly if every sample's is |
| Pcm.GainBelowPeak | workspace/public/src/native-init/a90_audio.c:2172-2192 | The truncating gain never exceeds the rounded-up scaled peak |
| Pcm.ApplyGain | workspace/public/src/native-init/a90_audio.c:2172-2192 | Every sample of the buffer is scaled by the gain, rounding toward zero; at unity or above nothing changes |
| Pcm.CappedIsWithin | workspace/public/src/native-init/a90_audio.c:2537-2547 | Samples that pass the scan are within the limit after the gain |
| Pcm.Source.ReadExact | workspace/public/src/native-init/a90_audio.c:2303-2327 | Success without a stall means exactly the next bytes of the file |
| Pcm.Source.ReadTail | workspace/public/src/native-init/a90_audio.c:2363-2391 | The rest of the file, then silence |
| Pcm.EvenFrames | workspace/public/src/native-init/a90_audio.c:2511-2515 | Whole frames are an even number of bytes, so the odd-length error cannot occur |
| Crc32.BurstDetected | workspace/public/src/android/s22plus_o0_tty_echo.c:52-62 | Equal-length messages that differ only inside a window of at most four bytes have different checksums, from any starting checksum |
| Crc32.BurstRegisters | workspace/public/src/android/s22plus_o0_tty_echo.c:52-62 | For windows of at most 32 bits: equal registers exactly for equal messages |
| Crc32.ShortBurst | workspace/public/src/android/s22plus_o0_tty_echo.c:54-60 | At most 32 bits leave the empty register empty only if they are all zero |
| Crc32.StepsClear | workspace/public/src/android/s22plus_o0_tty_echo.c:56-59 | No number of shift steps turns a nonzero register into zero or back |
| Crc32.BitRegisterLinear | workspace/public/src/android/s22plus_o0_tty_echo.c:54-60 | The registers of two messages differ by the register of their difference |
| Crc32.RegisterIsBitRegister | workspace/public/src/android/s22plus_o0_tty_echo.c:54-60 | Absorbing bytes is absorbing their bits, low bit first |
| Crc32.UpdateConcat | workspace/public/src/android/s22plus_o0_tty_echo.c:64-67 | Checksumming in two calls is checksumming the concatenation |
| Crc32.RegisterConcat | workspace/public/src/android/s22plus_o0_tty_echo.c:64-67 | The same of the register |
| Crc32.ComputeUpdate | workspace/public/src/android/s22plus_o0_tty_echo.c:52-62 | The two loops compute the checksum function |
| CrcDivision.CrcIsRemainder | workspace/public/src/android/s22plus_o0_tty_echo.c:52-62 | The checksum is the complement of the remainder of dividing the message, its first 32 bits inverted and 32 zeros behind it, by the generator polynomial of section 8 of RFC 1952, and no other word is |
| CrcDivision.MessageWithCrc | workspace/public/src/android/s22plus_o0_tty_echo.c:52-67 | Whatever the message, with its checksum behind it the register ends up as 0xdebb20e3 |
| CrcDivision.RegisterDivides | workspace/public/src/android/s22plus_o0_tty_echo.c:54-60 | The register divides: after a message it holds the remainder |
| CrcDivision.RemainderUnique | workspace/public/src/android/s22plus_o0_tty_echo.c:54-60 | Quotient and remainder are unique |
| CrcDivision.GeneratorIsPolynomial | workspace/public/src/android/s22plus_o0_tty_echo.c:56-59 | The constant of the inner loop is the generator without its leading term |
| Crc32.ComputeSteps | workspace/public/src/android/s22plus_o0_tty_echo.c:55-60 | The inner loop is eight steps |
| Crc32.ComputeFrameCrc | workspace/public/src/android/s22plus_o0_tty_echo.c:64-67 | The two-call frame checksum is that of the first twelve header bytes and the payload |
| WireBursts.BurstsDetected | workspace/public/src/android/s22plus_o0_tty_echo.c:264-280 | For every window of the wire bytes and every payload length: every change inside the window, of every intact request of that length and whatever follows it, is noticed exactly if the window is safe: in the magic, version and kind always; with the low length byte only for the largest payload; with the high length byte never; behind the length field exactly if no difference of the window's covered bytes, followed by zeros, leaves the register clear outside the window's checksum bytes |
| WireBursts.UnsafeMissed | workspace/public/src/android/s22plus_o0_tty_echo.c:264-280 | In an unsafe window, for every sequence number and payload length there is an intact request with a change that leaves an intact request |
| WireBursts.SafeDetected | workspace/public/src/android/s22plus_o0_tty_echo.c:264-280 | In a safe window no change of any intact request leaves an intact one |
| WireBursts.ChangeHidden | workspace/public/src/android/s22plus_o0_tty_echo.c:52-67 | In a window that hides a difference, every intact request of that length, whatever it says, has such a change |
| WireBursts.HiddenChange | workspace/public/src/android/s22plus_o0_tty_echo.c:52-67 | Two different intact requests of one length whose bytes differ only in a window show that it hides one |
| WireBursts.LengthByteMissed | workspace/public/src/android/s22plus_o0_tty_echo.c:264-276 | For every sequence number and payload length an intact request that stays intact when one byte of its length field changes, either of the two; for the low byte all lengths but the largest |
| WireBursts.Ending | workspace/public/src/android/s22plus_o0_tty_echo.c:52-62 | Every message can be given every checksum by four more bytes |
| WireBursts.SafeWindows | workspace/public/src/android/s22plus_o0_tty_echo.c:64-67 | Windows of at most four bytes off the length field are safe before, in and behind the checksum field, and across its edge when there is no payload |
| WireBursts.ChecksumDifference | workspace/public/src/android/s22plus_o0_tty_echo.c:52-62 | How a change of some bytes changes the checksum depends on the difference and the number of bytes behind it only |
| WireBursts.SplitWindow | workspace/public/src/android/s22plus_o0_tty_echo.c:64-67 | A window of the wire bytes is a window of the covered bytes and one of the checksum bytes |
| WireBursts.StoredWindow | workspace/public/src/android/s22plus_o0_tty_echo.c:64-67 | Which stored checksum bytes differ says which bits of the checksums may |
| Straddle.StraddlingUndetected | workspace/public/src/android/s22plus_o0_tty_echo.c:64-67 | A window that is not safe: every intact request with one payload byte has an unnoticed change of two sequence and two checksum bytes |
| Straddle.Residue | workspace/public/src/android/s22plus_o0_tty_echo.c:54-60 | What a difference in those two sequence bytes leaves on an empty register once a byte has followed: its low half only |
| HexWords.StepIs | workspace/public/src/android/s22plus_o0_tty_echo.c:56-59 | A shift step of a word written in hexadecimal, digit by digit |
| Frames.ParseEncoded | workspace/public/src/android/s22plus_o0_tty_echo.c:264-276 | Parsing an encoded request gives it back, whatever follows it |
| Frames.EncodeParsed | workspace/public/src/android/s22plus_o0_tty_echo.c:264-276 | What parsing consumed is the encoding of what it returned |
| Frames.HeaderOfFields | workspace/public/src/android/s22plus_o0_tty_echo.c:264-271 | A header that passes the test is the encoding of its fields |
| Frames.HeaderFields | workspace/public/src/android/s22plus_o0_tty_echo.c:287-291 | The fields of an encoded header read back |
| Frames.CoveredBytes | workspace/public/src/android/s22plus_o0_tty_echo.c:277-280 | The test on arrival decides exactly whether the frame is intact |
| Tty.Line.ReadExact | workspace/public/src/android/s22plus_o3_tty_control.c:97-122 | 1 only with exactly the next bytes, however they were split |
| Tty.Line.WriteAll | workspace/public/src/android/s22plus_o3_tty_control.c:124-149 | A prefix goes out, all of it exactly when 1 is returned |
| Tty.Receive | workspace/public/src/android/s22plus_o3_tty_control.c:356-385 | A complete frame is the next one of the stream and consumed whole, and is a request exactly if it is intact; malformed only for sixteen bytes that are no request header; without faults each outcome exactly for its input: idle without a header, malformed for a bad one, broken without the payload |
| Tty.Respond | workspace/public/src/android/s22plus_o3_tty_control.c:407-416 | Success appends one encoded response with the request's sequence number and a fresh checksum; otherwise the output only grows |
| Tty.ResponseOnWire | workspace/public/src/android/s22plus_o3_tty_control.c:407-411 | The bytes of a response have the response kind, the body's length, the request's sequence number and a checksum field that equals the checksum of their covered bytes |
| WireBursts.ReceiveCorrupted | workspace/public/src/android/s22plus_o3_tty_control.c:356-385 | A changed request is received as a request only if the change is missed, without faults exactly then, and so never in a safe window |
| EchoDaemon.Daemon.Run | workspace/public/src/android/s22plus_o0_tty_echo.c:221-310 | Exit 0 exactly if as many requests were answered as asked for and the counts of malformed frames, corrupt frames and gaps are zero modulo 2^32; the answers stand whole in the output, in order and without overlap; then the sequence numbers are consecutive if every intact frame was answered or there were at most 2^32. The events stand in the input, in order and without overlap, every one that closed the device had an opening of its own, and every failed opening is counted |
| EchoDaemon.Daemon.ExitCode | workspace/public/src/android/s22plus_o0_tty_echo.c:303-310 | The exit code of a log |
| EchoDaemon.Daemon.Note | workspace/public/src/android/s22plus_o0_tty_echo.c:258-280 | A turn that answers nothing adds one to the counter of its kind |
| EchoDaemon.EchoedCounted | workspace/public/src/android/s22plus_o0_tty_echo.c:297 | Handled are the intact requests whose response went out whole |
| EchoDaemon.Daemon.ServeOne | workspace/public/src/android/s22plus_o0_tty_echo.c:248-299 | One turn: at most one event, about the next bytes of the input, and the device stays open exactly unless it closes it; without faults exactly the next event, and a frame is answered exactly if intact and its payload comes back |
| EchoDaemon.Daemon.Answer | workspace/public/src/android/s22plus_o0_tty_echo.c:281-298 | The sequence number is compared, and the request counted as handled exactly if the response went out whole |
| EchoDaemon.Daemon.Track | workspace/public/src/android/s22plus_o0_tty_echo.c:281-285 | The error counter shows the number of gaps |
| DaemonLog.BreaksCountGaps | workspace/public/src/android/s22plus_o0_tty_echo.c:281-285 | No gaps counted exactly if the numbers are consecutive modulo 2^32 |
| DaemonLog.BreaksCounted | workspace/public/src/android/s22plus_o0_tty_echo.c:281-285 | Gaps are counted at the numbers that do not follow the one before |
| DaemonLog.RequestsAre | workspace/public/src/android/s22plus_o3_tty_control.c:382-385 | The requests are the frames of just those events, in order |
| DaemonLog.BadHeadersCounted | workspace/public/src/android/s22plus_o3_tty_control.c:364-370 | Malformed frames are counted once each |
| DaemonLog.BadChecksumsCounted | workspace/public/src/android/s22plus_o3_tty_control.c:376-379 | Corrupt frames are counted once each |
| DaemonLog.ReopensCounted | workspace/public/src/android/s22plus_o3_tty_control.c:341-375 | Reopens are the failed opens, reads and writes |
| DaemonLog.ReceiveNext | workspace/public/src/android/s22plus_o3_tty_control.c:348-385 | What is received is what the input shows next; without faults the next event |
| DaemonLog.OrderlyTurn | workspace/public/src/android/s22plus_o3_tty_control.c:348-441 | A turn keeps the events of a run in the input, in order, with an opening for each that closed the device |
| EchoDaemon.CounterIsExact | workspace/public/src/android/s22plus_o0_tty_echo.c:307-310 | A counter of zero means consecutive numbers exactly for sessions of at most 2^32 intact frames |
| EchoDaemon.SlippingBreaks | workspace/public/src/android/s22plus_o0_tty_echo.c:281-285 | The sequence that defeats the counter: 2^32 gaps and no more |
| ControlDaemon.Daemon.Serve | workspace/public/src/android/s22plus_o3_tty_control.c:348-441 | However the line splits a stream of well-formed frames, each frame is one event of the log, in order, and what goes out is exactly the responses that the log has gained: corrupt frames are skipped without losing alignment |
| ControlDaemon.Daemon.ServeNext | workspace/public/src/android/s22plus_o3_tty_control.c:348-441 | One frame of such a stream |
| ControlDaemon.Daemon.ServeOne | workspace/public/src/android/s22plus_o3_tty_control.c:348-441 | One turn, with any faults: at most one event, about the next bytes of the input, with counters, verdict, recorded counts and complete responses in the output as the log says; the device stays open exactly unless the event closes it; without faults exactly the next event and its response |
| ControlDaemon.Daemon.Answer | workspace/public/src/android/s22plus_o3_tty_control.c:386-441 | The request is counted before it is answered and stays counted if the answer is lost; the log says which; a whole answer has the request's sequence number and the body that its predecessors leave for it |
| ControlDaemon.Daemon.Count | workspace/public/src/android/s22plus_o3_tty_control.c:386-405 | The counters of handled echoes, queries, over-limit requests and sequence gaps, and the body, as functions of the requests so far |
| ControlDaemon.BodyAnswers | workspace/public/src/android/s22plus_o3_tty_control.c:392-405 | The body for request j: for a status query the text that such a query reads as the n-th, n counting the queries before it; for any other payload that payload if fewer than the limit of other payloads came before it, and the notice if not |
| ControlDaemon.EchoesCounted | workspace/public/src/android/s22plus_o3_tty_control.c:396-399 | Echoes are the requests that are no status query |
| ControlDaemon.ExcessCounted | workspace/public/src/android/s22plus_o3_tty_control.c:400-405 | Over-limit requests are the echoes with as many echoes before them as the limit allows |
| ControlDaemon.Daemon.Track | workspace/public/src/android/s22plus_o3_tty_control.c:386-390 | The error counter shows the gaps modulo 2^32 |
| ControlDaemon.Daemon.Note | workspace/public/src/android/s22plus_o3_tty_control.c:364-385 | A turn that sends nothing adds one to the counter of its kind |
| ControlDaemon.Daemon.Judge | workspace/public/src/android/s22plus_o3_tty_control.c:419-441 | The verdict is recorded at the first answer that goes out once the limit is reached, which need not be an echo's, with the counts as they are then |
| ControlDaemon.Daemon.Run | workspace/public/src/android/s22plus_o3_tty_control.c:332-444 | At most one verdict is recorded. It is Pass exactly if the log has a deciding event and each of the three error counts up to it is zero modulo 2^32, Fail exactly if it has one and they are not, and a timeout exactly if the idle time was found to be over, which is looked at once before each opening as long as there is no verdict. The counts recorded with it are those up to the deciding event. The events stand in the input, in order and without overlap, and every one that closed the device had an opening of its own |
| ControlDaemon.DecisionSnoc | workspace/public/src/android/s22plus_o3_tty_control.c:419-441 | The first deciding event stands |
| ControlVerdict.DecisionIsFirst | workspace/public/src/android/s22plus_o3_tty_control.c:419-441 | The decision is the first answer that went out with the echo limit reached, and there is none exactly if no answer did |
| ControlVerdict.HonestyIsExact | workspace/public/src/android/s22plus_o3_tty_control.c:419-441 | Pass means that no frame before it was malformed, corrupt, out of sequence or over the limit exactly for logs of at most 2^32 events |
| ControlVerdict.ShortIsHonest | workspace/public/src/android/s22plus_o3_tty_control.c:419-441 | The half for short logs |
| ControlVerdict.VerdictStays | workspace/public/src/android/s22plus_o3_tty_control.c:419-441 | The input that defeats it, for every limit and every longer log: 2^32 gaps, all answers but one lost, and a pass |
| ControlVerdict.StuckFacts | workspace/public/src/android/s22plus_o3_tty_control.c:386-405 | The counts of that input |
| ControlVerdict.PassWithoutAnswers | workspace/public/src/android/s22plus_o3_tty_control.c:396-441 | For every limit there is a run without a malformed, corrupt, out-of-sequence or over-limit frame that records a pass although every echo's response was lost |
| ControlVerdict.UnheardFacts | workspace/public/src/android/s22plus_o3_tty_control.c:396-416 | The counts of that run |
| ControlVerdict.AnsweredAtVerdict | workspace/public/src/android/s22plus_o3_tty_control.c:396-441 | At the verdict all echoes have been answered exactly if no handled echo's response was lost, and for certain if the device was never reopened |
| ControlVerdict.AnsweredCounted | workspace/public/src/android/s22plus_o3_tty_control.c:396-416 | Answered are the echoes within the limit whose response went out whole |
| ControlVerdict.AnsweredWithReopens | workspace/public/src/android/s22plus_o3_tty_control.c:396-441 | The runs to a verdict with a given number of reopens have all answered every echo exactly if that number is zero |
| ControlVerdict.AnsweredWithCount | workspace/public/src/android/s22plus_o3_tty_control.c:396-441 | A reopen count of zero in the record means that every echo was answered exactly for verdicts within the first 2^32 events, because the count is kept modulo 2^32 |
| ControlVerdict.LossHidden | workspace/public/src/android/s22plus_o3_tty_control.c:396-441 | The runs that show it: for every other number of reopens one that lost an echo |
| ControlVerdict.EchoesAccountedFor | workspace/public/src/android/s22plus_o3_tty_control.c:396-416 | Every handled echo is answered or lost, and every loss reopened the device |
| ControlVerdict.NoneLost | workspace/public/src/android/s22plus_o3_tty_control.c:396-416 | No loss is counted exactly if every handled echo's response went out |
| ControlVerdict.ArrivedReplies | workspace/public/src/android/s22plus_o3_tty_control.c:392-416 | Without faults: one response per intact frame, in order, with its sequence number; its body is, by counting payloads, the request's payload exactly for the first echoes up to the limit, the limit notice for later ones and for the n-th query the n-th status text |
| ControlVerdict.ArrivedVerdict | workspace/public/src/android/s22plus_o3_tty_control.c:382-441 | Without faults: the verdict falls at the echo that reaches the limit, and is Pass exactly if up to it the numbers of corrupt frames and of gaps are zero modulo 2^32; for fewer than 2^32 frames that means none corrupt and consecutive numbers |
| ControlVerdict.ArrivedDecided | workspace/public/src/android/s22plus_o3_tty_control.c:419-441 | Without faults there is a verdict exactly if as many echoes arrived intact as the limit asks for |
| ControlVerdict.ArrivedLog | workspace/public/src/android/s22plus_o3_tty_control.c:382-405 | The log of such a stream in terms of its intact and corrupt frames |
| CmdProto.Decode | workspace/public/src/native-init/a90_cmdproto.c:118-154 | Returns exactly the first token's error, the count error, the empty-command error or the number of arguments; on success the buffer holds the arguments one after the other with their NULs, the slots point at them and a NULL follows; on error there are no arguments |
| CmdProto.RoundTrip | workspace/public/src/native-init/a90_cmdproto.c:63-154 | Encoding and decoding gives the vector back exactly for 1 to 31 arguments without NUL bytes, the first not empty, that fit the buffer |
| CmdProto.SendAndDecode | workspace/public/src/native-init/a90_cmdproto.c:118-154 | The same through the decoder |
| CmdProto.AcceptedAll | workspace/public/src/native-init/a90_cmdproto.c:118-154 | A vector is decoded as `args` exactly if each token encodes its argument and all fit the buffer |
| CmdProto.Accepted | workspace/public/src/native-init/a90_cmdproto.c:63-116 | A token is decoded as `arg` exactly if it is the decimal length, a colon and the hex of `arg`, `arg` has no NUL and there is room |
| CmdProto.RefusedBecause | workspace/public/src/native-init/a90_cmdproto.c:63-116 | Overflow exactly for a leading decimal that no size_t holds, too big exactly for a well-shaped token without room, invalid otherwise |
| CmdProto.FirstRefused | workspace/public/src/native-init/a90_cmdproto.c:133-145 | An error is that of the first token refused in the room the ones before leave |
| CmdProto.HexAlphabet | workspace/public/src/native-init/a90_cmdproto.c:50-61 | A hex digit's value is its place in the alphabet, in either case |
| CmdProto.SliceAt | workspace/public/src/native-init/a90_cmdproto.c:99-115 | Each argument is its own NUL-terminated slice of the buffer and the next follows it |
| CmdProto.SlicesDisjoint | workspace/public/src/native-init/a90_cmdproto.c:99-115 | Slices of different arguments do not overlap |
| CmdProto.ParseToken | workspace/public/src/native-init/a90_cmdproto.c:63-116 | Decodes one token; nothing before its position or past its end changes, and nothing past the buffer |
| CmdProto.ParseLength | workspace/public/src/native-init/a90_cmdproto.c:74-85 | The length never wraps: overflow is reported exactly if the decimal exceeds what a size_t holds |
| CmdProto.FillArg | workspace/public/src/native-init/a90_cmdproto.c:100-113 | The decoded bytes, or a stop at the first pair that is not a nonzero byte |
| CmdProto.DecodeTokens | workspace/public/src/native-init/a90_cmdproto.c:133-145 | Tokens are decoded in order up to the first that is refused |
| CmdProto.FirstErrorStands | workspace/public/src/native-init/a90_cmdproto.c:140-144 | The first refused token decides the result |
| CmdProto.UnhexIs | workspace/public/src/native-init/a90_cmdproto.c:100-113 | Decoding gives `arg` exactly if the hex spells it and it has no zero byte |
| CmdProto.EncodeReads | workspace/public/src/native-init/a90_cmdproto.c:63-116 | The sender's token for an argument encodes that argument and no other |
| CmdProto.DecimalTextReads | workspace/public/src/native-init/a90_cmdproto.c:74-85 | The sender's decimal length reads back |
| CmdProto.HexTextReads | workspace/public/src/native-init/a90_cmdproto.c:100-113 | The sender's hex reads back |

## Left out

- SHA-256, its hex text and the digest syntax checks: an arbitrary function and accepted flags stand for them.
- Console output, usage text, tokens and path checks of the commands: flags that say whether they passed.
- Resolving and creating device nodes and confirming a descriptor's identity: steps that may fail.
- F0, the plan-only command: it is the read-only part of F1.
- Page cache, O_DIRECT and torn sectors: a write stores a prefix of its buffer, or anything on an unfaithful device.
- Signals, clocks, poll and termios of the daemons: reads and writes may time out or fail at any point, and `turns` bounds the loops.
- EchoDaemon.Daemon.Run: consecutive numbers are claimed for at most 2^32 intact frames, because the counters are 32 bits wide and the claim is false beyond that (`CounterIsExact`).
- WireBursts.BurstsDetected: the payload lengths at which a window across an edge of the checksum field hides a difference are given by a condition on the register (`Hides`), not listed.
- Handoff.Device.Lifetime: assumes that nothing else deletes the latch.
- Publishing the evidence run, the status command and the qualification of the root file system: they only read, or are steps that may fail.
- Evidence.Replay: text after the first NUL is not looked at, as in the source.
- Manifest.Verify: lines are given already classified, so sscanf, field truncation and the 1023-byte line limit are not modelled; file checks are functions of the entry's path, size and digest.
- Integer widths of the manifest totals: sums of file sizes are unbounded.
- SetCalSession.Session.PrepareEntry: reading the argument and payload files is one step with their content as parameter; memory for packets is not modelled.
- The tone generator, PCM streams from a pipe, drain and the play worker: playback of files only.
- PlaybackCap.PlayFile: says nothing about runs in which a read of the file reported that it would block.
- Route tables, apply and reset, and the composition of the playback stages: the control values are opaque to this code and every selection is settled by one comparison of names.
- CmdProto.Decode: a missing result structure, which the source refuses first, is not modelled.
- The command controller, shell, menus and all drawing.
