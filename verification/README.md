# A verified model of VeraCrypt's EFI loader cores

VeraCrypt's EFI loader (DCS) and its Windows counterpart move a system between a plaintext and an encrypted state
without ever being allowed to lose it: they rewrite a disk in place, edit partition tables and boot files, and stand
between the firmware and the disk while Windows starts. This project models the parts of that work that are pure state,
loops and arithmetic, in the form the code has them, and proves what the code promises about them: methods, classes and
loops for code that works by changing things, with a specification function beside each and lemmas about those functions.

| file | about |
|---|---|
| `Bytes.dfy` | machine integers and fixed-width encodings |
| `Volume.dfy` | sectors, the per-sector cipher, the volume header sector |
| `RangeSpec.dfy`, `Recovery.dfy` | passes and runs of the in-place transformation as values; the recovery branch |
| `Devices.dfy` | the failing disk, the user who answers, and transfers that are tried again |
| `RangeCrypt.dfy`, `VolumeSessions.dfy` | the `RangeCrypt` loop over a failing disk, and any number of sessions that start from the header |
| `TableLayout.dfy`, `TableSpec.dfy`, `Tables.dfy` | when a container of EFI tables is sound, in bytes; its in-place edits, and the finite map it stands for |
| `GptSpec.dfy`, `GptGaps.dfy`, `Gpt.dfy` | GPT entry arrays: squeezing and when it keeps every partition, sorting, hiding, synchronising |
| `DeListSpec.dfy`, `ListLayout.dfy`, `DeList.dfy` | the saved disk-entry list: layout, the file and its checks in bytes, writer, parser, round trip |
| `Loader.dfy` | keeping a Microsoft loader on the EFI system partition over installs, upgrades, rescues and restores |
| `BlockHook.dfy`, `ZoneScan.dfy` | the hooked block device with its overlay; the search of the security region |
| `Line.dfy`, `Bitmap.dfy` | Bresenham lines and the streaming bitmap decoder |
| `MultiString.dfy`, `Apdu.dfy`, `Drbg.dfy`, `Tpm12.dfy` | string lists, command APDUs, HMAC_DRBG, TPM 1.2 commands |

The foundations are parameters: the data cipher is a pair of functions per sector number with E∘D = D∘E = id, the header
cipher likewise on 448 bytes; CRC-32, HMAC-SHA512 and the opening of a volume header by a password are arbitrary
functions. The disk is a sequence of 512-byte sectors whose transfers fail as a given list says; the user is a list of
answers; the EFI system partition is a map from paths to contents.

Where the code and its comments or intentions disagree, the model follows the code and a lemma says exactly when the
intention is met:

- A decrypting pass whose read failed and was retried with half the size leaves its position where it was
  (EFI/DcsCfg/DcsCfgCrypt.c:482). `RangeSpec.DecryptRunExact` says that the plaintext is restored if and only if no read
  was shrunken; `RangeSpec.ShrunkenReadDamages` is a concrete run.
- `CRYPT_BUF_SECTORS` is a macro without parentheses (line 407). Standing alone it is 102400, but
  `size % CRYPT_BUF_SECTORS` (line 623) is `size % 50 * 2048`. The recovery is proved for every remainder
  (`Recovery.RecoveryExact`); `Recovery.CompiledRecoveryMisses` says that the compiled one never recovers a damaged
  volume.
- The status `RangeCrypt` ends with is that of its last poll of the keyboard, so a run that finishes without a key press
  reports `EFI_NOT_READY`: `RangeCrypt.SuccessExactly`.
- `GptSqueze` copies the whole tail over a gap and then clears entry i (EFI/Library/DcsCfgLib/GptEdit.c:530-531), which
  can drop or double entries: `GptGaps.ClosingExactly` says exactly when for one closing, `GptGaps.OneGapExactly` for a
  table with one gap, `GptGaps.SqueezeKeepsExactly` for one with room behind, and `GptGaps.SafeGapsKeep` gives a
  condition that is enough for every table (`Gpt.DoublingUndone`: not always needed). `Gpt.HidingDrops` and
  `Gpt.SqueezeDoubles` are tables for which it goes wrong.
- The overlay indexes its source from the start of the request (EFI/DcsInt/DcsInt.c:229): `BlockHook.HomeExactly`,
  `BlockHook.OverlayShifts`.
- The results of renames are not looked at during an installation (EFI/src/Common/BootEncryption.cpp:3382, 3402, 3428):
  `Loader.EfiBoot.InstallBootLoader` states the exact condition, `Loader.UnnoticedRename` a run. Some checks for a
  Microsoft loader do not look at the size (lines 3425, 4468 and 4563), and DcsBoot.efi itself holds the string they
  search for (EFI/DcsBoot/DcsBoot.c:32): `Loader.EfiBoot.RestoreSystemLoader`, `Loader.ImpostorReplacesLoader`.
- `CommandAPDU::parse` runs from its label `success` on into `clear()` (EFI/src/Common/CommandAPDU.cpp:112-116):
  `Apdu.CommandAPDU.Parse` gives the fields on reaching `success` in a ghost result, and says that the object is empty
  afterwards.
- After a transmission the TPM code hashes bytes 2 to 5 of the command and calls them the ordinal, which is at bytes 6 to
  9 (EFI/Library/DcsTpmLib/Tpm12.c:401): `Tpm12.HashedIsOrdinalExactly`.
- The line size of a bitmap is computed in 32 bits (EFI/Library/GraphLib/EfiGraph.c:534), and the checks compare the
  file with that: `Bitmap.WalkInsideExactly` says when the loop stays in the file, `Bitmap.WrappedFilePasses` gives 58
  bytes over which it does not.
- `CommandAPDU::init` resizes and does not write every byte (EFI/src/Common/CommandAPDU.cpp:179-182 and 230-241):
  `Apdu.CommandAPDU.Init` says for which objects the result is the layout; an empty one, as in the constructors, is one.

## Model

| member | source | states |
|---|---|---|
| RangeCrypt.RangeCrypt | EFI/DcsCfg/DcsCfgCrypt.c:408-735 | the whole routine, for every disk, every pattern of failing transfers and every user: the final disk, loop variables and header are those of the passes made, the sizes read are the full windows halved once per failed read, the prompts are the first ones of the user and all answered with retry but possibly the last; it ends with a device error if and only if that last answer gives up; a user who retries as often as transfers fail has every pass made while the windows stay in range; with nothing left to decrypt, which repair is made, the disk it leaves and its status |
| RangeCrypt.Passes | EFI/DcsCfg/DcsCfgCrypt.c:460-577 | the loop: after every pass the disk is the run of the passes so far except for the header sector, the header carries the boundary last recorded, `remains` strictly decreases, faults, answers and keys are used up in order, and the status is that of the last poll, or a device error after a prompt answered with abort |
| RangeCrypt.SuccessExactly | EFI/DcsCfg/DcsCfgCrypt.c:563-577 | a run that has made a pass reports success if and only if it finished and another key was pressed at its last poll; one that finishes without a key reports that it is not ready |
| RangeCrypt.BetweenIsSplit | EFI/DcsCfg/DcsCfgCrypt.c:460-577 | what the loop invariant means: the range is encrypted below one boundary and plaintext above it, all other sectors but the header are untouched, and the header decodes with a valid CRC to the recorded boundary |
| RangeCrypt.OnePass | EFI/DcsCfg/DcsCfgCrypt.c:460-532 | one trip through the loop keeps the invariant; it can fail only through a fault or an abort, and then changes nothing |
| RangeCrypt.TransferChunk | EFI/DcsCfg/DcsCfgCrypt.c:464-524 | read with halving retries, encrypt or decrypt, write with retries: how many reads and writes failed, each answered with retry, that it gives up only at an answer to abort, that the size is the full one halved once per failed read, and that all of the buffer lands on the disk, transformed, or nothing does |
| Devices.ChunkExactly | EFI/DcsCfg/DcsCfgCrypt.c:464-524 | if j reads fail and then m writes, and the user answers retry each time, the window is read with its size halved j times and written at the next try |
| Devices.HalvedExactly | EFI/DcsCfg/DcsCfgCrypt.c:476-486 | j failures leave the full size divided by two to the j, and at least one sector |
| Devices.TriedExactly | EFI/DcsCfg/DcsCfgCrypt.c:503-524 | a transfer with m failures and as many answers to retry succeeds at the next try |
| Devices.PatientTries | EFI/DcsCfg/DcsCfgCrypt.c:464-524 | a user who retries as often as transfers fail has every transfer that lies on the disk made, and stays patient for the rest |
| RangeCrypt.UpdateHeader | EFI/DcsCfg/DcsCfgCrypt.c:534-561 | the header sector is decrypted, checked, edited, re-encrypted and written, or left as it was; without faults it succeeds exactly when the magic is there |
| RangeCrypt.RecordBoundary | EFI/DcsCfg/DcsCfgCrypt.c:534-561 | recording stores the boundary that goes with the sectors still to be done |
| RangeCrypt.NextPass | EFI/DcsCfg/DcsCfgCrypt.c:464-532 | one transfer takes a state satisfying the invariant to the next one, also when the window would leave the range |
| RangeCrypt.MoveAgrees | EFI/DcsCfg/DcsCfgCrypt.c:534-561 | a pass does not depend on the header sector, so updating it between passes changes no other sector |
| RangeCrypt.RepairDecrypted | EFI/DcsCfg/DcsCfgCrypt.c:580-706 | which of the repairs is made, under which condition, the exact disk it leaves, and the status; for a user who retries every failure exactly `FaultlessRepair` |
| RangeCrypt.UndoFaultyDecryption | EFI/DcsCfg/DcsCfgCrypt.c:623-700 | the recovery writes back exactly the two corrected parts, or only the lower one, or nothing; it writes only if the result looks like NTFS or the user insists |
| RangeCrypt.RepairRestores | EFI/DcsCfg/DcsCfgCrypt.c:594-622 | an NTFS boot sector that was decrypted once too often is rewritten: the disk is the original one again |
| RangeCrypt.RepairUndoesFault | EFI/DcsCfg/DcsCfgCrypt.c:623-700 | after a fault with the compiled remainder, and the user's consent, the repair gives the original disk back |
| Volume.StampedDecodes | EFI/DcsCfg/DcsCfgCrypt.c:534-561 | a header update is readable afterwards: magic and CRC valid, the length exactly the new one, every other byte as before |
| Volume.StampedBytes | EFI/DcsCfg/DcsCfgCrypt.c:534-561 | a header update in bytes: the salt as it was; decrypted, the magic at 64, the length big-endian at 116, the CRC of bytes 64 to 252 at 252, all else as it was |
| Volume.StampedTwice | EFI/DcsCfg/DcsCfgCrypt.c:534-561 | of several updates only the last shows |
| RangeSpec.EncryptMoves | EFI/DcsCfg/DcsCfgCrypt.c:444-532 | encrypting moves the boundary up by whatever was read, shrunken or not |
| RangeSpec.DecryptMoves | EFI/DcsCfg/DcsCfgCrypt.c:444-532 | decrypting a full window moves the boundary down by it |
| RangeSpec.DecryptPassExact | EFI/DcsCfg/DcsCfgCrypt.c:464-532 | a decrypting pass lands on the next boundary if and only if its read was not shrunken |
| RangeSpec.FirstSectorExact | EFI/DcsCfg/DcsCfgCrypt.c:488-500 | the last pass restores a range if and only if its encrypted first sector does not look like NTFS |
| RangeSpec.EncryptRun | EFI/DcsCfg/DcsCfgCrypt.c:444-532 | every encrypting run leaves the range split at the boundary it reached |
| RangeSpec.DecryptRun | EFI/DcsCfg/DcsCfgCrypt.c:444-532 | every decrypting run of full windows leaves the range split at the boundary it reached |
| RangeSpec.DecryptRunExact | EFI/DcsCfg/DcsCfgCrypt.c:464-532 | a decrypting run that ends with nothing remaining has restored the plaintext if and only if no read was shrunken |
| RangeSpec.ShrunkenReadDamages | EFI/DcsCfg/DcsCfgCrypt.c:476-486 | a concrete run with one failing read that ends as if complete, with a sector outside the range damaged and one inside still encrypted |
| RangeSpec.ShrunkenReadCorrupts | EFI/DcsCfg/DcsCfgCrypt.c:476-486 | such a run exists for every plaintext, with a concrete cipher |
| RangeSpec.CursorAfter | EFI/DcsCfg/DcsCfgCrypt.c:444-451 | the loop variables after any run are those a fresh start from the new boundary computes |
| RangeSpec.ResumeIsContinuation | EFI/DcsCfg/DcsCfgCrypt.c:444-561 | stopping between two passes and starting again from the stored length is the uninterrupted run |
| RangeSpec.SessionsKeepSplit | EFI/DcsCfg/DcsCfgCrypt.c:779-784 | over every sequence of encrypting and decrypting sessions as values the disk is the picture of the length that goes with the sizes moved |
| RangeSpec.SessionsRestore | EFI/DcsCfg/DcsCfgCrypt.c:828-834 | whenever that length is back to zero, the original disk is back |
| RangeSpec.RepairedRun | EFI/DcsCfg/DcsCfgCrypt.c:488-500 | decrypting also succeeds when the encrypted first sector had been overwritten with a plaintext NTFS boot sector |
| VolumeSessions.SessionContinues | EFI/DcsCfg/DcsCfgCrypt.c:737-849 | after a recorded session the header, read again, asks the next one to go on from exactly where this one stopped |
| VolumeSessions.HeaderAsks | EFI/DcsCfg/DcsCfgCrypt.c:737-849 | an invocation takes size, start and encrypted length from bytes 100, 108 and 116 of the opened header, big-endian, in bytes |
| VolumeSessions.Session | EFI/DcsCfg/DcsCfgCrypt.c:737-926 | one invocation from the header on the disk, in either direction, for every fault and user: the length it ends with, within the size, and that disk and header are in step with it unless a read shrank while decrypting, the last header update failed, or a repair was agreed to |
| VolumeSessions.Sessions | EFI/DcsCfg/DcsCfgCrypt.c:737-926 | any sequence of invocations in either direction, each started from the header the last one left, with any faults and answers: while each leaves its header in step, the disk is split at the length in the header, and at length zero it is the original one off the header |
| Recovery.RemainderExact | EFI/DcsCfg/DcsCfgCrypt.c:407-407 | the unparenthesised macro makes `size % CRYPT_BUF_SECTORS` the remainder exactly when that is zero |
| Recovery.RecoveryExact | EFI/DcsCfg/DcsCfgCrypt.c:623-700 | recovery with remainder r undoes a fault made with remainder t on the whole disk if and only if r equals t, overlapping windows included |
| Recovery.RecoveryInverts | EFI/DcsCfg/DcsCfgCrypt.c:623-700 | for any remainder the recovery is the exact inverse of the faulty decryption |
| Recovery.CompiledRecoveryMisses | EFI/DcsCfg/DcsCfgCrypt.c:623-630 | with the remainder as compiled, no volume that the faulty decryption damaged is recovered, whether the branch runs or is skipped |
| Tables.GptHeaderCheckCrcAltSize | EFI/Library/CommonLib/GptRead.c:33-66 | the header check clears the CRC field, takes the CRC and puts the field back: the buffer is unchanged and the verdict exact |
| Tables.WalkTables | EFI/Library/CommonLib/GptRead.c:227-236 | the walk over the records, with every unreadable, broken or matching record accounted for |
| Tables.TablesVerify | EFI/Library/CommonLib/GptRead.c:218-240 | accepts exactly the sound containers: signature, the CRC at 16 over the bytes counted at 12 with the CRC zeroed, and the same for every record of the chain of sizes from 24 on |
| TableLayout.AlteredRefused | EFI/Library/CommonLib/GptRead.c:33-66 | a sound container with one byte altered is refused unless the CRC of the altered bytes is the one stored; with its signature or checksum altered always |
| Tables.AcceptedExactly | EFI/Library/CommonLib/GptRead.c:218-240 | the code's tests come to exactly that, for all bytes |
| Tables.AlteredContainer | EFI/Library/CommonLib/GptRead.c:218-240 | every saved container is sound, and refused after an alteration that the CRC can tell |
| Tables.TablesGetData | EFI/Library/CommonLib/GptRead.c:242-272 | finds exactly the first record with the signature of a sound container; outer header and record found hold their own CRCs, in bytes |
| Tables.TablesDelete | EFI/Library/CommonLib/GptRead.c:274-318 | removes the first record with the signature by the byte-wise shift and reseals the rest; otherwise changes nothing |
| Tables.ShiftDown | EFI/Library/CommonLib/GptRead.c:303-308 | the byte loop moves the rest of the buffer down even though source and target overlap |
| Tables.TablesAppend | EFI/Library/CommonLib/GptRead.c:321-364 | a longer buffer with the sealed record behind the old ones and the container resealed; refuses what is not a container |
| TableSpec.WalkSearches | EFI/Library/CommonLib/GptRead.c:225-268 | walking over the bytes of a list of records is searching the list |
| TableSpec.CutOut | EFI/Library/CommonLib/GptRead.c:299-316 | cutting a record out of a container's bytes and resealing gives the container of the other records |
| TableSpec.PutBehind | EFI/Library/CommonLib/GptRead.c:336-360 | adding a sealed record behind a container and resealing gives the longer container |
| Tables.ContainerIsMap | EFI/Library/CommonLib/GptRead.c:218-272 | every container is accepted, and lookups in it are those of a finite map |
| Tables.DeleteOnContainer | EFI/Library/CommonLib/GptRead.c:274-318 | deletion acts exactly when the signature is in the map |
| Tables.DeleteLeaves | EFI/Library/CommonLib/GptRead.c:299-316 | and leaves the container of the other records, whose map lacks exactly that signature |
| Tables.AppendOnContainer | EFI/Library/CommonLib/GptRead.c:321-364 | appending inserts into the map and leaves all other bindings alone |
| Tables.TablesLoad | EFI/Library/DcsCfgLib/GptEdit.c:791-819 | any file: its bytes, and whether the verification accepts them, or a new empty container |
| Tables.TablesFile.TablesNew | EFI/Library/DcsCfgLib/GptEdit.c:865-898 | an update of the map; saved if and only if the signature is good, the data file is there and the container stays below 4 GiB, counted from the map |
| Tables.TablesFile.TablesDel | EFI/Library/DcsCfgLib/GptEdit.c:900-928 | removal from the map, saved exactly when the signature was there |
| Tables.TablesFile.Edit | EFI/Library/DcsCfgLib/GptEdit.c:865-928 | every sequence of edits: the file stays acceptable and stands for the map the edits build, and each edit was saved if and only if it acts on the map before it |
| Gpt.GptSqueze | EFI/Library/DcsCfgLib/GptEdit.c:516-537 | the in-place loop ends although its index moves backwards, and computes `Squeeze` |
| GptSpec.SqueezePacks | EFI/Library/DcsCfgLib/GptEdit.c:516-537 | the result is a used prefix followed by zeros, and every entry comes from the input |
| GptGaps.ClosingExactly | EFI/Library/DcsCfgLib/GptEdit.c:526-533 | closing any one gap of a table of distinct entries, whatever room is behind, keeps every partition exactly once if and only if the entry a gap's length behind the first one is among those left behind, and no other is |
| GptGaps.OneGapExactly | EFI/Library/DcsCfgLib/GptEdit.c:516-537 | a table of distinct entries with one gap, whatever room is behind, is squeezed right if and only if the part behind the gap fits: a closed condition on the lengths |
| GptGaps.SafeGapsKeep | EFI/Library/DcsCfgLib/GptEdit.c:516-537 | every table all of whose gaps are safe, with or without room and with or without equal entries, is squeezed right |
| GptGaps.SafeIsHarmless | EFI/Library/DcsCfgLib/GptEdit.c:523-533 | with room behind, a gap is safe if and only if it is harmless |
| GptGaps.SqueezeKeepsExactly | EFI/Library/DcsCfgLib/GptEdit.c:523-533 | for distinct entries with room behind, all partitions are kept, in order, if every gap is harmless, and one is lost for good if one gap is not |
| Gpt.BubblePass | EFI/Library/DcsCfgLib/GptEdit.c:559-567 | one pass brings the largest entry up and rearranges the others stably; no exchange means sorted |
| Gpt.GptSort | EFI/Library/DcsCfgLib/GptEdit.c:539-569 | sorts the used prefix by StartingLBA as a stable permutation and leaves the rest alone |
| Gpt.SwapStable | EFI/Library/DcsCfgLib/GptEdit.c:560-565 | an exchange of neighbours out of order keeps the order of entries with equal keys |
| Gpt.OverlapIsShared | EFI/Library/DcsCfgLib/GptEdit.c:571-574 | the overlap test holds exactly when some sector belongs to both regions |
| Gpt.HitIsShared | EFI/Library/DcsCfgLib/GptEdit.c:585-587 | the loop's test finds exactly the partitions with a sector in the range |
| Gpt.HiddenIsInSectors | EFI/Library/DcsCfgLib/GptEdit.c:577-597 | what the loop leaves, entry by entry, in sectors alone |
| Gpt.HiddenRemains | EFI/Library/DcsCfgLib/GptEdit.c:577-597 | after the loop exactly the partitions without a sector in the range are there, and the hiding one if there was one with |
| Gpt.Gpt.HideOverlaps | EFI/Library/DcsCfgLib/GptEdit.c:577-597 | the first partition that shares a sector with the range becomes the hiding one, later ones are cleared, all others stay |
| Gpt.Gpt.GptUpdateCRC | EFI/Library/CommonLib/GptRead.c:109-133 | both checksums are made to pass; fails exactly for an empty array or header |
| Gpt.Gpt.GptSyncMainAlt | EFI/Library/DcsCfgLib/GptEdit.c:497-514 | both copies equal and checked |
| Gpt.Gpt.GptHideParts | EFI/Library/DcsCfgLib/GptEdit.c:576-605 | a packed table sorted by StartingLBA, every entry from the input or the hiding one; no other partition has a sector in the range; where the gaps are safe, every partition of the old table without a sector in the range is there; both copies equal with valid CRCs, crypto header cleared |
| Gpt.HiddenResult | EFI/Library/DcsCfgLib/GptEdit.c:576-605 | the properties of that result, for every table and range, in sectors |
| Gpt.HidingKeepsExactly | EFI/Library/DcsCfgLib/GptEdit.c:576-605 | where there is room behind the gaps, every partition of the old table without a sector in the range, and the hiding one, survives if and only if the gaps that hiding makes are harmless |
| Gpt.HidingKeeps | EFI/Library/DcsCfgLib/GptEdit.c:576-605 | for any table and range, every partition of the old table without a sector in the range, and the hiding one, survives if the gaps that hiding makes are safe |
| Gpt.HidingDrops | EFI/Library/DcsCfgLib/GptEdit.c:530-531 | a concrete table from which hiding two neighbours drops an unrelated partition |
| Gpt.SqueezeDoubles | EFI/Library/DcsCfgLib/GptEdit.c:530-531 | a concrete table in which a gap longer than the unused tail leaves an entry twice |
| Gpt.DoublingUndone | EFI/Library/DcsCfgLib/GptEdit.c:530-531 | any four partitions in a table with two gaps, one of them not safe, that is squeezed right all the same: the second closing clears what the first one doubled |
| DeList.DeListSaveToFile | EFI/Library/DcsCfgLib/GptEdit.c:198-312 | writes exactly the file `SavedFile`, which is right byte for byte |
| ListLayout.FileSavedRight | EFI/Library/DcsCfgLib/GptEdit.c:198-312 | the file in bytes: the crypto header, at 512 the signature DCSDELST, 512, the CRC of that sector with the CRC zeroed, 10 and the file's length; at 544 and every 32 bytes on, type, place, start on the disk and length of each part, which lies at that place; zeros where there is none |
| DeList.ListWriter.Update | EFI/Library/DcsCfgLib/GptEdit.c:189-206 | each step records type, place, start and length of one part and advances the offset by the padded length |
| DeList.DeListParseSaved | EFI/Library/DcsCfgLib/GptEdit.c:335-423 | accepts exactly the buffers that may be trusted, told in bytes, loads their contents and leaves the buffer as it was |
| DeList.AcceptsExactly | EFI/Library/DcsCfgLib/GptEdit.c:335-423 | the parser's tests come to exactly that: length of the random block, signature and CRC of the password cache, signature, CRC, entry size and recorded place of both GPT headers, the CRC of each array, and equal arrays |
| ListLayout.GoodExactly | EFI/Library/DcsCfgLib/GptEdit.c:335-423 | and for parts saved together, to these checks on the parts |
| DeList.CheckPwdCache | EFI/Library/DcsCfgLib/GptEdit.c:357-374 | the password cache's CRC field is cleared for the check and restored only on success |
| DeList.CheckHeader | EFI/Library/DcsCfgLib/GptEdit.c:376-386 | a GPT header is checked inside the buffer and against the recorded place |
| DeList.SavedThenParsed | EFI/Library/DcsCfgLib/GptEdit.c:198-423 | parsing a saved list gives every component back, and succeeds if and only if the components are good |
| DeList.SaveAndParse | EFI/Library/DcsCfgLib/GptEdit.c:198-423 | the two routines one after the other: success if and only if the parts pass those checks, and then every part comes back |
| DeList.NoHeaderMisplacesList | EFI/Library/DcsCfgLib/GptEdit.c:236-241 | without a crypto header the parser takes the list for the crypto header, and the pieces of the main GPT header for the entries of the list |
| DeListSpec.PlacesDisjoint | EFI/Library/DcsCfgLib/GptEdit.c:189-206 | recorded places are sector-aligned, lie in the file and do not overlap |
| DeListSpec.DataSizeIsSum | EFI/Library/DcsCfgLib/GptEdit.c:267-267 | DataSize is the sum of the padded lengths and the length of the file |
| DeListSpec.PartLies | EFI/Library/DcsCfgLib/GptEdit.c:285-305 | every part lies in the file at its recorded offset, padded with zeros |
| DeListSpec.ItemRoundTrip | EFI/src/Boot/Windows/BootCommon.h:112-150 | a list entry survives its 32-byte form |
| DeListSpec.ListBlockEntry | EFI/src/Boot/Windows/BootCommon.h:165-181 | entry i of the list is found at its place in the 512-byte block |
| Loader.BufferHasPattern | EFI/src/Common/Dlgcode.c:14191-14208 | decides whether the pattern occurs |
| Loader.MicrosoftExactly | EFI/src/Common/BootEncryption.cpp:3371-3378 | a Microsoft loader, for the code, is a file of more than 32 KiB with bootmgfw.pdb in it |
| Loader.EfiBoot.BackupSystemLoader | EFI/src/Common/BootEncryption.cpp:4419-4489 | keeps the invariant after every file operation; when it succeeds, a Microsoft loader is kept |
| Loader.EfiBoot.KeepLoader | EFI/src/Common/BootEncryption.cpp:3357-3437 | puts a Microsoft loader away before ours takes its place; exactly what is moved |
| Loader.EfiBoot.TakeOver | EFI/src/Common/BootEncryption.cpp:3439-3466 | after setup of Windows, ours replaces a Microsoft loader that has been put away |
| Loader.EfiBoot.ReplaceStandard | EFI/src/Common/BootEncryption.cpp:3482-3502 | the standard loader is backed up if Microsoft's, replaced if Microsoft's or ours, else left alone |
| Loader.EfiBoot.InstallBootLoader | EFI/src/Common/BootEncryption.cpp:3279-3530 | keeps the invariant in every state if the loader is kept already or can be put away; at a successful end if and only if that is so, or a Microsoft loader stands in the place that the setup of Windows lets ours take over from; at a successful end DcsBoot.efi, DcsInt.dcs, DcsCfg.dcs, LegacySpeaker.dcs and DcsInfo.dcs hold their images and ours is in bootmgfw.efi, except where it takes over after setup of Windows |
| Loader.EfiBoot.RestoreSystemLoader | EFI/src/Common/BootEncryption.cpp:4517-4588 | keeps the invariant exactly unless no loader is kept and the configured file is small but carries the Microsoft string; gives the kept loaders back; when it succeeds, none of our files is left that could be deleted |
| Loader.EfiBoot.Install | EFI/src/Common/BootEncryption.cpp:5548-5577 | a successful installation leaves all modules in place; one that fails is undone without losing the loader |
| Loader.EfiBoot.ActionRestoreDcsLoader | EFI/DcsRe/DcsRe.c:187-260 | the rescue keeps the invariant exactly unless no loader is kept and bootmgfw.efi cannot be read; when it succeeds, the five binaries are those of the rescue disk, and ours is in bootmgfw.efi and in the standard place where it belongs |
| Loader.EfiBoot.ActionWindowsBoot | EFI/DcsRe/DcsRe.c:128-171 | starts a Microsoft loader and changes nothing while the invariant holds |
| Loader.EfiBoot.ExecMSWindowsLoader | EFI/DcsBoot/DcsBoot.c:62-93 | finds a loader exactly when one is kept or bootmgfw.efi is one; under the invariant always a Microsoft loader |
| Loader.Run | EFI/src/Common/BootEncryption.cpp:3279-3530 | over every sequence of preparation, installation, upgrade, restoration (of any configured file), Windows updates and rescue actions, with operations failing and files stuck or unreadable at any point: for as long as each step meets its own exact condition every intermediate state keeps the invariant and each step does what it says; the run stops before a step that does not; the machine then starts a Microsoft loader if one is kept or bootmgfw.efi can be read |
| Loader.InstallThenRestore | EFI/src/Common/BootEncryption.cpp:4517-4588 | backup, installation and restoration give the original Windows and standard loaders back |
| Loader.UnnoticedRename | EFI/src/Common/BootEncryption.cpp:3399-3402 | an upgrade whose rename fails unnoticed loses the only Microsoft loader |
| Loader.ImpostorReplacesLoader | EFI/src/Common/BootEncryption.cpp:4561-4566 | a restoration pointed at DcsBoot.efi by mistake passes the check that does not look at the size and replaces the only Microsoft loader |
| BlockHook.GetIntersection | EFI/DcsInt/DcsInt.c:196-206 | for a request that is not empty and does not wrap, the exact intersection, no longer than the request |
| BlockHook.UpdateDataBuffer | EFI/DcsInt/DcsInt.c:208-237 | the overlay loop computes `Applied` |
| BlockHook.OverlaidByte | EFI/DcsInt/DcsInt.c:216-235 | exactly the bytes that some entry covers are replaced, each from the last such entry |
| BlockHook.HomeExactly | EFI/DcsInt/DcsInt.c:229-229 | a replaced byte comes from as far beside its saved place as the request starts beside the entry; it is the right one whatever was saved if and only if the two starts are equal |
| BlockHook.OverlayShifts | EFI/DcsInt/DcsInt.c:229-229 | a request for the second saved sector is answered with the first |
| BlockHook.HookedDevice.Read | EFI/DcsInt/DcsInt.c:315-345 | decrypts by where the first sector lies, then overlays; block i of a proper request is disk sector origin + lba + i, the origin being the area's start without authBoot and 0 with it, decrypted if it lies in the area and as it is otherwise |
| BlockHook.HookedDevice.Write | EFI/DcsInt/DcsInt.c:272-313 | a proper request changes exactly the disk sectors from origin + lba on, encrypted where they lie in the area, and the plaintext view exactly as a plain write would |
| BlockHook.PlainInPlace | EFI/DcsInt/DcsInt.c:315-345 | a piece of the plaintext view, told sector by sector of the disk |
| BlockHook.WrittenSectors | EFI/DcsInt/DcsInt.c:272-313 | the sectors written, told one by one |
| BlockHook.Serve | EFI/DcsInt/DcsInt.c:272-345 | over every sequence of proper requests, each addressed from the area's start without authBoot and from 0 with it, all reads return what an unencrypted device returns, each sector what was last written before the read, and sectors of the area stay encrypted under their own numbers |
| BlockHook.EveryReadLast | EFI/DcsInt/DcsInt.c:272-345 | on that device every read of a run returns, sector by sector, what was last written before it |
| BlockHook.HoldsLastWritten | EFI/DcsInt/DcsInt.c:272-345 | on that device a sector holds what was last written to it |
| BlockHook.StraddlingExactly | EFI/DcsInt/DcsInt.c:328-342 | a request across a border of the area comes out right if and only if decryption fixes the sectors on the far side; where the cipher moves every sector of the request, if and only if it crosses no border |
| ZoneScan.Scan | EFI/DcsInt/DcsInt.c:699-712 | stops at the first reachable zone that the password opens and that is no sound container, or at the end if none does; the offset stays a multiple of 128 KiB |
| ZoneScan.NextInBytes | EFI/DcsInt/DcsInt.c:701-712 | the next stop is 128 KiB further, or the first multiple of that behind a sound container |
| ZoneScan.PassedOverLiesInTables | EFI/DcsInt/DcsInt.c:701-707 | no zone is passed over unless it lies in a valid table container that begins at a zone the scan reached |
| ZoneScan.TryDecrypt | EFI/DcsInt/DcsInt.c:681-730 | over all prompts: which one ended the scan and how, and the sector that goes with the offset |
| Line.BltLine | EFI/Library/GraphLib/EfiGraph.c:288-326 | terminates and visits exactly the points of the ideal line, drawing those the dash mask selects, without leaving 32 bits |
| Line.DashIsBit | EFI/Library/GraphLib/EfiGraph.c:301-314 | point k is drawn if and only if bit k of the mask is set, counted from the lowest, beginning anew after 32 |
| Line.ShortFits | EFI/Library/GraphLib/EfiGraph.c:296-322 | no term of a line leaves 32 bits if its extents are below a third of the range |
| Line.HorizontalFits | EFI/Library/GraphLib/EfiGraph.c:296-322 | no term of a horizontal line leaves 32 bits if and only if it is shorter than half of the range |
| Line.NextOnTrack | EFI/Library/GraphLib/EfiGraph.c:313-322 | the two comparisons keep the error term and the half-step bound |
| Line.Progress | EFI/Library/GraphLib/EfiGraph.c:313-322 | neither axis ends before the longer one has |
| Line.IdealNear | EFI/Library/GraphLib/EfiGraph.c:288-326 | every point is within half a step of the exact line |
| Line.IdealEnds | EFI/Library/GraphLib/EfiGraph.c:288-326 | the line begins and ends at the given points, after max(dx, dy) steps |
| Line.IdealConnected | EFI/Library/GraphLib/EfiGraph.c:288-326 | one step along the longer axis each time, at most one along the other |
| Line.TrackIsIdeal | EFI/Library/GraphLib/EfiGraph.c:288-326 | the incremental position is the rounded one |
| Bitmap.BmpToBlt | EFI/Library/GraphLib/EfiGraph.c:485-672 | every pixel equals direct addressing of the bottom-up line, reading inside the file only, and has the blue, green and red bytes that its row, column and depth give; accepts only well-formed files, and all of them of a known depth |
| Bitmap.CheckedExactly | EFI/Library/GraphLib/EfiGraph.c:506-585 | the checks pass exactly the well-formed files: signature, own length, header of 40 bytes, no compression, no palette or a full one, rows behind it |
| Bitmap.IndexIsDigit | EFI/Library/GraphLib/EfiGraph.c:602-645 | the palette index of a pixel is a digit of its byte: bits and halves from the highest |
| Bitmap.RowRight | EFI/Library/GraphLib/EfiGraph.c:601-659 | a row decoded right has, pixel by pixel, the colour bytes of the file |
| Bitmap.Line | EFI/Library/GraphLib/EfiGraph.c:601-659 | one line, for all four depths |
| Bitmap.Step | EFI/Library/GraphLib/EfiGraph.c:602-657 | one turn of the loop with its adjusted counters |
| Bitmap.Lines | EFI/Library/GraphLib/EfiGraph.c:599-668 | the rows and the realignment to four bytes |
| Bitmap.LineHoldsExactly | EFI/Library/GraphLib/EfiGraph.c:534-544 | a line holds its pixels if and only if the 32-bit size computation does not wrap around |
| Bitmap.WalkInsideExactly | EFI/Library/GraphLib/EfiGraph.c:534-668 | over a checked image with something to draw the loop reads inside the file only if the line size did not wrap around, and for 24 bits per pixel if and only if |
| Bitmap.FullPaletteInside | EFI/Library/GraphLib/EfiGraph.c:556-668 | and it does so for every depth whose palette is of the size the checks ask for where there is one |
| Bitmap.WrappedFilePasses | EFI/Library/GraphLib/EfiGraph.c:534-544 | 58 bytes that pass the checks although their line size wraps around, and over which the loop leaves the file |
| Bitmap.AlignedNext | EFI/Library/GraphLib/EfiGraph.c:661-667 | skipping to the next multiple of four reaches the next line |
| MultiString.CompareMultiString | EFI/src/Common/BootEncryption.cpp:4624-4651 | decides equality of the lists up to case |
| MultiString.AppendToMultiString | EFI/src/Common/BootEncryption.cpp:4653-4677 | appends when it fits by the code's count, otherwise changes nothing |
| MultiString.RemoveFromMultiString | EFI/src/Common/BootEncryption.cpp:4680-4703 | removes the first string equal up to case, or changes nothing |
| MultiString.AppendThenRemove | EFI/src/Common/BootEncryption.cpp:4653-4703 | removing a string just appended and not there before restores the list, the bytes and the size |
| MultiString.RemovedAt | EFI/src/Common/BootEncryption.cpp:4688-4697 | it is the first match that goes |
| Apdu.CommandAPDU.Init | EFI/src/Common/CommandAPDU.cpp:119-249 | on an object that holds any bytes: refuses lengths out of range; otherwise writes the layout of ISO/IEC 7816-4 with extended lengths only where needed, except for the bytes it does not write; it is that layout if and only if those were clear |
| Apdu.CommandAPDU.Parse | EFI/src/Common/CommandAPDU.cpp:13-117 | analyses as `Scanned`; accepted or not, the bytes and lengths are gone afterwards |
| Apdu.LayoutAccepted | EFI/src/Common/CommandAPDU.cpp:13-117 | every layout of all seven cases is accepted with its own fields and data |
| Apdu.CaseBytes | EFI/src/Common/CommandAPDU.cpp:119-249 | the bytes of all seven cases, lengths high byte first |
| Apdu.AcceptedIsLayout | EFI/src/Common/CommandAPDU.cpp:13-117 | whatever is accepted is a layout of the grammar |
| Apdu.AcceptsExactly | EFI/src/Common/CommandAPDU.cpp:13-117 | the accepted strings are exactly the layouts |
| Apdu.LayoutInjective | EFI/src/Common/CommandAPDU.cpp:119-249 | header, data, Ne and length format can be told from the bytes |
| Apdu.BuiltAccepted | EFI/src/Common/CommandAPDU.cpp:13-249 | what init built is parsed with the same Nc, Ne, data offset and format |
| Apdu.RebuiltExactly | EFI/src/Common/CommandAPDU.cpp:13-249 | rebuilding an accepted APDU gives the same bytes if and only if its lengths were as short as possible |
| Drbg.HmacDrbg.Update | EFI/Library/DcsCfgLib/DcsRandom.c:200-243 | sections 10.1.2.2 and 10.1.2.3 of NIST SP 800-90A, with and without data |
| Drbg.HmacDrbg.Generate | EFI/Library/DcsCfgLib/DcsRandom.c:252-290 | section 10.1.2.5 for every request length: output and final state |
| Drbg.HmacDrbg.GetBytes | EFI/Library/DcsCfgLib/DcsRandom.c:306-321 | refuses after 2^48 requests and then changes nothing |
| Drbg.TempAt | EFI/Library/DcsCfgLib/DcsRandom.c:269-286 | block i of the output is the i-th value of the chain |
| Drbg.ShorterIsPrefix | EFI/Library/DcsCfgLib/DcsRandom.c:252-290 | a shorter request gets a prefix of a longer one |
| Tpm12.TpmIo.Tpm12IOInit | EFI/Library/DcsTpmLib/Tpm12.c:226-241 | the ten-byte header in place, or overflow |
| Tpm12.TpmIo.Tpm12IOWriteBytes | EFI/Library/DcsTpmLib/Tpm12.c:153-223 | writes when a byte remains free, patches the size field, feeds the digest; otherwise marks the overflow |
| Tpm12.TpmIo.WriteField | EFI/Library/DcsTpmLib/Tpm12.c:153-223 | a field extends the command built so far, or overflows; after an overflow always fails |
| Tpm12.TpmIo.BuildCommand | EFI/Library/DcsTpmLib/Tpm12.c:153-241 | init and any sequence of fields: all in place with the right size and digest, or overflowed |
| Tpm12.TpmIo.Tpm12Transmit | EFI/Library/DcsTpmLib/Tpm12.c:382-403 | refuses after an overflow; on success the digest restarts with the return code and bytes 2 to 5 of the command |
| Tpm12.SizeIsLength | EFI/Library/DcsTpmLib/Tpm12.c:142-151 | the size field of a command tells its length |
| Tpm12.HashedIsOrdinalExactly | EFI/Library/DcsTpmLib/Tpm12.c:401-401 | the bytes hashed as the ordinal are the ordinal only when it equals the length |

## Left out

- RangeCrypt.RangeCrypt: answers "ignore" to an error prompt, after which the code goes on with whatever is in the buffer; a failed write has no effect on the disk; the header sector lies outside the range; progress display, beeps and the memory for the buffer are not modelled.
- RangeCrypt.Passes: power loss between a data write and its header update, for which the code promises nothing; stops happen between passes.
- RangeSpec.SessionsKeepSplit: sessions with a shrunken read while decrypting, for which the property is false (`RangeSpec.DecryptRunExact`).
- RangeSpec.DecryptRun: assumes that the encrypted first sector of a system partition does not look like NTFS; `RangeSpec.FirstSectorExact` shows that this is needed.
- VolumeSessions.Session: the password dialogue and the choice of the disk; the header is taken as readable with a given key, and the volume as not empty.
- Tables.TablesVerify: a header that the walk reaches must lie in the buffer, as the code reads it without a check; running out of memory and containers of 4 GiB and more are failures.
- Tables.TablesFile.Edit: saving the file succeeds, and the eight signature characters are single bytes.
- Tables.TablesAppend: an outer header whose CRC is right but whose size field is below 24, behind which the code builds the record over the header itself.
- Gpt.GptSort: at least one used entry, because the code's unsigned `n - j` wraps around without one.
- Gpt.Gpt.GptHideParts: entries are 128 bytes, both headers describe arrays of one size, and some partition is left; the checksums are arbitrary functions of header and array.
- DeList.DeListSaveToFile: file and memory failures, and component sizes whose sum does not fit 32 bits.
- GptGaps.SafeGapsKeep: no exact condition for tables with several gaps and too little room behind them, where a later closing can repair an earlier one.
- DeList.DeListParseSaved: every place that the list names must lie in the buffer, as the code reads it without a check; the globals are not set beforehand; what is left in them after a refusal.
- Loader.Run: operations are atomic, so a copy or rename interrupted half-way is not modelled; two spellings of one path, the configuration files' contents, boot entries, the custom Secure Boot build and 32-bit truncation of file sizes.
- BlockHook.HookedDevice.Read: a failing transfer, empty requests (at offset 0 they meet every entry, as `BlockHook.GetIntersection` states), buffers that are not whole sectors and requests of 4 GiB and more.
- ZoneScan.TryDecrypt: what follows the choice of the zone (decryption of the list, boot parameters); a region is one sector or whole zones, at most 4 GiB less one zone.
- Line.BltLine: lines one of whose 32-bit terms overflows, brushes and clipping.
- Bitmap.BmpToBlt: what is drawn when the loop reads outside the file, because the line size wraps around or a pixel's index lies behind the palette that the file has.
- MultiString.AppendToMultiString: 32-bit wrap-around of the buffer sizes; case folding is that of the C locale.
- Drbg.HmacDrbg.Generate: HMAC-SHA512 does not fail; its inside.
- Tpm12.TpmIo.Tpm12IOInit: command buffers of fewer than 6 and response buffers of fewer than 10 bytes, in which the unchecked accesses would lie outside.
- The password ring cache, touch input, menus, fonts, boot-order lists, SMBIOS and USB identification, TPM 2.0, rescue image creation: easy beside the above, or calls into firmware and Windows whose effects are not in the code.
- Internals of the ciphers, XTS, PBKDF2, CRC-32, SHA and HMAC: parameters.
