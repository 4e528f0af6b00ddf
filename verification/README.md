# Verified models of OvmfDarwinPkg

Dafny models of the parts of this firmware package in which state, protocols or
arithmetic are hard to get right, with proofs of what they promise:

- **The QEMU ACPI linker/loader** (`AcpiPlatformDxe`). `Loader.AcpiLoader` is the
  interpreter: the tracker, the page allocations, the fw_cfg file bytes, the
  installed tables and the S3 boot script are its fields, and every firmware
  service may fail at every call, unless the platform is reliable. `LinkerScript`
  holds the meaning of a script as a trace of trackers, `AcpiTables` the recognition
  of tables, `FwCfgPointers`, `PageLedger` and `TableScan` the bookkeeping of the
  addresses told to QEMU, of the pages and of the second pass, and `BootScript` the
  S3 record and its replay.
- **The HFS+ reader** (`OpenHfsPlus`). `CatalogKeys` is the key order, `BTree` the
  search, `Directory` the iteration over linked leaves, `BlockCache` the pinned
  block cache, `FileRead` extents and the buffered read, `Utf8` the string
  conversions. Each is related to a plain mathematical object: a sorted sequence
  of records, a disk, a sequence of bytes.
- **The SEV IOMMU** (`IoMmuDxe`). `SevIoMmu` has one memory whose pages become
  unspecified whenever their encryption bit changes, so that the stash and bounce
  copies are needed for the proofs.
- **CPU hotplug in SMM** (`CpuHotplugSmm`). `CpuEvents` is the scan of the register
  block, `CpuSlots` the slot bookkeeping over runs of MMIs, `CpuEject` the eject
  handler run by all processors at once, over every schedule.
- **The APFS block checksum** (`ApfsDriverLoader`). `Fletcher` relates the
  deferred-modulo loop to the per-step form that the source keeps as a comment.

`Words` holds the unsigned integer types that all of them share. `dafny verify
dfyconfig.toml` checks the whole project. The modules do not need any library.

## The main results

1. A run of the loader that fails, at any point and for any script, leaves pages,
   tables and boot script as they were, every fw_cfg range through which QEMU
   learned an address zero and every other byte unchanged; a page that QEMU holds
   an address in is never freed. The status tells at which stage and why: for a
   command that was refused, its verdict. A run that succeeds adds exactly the pages
   of the blobs that QEMU or a pointer to non-table data refers to: no address that
   QEMU holds dangles, and the target of a relocated pointer is allocated if and only
   if its blob is one of these. The bytes that QEMU was sent are these addresses: the
   range of every WritePointer, unless a later one writes into it, reads as the base of
   the pointee plus the offset given, and executing the boot script brings about the
   same on a device that holds anything else, whether it takes the opcodes at once or
   later. On a reliable platform a run stops only for a malformed name, a refused
   command, memory that has no place for a blob, more than 128 tables, a failing
   ASSERT, or an empty script with S3 enabled
   (`Loader.AcpiLoader.InstallQemuFwCfgTables`).
2. A field whose last write is an AddPointer on all of it ends inside the pointee of
   an earlier AddPointer if and only if the two pointees are the same. A checksummed
   range that holds its own checksum byte, and that no later command writes into,
   sums to zero if and only if that byte came as zero. No run stops because a 4-byte
   AddPointer cannot hold its address. With memory free above 4 GiB this can happen
   to a 4-byte WritePointer, if and only if no AddPointer made pass zero collect its
   pointee (`LinkerScript`, `Loader`).
3. The B-tree search ends if and only if no node number comes twice on the way down,
   which is so in every well-formed tree. There it answers exactly whether the key is
   in the leaves, up to capitals that are matched with small letters, and leaves a
   node exactly when the key is below the least one. Directory iteration yields each
   file and folder once, in key order, and then the end. The cache refines the disk,
   and drops the block for which the lowest level was asked among those not in use.
   The file read refines a flat sequence of bytes, up to 4 GiB; what it reads beyond is
   stated as well.
4. Pages with the encryption mask cleared are exactly those of the current mappings,
   after any sequence of calls, and DMA data survives the flips, also when all
   mappings are taken down at ExitBootServices and also when a bounce buffer stands
   for a part of a common buffer. Map and AllocateBuffer succeed exactly when the
   allocators find room and the addresses fit the operation.
5. Under every schedule each stashed processor is ejected once and never returns, no
   other is touched, two steps bring every other processor to the pen or back from the
   handler, and the protocol can complete if and only if the boot processor is not
   stashed itself. Runs of MMIs with this protocol between them keep the slots
   in order and never end with EFI_ALREADY_STARTED.
6. The Fletcher sums do not wrap for any body up to 92,680 words, and for every
   longer length some body wraps; a change of one word goes unnoticed if and only if
   the word is the same modulo 2^32 - 1.
7. Encoding and decoding 16-bit units is the identity. The encoding is legal UTF-8 if
   and only if there are no surrogates, and decoding loses nothing if and only if every
   character is below 2^16, which for legal text means no byte from 0xF0 on (`Utf8`).

## Where the code and what is said of it differ

- The comment on the ASSERTs of the second pass says that earlier checks ensure them.
  But the tracker keeps no record of relocated fields, and a later command can write
  over one. If the last write into a field is an AddPointer on all of it, the ASSERTs
  hold for every AddPointer on that field with the same pointee and fail for one with
  another pointee (`LastWriterDecides`). If it is a checksum byte, or a pointer that
  overlaps the field in part, the outcome depends on the bytes and on the addresses
  that the blobs were given; `OverwrittenPointerDangles` is a script whose checksum
  makes an ASSERT fail. A failing ASSERT is the status `AssertHalt`.
- Pass zero is there so that narrow pointers can hold the addresses they need, but it
  looks at AddPointer commands only. `WideWritePointerRefused` is a script whose
  4-byte WritePointer is refused because its pointee was placed at 4 GiB, and
  `FourByteWriteFitsIff` says exactly when this can happen.
- A relocated pointer into a blob with nothing but recognised tables leads to freed
  memory once the run is over. `FieldLiveIff` says exactly which pointers still lead
  to allocated memory.
- `fsw_hfsplus_bt_search` notes that `hi` ends at the largest key not above the one
  sought. For a key below the least one `hi` wraps around to 65535 and the next probe
  reads outside the node. This is the result `OutOfNode`, and `WildRead` one level up;
  `BelowLeastLeavesNode` is such an input. The loop has no bound on the number of
  nodes: a root that is its own child keeps it going for ever (`OwnChildNeverEnds`).
- `fsw_block_get` says that its buffer is valid until it is released. For the block
  number 0xFFFFFFFF, which marks free entries, it is not: the entry found counts as
  free, and the next search for an entry takes it again (`MistakenIsNext`). As long
  as that number is not asked for, the promise is kept (`HeldThroughout`).
- `fsw_shandle_read` keeps its position in 32 bits, while size and handle have 64.
  From 4 GiB on it reads from the start of the file again and cuts the handle's
  position down; the contract of `FileRead.Handle.Read` covers all sizes.
- Surrogates are encoded one by one, three bytes each, which section 3 of RFC 3629
  forbids: `SurrogateIllegal` is such an input, and `TextLegalIff` says exactly when
  the output is legal. Characters above U+FFFF are cut down to 16 bits when decoded:
  `FourBytesTruncated` is such an input, and `TruncationExactIff` says exactly when
  nothing is lost, and `LegalTextLosslessIff` says it of the bytes. The comparison
  does not cut down, so that on such a string the comparison with its own decoding
  fails (`DecodedEqual`).
- A stored APFS checksum with a zero word never matches, although 0 and 2^32 - 1
  are the same modulo 2^32 - 1: the check words are never zero. For a block of less
  than 8 bytes the length wraps around, which is the answer `PastEnd`.
- An empty loader script with S3 enabled ends with EFI_INVALID_PARAMETER, because
  `AllocateS3Context` refuses a count of zero. The contracts of `RunWithRecord` and
  `InstallQemuFwCfgTables` say so.

## Model

| member | source | states |
|---|---|---|
| `LinkerScript.AddPointerRelocates` | AcpiPlatformDxe/QemuFwCfgAcpi.c:449-481 | an accepted AddPointer turns the offset in its field into that offset plus the pointee's base, which is an address inside the pointee |
| `LinkerScript.StepFrame` | AcpiPlatformDxe/QemuFwCfgAcpi.c:318-678 | a command changes no byte outside the span it writes, and no blob moves or changes size |
| `LinkerScript.TraceFrame` | AcpiPlatformDxe/QemuFwCfgAcpi.c:1026-1071 | over the rest of the first pass, bytes that no later command writes keep their value |
| `LinkerScript.RelocationSound` | AcpiPlatformDxe/QemuFwCfgAcpi.c:812-827 | if no later command writes into the field of an AddPointer, both ASSERTs on it hold in the second pass |
| `LinkerScript.LastWriterDecides` | AcpiPlatformDxe/QemuFwCfgAcpi.c:812-827 | if the last write into the field of an AddPointer is an AddPointer on the whole field, the ASSERTs hold for the first one if and only if both name the same pointee |
| `LinkerScript.AimDecides` | AcpiPlatformDxe/QemuFwCfgAcpi.c:812-827 | the ASSERTs hold for a field that ends aimed at the pointee named, and fail for one that ends aimed at another |
| `LinkerScript.AimExact` | AcpiPlatformDxe/QemuFwCfgAcpi.c:812-827 | if every field is last written by an AddPointer on all of it, all ASSERTs hold if and only if every field ends aimed at each pointee named for it |
| `LinkerScript.FieldsStay` | AcpiPlatformDxe/QemuFwCfgAcpi.c:812-818 | the field of every AddPointer of a script that got through the first pass still exists in the second |
| `LinkerScript.OverwrittenPointerDangles` | AcpiPlatformDxe/QemuFwCfgAcpi.c:530-541 | a script with files of matching sizes, valid throughout, whose AddChecksum stores into a relocated pointer, after which the pointer is outside its pointee |
| `LinkerScript.ChecksumStored` | AcpiPlatformDxe/QemuFwCfgAcpi.c:530-541 | right after AddChecksum its range sums to zero if and only if the result byte was zero (result inside the range), or the range summed to zero already (result outside) |
| `LinkerScript.ChecksumSound` | AcpiPlatformDxe/QemuFwCfgAcpi.c:530-541 | if the result byte lies in the range and no later command writes into it, the range sums to zero at the end of the pass if and only if that byte came as zero |
| `LinkerScript.RestrictedBlobsAreLow` | AcpiPlatformDxe/QemuFwCfgAcpi.c:349-358 | every blob whose name pass zero collected ends below 4 GiB, at every point of the first pass |
| `LinkerScript.FourBytePointersFit` | AcpiPlatformDxe/QemuFwCfgAcpi.c:458-479 | wherever the first pass has got to, no 4-byte AddPointer of the script is refused as unrepresentable |
| `LinkerScript.FourByteWritesFit` | AcpiPlatformDxe/QemuFwCfgAcpi.c:626-641 | wherever the first pass has got to, no 4-byte WritePointer to a blob that pass zero collected is refused as unrepresentable |
| `LinkerScript.FourByteWriteFitsIff` | AcpiPlatformDxe/QemuFwCfgAcpi.c:626-641 | at any Allocate of the pointee with memory above 4 GiB free, the allocator can choose a place for which a 4-byte WritePointer is refused as unrepresentable if and only if pass zero did not collect the name |
| `LinkerScript.WriteVerdictStays` | AcpiPlatformDxe/QemuFwCfgAcpi.c:582-641 | once the pointee is allocated, a WritePointer gets the same verdict at every later point of the pass |
| `LinkerScript.AddPointerAccepted` | AcpiPlatformDxe/QemuFwCfgAcpi.c:423-481 | an AddPointer is accepted if and only if both blobs are there, the size is 1, 2, 4 or 8, the field lies in its blob, the little-endian value in it is an offset inside the pointee, and the sum of that and the base fits the field; the value accepted is the sum |
| `LinkerScript.WritePointerAccepted` | AcpiPlatformDxe/QemuFwCfgAcpi.c:582-641 | a WritePointer is accepted if and only if file and pointee are there, the size is 1, 2, 4 or 8, the range lies in the file, the offset inside the pointee, and the address fits the size; the value accepted is the address |
| `LinkerScript.MarkedByWritePointer` | AcpiPlatformDxe/QemuFwCfgAcpi.c:665-670 | after the first pass a blob is marked as hosting more than table data if and only if a WritePointer has it as pointee |
| `AcpiTables.Inspect` | AcpiPlatformDxe/QemuFwCfgAcpi.c:855-907 | on the bytes alone: a FACS is a table to install whatever it sums to; of the bytes with a fitting length that sum to zero, those with the signature RSDT or XSDT are passed over and all others are tables to install; anything else is opaque |
| `AcpiTables.ChecksummedTablesAreRecognised` | AcpiPlatformDxe/QemuFwCfgAcpi.c:876-889 | a table whose AddChecksum covers its length and whose checksum byte came as zero is recognised in the second pass, unless a later command writes into it or into the pointer |
| `BootScript.S3Context.Save` | AcpiPlatformDxe/BootScript.c:159-182 | the entry is appended unless the record is full, which is the only way to fail |
| `BootScript.S3Context.SaveOpcodes` | AcpiPlatformDxe/BootScript.c:203-222 | from any device state, executing the opcodes made through the one scratch buffer has the effect of the recorded writes in order: each range reads as the value recorded for it, least significant byte first, unless a later entry writes into it; if an opcode cannot be saved, only some of them have been |
| `BootScript.ReplayRepeatsWrites` | AcpiPlatformDxe/BootScript.c:203-220 | executing the opcodes of a record equals carrying out its writes, whatever the device held |
| `BootScript.LastWriteReads` | AcpiPlatformDxe/QemuFwCfgAcpi.c:646-663 | after a series of writes, the little-endian value read from the range of a write is the value written, unless a later write goes into the range |
| `FwCfgPointers.UncoveredUnchanged` | AcpiPlatformDxe/QemuFwCfgAcpi.c:646-663 | writes leave every byte that none of them covers |
| `FwCfgPointers.LastTellingHolds` | AcpiPlatformDxe/QemuFwCfgAcpi.c:641-663 | after all the writes of a script, the range of a WritePointer reads as the base of its pointee plus the offset it gives, unless a later WritePointer goes into the range |
| `Loader.ShiftedOut` | AcpiPlatformDxe/QemuFwCfgAcpi.c:474-479 | the shifted-out part is zero if and only if the value fits the pointer |
| `Loader.AcpiLoader.CollectAllocationsRestrictedTo32Bit` | AcpiPlatformDxe/QemuFwCfgAcpi.c:211-276 | on success exactly the pointees of the AddPointers narrower than 8 bytes; on failure the collection is released |
| `Loader.AcpiLoader.ProcessCmdAllocate` | AcpiPlatformDxe/QemuFwCfgAcpi.c:318-399 | on success a new blob with the file's bytes, on whole pages of its own, and below 4 GiB if restricted; on failure tracker and pages are unchanged and the status tells which check failed, or on a reliable platform that there is no place for the pages; unsupported if and only if the alignment is above 4096 |
| `Loader.AcpiLoader.ProcessCmdAddPointer` | AcpiPlatformDxe/QemuFwCfgAcpi.c:423-488 | relocates exactly the accepted commands, refuses the others without effect |
| `Loader.AcpiLoader.ProcessCmdAddChecksum` | AcpiPlatformDxe/QemuFwCfgAcpi.c:509-546 | stores the byte that brings the sum of the range, as it was, to zero, if file, result and range exist; has no effect otherwise |
| `Loader.AcpiLoader.ProcessCmdWritePointer` | AcpiPlatformDxe/QemuFwCfgAcpi.c:582-678 | on success the range in the fw_cfg file reads as the base of the pointee plus the offset given, and record and mark are updated; on failure nothing is; the status is determined by verdict and room |
| `Loader.AcpiLoader.UndoCmdWritePointer` | AcpiPlatformDxe/QemuFwCfgAcpi.c:693-715 | zeroes the range through which QEMU learned the last address |
| `Loader.AcpiLoader.NextCommand` | AcpiPlatformDxe/QemuFwCfgAcpi.c:1034-1070 | a command extends the trace and the writes by one, or leaves them and gives the status that its verdict calls for |
| `Loader.AcpiLoader.FirstPass` | AcpiPlatformDxe/QemuFwCfgAcpi.c:1026-1071 | the trackers form a trace up to the first command that fails, which the verdict at that point refuses with the status given; the S3 record equals the writes QEMU saw, and a WritePointer never fails for lack of room |
| `Loader.AcpiLoader.RollbackWritePointers` | AcpiPlatformDxe/QemuFwCfgAcpi.c:1145-1158 | no address told to QEMU is left, and exactly the ranges told are zero |
| `Loader.AcpiLoader.TearDown` | AcpiPlatformDxe/QemuFwCfgAcpi.c:1160-1181 | the tracker is empty and exactly the pages of the blobs to be kept remain; each freed once |
| `Loader.AcpiLoader.Process2ndPassCmdAddPointer` | AcpiPlatformDxe/QemuFwCfgAcpi.c:786-930 | stops exactly if the pointer is outside its pointee; handles an address once; installs a table, passes a root table, marks the blob otherwise; an error leaves tracker and tables as they were |
| `Loader.AcpiLoader.SecondPass` | AcpiPlatformDxe/QemuFwCfgAcpi.c:1085-1103 | the tables installed are exactly those found, each once, exactly the blobs with other targets are marked, and success means that every ASSERT held; on a reliable platform it fails otherwise only for more than 128 tables |
| `Loader.AcpiLoader.UninstallAcpiTables` | AcpiPlatformDxe/QemuFwCfgAcpi.c:1121-1131 | the table protocol holds what it held before the run |
| `Loader.AcpiLoader.AllocateS3Context` | AcpiPlatformDxe/BootScript.c:76-106 | an empty record with room for the given number of entries, made of two pool objects; refused exactly for a count of zero; a failure leaves the pool as it was |
| `Loader.AcpiLoader.AppendFwCfgBootScript` | AcpiPlatformDxe/BootScript.c:189-229 | the callback appends the opcodes of the whole record and releases it; if an opcode cannot be saved, only some are appended and the record stays |
| `Loader.AcpiLoader.BootScriptReady` | AcpiPlatformDxe/BootScript.c:189-229 | a call that was put off ends with the boot script that S3 resume was to get, and with the record released |
| `Loader.AcpiLoader.TransferS3ContextToBootScript` | AcpiPlatformDxe/BootScript.c:254-269 | on success S3 resume gets the opcodes of the record, appended at once and the record released, or queued with the record; on failure nothing changed; the firmware stops only with writes to save; a reliable platform has no failures |
| `Loader.AcpiLoader.Settle` | AcpiPlatformDxe/QemuFwCfgAcpi.c:1160-1181 | after success exactly the pages of WritePointer pointees and of blobs with a non-table target stay allocated, and an address in a blob is allocated if and only if the blob is one of these |
| `Loader.AcpiLoader.Unwind` | AcpiPlatformDxe/QemuFwCfgAcpi.c:1145-1181 | after failure all pointers are revoked before any page is freed, and all blob pages are gone |
| `Loader.MarkedMeansSurvives` | AcpiPlatformDxe/QemuFwCfgAcpi.c:1174-1179 | after both passes a blob is kept if and only if it was a WritePointer pointee or holds an AddPointer target that is not a recognised table |
| `Loader.ToldBlobsAreMarked` | AcpiPlatformDxe/QemuFwCfgAcpi.c:1160-1181 | a blob whose pages contain an address that QEMU holds is kept |
| `Loader.HaltedMeansNotAimed` | AcpiPlatformDxe/QemuFwCfgAcpi.c:820-827 | an ASSERT of the second pass fails only for a script with a field that does not end as the pointer it was to be |
| `Loader.FinishedMeansNotMisaimed` | AcpiPlatformDxe/QemuFwCfgAcpi.c:820-827 | a run that gets through both passes has no field that was aimed at one blob and then, for good, at another |
| `Loader.NeverUnrepresentable` | AcpiPlatformDxe/QemuFwCfgAcpi.c:472-479 | where a run stops at a 4-byte AddPointer, or at a 4-byte WritePointer to a collected blob, the reason is not that the address does not fit |
| `Loader.WideWritePointerRefused` | AcpiPlatformDxe/QemuFwCfgAcpi.c:630-641 | a script of an Allocate and a 4-byte WritePointer that is refused because its pointee lies at 4 GiB |
| `Loader.FieldLiveIff` | AcpiPlatformDxe/QemuFwCfgAcpi.c:1160-1181 | after a successful run, the address in the field of an AddPointer is allocated if and only if the pointee survives the run |
| `Loader.AcpiLoader.RunWithRecord` | AcpiPlatformDxe/QemuFwCfgAcpi.c:1008-1187 | the run with or without an S3 record, which is released or handed over; an empty script with S3 enabled ends with EFI_INVALID_PARAMETER |
| `Loader.AcpiLoader.InstallQemuFwCfgTables` | AcpiPlatformDxe/QemuFwCfgAcpi.c:957-1195 | for every script and every point of failure: a failed run leaves pages, tables, boot script, pool and told addresses as before, the told ranges zero, and its status tells the stage and the command refused; if no service fails, the reason is a malformed name, the verdict on a command, a blob for which there is no place, or more than 128 tables at different addresses; a successful run adds exactly the surviving pages and found tables, at most 128, leaves no address dangling that QEMU holds, keeps the target of a relocated pointer allocated if and only if its pointee survives, and leaves in the range of every WritePointer, unless a later one writes into it, the address asked for, where memory is allocated; executing the boot script on a device with other contents brings about the same; if every field ends aimed as it was to be no ASSERT fails, and if one ends aimed elsewhere the run does not succeed; the firmware stops only at a failing ASSERT, or when every ASSERT held and an opcode cannot be saved; no run stops because a 4-byte AddPointer, or a 4-byte WritePointer to a collected blob, cannot hold its address |
| `CatalogKeys.Fold` | OpenHfsPlus/fsw_hfsplus.c:693-702 | folding gives the only unit like the given one that is neither 0 nor one of the capitals A to Z and 0xC6, 0xD0, 0xD8, 0xDE: like are equal units, a capital and the unit 0x20 above it, and 0 and 0xFFFF |
| `CatalogKeys.RankOrders` | OpenHfsPlus/fsw_hfsplus.c:726-775 | the lexicographic order on parent ID and folded name is the order of a real number computed from the key, and keys with the same number differ in case only |
| `CatalogKeys.RankAlike` | OpenHfsPlus/fsw_hfsplus.c:693-775 | two keys have one place in the order if and only if they have one parent and names that differ in nothing but capitals with their small letters, and 0 with 0xFFFF |
| `CatalogKeys.KeysTotallyOrdered` | OpenHfsPlus/fsw_hfsplus.c:726-775 | the key order is total, transitive and antisymmetric, and respects keys that differ in case only |
| `CatalogKeys.CatCmp` | OpenHfsPlus/fsw_hfsplus.c:726-775 | 0 if and only if the parents are equal, the names equally long and the units alike at every place; otherwise the sign is the order of the parents or, for one parent, that of the names at the first place where they are not alike, a name that has ended coming first; this is the lexicographic order of the keys |
| `CatalogKeys.ThreadCmp` | OpenHfsPlus/fsw_hfsplus.c:704-724 | 0 if and only if the parents are equal and the name is empty, negative if and only if the parent is smaller: the order against the key with the empty name |
| `BTree.SearchNode` | OpenHfsPlus/fsw_hfsplus.c:647-669 | in any node, the place that halving leads to; in a sorted one an exact hit, or the place where the key belongs, and the 16-bit indices leave the node if and only if it is empty or the key is below record 0 |
| `BTree.Descend` | OpenHfsPlus/fsw_hfsplus.c:674-679 | going down to the child keeps all smaller keys to the left and all greater keys to the right of the leaves still in question |
| `BTree.EndsIff` | OpenHfsPlus/fsw_hfsplus.c:636-680 | in any tree, well-formed or not, the search ends if and only if no node number comes twice on the way down; it has then read at most one node more than the tree has |
| `BTree.OwnChildNeverEnds` | OpenHfsPlus/fsw_hfsplus.c:636-680 | a root whose only record has the root as its child makes the search go on for ever, for every key from that record's on |
| `BTree.BelowLeastLeavesNode` | OpenHfsPlus/fsw_hfsplus.c:651-653 | a well-formed, intact tree of one leaf, and a key for which the search leaves the node |
| `BTree.WellFormedEnds` | OpenHfsPlus/fsw_hfsplus.c:636-680 | the search ends in every well-formed tree |
| `BTree.Search` | OpenHfsPlus/fsw_hfsplus.c:620-684 | on every tree on which the loop ends, the result is that of the node where the way down stops; on a well-formed tree it is a leaf record whose key differs from the one sought in nothing but the kind of letters (by thread: one with that parent and no name) if there is one, not-found if there is none, and a read outside a node if and only if the key is below the least one; it fails only on a damaged tree |
| `BTree.AnswerExact` | OpenHfsPlus/fsw_hfsplus.c:620-684 | on a readable tree: found if and only if the key is in the leaves, out of the node if and only if it is below the least key, not found otherwise |
| `BTree.AnswerUnique` | OpenHfsPlus/fsw_hfsplus.c:620-684 | a readable tree allows one answer only, down to the record |
| `Directory.ChildrenFrom` | OpenHfsPlus/fsw_hfsplus.c:1062-1083 | from a thread record on, the sorted leaves hold all records of that parent in one run |
| `Directory.GetRec` | OpenHfsPlus/fsw_hfsplus.c:836-895 | along the linked leaves, the first file or folder at or after the position, or the end if there is none; all leaves up to it have been read, and a failure is that of the next one |
| `Directory.Handle.DirRead` | OpenHfsPlus/fsw_hfsplus.c:1043-1110 | returns the next entry that remains at the position, or reports the end exactly if none remains |
| `Directory.Handle.DnodeDirRead` | OpenHfsPlus/fsw_core.c:669-683 | the same, and any outcome but an entry leaves the position unchanged |
| `Directory.NothingLost` | OpenHfsPlus/fsw_core.c:657-683 | after any number of calls, failed ones included, what was handed out and what remains make up the directory |
| `Directory.IterationExact` | OpenHfsPlus/fsw_core.c:657-683 | the entries come in order, each once; the end is reported when all have come and not before, and from then on for ever with the position unchanged |
| `Directory.ReadDirectory` | OpenHfsPlus/fsw_core.c:657-683 | calling until the end is reported, on an intact tree, ends with exactly the listing, or reads outside a node if and only if the thread key of the directory is below every key |
| `Directory.ListingExact` | OpenHfsPlus/fsw_hfsplus.c:853-880 | the listing holds exactly the records of type 1 or 2, folder or file, with that parent, if there is a record with that parent and an empty name, and is empty otherwise |
| `Directory.ListingSorted` | OpenHfsPlus/fsw_hfsplus.c:853-880 | the entries are in strictly rising key order |
| `BlockCache.FindSlot` | OpenHfsPlus/fsw_core.c:203-217 | the first entry marked free, in use or not; between calls: the first free entry, else the first with the lowest level among the unpinned, none if and only if all entries are pinned |
| `BlockCache.VictimUnique` | OpenHfsPlus/fsw_core.c:203-217 | that entry is determined by the table |
| `BlockCache.Cache.Get` | OpenHfsPlus/fsw_core.c:179-260 | the buffer returned holds the disk block; its entry has the lesser of the level asked for and 5, or the level it had if that is higher; only the entry that the search demands is evicted, and all others stay as they are; the table grows only when all entries are pinned, to 16 or twice its size; a failure pins nothing; for block number 0xFFFFFFFF, the buffer of the first free entry, or of one that counts as free afterwards |
| `BlockCache.LevelIsHighest` | OpenHfsPlus/fsw_core.c:188-258 | over any run of gets, failed gets and releases from an empty cache, the level of a block in the table is the highest that was asked for since it was loaded, levels above 5 counting as 5 |
| `BlockCache.DropsLeastAsked` | OpenHfsPlus/fsw_core.c:160-168 | over any such run, a block that is dropped has no unmatched get, and the highest level asked for it since it was loaded is the least among the blocks without unmatched gets |
| `BlockCache.MistakenIsNext` | OpenHfsPlus/fsw_core.c:203-207 | after a get of block number 0xFFFFFFFF, the first entry marked free, which the next search takes, is the one whose buffer was handed out |
| `BlockCache.Cache.Reserve` | OpenHfsPlus/fsw_core.c:218-243 | the entry to use is free afterwards, and all others are as before |
| `BlockCache.Cache.Load` | OpenHfsPlus/fsw_core.c:243-251 | a buffer is allocated if there is none and the block read into it; the entry stays free, and no other entry changes |
| `BlockCache.Cache.Fill` | OpenHfsPlus/fsw_core.c:243-259 | the entry belongs to the block only once the read has succeeded |
| `BlockCache.Cache.Release` | OpenHfsPlus/fsw_core.c:267-279 | one get of the block is matched: its count falls by one, and nothing else changes |
| `BlockCache.Cache.Free` | OpenHfsPlus/fsw_core.c:286-299 | every buffer is freed once and the cache is empty |
| `BlockCache.Cache.PinnedIsDisk` | OpenHfsPlus/fsw_core.c:175-176 | between calls, a buffer that is in use equals its disk block |
| `BlockCache.HeldThroughout` | OpenHfsPlus/fsw_core.c:175-176 | over any run of gets, failed gets and releases, a buffer stays the buffer of its block as long as a get of the block is unmatched |
| `FileRead.GetExtent` | OpenHfsPlus/fsw_hfsplus.c:778-816 | for any eight extents, block numbers wrapping around at 32 bits: finds a mapping if and only if the block is covered, and then the rest of its extent; tells a file that ends from one with all eight extents in use |
| `FileRead.ByteOfFile` | OpenHfsPlus/fsw_hfsplus.c:792-808 | a byte of the file is the byte in the block that lies as many blocks on from the first of its extent, modulo 2^32, as the file has bytes behind the extents before, in blocks |
| `FileRead.MaskIsRemainder` | OpenHfsPlus/fsw_core.c:909 | masking with the block size less one is the remainder, for every power of two |
| `FileRead.WindowStraight` | OpenHfsPlus/fsw_core.c:878-939 | up to 4 GiB, the bytes that a position of 32 bits passes are a plain stretch of the file |
| `FileRead.Handle.constructor` | OpenHfsPlus/fsw_core.c:822-839 | a new handle is at position 0 with no extent |
| `FileRead.Handle.Locate` | OpenHfsPlus/fsw_core.c:885-901 | the remembered extent is right, and afterwards it holds the block; fails exactly past the last block |
| `FileRead.Handle.Translate` | OpenHfsPlus/fsw_core.c:885-909 | the physical block and the place in it are those of the position |
| `FileRead.CopyFromBlock` | OpenHfsPlus/fsw_core.c:914-921 | the bytes wanted are copied while the block is in use, and every get is matched by a release |
| `FileRead.Handle.ReadChunk` | OpenHfsPlus/fsw_core.c:885-922 | the bytes copied are those of the file, and the block is released |
| `FileRead.Handle.Read` | OpenHfsPlus/fsw_core.c:860-946 | for files of any size: the number of bytes is the lesser of the length and what is left of the size behind the position modulo 4 GiB, or 0 from the end on; the bytes are those that a position of 32 bits passes, up to 4 GiB exactly those of the file from the position on, whatever was read or sought before; they are cached at level 0 for files and 1 for others; the new position is right if and only if it is below 4 GiB; a failure leaves the position, and occurs only if a service fails or the extents do not cover the size with blocks of the disk |
| `Utf8.BitForms` | OpenHfsPlus/fsw_strfunc.h:382-390 | the masks and shifts of the source are the divisions and remainders used in the model |
| `Utf8.EncodingIff` | OpenHfsPlus/fsw_strfunc.h:382-390 | a byte sequence is the encoding of a unit if and only if it fits the shortest bit pattern for it in the table of section 3 of RFC 3629, surrogates not excluded |
| `Utf8.UnitLegalIff` | OpenHfsPlus/fsw_strfunc.h:382-390 | a unit is encoded to a character that section 4 of RFC 3629 allows if and only if it is not a surrogate |
| `Utf8.LegalCharIff` | OpenHfsPlus/fsw_strfunc.h:382-390 | the characters that section 4 of RFC 3629 allows are exactly the encodings of the units that are no surrogates, and the four-byte patterns with values from 0x10000 to 0x10FFFF |
| `Utf8.TextLegalIff` | OpenHfsPlus/fsw_strfunc.h:379-397 | the encoding of a string is legal UTF-8 if and only if the string has no surrogates |
| `Utf8.SurrogateIllegal` | OpenHfsPlus/fsw_strfunc.h:387-390 | the unit 0xD800 is encoded to three bytes that are not legal UTF-8 |
| `Utf8.UnitRoundTrip` | OpenHfsPlus/fsw_strfunc.h:250-264 | a unit is read back where it was written, in the number of bytes it took |
| `Utf8.CharExact` | OpenHfsPlus/fsw_strfunc.h:250-263 | a character of one to four bytes, as in the table of section 3 of RFC 3629, is read as the value that the table gives it |
| `Utf8.RoundTrip` | OpenHfsPlus/fsw_strfunc.h:235-267 | an encoded string, wherever it begins in a buffer, is decoded to its units |
| `Utf8.EncodeString` | OpenHfsPlus/fsw_strfunc.h:347-399 | the second pass fills the buffer of the size computed in the first exactly, with the encodings of the units |
| `Utf8.TruncationExactIff` | OpenHfsPlus/fsw_strfunc.h:264 | cutting characters down to 16 bits gives the characters back if and only if all are below 2^16 |
| `Utf8.LegalTextLosslessIff` | OpenHfsPlus/fsw_strfunc.h:250-264 | legal UTF-8 is decoded without loss if and only if no byte of it is 0xF0 or above |
| `Utf8.FourBytesTruncated` | OpenHfsPlus/fsw_strfunc.h:259-264 | the legal encoding of U+10000 is decoded to 0 |
| `Utf8.DecodeString` | OpenHfsPlus/fsw_strfunc.h:235-267 | each character cut down to its low 16 bits, which gives the characters if and only if all are below 2^16, for legal text if and only if no byte is 0xF0 or above; reads past the buffer if and only if that has fewer characters than the length says |
| `Utf8.StringsEqual` | OpenHfsPlus/fsw_strfunc.h:61-85 | equal if and only if the decoded characters, not cut down, are there and are the units; reads past the buffer only if that has too few characters |
| `Utf8.EncodeDecode` | OpenHfsPlus/fsw_strfunc.h:235-399 | encoding and then decoding any sequence of 16-bit units gives it back |
| `Utf8.EncodedEqual` | OpenHfsPlus/fsw_strfunc.h:61-85 | against the encoding of a sequence of the same length, equal if and only if the sequences are |
| `Utf8.DecodedEqual` | OpenHfsPlus/fsw_strfunc.h:61-267 | a string compares equal with its own decoding if and only if every character is below 2^16 |
| `SevIoMmu.PlainSetWithout` | IoMmuDxe/AmdSevIoMmu.c:407-447 | with disjoint mappings, the pages of the rest are the pages of all less those of the one taken away |
| `SevIoMmu.OtherPages` | IoMmuDxe/AmdSevIoMmu.c:373-441 | taking down one mapping leaves the plaintext pages of every other as they are, unless its host bytes are in them |
| `SevIoMmu.StashCarries` | IoMmuDxe/AmdSevIoMmu.c:217-280 | copied to a stash and back, bytes survive a change that leaves their pages open, and nothing else is written |
| `SevIoMmu.IoMmu.Map` | IoMmuDxe/AmdSevIoMmu.c:107-310 | the device sees exactly the host's bytes; the cleared pages are exactly those of the mappings; nothing is written but the plaintext pages and the stash; a bounce buffer was free before; a failure changes nothing. Invalid if and only if there is no host address, or an unknown operation got its MAP_INFO; unsupported if and only if a 32-bit common buffer that got one would have pages above 4 GiB; out of resources if and only if there is no MAP_INFO, or no free run of pages for a bounce buffer, below 4 GiB for a 32-bit operation |
| `SevIoMmu.IoMmu.ChangeInPlace` | IoMmuDxe/AmdSevIoMmu.c:217-280 | the bytes of a common buffer survive a flip of its pages through the stash |
| `SevIoMmu.IoMmu.UnmapWorker` | IoMmuDxe/AmdSevIoMmu.c:333-453 | exactly this mapping is removed and its pages encrypted; the host has the device's bytes; a bounce buffer ends zeroed; nothing else is written; with the memory map locked nothing is freed |
| `SevIoMmu.IoMmu.UnmapAllMappings` | IoMmuDxe/AmdSevIoMmu.c:820-844 | the list is empty, every page is encrypted, nothing was freed, every bounce buffer is zero and every common buffer has kept its bytes, unless a write mapping had its host bytes in it |
| `SevIoMmu.IoMmu.AllocateBuffer` | IoMmuDxe/AmdSevIoMmu.c:505-615 | succeeds if and only if attributes and arguments are valid, the page count is not the highest number, and stash and buffer with header find free pages apart from each other, the latter below 4 GiB unless dual address cycles are allowed; then a new buffer behind its header page with a stash of its own; all other allocations stay, and exactly these pages are added; a failure releases the stash |
| `SevIoMmu.IoMmu.FreeBuffer` | IoMmuDxe/AmdSevIoMmu.c:632-673 | exactly the header, the buffer and its stash are freed |
| `SevIoMmu.IoMmu.BusMasterWrite` | IoMmuDxe/AmdSevIoMmu.c:107-453 | for write mappings and common buffers: map, a write by the device, and unmap leave exactly the device's bytes at the host address, and masks, allocations and mappings as before; it succeeds if and only if Map does |
| `CpuEject.RunKeepsInv` | CpuHotplugSmm/CpuHotplug.c:238-337 | the invariant of the eject protocol holds after every schedule |
| `CpuEject.EjectSafety` | CpuHotplugSmm/CpuHotplug.c:238-337 | under every schedule a stashed processor never returns and is ejected at most once, no other is ejected or penned; once the BSP is back all stashed ones were ejected once, the map is invalid throughout and the handler disarmed |
| `CpuEject.ApProgress` | CpuHotplugSmm/CpuHotplug.c:297-337 | in any schedule, a processor other than the BSP that has had two steps is penned or ejected if it is stashed, and back from the handler if it is not |
| `CpuEject.LateApPasses` | Library/SmmCpuFeaturesLib/SmmCpuFeaturesLib.c:456-490 | a processor that comes when the handler is disarmed passes it by in one step |
| `CpuEject.EjectCompletes` | CpuHotplugSmm/CpuHotplug.c:246-294 | once the BSP has had 4 n + 2 steps, in whatever schedule, all ejections are done |
| `CpuEject.CompletesIffBspStays` | CpuHotplugSmm/CpuHotplug.c:238-337 | some schedule brings the BSP back if and only if its own selector is not stashed |
| `CpuEvents.NextPendingIsNext` | CpuHotplugSmm/QemuCpuhp.c:237-258 | the device's wrap-around shows as a selector below the current one, which is then the first with an event, or as no event at the current one, which means that there is none at all |
| `CpuEvents.InsertedExact` | CpuHotplugSmm/QemuCpuhp.c:272-307 | every CPU with an insert event is reported, at a place of its own in selector order |
| `CpuEvents.InsertedOnly` | CpuHotplugSmm/QemuCpuhp.c:272-307 | and nothing else is reported as inserted |
| `CpuEvents.UnpluggedExact` | CpuHotplugSmm/QemuCpuhp.c:272-307 | the selectors to unplug are exactly those of the CPUs with the firmware removal event, rising |
| `CpuEvents.Extend` | CpuHotplugSmm/QemuCpuhp.c:324-345 | one CPU more is added to the arrays that its event calls for, and the unplug arrays stay index-aligned |
| `CpuEvents.CollectApicIds` | CpuHotplugSmm/QemuCpuhp.c:208-357 | ends within as many rounds as there are CPUs; succeeds if and only if every insert and firmware removal event is on an enabled CPU, none is on the same one, and there is room; the arrays then hold exactly the CPUs with events in selector order, index-aligned; the errors tell which of these fails |
| `CpuSlots.IndexOf` | CpuHotplugSmm/CpuHotplug.c:124-130 | the least slot with the value, or the number of slots if there is none |
| `CpuSlots.HotAddKeeps` | CpuHotplugSmm/CpuHotplug.c:112-193 | occupied slots stay distinct, known CPUs stay where they are, only the given CPUs come in, and all of them do on success |
| `CpuSlots.HotAddExact` | CpuHotplugSmm/CpuHotplug.c:112-200 | the CPUs known afterwards are those of the batch up to the one at which it stops; the new ones are in slots that were empty, in the order of the batch, with no empty slot left before them; it stops at a CPU that is not known, for lack of an empty slot, or because it fails while there still is one |
| `CpuSlots.UnplugKeeps` | CpuHotplugSmm/CpuHotplug.c:384-463 | with no ejection pending on an occupied slot EFI_ALREADY_STARTED is impossible, exactly the emptied slots carry the selectors that came with their CPUs, and on success all the CPUs are gone |
| `CpuSlots.UnplugExact` | CpuHotplugSmm/CpuHotplug.c:384-463 | exactly the slots of the CPUs up to the one at which it stops are emptied and carry the selectors that come with these CPUs; it stops only at a known CPU whose removal fails; ejections are counted if and only if a slot was emptied |
| `CpuSlots.AlreadyStartedIff` | CpuHotplugSmm/CpuHotplug.c:433-450 | EFI_ALREADY_STARTED is possible if and only if some occupied slot has an ejection pending |
| `CpuSlots.UnplugReadiesEject` | CpuHotplugSmm/CpuHotplug.c:384-484 | what UnplugCpus leaves is an initial state of the eject protocol, with the BSP stashed only if it was to be unplugged |
| `CpuSlots.MmiKeeps` | CpuHotplugSmm/CpuHotplug.c:541-629 | from a machine without pending ejections, no MMI ends with EFI_ALREADY_STARTED, slots stay distinct and known CPUs stay until unplugged |
| `CpuSlots.MmiExact` | CpuHotplugSmm/CpuHotplug.c:541-629 | after an MMI that ends well, a CPU is known if and only if it was known or plugged in and is not to go; the handler is armed if and only if some slot carries a selector |
| `CpuSlots.RoundEndsIdle` | CpuHotplugSmm/CpuHotplug.c:238-337 | the eject protocol at the exit, under any schedule, clears the selector map and the handler |
| `CpuSlots.MmiRunKeeps` | CpuHotplugSmm/CpuHotplug.c:541-629 | over any run of MMIs with the eject protocol between them: nothing is pending, occupied slots stay distinct, and a known CPU keeps its slot until it is unplugged |
| `CpuSlots.NeverAlreadyStarted` | CpuHotplugSmm/CpuHotplug.c:433-450 | the next MMI after any such run does not end with EFI_ALREADY_STARTED, whatever it finds |
| `CpuSlots.HotplugDriver.ProcessHotAddedCpus` | CpuHotplugSmm/CpuHotplug.c:95-194 | each new CPU takes the least empty slot, and a failed add leaves its slot empty |
| `CpuSlots.HotplugDriver.UnplugCpus` | CpuHotplugSmm/CpuHotplug.c:373-491 | slots, selector map and result are those of the specification, and the handler is armed exactly when a selector was stashed |
| `CpuSlots.HotplugDriver.EjectCpu` | CpuHotplugSmm/CpuHotplug.c:246-294 | every pending selector is ejected once, in slot order; map cleared and handler disarmed |
| `CpuSlots.PendingExact` | CpuHotplugSmm/CpuHotplug.c:246-280 | every selector that is pending has a place of its own among those ejected, in slot order |
| `CpuSlots.HotplugDriver.CpuHotplugMmi` | CpuHotplugSmm/CpuHotplug.c:541-629 | quiesced exactly if the MMI is not for this driver; handled exactly if the events are reportable and every add and removal succeeds, with the state of the specification; otherwise fatal, but never for EFI_ALREADY_STARTED |
| `Fletcher.NoWrapIff` | ApfsDriverLoader/ApfsDriverLoader.c:41-51 | all bodies of n words stay below 2^64 if and only if n is at most 92,680 |
| `Fletcher.DeferredModulo` | ApfsDriverLoader/ApfsDriverLoader.c:41-46 | reducing at the end gives what the commented form, reducing in every step, gives |
| `Fletcher.ChecksumCalculate` | ApfsDriverLoader/ApfsDriverLoader.c:28-52 | for every body the check words are those of the sums modulo 2^64; up to 92,680 words, low and high half are not zero, the sum of both sums and the low half is a multiple of 2^32 - 1, and so is the sum of the first sum and both halves |
| `Fletcher.CheckWordsUnique` | ApfsDriverLoader/ApfsDriverLoader.c:48-49 | the check words are the only non-zero words that bring both sums to zero |
| `Fletcher.CheckWordsCancel` | ApfsDriverLoader/ApfsDriverLoader.c:48-51 | appending the check words drives both running sums to zero |
| `Fletcher.MatchIff` | ApfsDriverLoader/ApfsDriverLoader.c:58-73 | stored words match if and only if they are not zero and bring both running sums to zero |
| `Fletcher.ChecksumVerify` | ApfsDriverLoader/ApfsDriverLoader.c:58-73 | for every size: accepts exactly the blocks whose stored words are those computed; up to the bound, exactly those whose body followed by the stored words sums to zero, with no stored word zero; reads past the memory given if and only if that has fewer words than the size calls for, and always for a size below 8 |
| `Fletcher.ChangeDetectedIff` | ApfsDriverLoader/ApfsDriverLoader.c:28-52 | changing one word keeps the checksum if and only if the word is unchanged or 0 and 0xFFFFFFFF are exchanged |
| `Fletcher.ExchangeDetectedIff` | ApfsDriverLoader/ApfsDriverLoader.c:28-52 | exchanging two neighbours keeps the checksum if and only if they are the same modulo 2^32 - 1 |

## Left out

- Finding and reading `etc/table-loader`, the size check on it, and switching PCI decoding on and off: the script is a parameter, already split into commands.
- The zeroing of the padding behind a blob: a blob is its file's bytes, and the rest of its last page is not modelled.
- Empty fw_cfg files: the page allocator fails on a request for no pages, so that Allocate fails for them.
- SevIoMmu.IoMmu.Map: sizes and addresses are unbounded numbers, and the failure of the memory encryption service (a dead loop in the source) is not modelled; host bytes must be allocated to the caller, and a common buffer must not be mapped already.
- Exchanged mapping handles: Unmap takes the index of the mapping in the list rather than a pointer to it.
- IoMmuSetAttribute, AmdSevExitBoot and the installation of the protocol: plumbing around the modelled calls.
- Fences and weak memory ordering in the eject handler: steps are sequentially consistent, and QEMU removes the processor at the write of the eject bit.
- CpuSlots.HotplugDriver.EjectCpu: the BSP's loop alone; its interleaving with the other processors is the subject of `CpuEject`.
- SMBASE relocation, the first boot pen and the processor services: calls that succeed or fail; RemoveProcessor empties the slot as its contract says.
- Byte layout of B-tree nodes, keys and records: nodes are decoded; the sanity check on record 0 and unreadable nodes are kept as flags.
- BTree.Search: a node has fewer than 2^15 records, which its 16-bit size guarantees; a search that does not end is the subject of `BTree.EndsIff`.
- Directory.Handle.DirRead: creating the dnode for an entry is not modelled beyond success and failure, the tree is well-formed with linked leaves, and the leaves hold fewer than 2^32 records.
- BlockCache.Cache.Get: reference counts are unbounded, and nothing is said of further calls after a get of block number 0xFFFFFFFF.
- FileRead.Handle.Read: physical and logical block sizes are equal, and no extent holds block 0xFFFFFFFF, the number that marks free cache entries; buffer and sparse extents do not occur in HFS+.
- The extents overflow file: the reader returns FSW_UNSUPPORTED beyond eight extents, and so does the model.
- Allocation failures of the string conversions, and what is read past the end of a buffer with too few characters.
- Dnode reference counts, symbolic and hard links, path lookup: `fsw_hfsplus_dnode_complete` retains the parent on every call, so that no conservation law holds.
- Driver binding, component names, shell commands, timer, interrupt controller, SCSI and virtio drivers, Xen support, variable store: they would add small members only.
