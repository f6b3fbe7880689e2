# codexOS in Dafny

This project models the parts of codexOS whose correctness is a matter of invariants over
whole runs, and proves those invariants for every input. codexOS is a small kernel in Rust with a
loader and an updater.

Each component comes in two layers. One layer states the behaviour on values (functions) and proves
theorems about it, including theorems about all runs. The other layer is the imperative code itself
(classes, arrays, loops), proved equal to the first layer. Integer widths, wrap-around, saturation,
table sizes and error codes are those of the source. Hardware, firmware and foreign libraries appear
as parameters or as calls that may fail.

| component | files |
|---|---|
| CodexFS: a copy-on-write filesystem with two superblocks | `FsPath`, `FsTree`, `FsRecord`, `FsSuperblock`, `FsCommit`, `FsCapacity`, `FsCrash`, `FsDamage`, `FsDecode`, `FsNamespace`, `FsOps`, `FsAccess`, `FsVolume`, `Crc32` |
| Four-level page tables and user address spaces | `PageEntry`, `VmTables`, `VmManager`, `VmProgram`, `VmUser` |
| The in-place free-list heap | `HeapTiles`, `HeapSteps`, `Heap` |
| The physical page allocator | `PagePool`, `PageRegions`, `PhysicalMemory` |
| Signed A/B updates and boot recovery | `UpdateFormat`, `Boot`, `Update`, `UpdateFaults` |
| The preemptive round-robin scheduler | `Scheduling`, `Scheduler` |
| The TCP listener and its frames | `Checksum`, `TcpFrame`, `TcpParse`, `TcpConnections`, `TcpOutcomes`, `TcpListener` |
| Shared | `Arith`, `Bytes`, `Wrappers` |

How the less obvious things are modelled:

- A disk is a sequence of durable sectors and a list of unflushed writes. A crash keeps, for each
  sector, either the durable contents or any one of the pending ones. A device call may fail; a
  failed call is also a point where a commit can stop. A device is marked as working when its writes
  and flushes never fail inside its size, and claims of success are for such a device.
- An update is a plan of five file writes. It stops after any number of them, with the next one
  untouched or in pieces. A boot is a relation between images and version floors in which
  every read, write and firmware variable may fail.
- Memory of the user address spaces is a map from page addresses to page contents, so tables are
  bytes in pages and the hardware walk is a function of them.
- The heap is one byte array. Block sizes, links and allocation headers are read from and written
  to it; a ghost list of tiles says what the bytes mean.
- Hash, signature, ELF parsing and staging are one predicate on a kernel and its manifest. It is a
  parameter and nothing is assumed about it.
- `hide` statements only keep definitions out of the solver's sight.

No invariant is empty. `MountOrFormat` reaches a valid filesystem from blank sectors, the constructors
reach a valid heap, page allocator, page-table tree, scheduler and listener, and `FirstImageHealthy`
reaches a healthy image.

Where the code does less than one would expect, and exactly when:

- `SlotAlwaysFound`, `LastGenerationRefuses`: a record slot is always found, except at the very last
  generation number when the active record sits in the slot that comes first.
- `SlotFoundIffFree`, `GrownDeviceMayRefuse`: a filesystem formatted on a smaller device can refuse a
  snapshot that fits, because the old record may overlap every slot of the new division.
- `UnreadableFallsBack`: a mount that cannot read the active record does not report it. It returns the
  older snapshot, or an error if there is none, and never formats.
- `CreateUserAddressSpace`: a pool page above 2^47 is taken, cannot be reached through the direct map,
  and is neither used nor given back.
- `LiveBlocksReturn`, `SpanningBlockStaysOut`: a block that spans two touching regions can be handed
  out but not returned in one call. With gaps between regions every live block can.
- `ReclaimingHeap.Allocate`, `MisalignedAddress`: the heap aligns offsets, so the returned address is
  aligned exactly when the heap's base is.
- `BootSucceedsIff`, `MismatchLocksOut`: a release that contradicts its boot state raises the version
  floor before it is rejected, and so can lock out the other slot for good.
- `NextBootIsDirect`: a fallback is recorded and the next boot is direct, except at the very last
  generation, where every boot falls back again.
- `MisreadIsSafeIff`, `MisreadLocksOut`: an updater that cannot read the newest boot state follows the
  older one. Every stop leaves a bootable image if and only if nothing is installed or both states name
  the same slot and version; otherwise it may overwrite the running slot or the newest state.
- `DamagedChecks`: the TCP checksum misses a changed word exactly if it went from one zero to the other.
- `ManifestRoundTrip`: the encoder gives a manifest of the old format a length that the decoder refuses.

## Model

| member | source | states |
|---|---|---|
| Crc32.Compute | kernel/src/fs.rs:1001-1011 | The bitwise loop computes the checksum defined on 32-bit registers |
| Crc32.BurstDetected | kernel/src/fs.rs:1001-1011 | Two byte strings that differ only inside a window of at most four bytes have different checksums, for every length and position |
| FsPath.Utf8Prefix | kernel/src/fs.rs:791-805 | Cutting UTF-8 text at an ASCII byte leaves UTF-8 text |
| FsPath.Parent | kernel/src/fs.rs:907-920 | The parent of a valid path is the root or a valid path, and a proper prefix |
| FsPath.PrefixIsValidPath | kernel/src/fs.rs:791-805 | Every prefix of a valid path that ends at a separator is a valid path |
| FsPath.ValidPathIff | kernel/src/fs.rs:791-805 | The valid paths are exactly the non-empty lists of names, none empty, a dot or two dots, joined by separators, without control characters and up to 128 bytes |
| FsTree.EnsureParentMeaning | kernel/src/fs.rs:890-905 | The check passes exactly when the parent is the root or a directory that is writable and executable |
| FsTree.ValidateTreeMeaning | kernel/src/fs.rs:847-862 | Validation accepts exactly the trees with valid names and permissions in which every parent is such a directory and directories hold no data |
| FsRecord.RequiredRecordBytes | kernel/src/fs.rs:779-789 | The loop with overflow checks computes header plus entries, or reports overflow exactly when the sum leaves 64 bits |
| FsRecord.PutEntry | kernel/src/fs.rs:661-674 | One entry is written at the cursor: metadata, name and data, and nothing before or behind |
| FsRecord.PutFiles | kernel/src/fs.rs:660-674 | All entries stand one behind the other behind the header |
| FsRecord.FillRecord | kernel/src/fs.rs:653-682 | The buffer filled with a moving cursor is the record, with both checksums in place |
| FsRecord.EncodeRecord | kernel/src/fs.rs:643-682 | Encoding succeeds exactly for encodable lists, gives exactly the record, and reports each refusal by exactly one error, overflow before size |
| FsRecord.DecodeRecord | kernel/src/fs.rs:684-777 | The decoding loop computes the contents of a record or the same error, for arbitrary bytes |
| FsRecord.RecordRoundTrip | kernel/src/fs.rs:643-777 | A written record is read back exactly as it was if and only if its names are distinct, for every generation |
| FsDecode.DecodesIff | kernel/src/fs.rs:684-777 | Arbitrary bytes decode to a list of entries if and only if they are that list spelled out in one of the three record formats, with both checksums, valid distinct names and a sound tree |
| FsSuperblock.SuperblockRoundTrip | kernel/src/fs.rs:579-641 | A written superblock is read back if and only if its contents are in bounds for the device |
| FsSuperblock.DecodeSuperblock | kernel/src/fs.rs:595-641 | Whatever decodes is in bounds for the device |
| FsSuperblock.SuperblockIff | kernel/src/fs.rs:595-641 | An arbitrary sector decodes to a superblock if and only if it spells it out in one of the three versions under the checksum of its contents, with believable bounds |
| FsSuperblock.RecordSlotSpan | kernel/src/fs.rs:956-966 | There is a slot size exactly for devices of at least 136 sectors; two slots of it fit, and it is the largest that allows this up to the record limit |
| FsSuperblock.SlotsFitDevice | kernel/src/fs.rs:956-977 | A large enough device has at least two slots, all inside it, and as many as fit |
| FsCommit.SelectFrom | kernel/src/fs.rs:493-525 | A selected slot lies inside the device, starts on a slot boundary and does not overlap the active record |
| FsCommit.SlotAlwaysFound | kernel/src/fs.rs:493-525 | With the active record inside one slot a slot is found, except exactly at the last generation number with the active slot first |
| FsCommit.LastGenerationRefuses | kernel/src/fs.rs:493-525 | A concrete filesystem at the last generation whose other slot is free and which refuses all the same |
| FsCommit.SlotFoundIffFree | kernel/src/fs.rs:493-525 | In general a slot is found if and only if some slot is free of the active record |
| FsCommit.GrownDeviceMayRefuse | kernel/src/fs.rs:493-525 | A concrete grown device on which a fitting snapshot is refused |
| FsCommit.PlanCommit | kernel/src/fs.rs:448-491 | A planned commit has a believable superblock of the next generation and stays off the superblocks and the active record |
| FsCapacity.CommitIff | kernel/src/fs.rs:448-525 | The exact condition on tree, record length, slot size and generation under which a snapshot is accepted, and for every refusal the exact reason behind its error |
| FsCrash.LiveLoads | kernel/src/fs.rs:528-577 | A mount of a live image yields exactly the snapshot in memory |
| FsCrash.NewIsLive | kernel/src/fs.rs:448-491 | Record and superblock of a planned commit on the disk make the new snapshot the one that loads |
| FsCrash.CrashDuringCommit | kernel/src/fs.rs:448-491 | Cutting a commit after any device operation, with any choice of unflushed sectors kept, leaves the old snapshot or the new one, and the new one once all operations are done |
| FsCrash.RunsStayInStep | kernel/src/fs.rs:448-577 | Over every run of commits, crashes and remounts the disk agrees with the memory of the mounted filesystem |
| FsCrash.EachStepIsAtomic | kernel/src/fs.rs:448-577 | In every run each commit either leaves the snapshot or replaces it as a whole, and does replace it once acknowledged |
| FsCrash.NothingIsLost | kernel/src/fs.rs:448-577 | In every run generations never go back, and one generation is one snapshot |
| FsDamage.DamageFallsBack | kernel/src/fs.rs:528-577 | A burst of up to four damaged bytes in the active record makes the mount use the other superblock or report corruption, never the damaged contents |
| FsDamage.UnreadableFallsBack | kernel/src/fs.rs:528-577 | A mount finds the mounted snapshot if and only if it can read the active record; otherwise it finds the older one or reports corruption |
| FsDamage.LoadMeaning | kernel/src/fs.rs:528-557 | The valid candidate with the higher generation is loaded, the first one in a tie; nothing is found exactly on two blank superblocks, and anything else is reported as corrupt |
| FsNamespace.CollectRequired | kernel/src/fs.rs:814-824 | The climbing loops collect exactly the ancestors of all entries, each once |
| FsNamespace.Climb | kernel/src/fs.rs:817-823 | The climb from one entry adds its missing ancestors and no other path |
| FsNamespace.MaterializeMissingParents | kernel/src/fs.rs:814-845 | The in-place migration computes the materialised tree |
| FsNamespace.MaterializeClosed | kernel/src/fs.rs:814-845 | On a tree that has all its parents it only sorts |
| FsNamespace.MaterializeMeaning | kernel/src/fs.rs:814-845 | The result is sorted, distinct and closed under parents, keeps every entry and adds only directories that are needed |
| FsOps.WriteMeaning | kernel/src/fs.rs:394-431 | A successful write changes exactly one entry of the tree and keeps it sorted, distinct, small and closed |
| FsOps.InsertDirectoryMeaning | kernel/src/fs.rs:864-888 | A directory is added, or an existing one gets the permissions, and nothing else changes |
| FsOps.CreateDirMeaning | kernel/src/fs.rs:239-250 | One directory is added, or an existing one gets the permissions, and nothing else changes |
| FsOps.CreateDirAllMeaning | kernel/src/fs.rs:252-279 | Only missing directories on the way to the path are added, and the path is a directory afterwards |
| FsOps.SetPermissionsMeaning | kernel/src/fs.rs:332-347 | Only the permissions of an existing entry change |
| FsOps.RemoveFileMeaning | kernel/src/fs.rs:349-367 | Exactly the file is gone after parents were materialised again |
| FsOps.RemoveDirMeaning | kernel/src/fs.rs:369-392 | Exactly the directory is gone after parents were materialised again |
| FsAccess.WriteIff | kernel/src/fs.rs:394-431 | A write succeeds exactly on a valid path under an open parent, to a writable file or to a new one while there is room; each error is returned exactly for its own reason |
| FsAccess.InsertDirectoryIff | kernel/src/fs.rs:864-888 | The same for inserting one directory |
| FsAccess.CreateDirIff | kernel/src/fs.rs:239-250 | The same for creating one directory, with the permissions checked first |
| FsAccess.CreateDirAllIff | kernel/src/fs.rs:252-279 | A file on the way is reported first, then a missing directory below one that may not be written, then the entry limit; without any of these the call succeeds |
| FsAccess.SetPermissionsIff | kernel/src/fs.rs:332-347 | Changing permissions succeeds exactly for a valid path of an existing entry and valid permissions, and each error has its own reason |
| FsAccess.RemoveFileIff | kernel/src/fs.rs:349-367 | A removal succeeds exactly for a writable file, and each error has its own reason |
| FsAccess.RemoveDirIff | kernel/src/fs.rs:369-392 | A removal succeeds exactly for a writable directory without children, and each error has its own reason |
| FsVolume.LoadRecord | kernel/src/fs.rs:559-577 | Sector by sector reading gives the specified contents or error, or a device error when a read fails |
| FsVolume.LoadLatestSnapshot | kernel/src/fs.rs:528-557 | The loops over superblocks and records select the specified snapshot for the records that could be read; a failed superblock read is reported |
| FsVolume.CreateComponents | kernel/src/fs.rs:252-279 | The loop over path components computes the specified tree or error |
| FsVolume.CodexFs.SelectRecordStart | kernel/src/fs.rs:493-525 | The search loop finds the specified slot or error |
| FsVolume.CodexFs.Prepare | kernel/src/fs.rs:448-460 | What is about to be written is the specified plan, or the same error; `FsCapacity.CommitIff` says which |
| FsVolume.CodexFs.CommitFiles | kernel/src/fs.rs:448-491 | Success performs exactly the planned operations and flushes them; a refusal is the planner's and touches nothing; a device error needs a failing device, leaves memory alone and the disk partly done |
| FsVolume.CodexFs.Store | kernel/src/fs.rs:427-431 | The tree is stored whenever it is acceptable and the device works; a failed store keeps the old tree, and whatever survives on the disk mounts as the old or the new tree |
| FsVolume.CodexFs.WriteFile | kernel/src/fs.rs:394-431 | The call succeeds whenever the specified operation does, its tree is acceptable and the device works; a failure reports the operation's or the planner's error and is atomic |
| FsVolume.CodexFs.CreateDir | kernel/src/fs.rs:239-250 | As above; a tree that does not change is not written at all |
| FsVolume.CodexFs.CreateDirAll | kernel/src/fs.rs:252-279 | As above; a tree that does not change is not written at all |
| FsVolume.CodexFs.SetPermissions | kernel/src/fs.rs:332-347 | As above; a tree that does not change is not written at all |
| FsVolume.CodexFs.RemoveFile | kernel/src/fs.rs:349-367 | As for a write, and the file is absent afterwards |
| FsVolume.CodexFs.RemoveDir | kernel/src/fs.rs:369-392 | As for a write, and the directory is absent afterwards |
| FsVolume.CodexFs.VerifyCommittedState | kernel/src/fs.rs:433-441 | Whatever is on the disk, verification passes only if the snapshot found there is the one in memory, and exactly then when the device can be read; it takes over where the record lies and changes nothing else |
| FsVolume.MountOrFormat | kernel/src/fs.rs:157-189 | A live image is never written to; it is mounted as it is when it can be read, and otherwise as it is or at an older generation; with a working device the outcome is decided by the image: mounted, reported as corrupt, or formatted exactly on two blank superblocks |
| FsVolume.WhatMounts | kernel/src/fs.rs:157-189 | The three outcomes of a mount in terms of superblock sectors and the records they name |
| FsVolume.Format | kernel/src/fs.rs:174-187 | Formatting commits the empty tree as generation 1, and succeeds on a working device |
| PageEntry.EntryParts | kernel/src/vm.rs:1264-1289 | Address and permission bits are read back from a made entry |
| PageEntry.MaskedIff | kernel/src/vm.rs:1287-1289 | The address mask keeps exactly page-aligned addresses below 2^52 |
| PageEntry.SameIndicesIffSamePage | kernel/src/vm.rs:1245-1252 | Two addresses share all four indices if and only if they share their 48-bit page |
| VmTables.DescendIsFindKey | kernel/src/vm.rs:882-901 | Following a physical address to the next table finds the table with the extended key |
| VmTables.WalkIsLeaf | kernel/src/vm.rs:671-777 | The four-level walk reads the one leaf stored for the address |
| VmTables.AttachLinked | kernel/src/vm.rs:612-669 | Linking a fresh empty table keeps the tree |
| VmTables.EntryIsLeaf | kernel/src/vm.rs:854-880 | Writing one slot changes one leaf and no other |
| VmManager.VirtualMemoryManager.GetOrCreateL3 | kernel/src/vm.rs:612-626 | The table exists afterwards and no leaf changed |
| VmManager.VirtualMemoryManager.GetOrCreateL2 | kernel/src/vm.rs:628-647 | The table exists afterwards and no leaf changed |
| VmManager.VirtualMemoryManager.GetOrCreateL1 | kernel/src/vm.rs:649-669 | The table exists afterwards and no leaf changed |
| VmManager.VirtualMemoryManager.WriteLeaf | kernel/src/vm.rs:866-880 | A free slot is filled, an equal entry is a repeat, a different one a conflict |
| VmManager.VirtualMemoryManager.EnsureLeafMapping | kernel/src/vm.rs:854-880 | Success adds exactly one leaf; a repeat, a conflict and a shortage leave every leaf, and each is reported only for its own reason |
| VmManager.MappingTranslates | kernel/src/vm.rs:775-777 | After a mapping the page translates to its frame and every other page as before |
| VmManager.SameTranslations | kernel/src/vm.rs:775-777 | Equal leaves mean equal translations |
| VmManager.VirtualMemoryManager.MapFixedRange | kernel/src/vm.rs:419-469 | Success maps every page of the range, with frames counted modulo 2^64, and returns how many were new; it needs that no page is mapped otherwise, and each error is returned for its own reason only; nothing outside changes and no mapping is replaced |
| VmManager.VirtualMemoryManager.MapIdentityRange | kernel/src/vm.rs:302-340 | Every address of the range maps to itself and the number of new pages is returned; a conflict means a page mapped otherwise, a shortage fewer than three tables a page; only pages of the rounded range change |
| VmProgram.ValidateMeaning | kernel/src/vm.rs:1181-1238 | Validation accepts exactly the programs with good, page-disjoint segments, never both writable and executable, and an entry in executable data |
| VmProgram.ReportIsTrue | kernel/src/vm.rs:1181-1238 | A refused program is reported by the defect of its first bad segment, or by its entry point exactly when all segments are in order |
| VmProgram.CopyIsImage | kernel/src/vm.rs:1081-1097 | Copying the part of the data that falls on a page gives the page's image, zero elsewhere |
| VmUser.ShapeIsWalk | kernel/src/vm.rs:1367-1382 | The walk over raw table bytes finds exactly the leaves that were entered |
| VmUser.OnlyLeaves | kernel/src/vm.rs:1326-1365 | Under the user entry of the root the walk finds nothing but the leaves that were entered, at any address |
| VmUser.Machine.AllocateOwnedZeroedPage | kernel/src/vm.rs:1291-1308 | A page is cleared and recorded, or given back; it is lost exactly when the direct map cannot reach it, and stuck exactly when giving it back fails |
| VmUser.Machine.AllocateZeroedPage | kernel/src/vm.rs:1291-1297 | The page leaves the pool and is cleared, and no other page changes |
| VmUser.Machine.DeallocatePage | kernel/src/memory.rs:395-397 | The page is back among the unused ones, in the pool or stuck outside it with a failure reported |
| VmUser.Machine.RawMapUserPage | kernel/src/vm.rs:1326-1365 | One leaf is added through tables created on the way; all other pages keep their bytes |
| VmUser.Machine.NextTable | kernel/src/vm.rs:1334-1350 | One level down: the table that is there, or a fresh one linked in with nothing below it |
| VmUser.Machine.EnterLeaf | kernel/src/vm.rs:1352-1365 | The leaf is written into the last table and no page off the path changes |
| VmUser.Machine.LoadPage | kernel/src/vm.rs:1080-1112 | A page of a segment is filled and entered, and earlier pages stay |
| VmUser.Machine.FillPage | kernel/src/vm.rs:1080-1097 | The new page holds the segment's bytes and zeros |
| VmUser.Machine.CopyData | kernel/src/vm.rs:1081-1097 | Exactly the page's image is copied, and no other page changes |
| VmUser.Machine.LoadSegment | kernel/src/vm.rs:1067-1116 | Every page of the segment is placed with its permissions, the first executable page is noted, and a shortage means that the pool or the record ran out before the pages it needs |
| VmUser.Machine.LoadSegments | kernel/src/vm.rs:1065-1116 | All segments are placed, their bytes are counted, and the first executable page is the one of the first executable segment |
| VmUser.Machine.CopyKernelRoot | kernel/src/vm.rs:1050-1063 | The new root is a copy of the kernel's whose user entry must be free |
| VmUser.Machine.AddStack | kernel/src/vm.rs:1118-1150 | The stack page is mapped and the finished space reports root, entry, stack pointer, frames, byte count and flags as they are |
| VmUser.Machine.Restore | kernel/src/vm.rs:1152-1155 | All pages taken go back to the pool, and the first error stands unless giving back fails |
| VmUser.Machine.BuildUserSpace | kernel/src/vm.rs:1049-1155 | A finished space reads back every segment, with a stack and stack pointer ready for use; otherwise the error tells which resource was short and the pages taken are all accounted for |
| VmUser.Machine.CreateUserAddressSpace | kernel/src/vm.rs:1042-1156 | A created space reads back each segment's bytes with zero fill and its permissions, has a zeroed writable stack under its stack pointer, names its code and stack frames, maps no other user page, has no page writable and executable, owns exactly the pages it needs and leaves kernel memory untouched; every refusal has its exact cause, and failure restores the pool exactly if the direct map reaches all its pages and they can be given back |
| VmUser.NeverRefused | kernel/src/vm.rs:1042-1156 | With a good program, a free user region and enough pages within the record, creation is refused only if some pool page is out of reach of the direct map |
| VmUser.SpaceFinished | kernel/src/vm.rs:1128-1150 | The reported flags, frames, byte count, stack pointer and every byte of a built space are those of the segments, and nothing else is mapped |
| VmUser.Machine.DestroyUserAddressSpace | kernel/src/vm.rs:1158-1167 | Destroying returns exactly the pages taken and refuses the active space; it fails exactly if a page could not be given back |
| VmUser.Machine.Reclaim | kernel/src/vm.rs:94-112 | Every recorded page is cleared and given back; failure is reported exactly if one could not be, and the others still are |
| VmUser.Ownership.Record | kernel/src/vm.rs:85-92 | A page is recorded unless the record is full |
| Heap.Conservation | libs/heap-allocator/src/lib.rs:376-561 | Used plus free bytes are the capacity |
| Heap.AllReleased | libs/heap-allocator/src/lib.rs:500-561 | With nothing live there is one free block of full capacity |
| Heap.UserWriteIsHarmless | libs/heap-allocator/src/lib.rs:376-449 | Writing inside one's own allocation disturbs neither the heap nor another allocation |
| Heap.AddressAligned | libs/heap-allocator/src/lib.rs:376-400 | An aligned offset is an aligned address if and only if the base is aligned |
| Heap.MisalignedAddress | libs/heap-allocator/src/lib.rs:376-449 | A concrete heap that answers a request for 64-byte alignment with an address that is not |
| HeapSteps.CarveOk | libs/heap-allocator/src/lib.rs:376-449 | Taking a block, with or without a rest, keeps tiling, list, headers and every other allocation |
| HeapSteps.ReleaseCoalesced | libs/heap-allocator/src/lib.rs:500-561 | After a release no two free blocks touch |
| HeapSteps.InsertList | libs/heap-allocator/src/lib.rs:500-561 | Linking a block keeps the list in address order |
| HeapSteps.MergeList | libs/heap-allocator/src/lib.rs:500-561 | Merging with a neighbour keeps the list |
| Heap.ReclaimingHeap.constructor | libs/heap-allocator/src/lib.rs:335-351 | A new heap is one free block of full capacity |
| Heap.ReclaimingHeap.WriteFreeBlock | libs/heap-allocator/src/lib.rs:574-576 | Size and link are written into the storage at the block |
| Heap.ReclaimingHeap.Redirect | libs/heap-allocator/src/lib.rs:421-427 | The head or the previous block's link leads to the target, and no other byte changes |
| Heap.ReclaimingHeap.Allocate | libs/heap-allocator/src/lib.rs:376-449 | The result lies in one new live block of the asked size, it is aligned exactly when the base is, no byte of another allocation changes, and failure means no block fits |
| Heap.ReclaimingHeap.TakeBlock | libs/heap-allocator/src/lib.rs:402-446 | The free block becomes a live one and, if worth keeping, a free rest |
| Heap.ReclaimingHeap.Deallocate | libs/heap-allocator/src/lib.rs:451-498 | Exactly the block is released and merged with its free neighbours, and every other allocation keeps its bytes; a pointer without a valid header changes nothing |
| Heap.ReclaimingHeap.InsertFreeBlock | libs/heap-allocator/src/lib.rs:500-561 | The ordered, coalesced list is restored in the storage itself |
| Heap.ReclaimingHeap.Statistics | libs/heap-allocator/src/lib.rs:136-163 | The list walk reports the exact free bytes and the largest block, and free plus used is the capacity |
| Heap.ExpandableHeap.InitializeExternal | libs/heap-allocator/src/lib.rs:203-229 | External storage is accepted exactly when aligned, large enough, not yet set and apart from the bootstrap heap |
| Heap.ExpandableHeap.Allocate | libs/heap-allocator/src/lib.rs:275-287 | Allocation comes from external storage if it can and leaves the other heap alone |
| Heap.ExpandableHeap.Deallocate | libs/heap-allocator/src/lib.rs:289-304 | A pointer goes back to the heap it came from, and one that neither heap accepts changes nothing |
| PagePool.AllocateMeaning | kernel/src/memory.rs:126-166 | Allocation returns pages outside the live set, adds exactly them, keeps the counter exact and the extents merged, and fails exactly when nothing fits |
| PagePool.DeallocateMeaning | kernel/src/memory.rs:168-236 | A true result removes exactly the range from the live set, a false one changes nothing, and it is true exactly for live pages of one region when the table has room or a neighbour |
| PagePool.RunsStayInside | kernel/src/memory.rs:182-189 | Between regions with gaps, a run of handed-out pages lies in one region |
| PagePool.LiveBlocksReturn | kernel/src/memory.rs:168-236 | With gaps and a free slot, a return succeeds if and only if its pages are live |
| PagePool.SpanningBlockStaysOut | kernel/src/memory.rs:182-196 | Over touching regions a block can be handed out that no single call returns |
| PageRegions.ExactlyUnreserved | kernel/src/memory.rs:95-120 | The managed pages are exactly the whole pages of usable regions that no reserved range touches, with rounding and saturation |
| PageRegions.TableApart | kernel/src/memory.rs:278-371 | The regions of the table never overlap |
| PageRegions.FragmentCount | kernel/src/memory.rs:278-349 | A region falls into at most one piece more than it has reserved ranges inside |
| PageRegions.TableFits | kernel/src/memory.rs:351-371 | The table of 152 regions never drops a fragment of a disjoint memory map |
| PhysicalMemory.CutRegion | kernel/src/memory.rs:278-344 | The two buffers of seventeen spans never overflow and hold exactly the fragments |
| PhysicalMemory.CutActive | kernel/src/memory.rs:301-336 | One reserved range is cut out of every span in order |
| PhysicalMemory.PushCut | kernel/src/memory.rs:302-336 | The pieces one reserved range leaves of one span are appended while the buffer has room |
| PhysicalMemory.PushSpan | kernel/src/memory.rs:430-437 | A non-empty span is appended while the buffer has room |
| PhysicalMemory.PhysicalPageAllocator.Init | kernel/src/memory.rs:95-120 | The table is the memory map cut around the reserved ranges, with no page handed out |
| PhysicalMemory.PhysicalPageAllocator.AddRegionFragments | kernel/src/memory.rs:278-349 | The fragments are appended in order while the table has room |
| PhysicalMemory.PhysicalPageAllocator.PushRegion | kernel/src/memory.rs:351-371 | The whole pages of a span become a region, and the total counts them |
| PhysicalMemory.PhysicalPageAllocator.RemoveFreeExtent | kernel/src/memory.rs:238-244 | Shifting the array removes one extent |
| PhysicalMemory.PhysicalPageAllocator.InsertFreeExtent | kernel/src/memory.rs:228-232 | Shifting the array makes room for one extent |
| PhysicalMemory.PhysicalPageAllocator.CoalesceFreeExtents | kernel/src/memory.rs:246-259 | The loop merges all touching extents and keeps the pages |
| PhysicalMemory.PhysicalPageAllocator.AllocateContiguousPages | kernel/src/memory.rs:126-166 | The address of pages nobody held, which are the only ones newly held |
| PhysicalMemory.PhysicalPageAllocator.FindExtent | kernel/src/memory.rs:134-138 | The first extent that is large enough |
| PhysicalMemory.PhysicalPageAllocator.TakeFromExtent | kernel/src/memory.rs:140-149 | Pages are taken off the front of an extent, which disappears when empty |
| PhysicalMemory.PhysicalPageAllocator.TakeFromRegion | kernel/src/memory.rs:157-162 | The region's cursor moves on |
| PhysicalMemory.PhysicalPageAllocator.WasAllocated | kernel/src/memory.rs:182-189 | Whether one region has handed out the whole range |
| PhysicalMemory.PhysicalPageAllocator.OverlapsFree | kernel/src/memory.rs:190-193 | Whether some page of the range is free already |
| PhysicalMemory.PhysicalPageAllocator.FindPlace | kernel/src/memory.rs:198-201 | The position that keeps the table sorted |
| PhysicalMemory.PhysicalPageAllocator.GrowLeft | kernel/src/memory.rs:202-213 | The extent in front grows and joins the one behind if they touch |
| PhysicalMemory.PhysicalPageAllocator.GrowRight | kernel/src/memory.rs:217-221 | The extent behind grows to the front |
| PhysicalMemory.PhysicalPageAllocator.InsertAndCoalesce | kernel/src/memory.rs:228-234 | Inserting an extent that touches no neighbour leaves nothing to coalesce |
| PhysicalMemory.PhysicalPageAllocator.ReturnPages | kernel/src/memory.rs:198-236 | A return is merged with the neighbours it touches, or refused when it touches none and the table is full |
| PhysicalMemory.PhysicalPageAllocator.DeallocateContiguousPages | kernel/src/memory.rs:168-236 | Exactly the given pages are released, or nothing changes, for every byte address and count |
| UpdateFormat.EncodeBootState | libs/update-format/src/lib.rs:106-117 | The filled buffer is the record with its checksum |
| UpdateFormat.BootStateRoundTrip | libs/update-format/src/lib.rs:106-157 | An encoded boot state is read back if and only if generation and version are not zero |
| UpdateFormat.BootStateCanonical | libs/update-format/src/lib.rs:119-157 | Arbitrary bytes decode to a state if and only if they are its encoding |
| UpdateFormat.BootStateDamage | libs/update-format/src/lib.rs:119-157 | Damage of up to four neighbouring bytes is noticed, unless it touches both the last byte in front of the checksum and the first of the checksum |
| UpdateFormat.TailDamage | libs/update-format/src/lib.rs:119-157 | Any damage that leaves the bytes in front of the checksum alone is noticed |
| UpdateFormat.ManifestRoundTrip | libs/update-format/src/lib.rs:222-323 | A manifest survives its encoding if and only if it has the current format and all fields are filled in |
| UpdateFormat.ManifestCanonical | libs/update-format/src/lib.rs:222-323 | Arbitrary bytes decode to a manifest if and only if they are its encoding in its own format and all its fields are filled in |
| UpdateFormat.SigningBytesDetermine | libs/update-format/src/lib.rs:222-246 | The signed bytes determine every field but the signature |
| Boot.DirectBoot | boot/uefi-loader/src/main.rs:548-577 | A boot is direct exactly when the newest boot state names a slot with the promised release that the floor admits |
| Boot.BootSucceedsIff | boot/uefi-loader/src/main.rs:548-672 | The exact condition on slots, boot state and floor under which a boot succeeds |
| Boot.LatestIsNewest | boot/uefi-loader/src/main.rs:740-758 | The state in charge is a readable one of the highest generation, the first file's in a tie, and there is none only if neither decodes |
| Boot.ScanTakesNewest | boot/uefi-loader/src/main.rs:624-672 | Without a boot state the newest admissible release is booted, slot A in a tie |
| Boot.ActiveOrOther | boot/uefi-loader/src/main.rs:548-622 | With a boot state the active slot is booted exactly when it is bootable, and otherwise the other one, as a recovery with the next generation |
| Boot.NextBootIsDirect | boot/uefi-loader/src/main.rs:548-721 | After a successful boot by any path the next one takes the same slot, and does so directly except exactly after a fallback at the last generation |
| Boot.BootKeepsFloor | boot/uefi-loader/src/main.rs:548-792 | Whatever fails, one boot moves the floor up at most, boots only a release that passed every check and lies at or above the floor, and writes no file but the boot states |
| Boot.VersionsNeverFall | boot/uefi-loader/src/main.rs:548-672 | Over any sequence of boots, with any disk contents and trusted keys at each and any call failing, the booted versions never go down |
| Boot.Platform.EnforceReleaseVersion | boot/uefi-loader/src/main.rs:953-982 | A release below the floor is rejected, one above raises it, and a failed read or write of the floor rejects and leaves it |
| Boot.Platform.LoadSystemSlot | boot/uefi-loader/src/main.rs:760-792 | A loaded slot holds a verified release at or above the floor, which then is its version; the floor never falls |
| Boot.Platform.LoadBootState | boot/uefi-loader/src/main.rs:740-758 | The loop over both files selects the newest valid state among those it can read |
| Boot.Platform.WriteVerifiedBootState | boot/uefi-loader/src/main.rs:723-738 | Success means the file decodes to the state; failure leaves it written, untouched or in pieces; other files are untouched |
| Boot.Platform.RepairBootState | boot/uefi-loader/src/main.rs:674-697 | Both copies name the slot, the second is the newest |
| Boot.Platform.PersistFallbackBootState | boot/uefi-loader/src/main.rs:699-721 | The newest state names the slot that worked |
| Boot.Platform.RecoverFromMissingBootState | boot/uefi-loader/src/main.rs:624-672 | Without a boot state the newest release that loads is taken and recorded |
| Boot.Platform.LoadKernelImage | boot/uefi-loader/src/main.rs:548-622 | Every execution, with any call failing, is one of the specified boots; with a working platform result, generation, floor and disk are exactly the specified ones |
| Update.SpareSlotIsSpare | xtask/src/main.rs:1286-1301 | While the inactive slot is rewritten the loader boots the old release |
| Update.TornStateKeepsOld | xtask/src/main.rs:1312-1317 | A boot state that was not completed, whether in pieces or not begun, leaves the old one in charge |
| Update.NewStateTakesOver | xtask/src/main.rs:1303-1320 | A complete boot state makes the loader boot the new release |
| Update.CutIsUpdated | xtask/src/main.rs:1267-1343 | After any number of the five writes, with the next one torn, the image boots exactly the old or exactly the new release; after all five, both slots hold the new one |
| Update.PlanIs | xtask/src/main.rs:1267-1343 | The five writes spelled out: the spare slot, the next state, the slot that was running; none without a newer version, and two when the generation cannot rise |
| Update.FirstImageHealthy | xtask/src/main.rs:509-532 | A freshly built image boots its release, with a second copy |
| Update.InstallSlot | xtask/src/main.rs:1293-1301 | The two writes of a slot are performed up to where it stopped; success means both and a release that passes every check, and on a reliable platform such a release succeeds |
| Update.ApplySignedUpdate | xtask/src/main.rs:1267-1343 | The writes for the boot state that was seen are performed up to where it stopped, and all five on success; a reliable platform installs a genuine release exactly when it is newer and the generation can rise; a release that fails a check never gets past the spare slot; when the newest state was seen the image boots exactly the old or exactly the new release |
| Update.SwitchSlots | xtask/src/main.rs:1303-1338 | The boot state and then the second slot are written up to where it stopped |
| Update.AlwaysBoots | xtask/src/main.rs:1267-1343 | Through any number of updates, each stopped after any of its writes or inside one, and boots, the system boots directly and its version never goes down |
| UpdateFaults.MisreadIsSafeIff | xtask/src/main.rs:1267-1362 | The exact condition under which an update that follows the older boot state is bootable at every stop |
| UpdateFaults.MismatchLocksOut | boot/uefi-loader/src/main.rs:548-622 | A concrete image with two good releases on which no boot ever succeeds again |
| UpdateFaults.RunningSlotReplaced | xtask/src/main.rs:1286-1301 | Replacing the release of the running slot with a newer one leaves nothing that boots if the other slot is older |
| UpdateFaults.MisreadLocksOut | xtask/src/main.rs:1345-1362 | A concrete healthy image on which an update that could not read the newest boot state stops with nothing left that boots |
| Scheduling.TurnComesCloser | kernel/src/scheduler.rs:271-275 | The next process is a given runnable one, or one that brings the turn closer to it |
| Scheduling.RunsStayGood | kernel/src/scheduler.rs:277-350 | In every run the process with the turn is runnable, and the kernel gets control back only when all have exited or faulted |
| Scheduling.ServiceIs | kernel/src/scheduler.rs:662-706 | What each vector and call does to the process, its registers and its counters, and that exactly timer, exit, yield, sleep and faults end the turn |
| Scheduling.AnswersAtOnce | kernel/src/scheduler.rs:684-692 | Any other trap answers the same process at once and changes nothing but its call counter |
| Scheduling.WakesInTime | kernel/src/scheduler.rs:256-263 | After a turn ends exactly the sleepers whose tick has come are runnable |
| Scheduling.NextIsFirstReady | kernel/src/scheduler.rs:271-309 | The turn goes to the first process in the circle that is ready, and time passes only if none was |
| Scheduling.NobodyLeft | kernel/src/scheduler.rs:293-313 | The kernel gets control back exactly when all processes have exited or faulted |
| Scheduling.GoesOnWithOwnFrame | kernel/src/scheduler.rs:277-339 | The next process goes on with its own frame, or with the answered one if it keeps the turn |
| Scheduling.TimerPreempts | kernel/src/scheduler.rs:271-339 | At a timer tick with another process ready the turn goes to the first such one, with its frame, and the preempted one stays runnable with the frame it was stopped at |
| Scheduling.TrapCounts | kernel/src/scheduler.rs:314-324 | Every trap keeps identities, and counts exactly the system call made and the turn given |
| Scheduling.ResumesWhereStopped | kernel/src/scheduler.rs:277-339 | In every run a process resumes with exactly the frame it was last stopped with, or its first one |
| Scheduling.FirstTurnIsClean | kernel/src/scheduler.rs:103-130 | In every run a fresh process starts at its entry point, on its own stack and with cleared registers, whoever ran before |
| Scheduling.NeverEarly | kernel/src/scheduler.rs:256-263 | In every run a sleeping process does not run before its tick |
| Scheduling.SleepIsHonoured | kernel/src/scheduler.rs:686-691 | In every run a process that asks to sleep does not run until that many ticks have passed, also when the sum saturates |
| Scheduling.NeverAfterEnd | kernel/src/scheduler.rs:662-706 | In every run a process that exited or faulted keeps its outcome and never runs again |
| Scheduling.EndIsFinal | kernel/src/scheduler.rs:676-702 | In every run an exit keeps its status, and a fault its vector, address and code |
| Scheduling.TurnWithinN | kernel/src/scheduler.rs:271-339 | In every run a process that stays runnable waits through fewer ends of turns than there are processes, counting every timer tick, exit, yield, sleep and fault |
| Scheduler.SchedulerState.constructor | kernel/src/scheduler.rs:536-555 | The first process is entered with its own page table and stack |
| Scheduler.SchedulerState.WakeSleepers | kernel/src/scheduler.rs:256-263 | Exactly the sleepers whose tick has come become runnable |
| Scheduler.SchedulerState.HasSleepers | kernel/src/scheduler.rs:265-269 | Whether some process sleeps |
| Scheduler.SchedulerState.PutAway | kernel/src/scheduler.rs:281-291 | The running process keeps its frame unless it has finished; a frame without user stack is refused |
| Scheduler.SchedulerState.NextRunnable | kernel/src/scheduler.rs:271-275 | The modular search finds the first runnable process in the circle |
| Scheduler.SchedulerState.Idle | kernel/src/scheduler.rs:301-308 | The idle loop ends, with someone awake or nobody asleep |
| Scheduler.SchedulerState.FindNext | kernel/src/scheduler.rs:293-309 | Time passes only if nobody was runnable |
| Scheduler.SchedulerState.Enter | kernel/src/scheduler.rs:320-338 | The process runs on its own page table and kernel stack, or the kernel takes over with a failure on record |
| Scheduler.SchedulerState.Schedule | kernel/src/scheduler.rs:277-339 | One rescheduling is the specified one; the counters count switches and preemptions |
| Scheduler.SchedulerState.ReturnToKernel | kernel/src/scheduler.rs:341-350 | The trap returns in kernel mode on the kernel's page table |
| Scheduler.SchedulerState.HandleUserTrap | kernel/src/scheduler.rs:662-706 | A trap is handled exactly if its vector is known; state, registers and counters are then the specified ones |
| Checksum.ChecksumSum | kernel/src/network.rs:2206-2216 | The wrapping accumulator is the sum of words modulo 2^32, and exact for every packet |
| Checksum.FinishChecksum | kernel/src/network.rs:2218-2223 | The folding loop gives the complement of the representative modulo 65535 |
| Checksum.SumChecks | kernel/src/network.rs:2185-2223 | A sum completed by its checksum checks, also with all ones in place of zero |
| Checksum.PassesIff | kernel/src/network.rs:2185-2187 | A packet passes if and only if its sum is a positive multiple of 65535 |
| Checksum.ChangePasses | kernel/src/network.rs:2185-2223 | A changed word is missed if and only if it went between 0x0000 and 0xFFFF |
| TcpFrame.ComputeTransportChecksum | kernel/src/network.rs:2189-2204 | The checksum over pseudo header and segment, or one for a segment that is too long |
| TcpFrame.FillTcp | kernel/src/network.rs:1602-1622 | Header, payload and checksum of the segment are filled in behind the IP header |
| TcpFrame.BuildTcpFrame | kernel/src/network.rs:1560-1624 | The buffer holds exactly the frame, padded to 60 bytes, and is refused exactly above 1460 payload bytes |
| TcpFrame.FrameRoundTrip | kernel/src/network.rs:1703-1817 | Every frame built from a payload that fits is accepted by both parsers and gives back numbers, six flags, peer and payload |
| TcpParse.ListenerIff | kernel/src/network.rs:1760-1817 | The listener's parser accepts a frame if and only if it carries a TCP segment for its address and port, with valid lengths, no fragment and both checksums right |
| TcpParse.ListenerAccepts | kernel/src/network.rs:1760-1817 | The accepted segment gives back sender, numbers, flags and payload as they stand in the frame |
| TcpParse.ClientIff | kernel/src/network.rs:1703-1758 | The client's parser accepts a frame if and only if it carries such a segment of the expected peer and ports |
| TcpParse.ClientAccepts | kernel/src/network.rs:1703-1758 | The accepted segment gives back numbers, flags and payload as they stand in the frame |
| TcpFrame.DamagedChecks | kernel/src/network.rs:2189-2204 | The segment of a built frame with one changed word checks if and only if the word went between 0x0000 and 0xFFFF |
| TcpFrame.DamagedIsRejected | kernel/src/network.rs:1703-1817 | Every built frame with one word of its segment changed in any other way is rejected by both parsers, whatever peer they expect |
| TcpConnections.PortsDiffer | kernel/src/network.rs:1845-1849 | Two ports of one address are answered with different first sequence numbers |
| TcpConnections.RespondIsLocal | kernel/src/network.rs:501-744 | A frame changes at most the slot of the peer it came from |
| TcpConnections.FullTableRefuses | kernel/src/network.rs:606-619 | A full table resets a new peer and drops nobody |
| TcpConnections.AnswersAcknowledge | kernel/src/network.rs:501-787 | Every answer goes back to the sender and acknowledges exactly the sequence numbers its segment takes up |
| TcpConnections.AnswersAdvance | kernel/src/network.rs:564-787 | After an answer the table expects exactly what was acknowledged and continues exactly behind what was sent, across wrap-around |
| TcpConnections.RunsStayUnique | kernel/src/network.rs:501-800 | Over any frames and expiries no two slots hold the same peer |
| TcpConnections.ServedAtMostAccepted | kernel/src/network.rs:555-656 | Over any frames and expiries, and for each peer, at most as many requests are served as connections accepted |
| TcpConnections.ServedLeaves | kernel/src/network.rs:564-603 | A served request is recognised by its numbers, for all sequence numbers and across wrap-around |
| TcpConnections.RepeatedRequest | kernel/src/network.rs:746-787 | A repeated request gets the identical answer, with no event and no counter change |
| TcpConnections.RepeatsAreAnswered | kernel/src/network.rs:746-787 | The same in every run, as long as the connection is in one of the closing phases |
| TcpOutcomes.AnswerIff | kernel/src/network.rs:501-787 | Which segments are answered and how: opened, served, repeated, acknowledged, reset, each exactly under its condition on flags, numbers, phase and payload |
| TcpOutcomes.EntryAfter | kernel/src/network.rs:501-787 | The connection kept for the sender after any segment: phase, both numbers and time |
| TcpOutcomes.CountersAfter | kernel/src/network.rs:501-787 | The served and closed counters rise exactly with a served request and an acknowledged close |
| TcpOutcomes.WhenOpened | kernel/src/network.rs:606-656 | An opening segment with room in the table is answered with both flags and the numbers of a new connection |
| TcpOutcomes.WhenServed | kernel/src/network.rs:555-603 | A supported request gets the response with the right numbers and moves the connection to its first closing phase |
| TcpOutcomes.WhenRepeated | kernel/src/network.rs:746-787 | A repeated request gets the same response and only refreshes the connection |
| TcpOutcomes.WhenAcknowledged | kernel/src/network.rs:699-744 | An acknowledgement moves the phase on, and a close with it is acknowledged and ends the connection |
| TcpOutcomes.WhenRefused | kernel/src/network.rs:606-687 | What cannot be served is reset with the number behind the segment, and an unsupported request loses its connection |
| TcpOutcomes.WhenAborted | kernel/src/network.rs:511-516 | A reset ends the connection and is not answered |
| TcpOutcomes.WhenIgnored | kernel/src/network.rs:501-604 | Every other segment changes and sends nothing |
| TcpOutcomes.SupportedIff | kernel/src/network.rs:1826-1828 | A request is supported exactly when it starts with one of the two methods and a path |
| TcpOutcomes.ResponseText | kernel/src/network.rs:57 | The 108 bytes of the response as text, whose announced length is that of its body |
| TcpOutcomes.ExpiredIff | kernel/src/network.rs:789-800 | An expiry ends exactly the connections that have been silent for 3000 ticks, and no counter changes |
| TcpOutcomes.RequestIsServed | kernel/src/network.rs:501-603 | In every run a supported request in step with the connection it follows is served, whatever other peers send and however often idle connections expire in between, as long as this one does not |
| TcpListener.TcpServer.constructor | kernel/src/network.rs:482-489 | The table starts empty |
| TcpListener.TcpServer.ConnectionIndex | kernel/src/network.rs:689-697 | The first slot of the peer |
| TcpListener.TcpServer.Accept | kernel/src/network.rs:606-656 | The peer's slot or the first free one is set up afresh and acknowledged |
| TcpListener.TcpServer.SendReset | kernel/src/network.rs:658-687 | The reset acknowledges everything the segment occupies |
| TcpListener.TcpServer.ControlSegment | kernel/src/network.rs:699-744 | An acknowledgement moves the phase on, a close empties the slot and is acknowledged |
| TcpListener.TcpServer.RetransmitResponse | kernel/src/network.rs:746-787 | The response is sent again only for the request that was served |
| TcpListener.TcpServer.ServeRequest | kernel/src/network.rs:555-603 | A supported request is answered and counted once, an unsupported one is reset; `TcpOutcomes.WhenServed` and `WhenRefused` spell both out |
| TcpListener.TcpServer.HandleFrameAt | kernel/src/network.rs:501-604 | An unreadable frame changes nothing; for any other, table and transmitted bytes are the specified ones, which `TcpOutcomes.AnswerIff` and `EntryAfter` spell out |
| TcpListener.TcpServer.Answer | kernel/src/network.rs:510-603 | The dispatch on flags, peer, payload and phase |
| TcpListener.TcpServer.ExpireIdleConnections | kernel/src/network.rs:789-800 | Exactly the connections idle for 3000 ticks are dropped, and their number is returned |

## Left out

- Use of a filesystem after a failed write without mounting it again.
- Version-1 and version-2 records in the claims about namespaces and slots; the decoder itself is modelled with them.
- `list_dir`, `metadata`, `read_file` and `info` of the filesystem: lookups on the modelled tree.
- The `mappings` list of the virtual memory manager, `map_range`, `map_window_range`, `prepare_boot_identity_map`, `sync_pages` and `kernel_page_mappings`: bookkeeping and calls of the modelled operations.
- VmManager.VirtualMemoryManager.EnsureLeafMapping: takes fresh table pages from a given supply; that they are distinct is the page allocator's part.
- VmUser.Machine.CreateUserAddressSpace: with a pool that the direct map reaches in part, whether a page is lost depends on which one the pool hands out; the contract then only says that at most one is.
- VmUser.Machine.DeallocatePage: the pool of the user spaces is a set, so giving a page back fails at any time or never, instead of exactly when the free-extent table is full.
- Heap.ReclaimingHeap.Deallocate: requires a live pointer or one whose header is refused, as the source's contract for unsafe deallocation does; a header that a user forged is neither. Failure counters and peak usage are not modelled.
- The spin lock around the heap and the page allocator, and the kind recorded for each memory region.
- PhysicalMemory.PhysicalPageAllocator.Init: takes the firmware mode's verdict on each region as a flag.
- Trust-root rotation: verification is one fixed predicate, so claims about booting again are for manifests that name no next key. `TrustRootState` has the layout of a boot state and would add nothing harder.
- Scheduler.SchedulerState.Halt: the clock moves on with every wake-up; other interrupts would only repeat the loop.
- Building processes, their reports and the gates in scheduler.rs: fixed scenarios on the modelled operations.
- TcpListener.TcpServer.HandleFrameAt: the parsed payload is passed on instead of being cut out of the frame twice.
- DHCP, ARP, ICMP, DNS, the HTTP client, the device driver and the virtqueues: fixed layouts and waiting loops.
- Desktop, graphics, fonts, keyboard, user ELF parsing, image building and the test runners.
