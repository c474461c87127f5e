# Verified models of the storage stack, the allocators and the editor buffer

This project models four parts of the operating system and proves what they promise.

1. **The FAT engine** (`fatfs/ff.c` as configured by `fatfs/ffconf.h`: read/write, short names in code page 437,
   no exFAT, one 512-byte window per volume and one private sector buffer per file), bottom up:
   - `Bytes.dfy`, `Geometry.dfy`: little-endian loads and stores, volume layout and sector arithmetic.
   - `Mount.dfy`: from boot sector to layout, with the 32-bit sums of the source.
   - `FatTable.dfy`, `FatBits.dfy`: the FAT as bytes of the device, as a table of entries, and as a row of bits.
   - `Chains.dfy`, `Forest.dfy`: what allocating and removing clusters do to that table, on any table, on well-formed
     chains, and over whole runs.
   - `Volume.dfy`, `VolumeRuns.dfy`: the class `FatFs`: device, write-back window, FAT access, allocation, counting,
     synchronising; the two FAT copies over whole runs.
   - `FileData.dfy`, `FileState.dfy`, `OpenFile.dfy`, `OtherFiles.dfy`, `FileRuns.dfy`: the class `FIL`, an open file,
     as a byte vector with a cursor, what its operations leave to other files, and durability.
   - `Directory.dfy`, `DirSpace.dfy`, `DirFiles.dfy`, `DirObject.dfy`: the class `DIR`, a directory, as a finite set of
     11-byte names with a number of slots; what its operations leave to the files.
   - `Names.dfy`: the 8.3 name parser and printer.
2. **The kernel heap** (`heap.c`): `Heap.dfy`, first fit with headers inside the managed memory; `HeapRuns.dfy`, the
   same to its users, as a store of independent byte blocks.
3. **Frames and pages** (`pmm.c`, `vmm.c`): `Pmm.dfy`, `Vmm.dfy`, two-level page tables as a flat partial map.
4. **The editor buffer** (`user_programs/xedit.c`): `Editor.dfy`, in-place edits and line geometry.

Classes hold the fields the C objects hold. Ghost fields carry their meaning: `FatFs.img` is the logical device, that is
the disk overlaid by a dirty window, and `FatFs.fat` the FAT as a table; `FIL.chain` lists the clusters of the file and
`FIL.floor` says how many of them it has whatever its size;
`KernelHeap.blocks` is the block list and `AddressSpace.flat` the flat page map. `Valid()` ties them to the real fields.
The longer C functions are split into methods that follow their branches; each carries the part of the C text named in
its comment. `hide` statements at the head of a body keep the solver from unfolding definitions a proof does not need.

Unsigned wrap-around is written out where the source relies on it: the range tests `winsect - fatbase < fsize` and
`sect - base < count`, the subtraction in `clst2sect`, the mount sums, the write limit, the size test in `kmalloc`
and the frame counter. `x & (csize - 1)` is written as a remainder, which `Geometry.MaskIsRemainder` justifies.

## Where code and promise differ

- The mount arithmetic is sound exactly when its 32-bit sums do not wrap (`Mount.LayoutTheorem`); a wrapping boot sector
  is accepted (`Mount.WrappedFatIsAccepted`). The cluster-count limits are those of the code, not those of the section
  "FAT Type Determination" of the FAT32 File System Specification.
- Rewriting FSInfo destroys the first FAT sector of a FAT32 volume with a single reserved sector
  (`Volume.SyncSparesFat`, `VolumeRuns.MountCountSync`); results about synchronisation carry that condition.
- While the free count is unknown, taking a cluster moves the search hint without marking FSInfo as out of date
  (`fatfs/ff.c:1622-1627`); `FatFs.Valid` ties the hint to FSInfo for a known count only.
- The raw free count of FAT16/32 is right exactly when entries 0 and 1 are not zero (`Volume.RawCountExact`).
- A path segment is taken for the last one when the next segment starts with a byte of 0x80 or more, because the source
  compares a signed `char` (`Names.LastFlag`, `Names.LastFlagFails`; plain `char` is signed for the compiler that
  `build_kernel.sh` uses).
- A lone dot parses to an all-blank name that does not print back; no other segment does (`Names.BlankIsLoneDot`,
  `Names.RoundTrip`).
- `vmm_map_page` treats frame 0 as "no memory" and leaves it marked; `pmm_free_frame` of a frame that is not in use puts
  the counter wrong (`Pmm.FrameAllocator.FreeFrame`). `PAGE_EXECUTABLE` has the value of `PAGE_PRESENT` in `vmm.h:10`.

## Model

| member | source | states |
|---|---|---|
| Geometry.ClusterInVolume | fatfs/ff.c:1160-1168 | every sector of a valid cluster lies in the data area and inside the volume |
| Geometry.ClustersDisjoint | fatfs/ff.c:1160-1168 | no sector belongs to two clusters |
| Geometry.ClusterOrderIs | fatfs/ff.c:1160-1168 | cluster 2 starts the data area and every cluster follows the one before it |
| Geometry.Clst2Sect | fatfs/ff.c:1160-1168 | a valid cluster number gives its first sector, which is never 0; every invalid one, also those below 2 where the subtraction wraps, gives 0 |
| Geometry.MaskIsRemainder | fatfs/ff.c:1785 | masking with cluster size minus one is the remainder, for all eight cluster sizes |
| Geometry.Pow2Test | fatfs/ff.c:3537-3538 | the bit test on the cluster-size byte accepts exactly the powers of two |
| Mount.ParseBpb | fatfs/ff.c:3529-3578 | accepts exactly the boot sectors described by `Accepted` and computes `Layout`; what those two mean is `LayoutTheorem` |
| Mount.LayoutTheorem | fatfs/ff.c:3529-3578 | an accepted boot sector gives ordered, disjoint regions with every entry and every cluster inside them if and only if none of the 32-bit sums wraps; without wrap-around the boot sectors accepted and their layouts are those of exact arithmetic |
| Mount.BootBytes | fatfs/ff.c:3529-3578 | every field of the layout in terms of the bytes of an accepted boot sector, when no sum wraps: reserved sectors, FATs, root directory and data in this order, the FAT type from the number of clusters, the root cluster of FAT32 as given at byte 44 |
| Mount.WrappedFatIsAccepted | fatfs/ff.c:3531-3555 | a concrete boot sector that passes the volume test of `check_fs`, and whose doubled FAT size wraps to 2, is accepted although it is not mountable over exact numbers |
| Mount.CheckFs | fatfs/ff.c:3307-3341 | recognises exactly the boot sectors with a jump that name FAT32 under a valid signature or have plausible fields; tells other valid sectors from invalid ones |
| Mount.PlausibleDoesNotWrap | fatfs/ff.c:3325-3338 | a boot sector recognised by its fields can wrap only by lying across the end of the sector numbers |
| Mount.SizeCheck | fatfs/ff.c:3568-3578 | the FAT-size test of the source holds exactly when all entries fit in one FAT, odd FAT12 counts included |
| Volume.FatFs.Mount | fatfs/ff.c:3580-3603 | the volume starts with a clean window and the image of the device; free count and hint come from FSInfo only when the boot sector points to sector 1 and all three signatures match |
| FatTable.EntryInFat1 | fatfs/ff.c:1194-1210 | every byte of an entry below n_fatent lies in the first FAT |
| FatBits.EntryBits | fatfs/ff.c:1194-1220 | entry c consists of the bits of the FAT from 12, 16 or 32 times c on, the FAT read as one little-endian row of bits, cut to 28 bits on FAT32 |
| FatTable.EntryAfterSet | fatfs/ff.c:1266-1301 | storing then loading an entry gives the value cut to 12, 16 or 28 bits, every other entry keeps its value also when it shares a byte, and FAT32 keeps the top four stored bits |
| FatTable.TableAfterSet | fatfs/ff.c:1266-1301 | storing an entry is an update of one element of the table of all entries |
| FatTable.SetEntrySectors | fatfs/ff.c:1266-1301 | storing an entry changes FAT sectors only and keeps equal FAT copies equal |
| FatTable.Pack12 | fatfs/ff.c:1200-1278 | the nibble packing of FAT12 for odd and even clusters unpacks to the 12 bits stored, whatever the other nibble was |
| Volume.FatFs.SyncWindow | fatfs/ff.c:1058-1076 | flushes a dirty window and its FAT2 copy without changing the logical device |
| Volume.FatFs.MoveWindow | fatfs/ff.c:1080-1101 | the window shows the requested sector; the logical device (disk overlaid by a dirty window) never changes |
| Volume.FatFs.RawMirror | fatfs/ff.c:1065-1072 | when the logical FAT copies agree, each raw FAT1 sector except a dirty window equals its raw FAT2 copy |
| VolumeRuns.Run | fatfs/ff.c:1058-1705 | from the mount of a device whose two FATs agree, after every run of window moves, FAT updates, allocations, removals, window edits, direct writes, clearing, synchronising and counting, the raw copies agree outside a dirty window |
| Volume.FatFs.GetFat | fatfs/ff.c:1177-1245 | returns the table element, or 1 for a number out of range, and leaves the logical device alone |
| Volume.FatFs.PutFat | fatfs/ff.c:1255-1304 | updates one table element through the window, reports exactly the numbers out of range, and touches FAT sectors only |
| Volume.FatFs.Put12 | fatfs/ff.c:1268-1280 | the two byte writes of a FAT12 entry are the intended packing also when they fall in different sectors and the window is flushed between them |
| Volume.SyncSparesFat | fatfs/ff.c:1118-1131 | with cluster 2 in use, rewriting FSInfo keeps the table if and only if there are two or more reserved sectors, or the volume is not FAT32, or nothing is to be written; otherwise it frees cluster 2 |
| VolumeRuns.MountCountSync | fatfs/ff.c:1118-1131 | mounting a FAT32 volume with a single reserved sector and an announced FSInfo sector, counting its free clusters and synchronising frees cluster 2 |
| Volume.FatFs.SyncFs | fatfs/ff.c:1111-1150 | afterwards disk and logical device agree and differ from before only by the FSInfo sector, written exactly when the allocation changed on FAT32; a mount then finds the cached free count and search hint in it |
| Volume.FsInfoReads | fatfs/ff.c:1120-1128 | the FSInfo sector has its three signatures, the free count at byte 488 and the search hint at byte 492, little-endian, and mounting reads these back |
| Volume.HintsSynced | fatfs/ff.c:1118-1131 | once it has been written, a mount finds the cached values |
| Volume.FatFs.WriteSectors | fatfs/diskio.c:23-36 | writing a range past the window changes exactly these sectors of the logical device |
| Volume.FatFs.ReadSectors | fatfs/diskio.c:16-21 | reading a range past the window delivers the logical device |
| Chains.ScanFinds | fatfs/ff.c:1602-1615 | with no entry of value 1, the wrap-around search finds the nearest free cluster in cyclic order, and finds none only when every candidate ahead is in use |
| Chains.ScanComplete | fatfs/ff.c:1602-1615 | with no entry of value 1, started anywhere, the search returns 0 exactly when no cluster is free |
| Chains.PickFinds | fatfs/ff.c:1550-1615 | with no entry of value 1, for every hint, 0 and 1 and out of range included, the choice fails exactly when no cluster is free and otherwise is a formerly free one |
| Chains.PickNearest | fatfs/ff.c:1550-1615 | with no entry of value 1: the cluster behind a stretched tail if it is free, otherwise the nearest free one behind the hint in cyclic order |
| Chains.EndValueIsEnd | fatfs/ff.c:1616 | the end mark read back is never below n_fatent |
| Chains.CreateOutcome | fatfs/ff.c:1540-1633 | on any table: an existing successor is returned, or nothing changes, or one free cluster becomes the end and is linked behind the given one while all other entries stay, a known free count drops by one and the cluster becomes the hint |
| Chains.CreateRefused | fatfs/ff.c:1555-1559 | a cluster out of range, or one whose entry is 0 or 1, is answered with an error and no change |
| Chains.TakeCount | fatfs/ff.c:1622-1627 | an exact free count stays exact when a cluster is taken |
| Volume.FatFs.FindFree | fatfs/ff.c:1602-1614 | the search loop ends on every table and computes the specified search |
| Volume.FatFs.PickCluster | fatfs/ff.c:1589-1615 | tries the neighbour of a stretched tail, then searches from the hint |
| Volume.FatFs.CreateChain | fatfs/ff.c:1540-1633 | the method on disk and window has exactly the effect of `Create` on table, count, hint and flag, and touches FAT sectors only |
| Chains.ChainDistinct | fatfs/ff.c:1470-1502 | a chain visits no cluster twice |
| Chains.NonZeroFromClear | fatfs/ff.c:1470-1502 | each round of the removal loop lowers the number of non-zero entries, which ends it on cyclic tables as well |
| Chains.RemoveFromChain | fatfs/ff.c:1470-1502 | on a well-formed chain the loop frees exactly the clusters of the chain |
| Chains.RemoveFromCount | fatfs/ff.c:1479-1482 | an exact free count stays exact, on any table |
| Chains.RemoveFromFree | fatfs/ff.c:1479-1482 | a free count in range grows by exactly the clusters of the chain, one out of range stays |
| Chains.RemoveRefused | fatfs/ff.c:1453-1475 | clusters out of range are refused, a chain that starts with entry 0 or 1 is left alone |
| Chains.RemovePart | fatfs/ff.c:1461-1502 | removing from the middle of a chain frees the tail, ends the head, and changes no other entry |
| Chains.LongerChain | fatfs/ff.c:1540-1633 | a chain made longer by free clusters: as many fewer clusters are free |
| Volume.FatFs.RemoveChain | fatfs/ff.c:1445-1531 | the method has exactly the effect of `Remove` on table and counters, and touches FAT sectors only |
| Volume.FatFs.ReleaseFrom | fatfs/ff.c:1470-1502 | the removal loop ends on every table and equals its recursive specification |
| Forest.CreateInForest | fatfs/ff.c:1540-1633 | on a forest of chains with an exact count: full means no free cluster; otherwise a one-cluster chain appears or a tail grows by one free cluster, and the forest stays one |
| Forest.TakeKeepsChains | fatfs/ff.c:1616-1619 | every chain stays identical, the stretched one grows by the new cluster |
| Forest.RemoveInForest | fatfs/ff.c:1461-1502 | removal frees exactly the clusters reachable from the given one and leaves a forest |
| Forest.RemoveKeepsChains | fatfs/ff.c:1461-1502 | chains that share nothing with the removed part stay, the head before it is a chain again |
| Forest.RunKeepsSound | fatfs/ff.c:1445-1633 | every run of creations and legal removals keeps a forest of disjoint acyclic chains with an exact or unknown free count |
| Forest.CreateThenRemove | fatfs/ff.c:1445-1633 | creating a chain and removing it at once restores table and count |
| Forest.ChainUnique | fatfs/ff.c:1470-1502 | the chain starting at a cluster is unique |
| Volume.FatFs.GetFree | fatfs/ff.c:4849-4914 | a valid cached count is returned as it is; FAT12 counts entry by entry and fails exactly on an entry of value 1; FAT16/32 count zero entries from entry 0 on |
| Volume.FatFs.CountRaw | fatfs/ff.c:4890-4906 | the raw sector walk counts the zero entries of the table, entries 0 and 1 included |
| Volume.WalkStep | fatfs/ff.c:4893-4906 | sector and offset of the raw walk stand at the right entry after every step |
| Volume.RawCountExact | fatfs/ff.c:4890-4906 | the raw count is the number of free clusters exactly when entries 0 and 1 are not zero |
| OpenFile.FIL.Open | fatfs/ff.c:3868-3884 | an entry that stores some bytes, in as many clusters as they need or more, opens as a consistent file object holding those bytes, pointer at 0 |
| OpenFile.FIL.SeekEnd | fatfs/ff.c:3886-3907 | opening for append ends in a consistent file object with the same bytes and the pointer at the end, without writing anything |
| OpenFile.FIL.Write | fatfs/ff.c:4029-4141 | changes exactly the bytes [fptr, fptr + bw), grows the size to cover them, is cut short only by the 4 GiB limit or, at the end of the chain, by a full disk, and changes nothing outside the file |
| OtherFiles.OnlyFileKeepsOther | fatfs/ff.c:4029-4141 | the changes that reads, writes and seeks are confined to keep every other file: its entry, chain and bytes are stored as before |
| OtherFiles.OnlyCutKeepsOther | fatfs/ff.c:4936-4967 | cutting the file keeps every other file stored as before |
| OtherFiles.OnlySyncedKeepsOther | fatfs/ff.c:4160-4217 | writing back entry and FSInfo keeps every other file stored as before |
| OpenFile.FIL.Read | fatfs/ff.c:3929-4019 | delivers exactly the bytes [fptr, fptr + br), cut only by the end of the file; the rest of the buffer and the file stay |
| OpenFile.FIL.Seek | fatfs/ff.c:4525-4600 | reaches its target unless it stops at the end of the chain on a full disk, keeps all bytes the file had, grows a writable file to the pointer and never a read-only one |
| OpenFile.FIL.Truncate | fatfs/ff.c:4936-4967 | keeps exactly the bytes before the pointer, frees the clusters behind it and nothing else |
| OpenFile.FIL.Sync | fatfs/ff.c:4160-4217 | afterwards directory entry, FAT chain and data sectors of the raw device alone store the same bytes; only entry, FSInfo and file sectors changed |
| OpenFile.FIL.Fetch | fatfs/ff.c:3980-3989 | a direct multi-sector read with a dirty buffer laid over it delivers the current bytes |
| OpenFile.FIL.DirectOut | fatfs/ff.c:4088-4106 | a direct multi-sector write leaves the private buffer equal to what was written when it held one of the sectors |
| OpenFile.FIL.TakeCluster | fatfs/ff.c:4059-4078 | following or stretching the chain keeps the bytes of the file and makes the next cluster current |
| OpenFile.FIL.SeekLoop | fatfs/ff.c:4554-4575 | the cluster-following loop lands in the cluster of the target, or at the end of the chain when the disk is full |
| FileState.CursorTheorem | fatfs/ff.c:4533-4575 | between operations the current cluster is number (fptr - 1) / clusterbytes of a chain of ceil(size / clusterbytes) clusters, or of the larger number a stored file came with, and going on from it is the same as walking from the start |
| FileData.NeedsIsCeiling | fatfs/ff.c:4536-4582 | the chain-length invariant is the larger of the quotient rounded up and a floor |
| FileState.PartialWrite | fatfs/ff.c:4118-4134 | a partial write into a buffer that was filled, or whose filling was skipped on the growing edge, splices exactly the bytes written |
| FileState.DirectWrite | fatfs/ff.c:4088-4110 | writing whole consecutive sectors splices exactly these bytes |
| FileState.DirectRead | fatfs/ff.c:3975-3993 | the overlaid sectors are the bytes of the file |
| FileState.FlushKeeps | fatfs/ff.c:4082-4085 | writing the dirty buffer back changes neither the bytes of the file nor anything outside it |
| FileState.ExtendKeeps | fatfs/ff.c:4059-4078 | a new last cluster changes neither the bytes of the file nor any other file |
| FileState.TruncateData | fatfs/ff.c:4940-4965 | cutting chain and size leaves exactly the bytes before the pointer |
| FileState.SyncStores | fatfs/ff.c:4203-4213 | the device after the entry has been written stores the bytes under that entry |
| FileState.EntrySyncedFields | fatfs/ff.c:4205-4210 | entry update: start cluster and size read back, name and neighbouring entries stay |
| FileState.EntrySyncedMarks | fatfs/ff.c:4203-4210 | entry update: the archive bit is set, the modification time is 1 January 2025, the access date is zero; name, other attributes and creation time stay |
| FileState.EntryLayout | fatfs/ff.c:1866-1879 | start cluster and size of an entry, byte by byte |
| FileRuns.Run | fatfs/ff.c:3929-4603 | any sequence of reads, writes, seeks, truncations and synchronisations is a run of a byte vector with a cursor, its clusters and the free clusters of the volume: how many bytes each write takes and how far each seek gets follows from these, clusters are neither lost nor gained, every other file is kept, and whenever nothing is unsaved the device stores the vector |
| FileRuns.GrowStep | fatfs/ff.c:4029-4141 | work on the file that does not shrink it: used and free clusters add up to the same number, and the chain grows to what the size needs |
| FileRuns.CutStep | fatfs/ff.c:4936-4967 | cutting returns exactly the clusters behind the new size to the free ones |
| FileRuns.WriteSeekRead | fatfs/ff.c:3929-4603 | on a file: bytes written, then sought and read, are the bytes read; the rest of the file is as it was, and the number written is the room there was |
| FileRuns.RunSyncRemountOpen | fatfs/ff.c:3929-4603 | after any run, then a synchronisation, a fresh mount and open on the raw device give the bytes at the end of the run; the free count comes back through FSInfo, or is unknown on a volume without it, so that it is exact whenever it was, and the run can go on |
| FileRuns.RemountOpen | fatfs/ff.c:4150-4220 | a file without unsaved changes is found again, with the same bytes, by a mount and open on the raw device |
| Directory.PlacesDistinct | fatfs/ff.c:1724-1753 | in a well-formed directory two slots share a sector only within one group of 16 |
| Directory.NamesAre | fatfs/ff.c:2405-2474 | the names of a directory are those of the slots before the first zero byte, deleted slots and volume labels aside |
| Directory.SetSlotAt | fatfs/ff.c:2564-2579 | overwriting one slot changes that slot only |
| Directory.FoundSlot | fatfs/ff.c:1733-1748 | the link-following loop of seeking ends in the cluster, sector and slot of the offset |
| Directory.LostSlot | fatfs/ff.c:1736-1739 | when the links run out first, the slot does not exist |
| Directory.StepToSector | fatfs/ff.c:1776-1785 | the step to the next sector, and the end of a static root |
| Directory.StepToCluster | fatfs/ff.c:1785-1812 | the step to the next cluster of the chain, or past its end |
| Directory.WalkedIsChain | fatfs/ff.c:1785-1792 | a walk that stands on an end mark went along a proper chain, however damaged the rest of the table is |
| Directory.StretchStep | fatfs/ff.c:1792-1810 | stretching keeps every slot, adds zero slots only, keeps the chain well formed and spares every other file |
| Directory.CreatedStretches | fatfs/ff.c:1797-1803 | creating a cluster behind the tail and clearing it is such a stretching |
| Directory.HasBefore | fatfs/ff.c:1724-1753 | slots exist from 0 on without gaps |
| Directory.RegisterOutcome | fatfs/ff.c:2564-2579 | writing a new name over the first free slot of a tidy directory adds exactly that name; every other lookup ends on the same slot with the same contents; tidiness stays |
| Directory.RemoveOutcome | fatfs/ff.c:2620-2624 | marking the found slot deleted takes exactly that name out; every other lookup is as before; tidiness stays |
| Directory.LookupEnds | fatfs/ff.c:2442-2474 | a lookup that stops at the end mark or at the end of the table is right to report absence |
| Directory.SetSlotSpares | fatfs/ff.c:2564-2624 | writing a slot spares every cluster in use outside the directory |
| DirSpace.SlotsHas | fatfs/ff.c:1724-1753 | the slots of a directory are numbered from 0 up to their number, which is at most 65536 |
| DirSpace.SlotsOfChain | fatfs/ff.c:1724-1753 | a static root has as many slots as the boot sector says, a chain as many as its clusters hold, up to 65536 |
| DirSpace.StretchCounts | fatfs/ff.c:1792-1810 | stretching adds the slots of one cluster, all unused, and takes one cluster off the free ones |
| DirSpace.RegisterCounts | fatfs/ff.c:2564-2579 | registering takes one unused slot if there is one, otherwise the first slot of a new cluster |
| DirSpace.RemoveCounts | fatfs/ff.c:2620-2624 | removing a name makes exactly one slot unused |
| DirFiles.ZeroEntry | fatfs/ff.c:2572-2579 | an entry that is zero behind its name is that of an empty file without attributes |
| DirFiles.FileInKept | fatfs/ff.c:2405-2628 | a file of the directory whose name is neither inserted nor deleted keeps entry, chain and bytes |
| DirFiles.FileAwayKept | fatfs/ff.c:2405-2628 | a file whose entry lies in a cluster of another directory keeps entry, chain and bytes |
| Volume.FatFs.DirClear | fatfs/ff.c:1676-1705 | every sector of the cluster becomes zero on the device, nothing else changes, and the window shows its first sector |
| DirObject.DIR.Sdi | fatfs/ff.c:1715-1754 | succeeds exactly on aligned offsets of existing slots and then stands on that slot |
| DirObject.DIR.Next | fatfs/ff.c:1763-1814 | within the table stands on the next slot; at its end reports it, or stretches by a zeroed cluster; refuses to stretch only when no cluster is free |
| DirObject.DIR.AppendCluster | fatfs/ff.c:1797-1803 | a new zeroed last cluster, or no change at all |
| DirObject.DIR.Find | fatfs/ff.c:2405-2474 | succeeds exactly when the directory contains the name, on the first such slot; ends on cyclic tables; never an internal error on a well-formed chain |
| DirObject.DIR.Alloc | fatfs/ff.c:1824-1855 | finds the first free slot, in a stretched table if need be; refuses only when no slot is free and, on a sound volume, none can be added |
| DirObject.DIR.Register | fatfs/ff.c:2487-2582 | adds exactly the name of the object to the set of names; the slot written holds the name and nothing but zeros behind it; spares all other files, and changes nothing when refused |
| DirObject.DIR.Remove | fatfs/ff.c:2593-2628 | takes exactly the name found out of the set of names: 0xE5 over the first byte of its slot and nothing else; spares all other files |
| DirObject.StepsReachSeek | fatfs/ff.c:1724-1813 | n single steps from offset 0 succeed exactly when seeking to slot n does, and then reach the same offset, cluster, sector and slot |
| DirObject.Do | fatfs/ff.c:2405-2628 | lookup, insertion and deletion are steps of a finite set of names with its slots and the free clusters; a name inserted names an empty file; every lookup of another name and every file of another name is kept |
| DirObject.Run | fatfs/ff.c:2405-2628 | any sequence of them is a run of that set, in which on a sound volume every answer follows from the state before: a new name is refused exactly when every slot is taken and the table cannot grow; all files not named in an insertion or deletion are kept |
| Names.CreateName | fatfs/ff.c:3005-3062 | computes `Parse`; what that yields is stated, character by character, by `SegmentIs` |
| Names.SegmentIs | fatfs/ff.c:3020-3059 | accepted are exactly the segments of at most 8 legal characters and, behind a dot, at most 3 more; stored is the capital of each character in code page 437, padded with blanks |
| Names.FileName | fatfs/ff.c:2753-2763 | computes `Text`, which `TextIs` describes |
| Names.TextIs | fatfs/ff.c:2753-2763 | the text of a stored name is its body without the padding and, if there is one, a dot and the extension |
| Names.FoldedIsCanon | fatfs/ff.c:296-303 | code page 437 upcasing reaches a fixed point in one pass and never yields an illegal or lower-case character |
| Names.ParseStores | fatfs/ff.c:3005-3059 | every accepted segment is stored as two blank-padded fields of canonical characters, never starting with 0xE5 |
| Names.StoredIsUsable | fatfs/ff.c:3059 | so a stored name is never mistaken for an end mark or a deleted slot |
| Names.PrintParse | fatfs/ff.c:2753-2763 | parsing the text of a stored name gives the same eleven bytes exactly when the name is not all blank |
| Names.RoundTrip | fatfs/ff.c:3005-3062 | the same for every segment the parser accepts: it holds exactly when the segment is not a lone dot |
| Names.DotIsBlank | fatfs/ff.c:3032-3036 | a lone dot is accepted and gives the all-blank name |
| Names.BlankIsLoneDot | fatfs/ff.c:3024-3036 | an accepted segment gives the all-blank name exactly when it is a lone dot |
| Names.LastFlag | fatfs/ff.c:3056-3060 | the parser stops where the path alone says, and the last-segment flag is right exactly unless the following segment starts with an extended character, because the test is made on a signed character |
| Names.LastFlagFails | fatfs/ff.c:3060 | a concrete path whose first segment is taken for the last one |
| Heap.KernelHeap.Init | heap.c:7-15 | one free block that spans the memory |
| Heap.KernelHeap.Kmalloc | heap.c:17-41 | fails exactly when no block is free and large enough, and then changes nothing; otherwise puts one payload into the first block that is, cut when a header and a byte more remain, and writes no live payload |
| Heap.CarveIsCut | heap.c:20-34 | the block taken is the first free one of the size asked for, cut exactly when more than a header remains |
| Heap.KernelHeap.TakeBlock | heap.c:22-34 | cuts the block when the rest can hold more than a header, else takes it whole; the headers in memory describe the new list |
| Heap.KernelHeap.Kfree | heap.c:43-59 | takes exactly the given payload off the live ones, merges free neighbours, and writes no live payload; NULL changes nothing |
| Heap.KernelHeap.CoalescePass | heap.c:49-58 | the loop over in-memory headers computes `Coalesce` and writes no live payload |
| Heap.CarveLive | heap.c:22-34 | allocation adds exactly one live payload and keeps the tiling |
| Heap.CarveCoalesced | heap.c:22-34 | allocation leaves no two free neighbours |
| Heap.CoalesceCoalesced | heap.c:49-58 | after the pass no two neighbouring blocks are free |
| Heap.CoalesceLive | heap.c:49-58 | the pass changes no live payload and keeps the tiling |
| Heap.LiveDisjoint | heap.c:17-41 | live payloads are pairwise disjoint with room for a header between them |
| Heap.ReplacedLaid | heap.c:24-31 | replacing blocks by others of the same span needs only the new headers to be written |
| Heap.CarveThenFree | heap.c:17-59 | freeing a block as soon as it has been allocated restores the exact block list |
| Heap.AllocateThenFree | heap.c:17-59 | the same on the heap in memory |
| Heap.NothingLive | heap.c:43-59 | when nothing is live the single initial block is back |
| Heap.RunKeeps | heap.c:17-59 | after any run the blocks tile the heap, no two free ones are neighbours, and freeing everything restores the initial block |
| HeapRuns.Serve | heap.c:17-59 | on the heap in memory, any sequence of requests, releases and stores into what was granted behaves as on a store of independent byte blocks: a block keeps its bytes, at the address answered, until its owner changes or releases it; each answer is the first-fit one on a block list that follows from the requests; when everything is released the single initial block is back |
| HeapRuns.MallocHolds | heap.c:17-41 | a grant leaves every block held in place with its bytes and adds one that none of them overlaps |
| HeapRuns.FreeHolds | heap.c:43-59 | a release, with its coalescing, leaves every other block held in place with its bytes |
| HeapRuns.FillHolds | heap.c:17-41 | a byte stored into one block changes no other block held |
| Pmm.BitChanged | pmm.c:115-128 | setting or clearing one bit of a bitmap word leaves the others alone |
| Pmm.MarksAfter | pmm.c:115-128 | changing one bit changes the mark of one frame |
| Pmm.FrameAllocator.AllocFrame | pmm.c:112-122 | hands out and marks the lowest free frame, fails exactly when there is none, and keeps used plus free frames constant |
| Pmm.FrameAllocator.FreeFrame | pmm.c:124-130 | clears one mark; the used-frames counter stays right exactly when the frame was in use |
| Pmm.NotTwice | pmm.c:112-130 | a frame once handed out is not handed out again before it has been given back |
| Vmm.MaskedEntry | vmm.c:66 | address and flag masks combine to frame plus three low bits |
| Vmm.AddressSpace.IdentityMap | vmm.c:11-17 | page v of the first 4 MB is frame v, writable but not for user mode, and nothing else is mapped |
| Vmm.AddressSpace.MapPage | vmm.c:28-75 | answers by address checks, flat map and frame allocator; a page mapped is found in the frame asked for, and directory and table together allow what the flags say, user mode in the first 4 MB aside; failure changes no translation; the lowest free frame is marked exactly when valid addresses ask for a missing table, and no mark is ever cleared |
| Vmm.AddressSpace.NewTable | vmm.c:54-62 | a fresh table changes no translation and is entered with all rights; the lowest free frame is marked and nothing else; frame 0 counts as out of memory and is marked all the same |
| Vmm.DirectoryRights | vmm.c:16-61 | every directory entry allows writing, and every one but the first user mode |
| Vmm.EntryStands | vmm.c:65-66 | an entry written into a table changes the translation of one page only |
| Vmm.AddedStands | vmm.c:59-61 | a cleared frame entered in the directory with all rights aliases no table and changes no translation |
| Vmm.Run | vmm.c:28-75 | after any run of page mappings, frame allocations and frees the two-level walk is the flat map of the successful mappings, every answer is the one called for, the marks change as the calls say, and no frame is handed out twice without a free between, page tables included |
| Vmm.TakeFrame | pmm.c:112-122 | allocating a frame beside an address space changes no translation and never hands out a frame that holds a table |
| Vmm.GiveFrame | pmm.c:124-130 | freeing a frame that holds no table changes no translation |
| Editor.TextEditor.MemMove | user_programs/xedit.c:41-44 | overlapping stretches are moved as if by a copy, in both directions |
| Editor.TextEditor.InsertAtCursor | user_programs/xedit.c:77-83 | the in-place move is a splice of one byte, refused when the buffer is full |
| Editor.TextEditor.BackspaceAtCursor | user_programs/xedit.c:85-91 | the in-place move takes out the byte before the cursor |
| Editor.TextEditor.DeleteAtCursor | user_programs/xedit.c:93-98 | the in-place move takes out the byte at the cursor |
| Editor.BackspaceUndoesInsert | user_programs/xedit.c:77-98 | backspace undoes insert, and so does delete with the cursor moved back |
| Editor.InsertUndoesBackspace | user_programs/xedit.c:77-91 | retyping the byte that backspace took out restores the document |
| Editor.TextEditor.ComputeLineCol | user_programs/xedit.c:46-55 | computes newlines before a position and bytes since the last one |
| Editor.TextEditor.FindLineStart | user_programs/xedit.c:57-68 | computes the first position on a line, the end of the text for a missing line |
| Editor.StartPlusCol | user_programs/xedit.c:46-68 | start of the line of p plus column of p is p, for every position |
| Editor.StartOfLine | user_programs/xedit.c:57-68 | a line exists exactly up to the number of newlines, and its start is on it at column 0 |
| Editor.UpLands | user_programs/xedit.c:103-113 | up lands on the line above at the same column or at its end |
| Editor.DownLands | user_programs/xedit.c:114-123 | down lands on the line below at the same column or at its end exactly when there is one, else at the end of the text |
| Editor.UpThenDown | user_programs/xedit.c:103-123 | up then down comes back when the line above is long enough |
| Editor.TextEditor.MoveCursorUp | user_programs/xedit.c:103-113 | computes the move whose effect is `UpLands` |
| Editor.TextEditor.MoveCursorDown | user_programs/xedit.c:114-123 | computes the move whose effect is `DownLands` |
| Editor.ShownIsNearest | user_programs/xedit.c:125-132 | scrolling makes the cursor visible and moves as little as possible |
| Editor.TextEditor.Press | user_programs/xedit.c:258-272 | one turn of the loop has the effect of `Pressed` |
| Editor.MoveKeys | user_programs/xedit.c:260-263 | the keys 0x81 to 0x84 move the cursor up, down, left and right and change nothing else |
| Editor.EraseKeys | user_programs/xedit.c:264 | backspace and DEL take out the byte before the cursor, if there is one |
| Editor.TypeKeys | user_programs/xedit.c:265-267 | newline and every other byte from 0x20 on are typed in front of the cursor while there is room |
| Editor.OtherKeys | user_programs/xedit.c:266-268 | the remaining keys do nothing |
| Editor.TypedKeeps | user_programs/xedit.c:247-273 | after any keys the cursor is inside the text, the text inside the buffer, and the line of the cursor on the screen |
| Editor.TextEditor.Load | user_programs/xedit.c:234-244 | a file too large is cut to one byte less than the buffer; an error gives an empty text |

## Left out

- OpenFile.FIL.Open: starts where the directory entry has been found; the creating and overwriting modes of `f_open` (`FA_CREATE_ALWAYS`) compose parts that are modelled.
- OpenFile.FIL.Sync: claims durability under the condition that FSInfo does not overlap the FAT; `Volume.SyncSparesFat` says what happens otherwise.
- OpenFile.FIL.Seek: the bytes exposed by seeking past the end of a file are unspecified, as in the source.
- VolumeRuns.Run: skips what the callers in the source never ask for: sectors outside the root and data areas, direct writes under the window, clusters out of range.
- DirObject.Run: on a volume with an entry of value 1 or a wrong free count a refusal is only known to mean that every slot is taken.
- FileRuns.Run: takes a volume without entries of value 1 and with a right or unknown free count; the single operations do not.
- DirFiles.FileAwayKept: about entries in clusters; an entry in the static root, while another directory is changed, is not covered.
- DirObject.DIR.Alloc: reserves one slot, the only number a volume without long names asks for.
- Vmm.AddressSpace.MapPage: page tables are read and written at their physical addresses, and the frames of the directory and of the first table are taken to be marked; `pmm_init` does not establish the latter.
- Heap.KernelHeap.Kfree: takes NULL or the address of a live payload; other pointers are outside its contract.
- Names.CreateName: keeps the name it fills in as a sequence that is updated, as `DIR.fn` does; the array of the source is not shared with anything.
- Disk errors: `fatfs/diskio.c` never reports one, so the 0xFFFFFFFF and FR_DISK_ERR branches are absent.
- Several files open for writing at once: nothing in this configuration coordinates their buffers; file results are about one open file, with the directory sector outside its clusters; the others are covered as stored files.
- Whole-path operations (`follow_path`, `f_unlink`, `f_mkdir`, `f_rename`, `f_stat`, `f_readdir`), drive prefixes, partition scanning: they compose the layers above.
- Timestamps: a constant, as `FF_FS_NORTC` makes them.
- exFAT, long names, code pages other than 437, FF_FS_TINY, relative paths, locking, fast seek, formatting, labels: not compiled under `fatfs/ffconf.h`.
- ATA port input and output (`fatfs/ata.c`), the diagnostic output of `disk_write`.
- `pmm_init`, bootstrap heap, paging registers, `vmm_create_user_directory`, page-fault handling: hardware set-up.
- A panic of the frame allocator is an answer of the model; the source halts for good.
- `pmm_memset` clears a page table word by word instead of byte by byte.
- Editor screen output, status line and saving; the file read by the editor is a parameter.
- Scheduler, system calls, ELF loader, keyboard driver, terminal and the other user programs.
