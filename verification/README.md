# Oxenna: a verified model

Oxenna is a small x86-64 kernel. This project models its hardest parts in Dafny and proves what they
promise over every input and every run. `dafny verify dfyconfig.toml` checks all of it.

* **Buddy heap** (`Dyadic`, `Tiling`, `ZoneCut`, `BuddyHeap`). Blocks are dyadic intervals. Free and live
  blocks tile every zone, no two free buddies remain, and from this *canonical form* follow completeness
  of `alloc`, independence of history and the whole heap after everything is freed. The free lists are
  threaded through a model of memory, and no list update writes into a live block.
* **ext2 files** (`Bits`, `BlockBitmap`, `BlockTree`, `PruneTree`, `InodeTree`, `FileSpace`, `FileGrow`,
  `FileNeed`, `LeanTree`, `Ext2Files`, `DirectoryLeak`). The device is an array of blocks; a file is a tree of depth up to three whose pointers are
  read from those blocks. The invariant says that a block is in use exactly if it is metadata or has one
  position in one file's tree, and that all counters agree. `read`, `write` and `truncate` refine
  operations on a byte sequence.
* **ext2 directories** (`DirRecords`, `DirBlock`, `Directory`). Blocks are bytes, tiled by variable-length
  records; the operations are lookup, insertion and deletion on a finite map.
* **ext2 namespace** (`NameTree`, `NameMoves`, `NameDirs`, `NameRename`, `NameSpec`, `NameStale`, `NameFacts`,
  `NameRuns`, `InodeDirs`, `DirStore`, `Namespace`, `LeftoverRuns`). Inodes and their entries, dots included, form a graph. The
  invariant says that link counts equal references, that every directory has one name, in the directory its
  ".." names, and that every directory climbs to the root. The class `Namespace` runs the operations on inode
  records that point into one store of blocks, where directories lie as bytes, and is proved against the graph.
* **Path resolution** (`Walk`, `PosixPath`). The recursive walk equals a flat machine, which equals
  resolution without limit, cut off at 40 links; a second specification keeps what the walk drops of a
  path, and the two are compared.
* **Formatting** (`Format`, `Ext2Format`). Geometry, bitmaps, counters, `mount`, up to a filesystem that
  satisfies the invariant.
* **Frame allocator** (`FrameAlloc`), **framebuffer and console** (`Framebuffer`, `Terminal`, `Console`) and
  **configuration** (`Kconfig`).

## Where a promise does not hold

* The zone assertion of the heap can fire; `BuddyHeap.BuddyAllocator.Init` says exactly when.
* A directory append on a device that fills up leaves blocks that no stored inode records;
  `Ext2Files.Ext2.AppendBlock` says exactly when, and `DirectoryLeak` has a device on which it happens.
* `link`, and `rename` of a file, accept a directory that has been removed; `rename` can push a link count
  into its clamp. `NameMoves.LinkExact` and `NameSpec.RenameExact` say exactly when the tree survives, and
  `NameFacts` and `NameRuns` have runs that break it.
* A `create` or `mkdir` that fails for lack of space frees the inode but leaves its record written, with a
  link count above zero and, for a directory, a pointer to a block that is free again and may go to anyone.
  Such *leftovers* are the ghost set `stale` of `Namespace`; their blocks may hold any bytes. Calls through
  directories that are no leftovers keep the tree all the same. A caller who still holds the number of a
  leftover is served as if it were in use: `Create`, `Mkdir`, `Link`, `Unlink` and `Rmdir`, and `Rename`
  to a free name in a leftover, say exactly when the tree survives that. `LeftoverRuns` has runs in which it
  does and does not, and one after which the parent walk of `rename` towards a leftover never ends.
* `allocate_frame` gives up at a usable region that wraps around the address space, also if later regions
  have frames; `FrameAlloc.FrameAllocator.AllocateFrame` states it, `FrameAlloc.StoppedSearch` is a case.
* The documentation of `reserve` (src/kmem/frame.rs:108-109) promises that frames overlapping a range are
  avoided; the code tests start addresses. `FrameAlloc.StartTestExact` says when that is the same.
* A backspace across a line start moves the view without repainting it, and `clear` fills the screen with a
  colour that blank cells need not have; `Console.Console.Backspace` and `Console.Console.Clear` say exactly
  when the screen is right, `Console.StaleAfterBackspace` is a case.
* Path resolution accepts the empty path and ignores a trailing slash or "." where section 4.13 of
  POSIX.1-2017 XBD asks for a directory; `PosixPath.PosixExact` says exactly when that matters.

## Model

| member | source | states |
|---|---|---|
| `Tiling.SplitTile` | src/kmem/heap/buddy.rs:356-365 | halving one tile keeps the zones exactly tiled |
| `Tiling.MergeTiles` | src/kmem/heap/buddy.rs:411-423 | joining two buddies keeps the zones exactly tiled |
| `Tiling.VacantInsideFree` | src/kmem/heap/buddy.rs:347-366 | in canonical form every vacant aligned block of a zone lies inside one single free block |
| `Tiling.FreeIsMaximalVacant` | src/kmem/heap/buddy.rs:388-428 | in canonical form the free blocks are exactly the maximal vacant dyadic blocks of the zones |
| `Tiling.FreeDeterminedByLive` | src/kmem/heap/buddy.rs:388-428 | the free lists, as sets, are a function of the live blocks alone |
| `Tiling.AllFreed` | src/kmem/heap/buddy.rs:388-428 | with nothing live, exactly one full block per zone is free |
| `Tiling.FitIffVacantRun` | src/kmem/heap/buddy.rs:347-386 | some free block is large enough exactly when some aligned run of that size inside a zone is vacant |
| `ZoneCut.HeapZonesCover` | src/kmem/heap/buddy.rs:119-176 | the zones are disjoint, aligned to their own size, and cover all of the heap but its last size mod 64 bytes |
| `ZoneCut.HeapZonesCount` | src/kmem/heap/buddy.rs:143-173 | the number of zones for every start and size: ones of the leading gap, full-size zones, ones of the remainder |
| `ZoneCut.AlignedHeapFits` | src/kmem/heap/buddy.rs:143-173 | a heap under 2 GiB that starts aligned to its largest power of two has strictly falling zone orders, at most 25 |
| `ZoneCut.MisalignedCount` | src/kmem/heap/buddy.rs:143-173 | the family of badly aligned heaps whose zone orders rise and then fall needs two zones per order |
| `ZoneCut.MisalignedHeapOverflows` | src/kmem/heap/buddy.rs:158-161 | a heap for which the zone assertion fires |
| `ZoneCut.GapIsRemainder` | src/kmem/heap/buddy.rs:146-150 | the leading gap of the zone count is the distance to the next multiple |
| `ZoneCut.QuotRem` | src/kmem/heap/buddy.rs:143-173 | the two parts of the zone count past the gap are quotient and remainder by the largest zone |
| `BuddyHeap.OrderForSize` | src/kmem/heap/buddy.rs:202-215 | the smallest order that holds the request, and none exactly above 1 GiB |
| `BuddyHeap.LargestOrderFor` | src/kmem/heap/buddy.rs:191-199 | the largest order not above the size, or the smallest order for a size below it |
| `BuddyHeap.BuddyAddrIsBuddy` | src/kmem/heap/buddy.rs:232-256 | inside a zone the computed address is the dyadic buddy, and there is none at the zone's own order |
| `BuddyHeap.BuddyAllocator.Init` | src/kmem/heap/buddy.rs:119-176 | the three assertions fire exactly when the start is misaligned, the heap too small, or the zone count over the limit; otherwise every zone is one free block |
| `BuddyHeap.BuddyAllocator.LayZones` | src/kmem/heap/buddy.rs:137-173 | the zone loop lays out the greedy decomposition, or fails exactly if it is too long |
| `BuddyHeap.BuddyAllocator.ZoneOrder` | src/kmem/heap/buddy.rs:144-156 | the order picked is the largest that is aligned and fits |
| `BuddyHeap.BuddyAllocator.PushFreeBlock` | src/kmem/heap/buddy.rs:264-273 | the block becomes the head of its list; lists stay acyclic with distinct nodes; one word is written, inside the block |
| `BuddyHeap.BuddyAllocator.PopFreeBlock` | src/kmem/heap/buddy.rs:276-290 | the free block of the order that was pushed last leaves its list, and none exactly when there is none |
| `BuddyHeap.BuddyAllocator.RemoveFreeBlock` | src/kmem/heap/buddy.rs:293-320 | found exactly if free; the block leaves its list; only free blocks are written |
| `BuddyHeap.BuddyAllocator.ZoneFor` | src/kmem/heap/buddy.rs:218-228 | the zone that holds the address, none exactly when no zone does |
| `BuddyHeap.BuddyAllocator.SplitBlock` | src/kmem/heap/buddy.rs:356-365 | splitting hands the left half on, frees the right half, and keeps canonical form |
| `BuddyHeap.BuddyAllocator.AllocateOrder` | src/kmem/heap/buddy.rs:347-366 | a block of the order unless no free block is that large; it is cut from the start of a free block of the least order that suffices, the one freed last; writes in no live block |
| `BuddyHeap.BuddyAllocator.Alloc` | src/kmem/heap/buddy.rs:370-386 | null exactly when no vacant aligned block of a zone is large enough for size and alignment; else the least order that is, cut from the smallest maximal vacant block that can hold it; no word of a live block changes |
| `BuddyHeap.SmallestIsLeast` | src/kmem/heap/buddy.rs:375-380 | the order for the larger of size and alignment is the least that holds both |
| `BuddyHeap.RunVacantIffFit` | src/kmem/heap/buddy.rs:347-386 | some free block is large enough exactly if some vacant aligned block of a zone holds size and alignment |
| `BuddyHeap.LeastIsBest` | src/kmem/heap/buddy.rs:347-366 | the least free block that suffices is the least maximal vacant one, whatever the lists hold: a best fit over the live blocks alone |
| `BuddyHeap.BuddyAllocator.Dealloc` | src/kmem/heap/buddy.rs:388-428 | the block of the least order for size and alignment leaves the live set, canonical form is restored, no word of a live block changes |
| `BuddyHeap.BuddyAllocator.MergeUp` | src/kmem/heap/buddy.rs:411-423 | merging stops at the zone or where the buddy is not free |
| `BuddyHeap.BuddyAllocator.MergeBuddy` | src/kmem/heap/buddy.rs:412-422 | one merge step replaces block and buddy by their parent |
| `BuddyHeap.BuddyAllocator.OwnersWrite` | src/kmem/heap/buddy.rs:264-320 | whatever the owners of live blocks write there, the lists and the heap stay sound |
| `BuddyHeap.GrantedFitsLayout` | src/kmem/heap/buddy.rs:370-386 | a granted pointer is a multiple of the layout's alignment and its block holds the size |
| `BuddyHeap.FreedHeapIsWhole` | src/kmem/heap/buddy.rs:388-428 | freeing everything in any order restores one full block per zone, in the lists themselves |
| `BuddyHeap.HistoryDoesNotMatter` | src/kmem/heap/buddy.rs:388-428 | two heaps with the same zones and live blocks have the same free blocks, whatever happened before |
| `Bits.BitChange` | src/fs/ext2/mod.rs:114-122 | setting or clearing a bit changes that bit and no other |
| `Bits.FindZero` | src/fs/ext2/mod.rs:123-138 | the first clear bit below n, and none exactly if all are set |
| `Bits.PtrChange` | src/fs/ext2/mod.rs:102-110 | a 32-bit word reads back as written, and its neighbours stay |
| `BlockBitmap.TakeBit` | src/fs/ext2/mod.rs:605-618 | taking a clear bit takes its block and keeps bits, group counts and total in agreement |
| `BlockBitmap.GiveBit` | src/fs/ext2/mod.rs:634-648 | clearing a used block's bit gives it back and keeps the agreement |
| `BlockBitmap.FreeCount` | src/fs/ext2/mod.rs:597-650 | the superblock's free count is zero exactly if every block is in use |
| `BlockBitmap.ScanCovers` | src/fs/ext2/mod.rs:598-599 | the group scan visits every group, from any goal |
| `BlockBitmap.FirstFound` | src/fs/ext2/mod.rs:597-621 | the first clear bit of the first group with a free count is the first free block from the goal on |
| `BlockTree.TreeFrame` | src/fs/ext2/mod.rs:710-776 | a block tree depends on its indirect blocks only |
| `BlockTree.MapInjective` | src/fs/ext2/mod.rs:710-776 | in a tree without repetition, different indices never share a block, at any depth |
| `BlockTree.Grow` | src/fs/ext2/mod.rs:755-769 | hanging a fresh block on the path adds exactly that block and changes at most one lookup |
| `PruneTree.PruneNode` | src/fs/ext2/mod.rs:787-825 | pruning every pointer of an indirect block prunes its tree: lookups below the cut stay, the others become holes |
| `InodeTree.FileMapInjective` | src/fs/ext2/mod.rs:710-776 | two file blocks never share a device block, across direct and all indirect levels |
| `InodeTree.FileFrame` | src/fs/ext2/mod.rs:710-776 | writing outside a file's indirect blocks leaves its block map |
| `FileGrow.HangFile` | src/fs/ext2/mod.rs:755-769 | a block hung into a file keeps conservation, every other file and all bytes |
| `FileGrow.RootFile` | src/fs/ext2/mod.rs:719-752 | likewise for a block put into an empty inode slot |
| `FileNeed.PartingMono` | src/fs/ext2/mod.rs:753-757 | the nearer an earlier index is, the more levels of its path a later one shares |
| `FileNeed.Ultra` | src/fs/ext2/mod.rs:753-776 | what one path lacks, another lacks at most from where the two part |
| `FileNeed.HangMissing` | src/fs/ext2/mod.rs:755-769 | a block hung on the path to one file block serves exactly the file blocks that share the path down to it |
| `FileNeed.RootMissing` | src/fs/ext2/mod.rs:719-752 | likewise for a block put into an empty inode slot |
| `FileNeed.FilledStep` | src/fs/ext2/mod.rs:753-776 | filling a path level by level leaves every other file block the smaller of what it lacked and what it does not share |
| `FileNeed.DataWriteNeed` | src/fs/ext2/mod.rs:1228-1234 | writing a data block changes no path |
| `FileNeed.AheadStep` | src/fs/ext2/mod.rs:1215-1236 | after a range has been mapped in order, only its last path matters for the blocks ahead |
| `FileNeed.Stopped` | src/fs/ext2/mod.rs:1215-1236 | a loop that stops at its end or at the first block it cannot get has written exactly the bytes whose blocks fit the free ones |
| `LeanTree.NodeLean` | src/fs/ext2/mod.rs:787-825 | an indirect block with pruned pointers, one of them left, leads to no empty branch past the cut |
| `LeanTree.LeanFrame` | src/fs/ext2/mod.rs:787-825 | that depends on the indirect blocks of the tree only |
| `LeanTree.AllLean` | src/fs/ext2/mod.rs:828-857 | in a cut file every indirect block on the path to a file block past the cut has a pointer |
| `FileSpace.GrowFile` | src/fs/ext2/mod.rs:710-776 | a file that gains a free block owns it and nothing else changes hands |
| `FileSpace.ShrinkFile` | src/fs/ext2/mod.rs:828-857 | a file that loses blocks gives back exactly those |
| `FileSpace.Reassign` | src/fs/ext2/mod.rs:597-650 | when one file's blocks and the blocks in use change together, every block still has exactly one place |
| `FileSpace.OverwriteBlock` | src/fs/ext2/mod.rs:1228-1234 | rewriting a data block changes exactly the bytes of its file block |
| `FileSpace.PrunedBytes` | src/fs/ext2/mod.rs:828-857 | cutting the block map cuts the bytes: kept below, zero above |
| `FileSpace.NoStaleBytes` | src/fs/ext2/mod.rs:1269-1280 | on byte sequences, what a cut removed does not come back when the file grows |
| `Ext2Files.Ext2.constructor` | src/fs/ext2/mkfs.rs:81-134 | a device with only metadata in use and blank inodes satisfies the whole invariant |
| `Ext2Files.Ext2.AllocBlock` | src/fs/ext2/mod.rs:597-621 | the first free block of the first group, from the goal on, that has one; NoSpace only if every block is in use; all counters stay exact |
| `Ext2Files.Ext2.GoalIsGroup` | src/fs/ext2/mod.rs:1211-1211 | the goal is the group the inode lies in |
| `Ext2Files.Ext2.AllocZeroedBlock` | src/fs/ext2/mod.rs:623-628 | a free block, zeroed; nothing else on the device changes |
| `Ext2Files.Ext2.FreeBlock` | src/fs/ext2/mod.rs:630-650 | the block becomes free; out of range and double frees are Corrupt; counters stay exact |
| `Ext2Files.Ext2.FillSlot` | src/fs/ext2/mod.rs:719-752 | an empty slot of the inode gets a zeroed block; bytes, other files and conservation are kept |
| `Ext2Files.Ext2.HangBlock` | src/fs/ext2/mod.rs:755-769 | a missing block below an indirect block is added with the same guarantees |
| `Ext2Files.Ext2.Bmap` | src/fs/ext2/mod.rs:710-776 | the mapping of a file block, created on demand; bytes and other files never change; TooBig exactly beyond the tree; NoSpace exactly if fewer blocks are free than the path lacks; otherwise exactly those are taken, and what every other file block then lacks is known |
| `Ext2Files.Ext2.Descend` | src/fs/ext2/mod.rs:753-776 | the descent reaches the block of the index at every depth and takes exactly the blocks that are missing |
| `Ext2Files.Ext2.FreeSubtree` | src/fs/ext2/mod.rs:780-825 | lookups below the cut stay, the rest become holes, exactly the blocks that left the tree are freed, each once, and no indirect block that reaches past the cut is left without a pointer |
| `Ext2Files.Ext2.PruneEntries` | src/fs/ext2/mod.rs:793-814 | the pointer loop of the cut, with its all-zero answer |
| `Ext2Files.Ext2.PruneSlots` | src/fs/ext2/mod.rs:834-854 | the same over the fifteen inode slots; with a cut at zero all pointers go |
| `Ext2Files.Ext2.TruncateBlocks` | src/fs/ext2/mod.rs:828-857 | the whole cut: mapping below kept, holes above, exactly the dropped blocks freed once, no empty branch left past the cut, sector count and free count exact, other files kept |
| `Ext2Files.Ext2.WriteChunk` | src/fs/ext2/mod.rs:1228-1234 | part of one block is written: exactly those bytes of the file change |
| `Ext2Files.Ext2.Read` | src/fs/ext2/mod.rs:1160-1191 | the bytes of the file from the offset on, cut at its end; holes read as zero; the errors of each case |
| `Ext2Files.Ext2.ReadBlocks` | src/fs/ext2/mod.rs:1173-1189 | the read loop returns the slice of the file |
| `Ext2Files.Ext2.Write` | src/fs/ext2/mod.rs:1193-1252 | the file becomes the old bytes overlaid with exactly the returned number of bytes, gaps zero; for every n, at least n bytes are written exactly if the blocks these need, counted before the call, were free (up to the cap), hence NoSpace exactly if fewer blocks are free than the path to the first byte lacks; the blocks left are those not needed, or none after a short write; kind, links, other files and conservation kept |
| `Ext2Files.ReadAfterWrite` | src/fs/ext2/mod.rs:1160-1252 | reading where a write has been returns the bytes it reported written |
| `Ext2Files.ReadAfterTruncate` | src/fs/ext2/mod.rs:1160-1286 | reading a file after it was cut or extended returns its prefix and then zeros |
| `Ext2Files.Ext2.WriteBlocks` | src/fs/ext2/mod.rs:1215-1236 | the write loop lays down exactly the bytes it reports, and as many as the free blocks before it allow |
| `Ext2Files.Ext2.Truncate` | src/fs/ext2/mod.rs:1254-1286 | the file becomes its prefix or is extended with zeros; bytes past the end are zero, so nothing stale returns; a cut keeps the device block of every file block that begins before the new end and no other, frees exactly the blocks that leave the file, all of them at size 0; kind, links, other files and conservation kept |
| `Ext2Files.Ext2.Shrink` | src/fs/ext2/mod.rs:1265-1279 | cutting inside a block zeroes its tail, keeps every file block that begins before the cut, and frees exactly the rest |
| `Ext2Files.Ext2.AppendBlock` | src/fs/ext2/mod.rs:934-942 | a directory grows by one block; NoSpace exactly if fewer blocks are free than the path to the new block lacks, TooBig exactly beyond the tree; the invariant breaks exactly if some but not enough blocks are free |
| `Ext2Files.Ext2.Unrecorded` | src/fs/ext2/mod.rs:936-936 | a tree that grew without its inode being stored no longer matches the blocks in use |
| `Ext2Files.Ext2.DestroyInode` | src/fs/ext2/mod.rs:1039-1051 | exactly the blocks of the file become free, the inode owns nothing and has no links, its kind stays, all other files and the invariant are kept |
| `Ext2Files.FreedButOwned` | src/fs/ext2/mod.rs:1329-1337 | a directory record that points at a block given back, as a failed mkdir leaves it, contradicts conservation |
| `DirectoryLeak.TinyConsistent` | src/fs/ext2/mod.rs:934-936 | a consistent device with one free block on which a directory needs two |
| `DirectoryLeak.Leak` | src/fs/ext2/mod.rs:934-942 | on that device the append fails and leaves the filesystem inconsistent |
| `Ext2Files.BlocksDetermined` | src/fs/ext2/mod.rs:597-650 | given the blocks in use and all other files, the blocks of a file are determined |
| `Ext2Files.CapReachable` | src/fs/ext2/mod.rs:1204-1210 | below the 2^31-1 cap every file block has a place in the tree, for every block size |
| `Ext2Files.WrittenFile` | src/fs/ext2/mod.rs:1193-1252 | laying bytes into blocks and raising the size is overlaying the byte sequence |
| `Ext2Files.TruncatedFile` | src/fs/ext2/mod.rs:1254-1286 | cutting blocks and setting the size is resizing the byte sequence |
| `DirRecords.ParseIffRec` | src/fs/ext2/mod.rs:345-360 | parsing succeeds exactly where a valid record stands, and returns its fields |
| `DirRecords.PutRec` | src/fs/ext2/mod.rs:362-368 | a written record parses back, and the bytes outside it stay |
| `DirRecords.TilesPrefix` | src/fs/ext2/mod.rs:879-890 | records scanned from the start are a prefix of any tiling: a block has one reading |
| `DirBlock.FindInBlock` | src/fs/ext2/mod.rs:879-890 | what the scan of any bytes finds; an entry of that name in a tiled block, none exactly if absent; Corrupt only if the block is not tiled |
| `DirBlock.ScanTiled` | src/fs/ext2/mod.rs:879-890 | on a tiled block the scan finds exactly the names that are there |
| `DirBlock.AddInBlock` | src/fs/ext2/mod.rs:908-932 | the block gains exactly the entry and stays tiled; nothing fits exactly if no record has the slack; the dot records stay in front |
| `DirBlock.GapTiled` | src/fs/ext2/mod.rs:908-932 | on a tiled block the search for room succeeds exactly if a record has the slack |
| `DirBlock.RemoveInBlock` | src/fs/ext2/mod.rs:956-981 | the block loses exactly the entry, stays tiled, and has room for the same name again |
| `DirBlock.BlockIsEmpty` | src/fs/ext2/mod.rs:996-1007 | whether the block holds nothing but dot entries |
| `DirBlock.SetParentInBlock` | src/fs/ext2/mod.rs:1019-1025 | rewriting the second record changes exactly the ".." entry, because the dots always stand in front |
| `DirBlock.FreshDirBlock` | src/fs/ext2/mod.rs:1316-1318 | the first block of a directory is tiled by its two dot records |
| `Directory.NewBlock` | src/fs/ext2/mod.rs:937-938 | a fresh block is tiled by one record |
| `Directory.NameRefusals` | src/fs/ext2/mod.rs:160-168 | an empty name or one with a zero or a slash is Invalid at any length, any other is NameTooLong from 256 bytes on, all others are accepted |
| `Directory.MapInsert` | src/fs/ext2/mod.rs:895-943 | adding an absent name is insertion into the finite map |
| `Directory.MapDelete` | src/fs/ext2/mod.rs:946-984 | removing an entry is deletion from the finite map |
| `Directory.Dir.Fresh` | src/fs/ext2/mod.rs:1314-1325 | a new directory is the map of "." and ".." |
| `Directory.Dir.Find` | src/fs/ext2/mod.rs:870-893 | the first match over any blocks and holes; in a sound directory lookup in a finite map |
| `Directory.Dir.Add` | src/fs/ext2/mod.rs:895-943 | which block is written, for any bytes; in a sound directory insertion into the map, failing exactly without room and without a new block; unchanged on failure |
| `Directory.Dir.Remove` | src/fs/ext2/mod.rs:946-984 | which block is written, for any bytes; in a sound directory deletion from the map, NotFound exactly if absent, and room for the same name afterwards |
| `Directory.Dir.Replace` | src/fs/ext2/mod.rs:1555-1566 | removing a name and adding it again for another inode needs no new block and cannot fail half way |
| `Directory.Dir.IsEmpty` | src/fs/ext2/mod.rs:986-1010 | true exactly if the map holds no name but the dots |
| `Directory.Dir.SetParent` | src/fs/ext2/mod.rs:1013-1026 | only ".." changes, to the new parent |
| `Directory.Gained` | src/fs/ext2/mod.rs:908-932 | a block that gains an entry: insertion if the name is new, otherwise the directory has the name twice and is no longer sound |
| `Directory.Lost` | src/fs/ext2/mod.rs:956-981 | a block that loses an entry: deletion from the map |
| `NameTree.BalanceSet` | src/fs/ext2/mod.rs:1030-1051 | how replacing one node moves link counts against references |
| `NameTree.DestroyBalance` | src/fs/ext2/mod.rs:1039-1051 | destroying an inode drops its own dots from the count |
| `NameMoves.MadeInv` | src/fs/ext2/mod.rs:1061-1089 | creating a file keeps the tree and every link count |
| `NameMoves.LinkExact` | src/fs/ext2/mod.rs:1427-1454 | a hard link keeps the tree exactly if directory and target are in use |
| `NameMoves.DroppedInv` | src/fs/ext2/mod.rs:1456-1473 | removing a file name keeps the tree; the last name frees the inode |
| `NameDirs.MadeDirInv` | src/fs/ext2/mod.rs:1292-1342 | making a directory keeps the tree |
| `NameDirs.EmptyLinks` | src/fs/ext2/mod.rs:1475-1495 | an empty directory has exactly two references |
| `NameDirs.RemovedDirInv` | src/fs/ext2/mod.rs:1475-1495 | removing an empty directory keeps the tree |
| `NameRename.ClimbMoved` | src/fs/ext2/mod.rs:1566-1572 | after a move every directory still climbs to the root, the moved ones through the new parent |
| `NameRename.CycleCutsOff` | src/fs/ext2/mod.rs:1519-1535 | moving a directory into itself would cut it off from the root, so the parent check is needed |
| `NameRename.MoveExact` | src/fs/ext2/mod.rs:1566-1572 | a move keeps the tree exactly if the target directory is in use, not inside the moved one, and below the link-count clamp |
| `NameSpec.CreateKeepsTree` | src/fs/ext2/mod.rs:1061-1089 | creation keeps the tree whichever free inode is taken |
| `NameSpec.OverwriteThenMove` | src/fs/ext2/mod.rs:1544-1563 | clearing the target name leaves a tree in which the source can still be moved there |
| `NameSpec.RenameExact` | src/fs/ext2/mod.rs:1497-1577 | an accepted rename, plain or overwriting, keeps the tree exactly if it is sound |
| `NameFacts.RenameNames` | src/fs/ext2/mod.rs:1497-1577 | seen from outside a rename is one step: old name gone, new name leads to the source, every other name as before |
| `NameFacts.FileLinks` | src/fs/ext2/mod.rs:1427-1473 | a file's link count is the number of its names |
| `NameFacts.DirLinks` | src/fs/ext2/mod.rs:1292-1342 | a directory's link count is two plus its subdirectories |
| `NameFacts.FormattedInv` | src/fs/ext2/mkfs.rs:190-205 | an empty filesystem is a tree |
| `NameFacts.LinkIntoRemovedDir` | src/fs/ext2/mod.rs:1427-1454 | a run after which `link` accepts a removed directory and breaks the tree |
| `NameFacts.RenameIntoRemovedDir` | src/fs/ext2/mod.rs:1497-1577 | the same for `rename` of a file |
| `NameRuns.RenameIntoFullDir` | src/fs/ext2/mod.rs:1566-1572 | a run of 65,532 accepted mkdirs and renames, after which one more pair is accepted and the count of the root stays behind |
| `NameStale.LostFile` | src/fs/ext2/mod.rs:1071-1088 | a new file whose name no directory received breaks the tree |
| `NameStale.DeadParent` | src/fs/ext2/mod.rs:1306-1341 | so does a directory whose parent is not in use |
| `NameStale.OwnParent` | src/fs/ext2/mod.rs:1306-1341 | a directory made inside itself, when its own leftover number is picked, is cut off |
| `NameStale.WrongCount` | src/fs/ext2/mod.rs:1427-1473 | a file whose count moves without its names breaks the tree |
| `NameStale.UncountedName` | src/fs/ext2/mod.rs:1427-1454 | a name the count does not know of breaks the tree |
| `NameStale.NameStays` | src/fs/ext2/mod.rs:1475-1495 | a directory destroyed while its name stays breaks the tree |
| `NameStale.CountStays` | src/fs/ext2/mod.rs:1475-1495 | a directory removed while the count of its parent stays breaks the tree |
| `NameStale.MovedAwayBreaks` | src/fs/ext2/mod.rs:1566-1572 | a rename whose new name no directory received breaks the tree |
| `NameStale.WalkInTree` | src/fs/ext2/mod.rs:1519-1535 | from every directory that is no leftover the parent walk ends, and says what the tree says |
| `InodeDirs.AddIn` | src/fs/ext2/mod.rs:895-943 | `dir_add` on any blocks; on a sound directory map insertion |
| `InodeDirs.RemoveIn` | src/fs/ext2/mod.rs:946-984 | `dir_remove` on any blocks; on a sound directory map deletion |
| `InodeDirs.AddsView` | src/fs/ext2/mod.rs:908-932 | the same bytes gain an entry in whichever directory they belong to |
| `InodeDirs.EmptyIn` | src/fs/ext2/mod.rs:986-1010 | `dir_is_empty` on a stored directory |
| `InodeDirs.SetParentIn` | src/fs/ext2/mod.rs:1013-1026 | `dir_set_parent` on a stored directory changes ".." only |
| `InodeDirs.FreshIn` | src/fs/ext2/mod.rs:1314-1325 | the block `mkdir` writes: its dots, and room for any name |
| `DirStore.ForeignWrite` | src/fs/ext2/mod.rs:895-943 | writing a block that no directory owns changes no name |
| `DirStore.OwnedWrite` | src/fs/ext2/mod.rs:895-943 | writing a block changes the directory that owns it and no other, whoever writes it |
| `DirStore.OthersHarmNothing` | src/fs/ext2/mod.rs:1329-1338 | whatever the users of other blocks write, take or give back, the names stay, also if leftovers point at those blocks |
| `Namespace.Namespace.constructor` | src/fs/ext2/mkfs.rs:190-205 | a fresh namespace satisfies the tree invariant |
| `Namespace.Namespace.OthersWrite` | src/fs/ext2/mod.rs:1329-1338 | a step of the users of other blocks keeps the namespace |
| `Namespace.Namespace.AddTo` | src/fs/ext2/mod.rs:895-943 | the name goes into the directory that owns the block it lands in, if any; a name that is there already makes it unsound; refused exactly without room or on corrupt bytes, and then nothing changes |
| `Namespace.Namespace.RemoveFrom` | src/fs/ext2/mod.rs:946-984 | the name goes from the directory that owns the block it is found in, if any |
| `Namespace.Namespace.DestroyInode` | src/fs/ext2/mod.rs:1039-1051 | the inode loses contents and links but keeps its kind; exactly its blocks become free; freeing fails exactly for reserved and free numbers |
| `Namespace.Namespace.MayCreate` | src/fs/ext2/mod.rs:1061-1070 | the refusals of a creation, in order, for any number and any bytes |
| `Namespace.Namespace.Create` | src/fs/ext2/mod.rs:1061-1089 | exact answer for any number; an accepted call keeps the tree exactly if the name goes into a directory in use that lacks it, hence always if the directory is no leftover; a failure changes no name, and leaves the record written exactly if the directory could not take the name |
| `Namespace.Namespace.Mkdir` | src/fs/ext2/mod.rs:1292-1342 | an accepted call keeps the tree exactly if the directory is no leftover, whatever leftovers point at; a failure changes no name, and gives back its block |
| `Namespace.Namespace.EnterDir` | src/fs/ext2/mod.rs:1326-1341 | the second half of it, where a leftover may share a block with the new directory |
| `Namespace.Namespace.Link` | src/fs/ext2/mod.rs:1427-1454 | exact answer for any numbers; an accepted call keeps the tree exactly if the name goes into a directory in use that lacks it and the target is in use, or a leftover target gets a name nobody sees |
| `Namespace.Namespace.Unlink` | src/fs/ext2/mod.rs:1456-1473 | exact refusals for any number; an accepted call keeps the tree exactly if the name goes from a directory that counts, or the file was not in use; afterwards the name fits again |
| `Namespace.Namespace.Rmdir` | src/fs/ext2/mod.rs:1475-1495 | a call that succeeds keeps the tree exactly if the directory is no leftover; exact refusals and effect where it is none, and its blocks are given back |
| `Namespace.Namespace.WalkUp` | src/fs/ext2/mod.rs:1519-1535 | the parent walk gives its verdict on any records from which it ends |
| `Namespace.Namespace.Overwrite` | src/fs/ext2/mod.rs:1555-1563 | the existing target goes as by unlink or rmdir, and its name fits again |
| `Namespace.Namespace.MoveEntry` | src/fs/ext2/mod.rs:1566-1572 | between directories that count adding the new name is the only step that can fail; into a leftover the name goes to the directory that receives it, or is lost, and a directory hangs below the leftover |
| `Namespace.Namespace.RenameOver` | src/fs/ext2/mod.rs:1544-1572 | exact refusals; an accepted overwriting rename needs no new block and cannot fail |
| `Namespace.Namespace.Rename` | src/fs/ext2/mod.rs:1497-1577 | between directories that are no leftovers: the parent walk ends, exact answer, all or nothing, and the tree is kept exactly if the rename is sound; to a free name in a leftover the tree is kept exactly if a directory in use receives the name and the source is no directory |
| `Namespace.Namespace.RenameFound` | src/fs/ext2/mod.rs:1516-1577 | the same once the source is found |
| `LeftoverRuns.Start` | src/fs/ext2/mkfs.rs:190-213 | the device, three directories in one another and the file that takes the last block |
| `LeftoverRuns.Fail` | src/fs/ext2/mod.rs:1306-1338 | the `mkdir` that fails: the one free block is gone when the root would grow |
| `LeftoverRuns.Prepare` | src/fs/ext2/mod.rs:1292-1342 | a run with first-fit allocation from the smallest formatted device on: a file takes all blocks, `link` fills the root, the file gives one block back, and `mkdir` takes it, finds none to append to the root, fails, and leaves its record behind |
| `LeftoverRuns.CreateLost` | src/fs/ext2/mod.rs:1061-1089 | then `create` through the leftover is accepted, takes the first free inode, and breaks the tree |
| `LeftoverRuns.Adopt` | src/fs/ext2/mod.rs:1292-1342 | or a new directory takes the first free inode and the block at which the leftover points |
| `LeftoverRuns.CreateAdopted` | src/fs/ext2/mod.rs:1061-1089 | after which `create` through the leftover, with a lower inode free, keeps the tree |
| `LeftoverRuns.RmdirBreaks` | src/fs/ext2/mod.rs:1475-1495 | and `rmdir` through it, of a directory made in the new owner, succeeds and breaks the tree |
| `LeftoverRuns.EndlessWalk` | src/fs/ext2/mod.rs:1519-1535 | or files take the blocks of two leftovers and hold the bytes of directories: from there the parent walk of `rename` never ends |
| `Walk.CompsJoin` | src/fs/ext2/mod.rs:1620-1623 | joining paths with a slash joins their components |
| `Walk.RunSplit` | src/fs/ext2/mod.rs:1624-1640 | resolution of a list of components can be done in two parts, counter included |
| `Walk.DepthBound` | src/fs/ext2/mod.rs:1628-1635 | one shared counter bounds all nested and sequential expansions to 40 |
| `Walk.WalkPath` | src/fs/ext2/mod.rs:1608-1641 | the recursive walk ends on every graph and equals the flat machine that puts a link's text before the remaining components, counter and errors included |
| `Walk.RunSound` | src/fs/ext2/mod.rs:1608-1641 | what the bounded machine returns, unbounded resolution returns |
| `Walk.RunComplete` | src/fs/ext2/mod.rs:1608-1641 | what unbounded resolution reaches within the limit, the machine returns |
| `Walk.ResolveExact` | src/fs/ext2/mod.rs:1603-1641 | `resolve` returns exactly what resolution by its own reading of paths returns without a limit in at most 40 links, and Loop exactly otherwise |
| `Walk.AbsoluteAnywhere` | src/fs/ext2/mod.rs:1615-1619 | a path that begins with a slash resolves the same from every working directory |
| `Walk.SlashStartsAtRoot` | src/fs/ext2/mod.rs:1615-1619 | a slash before any path resolves it from the root, and alone it is the root |
| `Walk.LinkText` | src/fs/ext2/mod.rs:1628-1635 | a link met on the way is resolved from the root or from its own directory, as its text begins, and the walk goes on from there |
| `Walk.JoinedPaths` | src/fs/ext2/mod.rs:1608-1643 | two paths joined by a slash: the second is resolved from where the first leads, with one counter |
| `Walk.NameIsPath` | src/fs/ext2/mod.rs:160-168 | a name that a directory accepts is one component, so what is entered under it is found by it |
| `Walk.NoLastName` | src/fs/ext2/mod.rs:1649-1652 | a path has no last name exactly if it is all slashes |
| `Walk.SplitComps` | src/fs/ext2/mod.rs:1644-1659 | parent and name together have the components of the path |
| `Walk.ParentThenName` | src/fs/ext2/mod.rs:1644-1659 | resolving without following the last link is resolving the parent and looking up the name |
| `Walk.TrailingDotDropped` | src/fs/ext2/mod.rs:1620-1623 | a path that ends in "/." resolves as the path before it, link or not |
| `PosixPath.CompsArePieces` | src/fs/ext2/mod.rs:1620-1623 | the components of the walk are the pieces of the path without the dots |
| `PosixPath.Simulated` | src/fs/ext2/mod.rs:1608-1641 | a walk that ends, ends as section 4.13 of POSIX.1-2017 XBD has it, but for the directory asked for at the end |
| `PosixPath.CutOff` | src/fs/ext2/mod.rs:1628-1632 | a walk that is cut off would need more than 40 links under the standard too |
| `PosixPath.PosixExact` | src/fs/ext2/mod.rs:1603-1641 | `resolve` agrees with section 4.13 of POSIX.1-2017 XBD exactly if it fails, or the path is not empty and, where it or a link text at its end asks for a directory, the object is one |
| `PosixPath.TrailingSlashIgnored` | src/fs/ext2/mod.rs:1620-1623 | "f/" finds a file and "l/" a link that is not followed, where the standard finds neither |
| `PosixPath.EmptyPathFinds` | src/fs/ext2/mod.rs:1615-1640 | the empty path names the start, where the standard refuses it |
| `Format.PowerOf` | src/fs/ext2/mod.rs:148-156 | multiplying up decides whether a number is a power of the base |
| `Format.WholeDevice` | src/fs/ext2/mkfs.rs:33-33 | the device is used in whole blocks, as many as it has up to 0xFFFF0000 |
| `Format.HasSuper` | src/fs/ext2/mod.rs:141-158 | true exactly for 0, 1 and the powers of 3, 5 and 7 |
| `Format.ClampedRange` | src/fs/ext2/mkfs.rs:46-51 | inodes per group: whole blocks, at least 16, at most a bitmap, whatever the request |
| `Format.PlanGroups` | src/fs/ext2/mkfs.rs:41-63 | the geometry loop ends for every size and option with groups that cover the blocks and a last group of use |
| `Format.InodeCount` | src/fs/ext2/mkfs.rs:43-64 | unless the groups are full or at the minimum, the device gets at least its bytes over the bytes per inode, and less than that plus one block of inodes per group |
| `Format.MetaFits` | src/fs/ext2/mkfs.rs:59-70 | once accepted, the metadata of every group fits inside the group with blocks to spare |
| `Format.MakeBitmap` | src/fs/ext2/mkfs.rs:96-110 | exactly the bits before the data and past the end are set |
| `Format.ZerosOfRange` | src/fs/ext2/mkfs.rs:96-125 | such a bitmap has as many clear bits as the counter says |
| `Format.MakeGroup` | src/fs/ext2/mkfs.rs:82-131 | both bitmaps of a group and both of its counters agree |
| `Format.MakeGroups` | src/fs/ext2/mkfs.rs:76-134 | all groups, and the totals are the sums |
| `Format.BitMeaning` | src/fs/ext2/mkfs.rs:82-102 | a bit is metadata or past the end exactly as its block number says; groups never overlap |
| `Format.FormattedBitmapsOk` | src/fs/ext2/mkfs.rs:76-134 | a fresh device satisfies the allocator's invariant with exactly the metadata in use |
| `Format.MountedGeometryOk` | src/fs/ext2/mod.rs:400-454 | every superblock `mount` accepts has a geometry the allocator can work with |
| `Format.MountAccepts` | src/fs/ext2/mod.rs:400-454 | exactly which superblocks are accepted on a device, and with what geometry |
| `Format.FormatMounts` | src/fs/ext2/mkfs.rs:137-159 | `mount` accepts what `format` wrote, with the same geometry, and no count overflows |
| `Format.FormatGroups` | src/fs/ext2/mkfs.rs:26-134 | accepted exactly if block size, device size and first group allow; then all of the above |
| `Format.BlockZeroTaken` | src/fs/ext2/mkfs.rs:34-34 | block 0 is never handed out, so a zero pointer can mean a hole |
| `Ext2Format.FormatAndMount` | src/fs/ext2/mkfs.rs:26-188 | an accepted device mounts into a filesystem that satisfies the whole invariant |
| `FrameAlloc.StartTestExact` | src/kmem/frame.rs:156-161 | testing start addresses keeps off every frame that meets a reserved range exactly if the first frame of each range is itself hit |
| `FrameAlloc.AlignedStarts` | src/kmem/frame.rs:115-127 | page-aligned ranges meet that condition |
| `FrameAlloc.UnalignedStartIgnored` | src/kmem/frame.rs:108-109 | a range for which the promise to avoid overlapping frames fails |
| `FrameAlloc.StoppedSearch` | src/kmem/frame.rs:251-254 | a memory map in which a usable frame is never handed out |
| `FrameAlloc.FrameAllocator.Reserve` | src/kmem/frame.rs:115-127 | a reservation before the first allocation keeps the invariant |
| `FrameAlloc.FrameAllocator.SkipReserved` | src/kmem/frame.rs:167-187 | ends at the least frame no range hits, for unsorted and overlapping ranges |
| `FrameAlloc.FrameAllocator.NextUsableRegion` | src/kmem/frame.rs:189-202 | moves to a usable region without losing frames |
| `FrameAlloc.FrameAllocator.BumpRegion` | src/kmem/frame.rs:253-275 | the next frame of a region was never issued; a region left has no frame ahead |
| `FrameAlloc.FrameAllocator.PopFreeFrame` | src/kmem/frame.rs:227-240 | the last freed frame comes back |
| `FrameAlloc.FrameAllocator.AllocateFrame` | src/kmem/frame.rs:244-277 | a frame nobody holds, usable and not reserved; none exactly if every such frame before the first region that wraps around the address space is held |
| `FrameAlloc.FrameAllocator.DeallocateFrame` | src/kmem/frame.rs:288-292 | the frame becomes free and its link is written inside it only |
| `FrameAlloc.FrameAllocator.OwnerWrites` | src/kmem/frame.rs:209-214 | what the holder writes into a live frame cannot harm the free list |
| `FrameAlloc.FrameAllocator.FreeFrameCount` | src/kmem/frame.rs:134-152 | the length of the list; the walk ends |
| `FrameAlloc.BumpOne` | src/kmem/frame.rs:265-271 | advancing the cursor issues exactly one frame, not issued before |
| `Framebuffer.Screen.constructor` | src/fb.rs:114-168 | after the start both buffers are black, whatever the hardware showed |
| `Framebuffer.Screen.MarkDirty` | src/fb.rs:189-223 | the dirty rectangle becomes exactly the bounding box of what it was and the clipped new one |
| `Framebuffer.Screen.PutPixel` | src/fb.rs:243-259 | one pixel, or nothing outside; the buffers agree outside the dirty rectangle |
| `Framebuffer.Screen.Clear` | src/fb.rs:265-279 | every pixel; agreement holds |
| `Framebuffer.Screen.DrawRect` | src/fb.rs:285-320 | exactly the pixels of the rectangle on the screen; agreement holds |
| `Framebuffer.Screen.CopyRect` | src/fb.rs:334-393 | equal to a simultaneous copy from a snapshot, for every overlap in both axes; agreement holds |
| `Framebuffer.Screen.ScrollUp` | src/fb.rs:424-452 | all rows move up, the uncovered ones are filled |
| `Framebuffer.Screen.ScrollDown` | src/fb.rs:481-509 | all rows move down, the uncovered ones are filled |
| `Framebuffer.Screen.Present` | src/fb.rs:544-580 | afterwards the buffers agree everywhere |
| `Console.SlotsApart` | src/console.rs:162-169 | lines the ring can hold together never share a cell |
| `Console.Console.PaintedShift` | src/console.rs:547-600 | moving the view by lines moves the painted picture by text rows |
| `Console.Console.DrawChar` | src/font.rs:84-117 | exactly the inked pixels of the glyph change |
| `Console.Console.RenderRow` | src/console.rs:547-589 | the row shows its line and nothing else changes |
| `Console.Console.Render` | src/console.rs:596-600 | the text area shows the view |
| `Console.Console.ScrollUp` | src/console.rs:349-422 | for every count and screen height the text area is what a full render would paint; the view moves to the exact line |
| `Console.Console.ScrollDown` | src/console.rs:429-491 | the same towards the live line |
| `Console.Console.FollowBottom` | src/console.rs:323-332 | back at the live view, correctly painted |
| `Console.Console.ClearLine` | src/console.rs:205-226 | one line is blanked, no other line of the history changes |
| `Console.Console.Newline` | src/console.rs:606-649 | scrolling by one line and painting one row equals a full render; the text becomes that of a line feed; the history is kept |
| `Console.Console.WriteCell` | src/console.rs:710-758 | the character stands at the cursor, the cursor moves on, the screen stays as a full render; nothing else of the text changes but a new line at the bottom |
| `Console.Console.PutChar` | src/console.rs:657-703 | each byte does to the text what it does on the terminal of `Terminal`; the screen is what a full render of the live view would paint, after a backspace exactly if that leaves the live view in place or moves it to one that looks the same |
| `Console.Console.WriteStr` | src/console.rs:801-808 | a string does to the text what its bytes do in turn; without a backspace in it the screen shows that |
| `Console.Console.CursorInView` | src/console.rs:288-303 | the live view holds the cursor's line, as its last once the screen is full; the history reaches back exactly as far as the ring |
| `Terminal.PrintableByte` | src/console.rs:696-758 | a byte from 0x20 to 0x7e stands where the cursor was, the cursor goes on over line ends, every other cell stays but for a blank new line at the bottom |
| `Terminal.LineFeed` | src/console.rs:606-643 | LF starts the next line, blank at the bottom; no other line changes |
| `Terminal.NoText` | src/console.rs:673-703 | CR goes to column 0; bytes that are neither printable nor known controls change nothing |
| `Terminal.TabStop` | src/console.rs:677-690 | a tab goes to the next multiple of four, or is a line feed if that is past the columns |
| `Terminal.BackspaceByte` | src/console.rs:764-794 | a backspace empties the cell before the cursor and goes there, also over a line start |
| `Terminal.BackspaceUndoes` | src/console.rs:657-794 | after a printable byte it brings the cursor back, also from the next line |
| `Terminal.Wrapped` | src/console.rs:710-808 | a printable string of any length is laid out row by row: byte i stands i cells after the cursor, counted over line ends, as long as the ring holds that line |
| `Console.Console.PutCell` | src/console.rs:730-751 | the cell at the cursor is set and its pixels painted; every other pixel and every other line the ring holds stay |
| `Console.Console.Backspace` | src/console.rs:764-794 | the cell before the cursor is erased, also across a line start; the screen is a full render exactly if the picture is kept |
| `Console.StaleAfterBackspace` | src/console.rs:764-794 | a console on which taking back a character leaves the line before it off the screen |
| `Console.Console.Clear` | src/console.rs:232-252 | every line is blank; the screen shows that exactly if the current background is the default one |
| `Kconfig.GreatestUnique` | scripts/kconfig.py:98-105 | the greatest closed subset is unique, so the order of visits cannot matter |
| `Kconfig.ClosedIsGreatest` | scripts/kconfig.py:98-105 | normalising a closed set changes nothing |
| `Kconfig.SwitchOffExact` | scripts/kconfig.py:154-157 | switching a symbol off switches off exactly those that need it, directly or through others |
| `Kconfig.Symbols.Normalize` | scripts/kconfig.py:98-105 | the greatest dependency-closed subset of what is on, also for cyclic dependencies |
| `Kconfig.Symbols.Pass` | scripts/kconfig.py:102-105 | one round drops only symbols no closed subset contains |
| `Kconfig.Symbols.Toggle` | scripts/kconfig.py:154-159 | the set stays closed; exactly what must change changes |
| `Kconfig.LineParses` | scripts/kconfig.py:113-121 | a saved line reads back as written exactly if the name is made of word characters |
| `Kconfig.LineMeans` | scripts/kconfig.py:113-121 | exactly which lines switch a symbol on and which off; no other line sets anything |
| `Kconfig.SavedReadsBack` | scripts/kconfig.py:108-139 | the values read from a saved file, for all names |
| `Kconfig.Symbols.Load` | scripts/kconfig.py:108-123 | the greatest closed subset of what the lines switch on over the defaults |
| `Kconfig.Symbols.Save` | scripts/kconfig.py:126-139 | one line per symbol after the header |
| `Kconfig.Symbols.SaveAndLoad` | scripts/kconfig.py:108-139 | a closed configuration with word names loads back unchanged |

## Left out

- Block device errors, crash consistency, `sync`, timestamps, owners, modes beyond the file type, device nodes and the INDEX flag.
- The byte encoding of inodes, group descriptors and the superblock: bitmaps, counters, inodes and superblock fields are typed values; the blocks they occupy are the set `meta`, which no file may touch.
- Branches that report corruption of those structures while mounted, since the invariant rules it out.
- `alloc_inode` and `free_inode` on bitmaps: the namespace takes any inode from the set of free ones, so its results hold for every choice; `used_dirs` is not modelled.
- The namespace has its own store of blocks, with a directory's pointers in one list: indirect blocks and the blocks of files are not told apart there, and the block an append would get, or its error, is the parameter `grow`. The append itself is `Ext2Files.Ext2.AppendBlock`; block conservation over all files is proved in `Ext2Files` only.
- `symlink` and `readlink`: for the tree a symbolic link is a file as `create` makes it.
- `stat`, `readdir`, `chmod`, `chown`, `read_to_vec`, `write_file`: they only read or set plain fields, or combine modelled calls.
- The file type byte of directory entries is carried but not related to inodes.
- UTF-8 checks: names and paths are bytes; the text of a link and its check are the parameter `target` of `Walk.Fs`.
- Addresses and sizes are unbounded numbers: the heap and frame models assume no machine-word overflow other than the tests the code itself makes. Debug builds would stop where the inode request of `format` wraps; the model wraps.
- Framebuffer rows are rows of a two-dimensional array rather than offsets into one; pitch and colour packing are not modelled.
- The console's keyboard input, and its colour setters, which set plain fields.
- Reading Kconfig files, the generated make file, and the sorting of symbol names.
- Drivers, interrupt and descriptor tables, system calls, the ELF loader and the shell.
- Namespace.Namespace.Rename: requires, for a leftover target directory, that the parent walk from it ends, since the code does not end otherwise (`LeftoverRuns.EndlessWalk`). For a leftover source directory, an existing name in a leftover target, or a name the receiver already has it states no outcome.
- Namespace.Namespace.RenameFound: the same.
- Namespace.Namespace.Rmdir: a call through a leftover that fails half way may have freed blocks of another directory; only the tree is stated to survive it.
- Directory.Dir.Add: whether a block can be appended is the parameter `grow`; what decides it is `Ext2Files.Ext2.AppendBlock`.
- InodeDirs.AddIn: the same.
- Ext2Format.FormatAndMount: superblock, descriptors and bitmaps are handed over as values, not written to the device and read back.
- BuddyHeap.BuddyAllocator.Init: requires a start above 0, since the first node would lie at the null pointer.
- Console.Console.DrawChar: the glyph table and its scaling are the parameter `font`.
- FrameAlloc.FrameAllocator.Reserve: requires that no frame has been issued, as its documentation demands, and an end below the last page, where rounding up would overflow.
