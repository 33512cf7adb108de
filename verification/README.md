# Verified model of a small 32-bit kernel

A Dafny model of the parts of the kernel that carry state across calls, and proofs of what
every run keeps. `dafny verify dfyconfig.toml` checks all of it.

| file | models |
|---|---|
| `Bitmap.dfy` | the first-fit bitmap allocator |
| `List.dfy`, `Queue.dfy`, `Option.dfy` | the intrusive doubly linked list, the duplicate-free sequences it stands for, absent values |
| `Disk.dfy`, `Inode.dfy`, `InodeCache.dfy` | sectors, the packed inode table, the list of open inodes |
| `Store.dfy` | what the file system calls promise: a map from inode number to contents |
| `Ownership.dfy`, `FileView.dfy`, `File.dfy`, `Volume.dfy` | who owns which block; files over direct and indirect blocks; directories as inodes; a file together with its entry |
| `Format.dfy` | the layout and the block bitmap of a new partition |
| `Dir.dfy`, `DirTable.dfy`, `Path.dfy`, `Tree.dfy`, `DiskTree.dfy` | directories in direct blocks, and the store of an entry over all 140; path parsing and washing; name resolution, `getcwd` and `cd`; the tree that the directories on the disk make |
| `PageTable.dfy`, `PageAlloc.dfy`, `AddressSpace.dfy` | self-mapped page tables; page pools and the copying of an address space; the two together for a user process |
| `Arena.dfy`, `HeapPages.dfy` | the arena heap, and the heap on its pages |
| `Lock.dfy`, `Scheduler.dfy`, `WaitExit.dfy`, `Ring.dfy` | locks over all interleavings; the scheduler; fork, wait, exit and adoption; the ring buffer and pipes |

The main results:

- **Files are byte sequences, directories are blocks.** Over any run of creates, appends, reads,
  unlinks, directory changes, mkdirs and rmdirs, closes and reopens in which every inode number
  stays below 256, the disk behaves like a map from inode number to contents, also when every
  inode is read again from the table (`Files.FileSystem.DoAll`). The condition is exact: from an
  agreeing disk, memory and disk agree at every moment of a run if and only if no call takes a
  number from 256 on, that is, if and only if a number below 256 is free at every create
  (`Stores.SmallCreateIff`). From 256 on an inode is right only in memory while it is open: an
  unlink always halts, and every other call that has to open it, a rmdir or a change of a
  directory among them, reads something else (`Files.FileSystem.HighNumbersFail`); the record of
  inode n mod 256 is lost too (`FileViews.WideSyncLoses`).
- **Block ownership.** In every state of such runs the set bits are the disjoint union of the
  reserved bits and the blocks of live files and directories. A file that is created in a
  directory, written and unlinked leaves both bitmaps, every inode, file and directory as they
  were, if and only if its number is below 256, its entry found an unused slot and nothing ran out
  on the way; how far it comes otherwise is a function of the state before
  (`Volumes.Volume.CreateWriteUnlink`). A formatted partition satisfies the invariant if and
  only if it has eight blocks (`Files.FileSystem.Format`).
- **The tree on the disk.** Over any run of mkdirs and rmdirs by path, the entries read back from
  the directories' sectors make a tree, from a new partition on (`DiskTrees.RunKeeps`,
  `DiskTrees.RunOnDisk`). A mkdir puts a directory where its path says, a rmdir leaves nothing
  there, nothing else changes, and when a command goes through is exact (`DiskTrees.MkdirDoes`,
  `RmdirDoes`, `FailsIff`).
- **Locks.** Under every schedule of any number of threads at most one is inside; a thread holds
  the lock while it has returned from more acquires than releases, and the repeat count is the
  difference; no ASSERT fires and no wakeup is lost (`LockProtocol`).
- **Memory.** Page tables edited through the self-map change one page's translation only,
  exactly unless another page shares the entry. In a user process none does: what the pools
  say is mapped is what the hardware walk finds, and mapping or unmapping a page changes no walk
  of this or any other process but that one (`AddressSpaces`). Frames are never shared and go back
  to their own pool; fork gives the child equal pages in frames of its own; live heap blocks are
  disjoint and no wholly free arena survives.
- **Processes.** The parent lookup in `sys_exit` never fails, a waiting parent other than init
  has no hanging child, and each exit is reaped once, by the parent, which takes the first of its
  hanging children in list order.
- **Working directory.** After `cd` the prompt, the washed path and what `getcwd` rebuilds agree.

## Conventions

A failed ASSERT or PANIC stops the kernel. A method that can meet one returns `halted`; the
contract says exactly when, or that it never does. A call that opens an inode and reads something
else than what the inode is returns `lost`; what the kernel does after that is not modelled. NULL and -1 results are -1, 0 or `None`.
Interrupts-off stretches are single steps. What other code answers is a parameter: `past` is
the bit that follows a bitmap in memory, `page` the answer of `malloc_page` to the heap, `lba`
the block given by `block_bitmap_alloc` to a directory, `junk` the contents of memory that is
read before it is written.

Value-level lemmas carry the invariants; the classes change state as the C code does and call
them. `hide` keeps the definitions that a proof does not need away from the solver.

## Where the code falls short

Each of these is proved of the code as it is, with the exact condition under which it works.

- `bitmap_scan` looks one bit past the end for requests of more than one bit
  (`Bitmaps.ScanPastEnd`, `ScanPastEndExample`).
- `inode_sync` takes the inode number through eight bits: it works for a number if and only if
  the number is below 256, and inode 256 lands on the root's record (`Inodes.SyncWorksIff`,
  `SyncOverwritesRoot`, `FileViews.AgreeAfterSync`, `WideSyncLoses`). A file from 256 on cannot be
  unlinked (`Files.FileSystem.HighNumbersFail`).
- `sync_dir_entry` stores an entry twice when it adds a block; deleting that entry then stops
  the kernel, and deleting any other restores the directory slot by slot
  (`Dirs.Directory.AddThenDelete`, `Dirs.TwentiethEntryHalts`).
- `sync_dir_entry` does not load the indirect table: once the twelve direct blocks are full every
  further entry gets a new table that takes the place of the last one. An entry displaces none if
  and only if a direct block has room or the table held nothing else (`DirTables.KeepsIff`,
  `SyncAll`, `SecondIsGone`). It stores the entry or halts and never returns false, so the rollbacks
  of its callers are never taken (`DirTables.SyncDirEntry`).
- `file_create` pushes its inode without looking for a stale copy: the open list stays sound if
  and only if the number is not open and is small (`InodeCache.Cache.Create`, `StaleCopy`).
- `sys_rmdir` of a path that ends in a dot removes the directory and leaves its entry: the tree is
  kept if and only if the last component is not a dot (`Trees.SysRmdir`, `RmdirDotExample`).
- `file_write` stops the kernel when a file reaches exactly 71680 bytes, and `file_read` when a
  read reaches block 139 (`Files.FileSystem.FileWrite`, `FileRead`, `Files.LargestFileHalts`,
  `LongReadHalts`).
- `partition_format` clears one bit too many: a block outside the partition is left free if and
  only if both roundings of the bitmap size agree; its memset can leave the buffer; and with fewer
  than eight blocks the root's own bit is cleared (`Formatting.FreeOutsideIff`, `MemsetFitsIff`,
  their examples, and `Files.FormattedOk`).
- In the boot page directory entries 0 and 768 share a table, so mapping a heap page also maps a
  low one (`Paging.AddMaps`, `BootDirectoryShares`).
- Adoption does not wake a waiting init: an exit leaves init asleep with a hanging child if and only
  if init waits, the exiting process has a hanging child, and its own parent is not init
  (`WaitExit.ExitMissesInitIff`, and a run from boot in `InitMissesExample`).
- A ring-buffer user that had to wait for the lock goes to sleep without testing the ring again
  (`Rings.SleepsOnUsableIff`, `SleepsOnUsableExample`), and `pipe_write` counts one byte of room
  too many (`Rings.IoQueue.PipeWrite`, `PipeWriteSleeps`).
- `path_depth_cnt` and `search_file` read memory they have not filled when a path has no
  component (`Paths.PathDepth`, `Trees.SearchFile`).

## Model

| member | source | states |
|---|---|---|
| Bitmaps.Bitmap.Init | lib/kernel/bitmap.c:9-11 | clears exactly the declared bits |
| Bitmaps.Bitmap.ScanTest | lib/kernel/bitmap.c:14-18 | reads the addressed bit |
| Bitmaps.FirstRun | lib/kernel/bitmap.c:21-65 | the lowest start of `cnt` clear bits; -1 only if there is no such run |
| Bitmaps.FirstRunUnique | lib/kernel/bitmap.c:21-65 | first fit is the only answer with those two properties |
| Bitmaps.Bitmap.Scan | lib/kernel/bitmap.c:21-65 | halts iff every declared bit is set; otherwise first fit, over the declared bits for one bit and over one bit more for several |
| Bitmaps.Bitmap.FirstClear | lib/kernel/bitmap.c:22-40 | the byte loop and the bit loop find the first clear bit |
| Bitmaps.Bitmap.ScanFrom | lib/kernel/bitmap.c:47-64 | the counting loop finds the first run |
| Bitmaps.ScanPastEnd | lib/kernel/bitmap.c:47-63 | the scan of several bits is first fit over the declared bits iff the next bit is set, or a run fits, or the tail is too short |
| Bitmaps.ScanPastEndExample | lib/kernel/bitmap.c:47-63 | 17 bits are found in a bitmap of 16 |
| Bitmaps.Bitmap.Set | lib/kernel/bitmap.c:68-80 | changes exactly one bit |
| Bitmaps.Bitmap.SetRun | kernel/memory.c:49-51 | marks exactly the run |
| Bitmaps.SetRangeUndo | kernel/memory.c:82-97 | marking a clear run and clearing it restores the bitmap |
| Lists.List.constructor | lib/kernel/list.c:5-10 | an empty list with linked sentinels |
| Lists.List.InsertBefore | lib/kernel/list.c:13-28 | the element stands before the given one; both link directions stay inverse |
| Lists.List.Push | lib/kernel/list.c:31-33 | contents become the element followed by the old ones |
| Lists.List.Append | lib/kernel/list.c:36-38 | contents become the old ones followed by the element |
| Lists.List.Remove | lib/kernel/list.c:41-48 | exactly that element leaves, the order of the others stays |
| Lists.List.Unlink | lib/kernel/list.c:41-48 | the two pointer writes close the gap; both link directions stay inverse |
| Lists.List.Pop | lib/kernel/list.c:51-55 | the first element leaves and is returned |
| Lists.List.Find | lib/kernel/list.c:58-67 | true iff the element is in the contents |
| Lists.List.Traverse | lib/kernel/list.c:73-87 | the first element the callback accepts, NULL iff there is none |
| Lists.List.Len | lib/kernel/list.c:90-98 | the length of the contents |
| Lists.List.IsEmpty | lib/kernel/list.c:101-103 | true iff there are no contents |
| Disks.WordsRoundTrip | fs/inode.c:59-75 | words written to bytes read back as the same words |
| Inodes.InodeLocate | fs/inode.c:21-46 | the record lies at byte 76 n of the table, within one or two sectors of it |
| Inodes.RecordRoundTrip | fs/inode.c:49-83 | a record read back gives number, size and block array |
| Inodes.RecordLayout | fs/inode.h:8-17 | where the record keeps the number, the size and the block array; the rest is zero |
| Inodes.LoadSlotIsSlot | fs/inode.c:116-125 | loading one or two sectors yields the 76 bytes of that record |
| Inodes.StoreSlotOnly | fs/inode.c:69-82 | storing a record changes that record and no other |
| Inodes.StoreSlotFrame | fs/inode.c:69-82 | and no sector outside the table |
| Inodes.SyncNarrow | fs/inode.c:49-83 | below 256 the record reads back and every other is intact |
| Inodes.SyncWorksIff | fs/inode.c:49-53 | syncing works for a number iff it is below 256 |
| Inodes.SyncOverwritesRoot | fs/inode.c:49-53 | inode 256 overwrites record 0 |
| InodeCache.Cache.InodeOpen | fs/inode.c:86-132 | one copy per number, agreeing with the disk; the count goes up or the record is loaded |
| InodeCache.Cache.InodeClose | fs/inode.c:135-151 | the last close drops the copy |
| InodeCache.Cache.Change | fs/dir.c:313-317 | a change followed by the sync keeps every copy equal to its record iff the number is below 256, or hits no record in use and changes nothing |
| InodeCache.Cache.Create | fs/file.c:151-164 | the open list stays sound iff the number was not open and is below 256, or hits no record in use and finds its own in place |
| InodeCache.Cache.Release | fs/inode.c:219-227 | the number is freed, its record is zero, a copy held elsewhere stays |
| InodeCache.SyncOk | fs/inode.c:49-83 | the same of the values: exactly when a synced copy and all others still agree |
| InodeCache.CreateOk | fs/file.c:151-164 | exactly when a record written and a copy pushed leave the list sound |
| InodeCache.DeleteOk | fs/inode.c:154-176 | clearing a record leaves the other records and copies in agreement |
| InodeCache.StaleCopy | fs/inode.c:86-97 | a directory that one process holds open and another removes, whose number goes to a new file, has two copies |
| Ownership.Link | fs/file.c:63-72 | taking a free block keeps the ownership invariant |
| Ownership.Unlink | fs/inode.c:206-217 | giving a block back keeps it |
| Ownership.OwnMeans | fs/file.c:258-385 | set bits are the disjoint union of reserved bits and the blocks of live inodes; no block is pointed to twice |
| Ownership.SameOwnersSameBits | fs/inode.c:179-228 | equal ownership means equal bitmaps |
| Files.FileSystem.Format | fs/fs.c:72-173 | a formatted partition satisfies the invariant iff it has eight blocks or more; then it holds the root with its dots |
| Files.FormattedOk | fs/fs.c:122-136 | the same of the values |
| Files.FileSystem.BlockAlloc | fs/file.c:63-72 | the first free block, halting iff there is none; ownership grows by it |
| Files.FileSystem.FirstBlock | fs/file.c:258-271 | the first write gives the file block 0, which is not the root's; the ASSERT holds |
| Files.FileSystem.AllocBlocks | fs/file.c:305-321 | exactly the asked blocks are new, others keep theirs; halts iff too few are free |
| Files.FileSystem.CrossIntoTable | fs/file.c:322-361 | the table is made once and holds the indirect addresses |
| Files.FileSystem.CollectBlocks | fs/file.c:273-385 | all growth cases: the file owns exactly the blocks needed and a table iff one is needed |
| Files.FileSystem.Grow | fs/file.c:258-385 | growth keeps the contents; exact number of blocks needed |
| Files.FileSystem.WriteSector | fs/file.c:390-412 | one chunk appends its bytes and touches no other file |
| Files.FileSystem.WriteChunks | fs/file.c:387-412 | the data loop appends the whole buffer and leaves the position one before the end |
| Files.FileSystem.FileWrite | fs/file.c:229-417 | contents become old contents plus buffer, no other inode, file or block changes; the position afterwards; which record is written, and exactly when memory and disk still agree; exact halting condition |
| Files.FileSystem.WriteThenRead | fs/file.c:389-513 | a read from where a write left the position gives exactly the last byte |
| Files.FileSystem.BitmapSync | fs/file.c:75-94 | the sector written says the bits in memory |
| FileViews.SectorBits | fs/file.c:75-94 | a bitmap sector reads back as the bits it was made from |
| Files.FileSystem.CollectForRead | fs/file.c:443-489 | the addresses of all blocks a read needs, in every case |
| Files.FileSystem.FileRead | fs/file.c:420-513 | returns exactly the slice at the position, cut at the end; -1 at the end; exact halting condition |
| Files.FileSystem.ReadChunks | fs/file.c:491-509 | the chunk loop joins to the slice |
| Files.FileSystem.FileCreate | fs/file.c:97-186 | the lowest free number, an empty file; memory and disk agree iff it is below 256, record n mod 256 is the new one and no other changes; nothing changes if the file table is full |
| Files.FileSystem.InodeRelease | fs/inode.c:179-228 | the record is loaded: halts iff it says another number; all blocks, the table and the number are given back; other files and records stay |
| Files.FileSystem.ReleaseBlocks | fs/inode.c:183-217 | every pointer is freed exactly once |
| Files.FileSystem.DirTakeBlock | fs/dir.c:146-160 | a directory takes a direct block and ownership is kept |
| Files.FileSystem.DirGiveBlock | fs/dir.c:274-282 | a directory gives a direct block back and ownership is kept |
| Files.FileSystem.DirWrite | fs/dir.c:188-205 | writing a directory block changes that block of that directory only |
| Files.FileSystem.DirSync | fs/dir.c:313-317 | the size and the record of a directory; exactly when memory and disk agree |
| Files.FileSystem.GrowDirectory | fs/dir.c:146-193 | a new block with its content; exactly that directory changes; halts iff no block is free |
| Files.FileSystem.StoreDirectory | fs/dir.c:196-204 | an entry stored in a block that is there; exactly that block changes |
| Files.FileSystem.ShrinkDirectory | fs/dir.c:274-317 | a block given back; exactly that block goes |
| Files.FileSystem.MakeDirectory | fs/fs.c:545-609 | the lowest number and the first block become a directory with its dots; its record reads back iff the number is below 256; exact halting condition |
| Files.FileSystem.AddDirectory | fs/fs.c:552-608 | every other file and directory stays; memory and disk agree iff the number is below 256 |
| Files.FileSystem.DoRemoveDir | fs/fs.c:677-703 | an empty directory that its record describes goes with its block; the ASSERTs as an exact condition |
| Files.FileSystem.DoReopen | fs/inode.c:86-151 | a close and the next open change nothing iff the record says what was in memory; the root is never closed |
| Files.FileSystem.Do | fs/file.c:229-513 | one call refines one step of the store; exactly when it halts, when the inode it opens is not what the record says, and when memory and disk agree afterwards |
| Files.FileSystem.HighNumbersFail | fs/inode.c:49-53 | in every state a file from 256 on halts its unlink, and every other open of an inode from 256 on reads something else |
| Files.FileSystem.CoherentSmall | fs/inode.c:49-53 | where memory and disk agree all numbers are below 256 |
| Files.FileSystem.DoAll | fs/file.c:229-513 | any run refines the store, answers and contents; memory and disk agree throughout iff every number stays below 256, and then the contents are the same read from the disk |
| Files.LargestFileHalts | fs/file.c:277-278 | on a partition of 100000 sectors a write of 71680 bytes to a new file halts |
| Files.LongReadHalts | fs/file.c:446 | there a write of 71200 bytes succeeds, and reading them halts |
| Stores.LowestFreeIs | fs/file.c:53-60 | the number created is the lowest not taken |
| Stores.SmallCreateIff | fs/file.c:53-60 | a create or mkdir keeps all numbers below 256 iff one of those is free |
| Volumes.Volume.AddEntry | fs/dir.c:115-212 | the entry, the block and the inode of the directory together; nothing else changes |
| Volumes.Volume.RemoveEntry | fs/dir.c:215-323 | the same for a deletion; halts iff the first block with the number has it twice |
| Volumes.Volume.CreateFile | fs/file.c:97-186 | number, entry and inode of a new file; how far it comes, exactly |
| Volumes.Volume.CreateWriteUnlink | fs/fs.c:463-513 | how far it comes, from the state before: lost directory, no number, no block, a write that halts, an unlink that halts iff a block was taken or the number is 256 or more; in every other case everything comes back: bitmaps, inodes, files, directory |
| FileViews.WritesHaltTotal | fs/file.c:229-417 | below the largest size a row of writes halts iff there are too few blocks for all of them at once |
| Volumes.Volume.Format | fs/fs.c:153-168 | a formatted partition and its root directory match |
| Volumes.DotsImage | fs/fs.c:570-584 | the bytes of a new directory's block are the images of its two entries |
| FileViews.AppendChunk | fs/file.c:390-412 | splicing a chunk at the end of a file appends it |
| FileViews.ReadChunk | fs/file.c:494-509 | a chunk of a sector is the slice of the contents |
| FileViews.WriteDone | fs/file.c:229-417 | growth, data and inode sync together keep the whole invariant |
| FileViews.AgreeAfterWrite | fs/file.c:413-416 | after a write memory and disk agree iff the number is below 256, or hits no live record and the inode did not change |
| FileViews.AgreeAfterSync | fs/inode.c:49-83 | after a sync memory and disk agree iff the number is below 256, or hits no live record and its own was right |
| FileViews.WideSyncLoses | fs/inode.c:49-53 | from 256 on the record of a live inode n mod 256 says n and what n has |
| FileViews.NodesKept | fs/file.c:229-417 | a change of one inode and its sectors leaves every other file and directory |
| Formatting.LayoutSound | fs/fs.c:74-105 | regions disjoint and inside the partition, second rounding not above the first, a bit for every block |
| Formatting.BitmapImage | fs/fs.c:122-136 | the bits written: block 0 and all bits past the end, but not the boundary bit |
| Formatting.FreeOutsideIff | fs/fs.c:125-135 | a free bit names a sector outside the partition iff the roundings agree |
| Formatting.FreeOutsideExample | fs/fs.c:125-135 | in a partition of 1000 sectors bit 388 is free and names sector 1000 |
| Formatting.MemsetFitsIff | fs/fs.c:117-130 | the memset stays in the buffer iff the last sector is not full or the bitmap is not the largest part |
| Formatting.MemsetExample | fs/fs.c:117-130 | a partition whose bitmap fills 608 sectors, where the memset leaves the buffer |
| Dirs.Directory.constructor | fs/fs.c:570-586 | a new directory holds `.` and `..` |
| Dirs.Directory.SearchDirEntry | fs/dir.c:32-89 | the first entry of that name, or none |
| Dirs.Directory.SyncDirEntry | fs/dir.c:115-212 | adds the entry once in an unused slot, twice in a new block; size stays 24 times the entries |
| Dirs.Directory.AppendTwice | fs/dir.c:188-205 | the missing return stores the entry in two slots |
| Dirs.Directory.DeleteDirEntry | fs/dir.c:215-323 | removes exactly one matching entry; frees the block iff it was the last in a later block; halts iff there is a second copy |
| Dirs.Directory.AddThenDelete | fs/dir.c:115-323 | adding and deleting restores the directory slot by slot, or halts iff a block was added |
| Dirs.TwentiethEntryHalts | fs/dir.c:146-205 | a new directory with nineteen entries: adding and removing one more halts |
| DirTables.SyncDirEntry | fs/dir.c:115-212 | over all 140 positions: stores the entry or halts, iff too few blocks are free; it goes to the first direct block with room, or a new table replaces the old one; the end of the loop is never reached |
| DirTables.KeepsIff | fs/dir.c:131-160 | no entry is displaced iff a direct block has room or the table held nothing else |
| DirTables.SyncAll | fs/dir.c:146-205 | of any number of entries added once the direct blocks are full only the last is there |
| DirTables.SecondIsGone | fs/dir.c:146-205 | a directory with files 1 to 239: the entry for 240 is gone when 241 is added |
| Dirs.StoredErased | fs/dir.c:195-311 | what was stored in an unused slot and erased leaves no trace |
| Dirs.ScanBlock | fs/dir.c:248-264 | the counts and the position the inner loop finds |
| Dirs.Directory.DirRead | fs/dir.c:326-374 | the entry at the position, NULL iff past the last; the ASSERT holds |
| Dirs.Directory.ReadAll | fs/dir.c:326-374 | from position 0 every used slot once, in order, then NULL |
| Dirs.Directory.IsEmpty | fs/dir.c:377-381 | true iff only the dots are left |
| Dirs.Directory.RmdirCheck | fs/dir.c:384-391 | no ASSERT of `dir_remove` fires from `sys_rmdir` |
| Dirs.EmptyMeans | fs/fs.c:690-697 | two entries mean the dots, and no block but the first |
| Dirs.LiveSet | fs/dir.c:195-205 | replacing a block exchanges exactly what it lists |
| Paths.PathParse | fs/fs.c:176-193 | the first component and where the rest starts |
| Paths.PathDepth | fs/fs.c:196-212 | the number of components, or 1 for none when the buffer holds junk |
| Paths.WashStep | shell/buildin_cmd.c:24-40 | one component edits the output as it edits a stack |
| Paths.WashPath | shell/buildin_cmd.c:12-48 | the output is the stack-style normal form |
| Paths.WashedIdempotent | shell/buildin_cmd.c:12-48 | washing twice is washing once; the result has no dots |
| Paths.WashedRelative | shell/buildin_cmd.c:51-65 | a relative path is normalised from the working directory's stack |
| Paths.SplitConcat | fs/fs.c:176-193 | components of joined paths are the components of both |
| Trees.SearchFile | fs/fs.c:215-279 | resolution component by component, and the directory recorded as the parent; a regular file ends it; junk for a path without components |
| Trees.WalkNormal | fs/fs.c:240-270 | where a walk ends at a directory, that directory's path is the normal form of the components |
| Trees.WalkPath | fs/fs.c:764-807 | the path of a directory leads back to it |
| Trees.ChildName | fs/fs.c:722-759 | the entry found by number in the parent is the directory's name |
| Trees.Getcwd | fs/fs.c:764-807 | climbs to the root in as many steps as the depth and rebuilds the path |
| Trees.TurnRound | fs/fs.c:798-804 | the copying loop reverses the components |
| Trees.Shell.Chdir | fs/fs.c:810-825 | succeeds iff the search ends at a directory; the new directory's path is the washed path |
| Trees.Shell.Cd | shell/buildin_cmd.c:51-101 | an argument with a slash in front is followed from the root, any other from the working directory; succeeds iff its normal form leads to a directory, whose path and prompt it then is; nothing changes on failure |
| Trees.Shell.CdRoot | shell/buildin_cmd.c:88-91 | without an argument the root |
| Trees.PathStable | shell/shell.c:117-121 | a path stays while the directory and those above it stay linked |
| Trees.RootTree | fs/fs.c:153-168 | a formatted root directory is a tree |
| Trees.MkdirTree | fs/fs.c:588-597 | making a directory keeps the tree |
| Trees.RmdirTree | fs/dir.c:384-405 | removing an empty directory from its parent keeps the tree |
| Trees.SysRmdir | fs/fs.c:677-703 | exactly when it halts and when it succeeds; which entry and listing change; the tree is kept iff the last component is not a dot |
| Trees.RmdirDotExample | fs/fs.c:257-276 | "/a/." removed: the root keeps an entry for a free inode |
| DiskTrees.BlockRoundTrip | fs/dir.c:188-205 | entries written to a sector read back as the same entries |
| DiskTrees.AddStep | fs/dir.c:115-212 | the directory read back after a store lists the entry besides what it listed |
| DiskTrees.DropStep | fs/dir.c:215-323 | and after a deletion all but that entry |
| DiskTrees.MkdirKeeps | fs/fs.c:517-609 | after `sys_mkdir` the directories on the disk make a tree, in which the new one is found by its name |
| DiskTrees.RmdirKeeps | fs/fs.c:677-703 | after `sys_rmdir` they make a tree without the directory |
| DiskTrees.MkdirDoes | fs/fs.c:517-609 | a directory that was not there is found under the path and the name; its parent has that entry more; every other file and directory is as it was |
| DiskTrees.RmdirDoes | fs/fs.c:677-703 | nothing is found under the path and the name; the parent has lost that entry; every other file and directory is as it was |
| DiskTrees.FailsIff | fs/fs.c:517-703 | exactly when a command does nothing: in terms of the path, the name, the listing, and what is free |
| DiskTrees.DropIff | fs/dir.c:248-264 | an entry can be removed iff it is listed once |
| DiskTrees.RunKeeps | fs/fs.c:517-703 | any run of mkdirs and rmdirs by path keeps the tree |
| DiskTrees.RunStep | fs/fs.c:517-703 | each command acts on what the ones before it left |
| DiskTrees.FormattedTree | fs/fs.c:153-168 | a new partition holds the tree of the root |
| DiskTrees.RunOnDisk | fs/fs.c:517-703 | the mounted partition that performs the steps holds that tree and those contents |
| Paging.WalkPtePtr | kernel/memory.c:69-73 | walking from `pte_ptr(v)` reaches the word of v's entry |
| Paging.WalkPdePtr | kernel/memory.c:76-79 | walking from `pde_ptr(v)` reaches the word of v's directory entry |
| Paging.Mmu.PageTableAdd | kernel/memory.c:114-138 | memory afterwards, through the self-map; halts iff the page is mapped |
| Paging.Mmu.ClearTable | kernel/memory.c:133 | zeroes exactly the new table |
| Paging.AddMaps | kernel/memory.c:114-138 | v translates to the frame, by entries that are present, writable and open to user mode; every other page keeps its translation iff it does not share the entry |
| Paging.RemoveUnmaps | kernel/memory.c:405-409 | v is unmapped and its entry keeps every other bit; every other page keeps its translation iff it does not share a present entry |
| Paging.Mmu.PteRemove | kernel/memory.c:405-409 | clears the present bit of the entry, through the self-map |
| Paging.AddKeepsSelfMap | userprog/process.c:58-74 | the directory keeps mapping itself |
| Paging.BootDirectoryShares | boot/loader.S:203-208 | in the boot directory a heap page and a low page share an entry |
| PageAlloc.Memory.PoolInit | kernel/memory.c:228-283 | two disjoint pools inside the installed memory, how many frames each has, and where the virtual pages start |
| PageAlloc.Memory.NewProcess | userprog/process.c:77-83 | a process with an empty virtual bitmap |
| PageAlloc.Memory.Palloc | kernel/memory.c:102-111 | the lowest free frame of the pool, halting iff it is full |
| PageAlloc.Memory.MapPage | kernel/memory.c:155-162 | one page and, for a user process, at most one table are new, in frames that were free; nothing else moves |
| PageAlloc.Memory.MallocPage | kernel/memory.c:141-164 | first-fit pages, all newly mapped; NULL changes nothing; virtual bits follow the mappings |
| PageAlloc.Memory.Pfree | kernel/memory.c:391-402 | the frame goes back to the pool it came from |
| PageAlloc.Memory.MfreePage | kernel/memory.c:412-455 | exactly the pages are unmapped and their bits cleared; no ASSERT fires |
| PageAlloc.Memory.MallocFree | kernel/memory.c:141-164 | allocate and free restore all bitmaps; for a user process except frames of new page tables |
| PageAlloc.FramesDiffer | kernel/memory.c:155-162 | distinct pages have distinct frames |
| PageAlloc.OnlyTablesNew | kernel/memory.c:412-455 | where only tables are new, only their frames are missing, from the kernel pool |
| PageAlloc.Memory.CopyPage | userprog/fork.c:54-71 | one page is copied into a frame of the child's own |
| PageAlloc.Memory.CopyByte | userprog/fork.c:51-74 | the bit loop copies the marked pages of one byte |
| PageAlloc.Memory.CopyBody | userprog/fork.c:40-78 | child pages equal the parent's wherever marked, in frames that were free; nothing of the parent changes |
| PageAlloc.CopiedFrames | userprog/fork.c:40-78 | the two processes share no frame |
| PageAlloc.Memory.UnmapPage | kernel/memory.c:422-433 | the frame goes back, exactly that page is unmapped |
| AddressSpaces.AddressSpace.constructor | userprog/process.c:58-74 | a new directory: the walk finds nothing in the user half |
| AddressSpaces.AddressSpace.Map | kernel/memory.c:114-162 | the walk finds a frame that was free under the new page and what it found before under every other; the ASSERT on the entry cannot fire |
| AddressSpaces.AddressSpace.Unmap | kernel/memory.c:405-433 | the frame read from the entry goes back; the walk finds nothing under the page and what it found before under every other |
| AddressSpaces.MapShows | kernel/memory.c:114-138 | the tables show exactly the allocated pages and page tables after a page is mapped |
| AddressSpaces.UnmapShows | kernel/memory.c:405-409 | and after one is unmapped |
| AddressSpaces.MapOther | kernel/memory.c:114-138 | mapping a page leaves every walk of every other process |
| AddressSpaces.UnmapOther | kernel/memory.c:405-409 | and so does unmapping one |
| AddressSpaces.TablesApart | kernel/memory.c:114-138 | no two user pages of a process share an entry |
| Arenas.BlockDescInit | kernel/memory.c:498-510 | the seven sizes and counts |
| Arenas.BlockInside | kernel/memory.c:286-293 | a block lies in its page past the header, and its address names the arena |
| Arenas.LiveApart | kernel/memory.c:296-388 | live blocks are pairwise disjoint |
| Arenas.LiveInside | kernel/memory.c:296-388 | live blocks lie inside their arena, clear of the header |
| Arenas.HeaderClear | kernel/memory.c:286-293 | no live block covers the header of any arena |
| Arenas.NothingLeft | kernel/memory.c:484-494 | with nothing live, no arena and no free block remains |
| Arenas.Take | kernel/memory.c:379-387 | handing out the first free block keeps the heap invariant |
| Arenas.Give | kernel/memory.c:480-484 | taking a block back keeps it |
| Arenas.DropArena | kernel/memory.c:484-492 | retiring a wholly free arena keeps it |
| Arenas.Heap.SysMalloc | kernel/memory.c:296-388 | a new block of the asked size; NULL exactly when refused; no ASSERT fires; other arenas unchanged |
| Arenas.Heap.NewArena | kernel/memory.c:353-377 | an empty list gets the blocks of a new arena |
| Arenas.Heap.Split | kernel/memory.c:370-375 | every block is appended once; the ASSERT holds |
| Arenas.Heap.FindClass | kernel/memory.c:343-349 | the smallest class that fits |
| Arenas.Heap.SysFree | kernel/memory.c:458-496 | exactly that block is no longer live; no ASSERT fires; no wholly free arena stays |
| Arenas.Heap.Retire | kernel/memory.c:484-492 | all blocks of the arena leave the list; the ASSERT holds |
| HeapPages.MappedHeap.Malloc | kernel/memory.c:296-388 | a block stands on mapped pages, no mapping moves; NULL changes neither the heap nor the pools |
| HeapPages.MappedHeap.Free | kernel/memory.c:458-496 | exactly that block goes, and with the last block of an arena exactly its pages |
| HeapPages.LiveMapped | kernel/memory.c:296-388 | every byte of a live block lies in a page mapped for the process |
| HeapPages.FreshIsUnused | kernel/memory.c:326-354 | pages `malloc_page` finds free lie in no arena |
| HeapPages.MappedHeap.NothingHeld | kernel/memory.c:484-492 | with everything freed the heap holds no page |
| LockProtocol.InvStep | thread/sync.c:21-77 | every step of every thread keeps the lock invariant |
| LockProtocol.InvRun | thread/sync.c:21-77 | it holds after every schedule |
| LockProtocol.LockSafety | thread/sync.c:54-77 | one thread inside; a thread with more completed acquires than releases holds the lock and the repeat count is the difference; no ASSERT fires |
| LockProtocol.DepthIsCalls | thread/sync.c:54-77 | the nesting depth is the number of acquires less the number of releases that the schedule brought to an end |
| LockProtocol.WaitersInOrder | thread/sync.c:21-51 | sleepers are woken in the order in which they went to sleep |
| LockProtocol.NestedReturns | thread/sync.c:54-64 | an undisturbed acquire by the holder returns with the count one higher |
| LockProtocol.FreeReturns | thread/sync.c:54-64 | on a free lock it returns as the holder |
| LockProtocol.BusySleeps | thread/sync.c:21-37 | else it sleeps, last in line |
| LockProtocol.InnerReturns | thread/sync.c:67-72 | an undisturbed release returns with the count one lower |
| LockProtocol.LastReturns | thread/sync.c:67-77 | the last one returns with the lock free and the first sleeper awake |
| LockProtocol.NoLostWakeup | thread/sync.c:21-51 | while threads wait, one is inside or a woken one has yet to test, and it can move |
| Scheduling.RunsInTurn | thread/thread.c:176-205 | place k runs after k + 1 turns, one place up with each |
| Scheduling.Scheduler.Schedule | thread/thread.c:176-205 | exactly one thread runs, the ready list is exactly the READY threads; a preempted thread gets its priority as ticks, no other task changes but the next one; the ASSERTs hold |
| Scheduling.Scheduler.ThreadYield | thread/thread.c:208-216 | the current thread goes to the back |
| Scheduling.Scheduler.ThreadStart | thread/thread.c:144-164 | a new thread is ready, at the back |
| Scheduling.Scheduler.ThreadExit | thread/thread.c:289-318 | a finished thread leaves the ready list, the others keep their order |
| Scheduling.Scheduler.ThreadExitSelf | thread/thread.c:289-318 | and when it is the current one, the next runs |
| Scheduling.Scheduler.ThreadBlock | thread/thread.c:357-366 | the current thread blocks and the next runs |
| Scheduling.Scheduler.ThreadUnblock | thread/thread.c:369-384 | the thread goes to the front; it was in no list |
| Scheduling.Scheduler.TimerTick | device/timer.c:36-49 | a thread runs until its ticks are used up, and then has its priority as ticks again |
| Scheduling.Scheduler.SemaDown | thread/sync.c:21-37 | taken iff the value is not 0, else blocked in exactly that list |
| Scheduling.Scheduler.SemaUp | thread/sync.c:40-51 | the first waiter becomes ready; the ASSERTs hold |
| WaitExit.InvStep | userprog/wait_exit.c:104-157 | fork, wait, exit and adoption keep the invariant |
| WaitExit.InvRun | userprog/wait_exit.c:104-157 | it holds after every run |
| WaitExit.WaitExitSafety | userprog/wait_exit.c:79-157 | pids unique, parents listed and not finished, no waiting parent but init with a hanging child, each exit reaped at most once with its status |
| WaitExit.LookupFinds | userprog/wait_exit.c:149-150 | the parent lookup in `sys_exit` finds the parent |
| WaitExit.ReapedByParent | userprog/wait_exit.c:104-133 | a wait reaps iff a child hangs; it takes the first in list order, frees its pid and changes nothing else |
| WaitExit.WaitsForChild | userprog/wait_exit.c:124-131 | without a hanging child it sleeps iff there is a child |
| WaitExit.ForkMakesChild | userprog/fork.c:160-179 | the lowest free pid goes to a new child, last in the list; out of pids iff all are taken |
| WaitExit.ExitGivesAway | userprog/wait_exit.c:136-147 | the children of an exiting process become children of init, its status is kept in eight bits, nothing else changes |
| WaitExit.ExitHangs | userprog/wait_exit.c:149-156 | the parent is woken if it waits, and the process hangs |
| WaitExit.AdoptionMissesInitIff | userprog/wait_exit.c:93-100 | adoption leaves a waiting init with a hanging child iff the dying process has one and init waits |
| WaitExit.ExitEndMissesIff | userprog/wait_exit.c:149-156 | the end of an exit wakes init iff init is the parent |
| WaitExit.ExitMissesInitIff | userprog/wait_exit.c:136-157 | a whole exit leaves a waiting init with a hanging child iff the dying process has one and its parent is not init |
| WaitExit.InitMissesExample | userprog/wait_exit.c:93-100 | a run of eight calls from boot that ends so |
| WaitExit.InvFork | userprog/fork.c:160-179 | a forked process has a fresh pid and a listed parent |
| Rings.IoQueue.Length | device/ioqueue.c:88-96 | the queue length |
| Rings.IoQueue.PutChar | device/ioqueue.c:68-85 | appends a byte, or would sleep iff 2047 are queued |
| Rings.IoQueue.GetChar | device/ioqueue.c:45-65 | takes the first byte, or would sleep iff there is none |
| Rings.IoQueue.PipeRead | shell/pipe.c:38-55 | takes the first bytes, as many as asked and there; never sleeps |
| Rings.IoQueue.PipeWrite | shell/pipe.c:58-74 | sleeps iff asked for more than the free capacity; otherwise everything is appended |
| Rings.PipeWriteSleeps | shell/pipe.c:64-65 | 2048 bytes offered to an empty pipe |
| Rings.QueuePut | device/ioqueue.c:79-80 | the cursor arithmetic of a put is an append |
| Rings.QueueGet | device/ioqueue.c:57-58 | and of a get, a removal at the front |
| Rings.InvTurn | device/ioqueue.c:31-85 | every turn of every thread keeps order, capacity, slots and lock consistent |
| Rings.TurnMoves | device/ioqueue.c:45-85 | a turn returns iff it tests the ring and finds it usable; then exactly its byte moves and nobody is left asleep on the other side |
| Rings.RingSafety | device/ioqueue.c:31-85 | over every run bytes leave in order, one waiter slot at most, its thread asleep with the lock |
| Rings.SleepsOnUsableIff | device/ioqueue.c:51-55 | a thread sleeps on a usable ring iff it waited for the lock meanwhile |
| Rings.SleepsOnUsableExample | device/ioqueue.c:51-55 | a run that ends so |

## Left out

- Assembly, descriptor tables, interrupt controllers, timers and the keyboard: hardware.
- The disk driver: a sector read or write is one step.
- `userprog/exec.c`, the shell's command loop, `printk` and `lib/stdio.c`: only easy properties.
- Buffer sizes in C: names of 16 characters and more, paths of 512 and more.
- 32-bit wrap-around of byte counts and partition sizes near 2^32, and of `holder_repeat_nr`.
- Failures of `sys_malloc` inside the file system, whose branches return early.
- Contents of the block and inode bitmaps on disk after a crash; memory is the reference.
- Concurrency inside the file system, the page pools and the heap: each call is one step.
- Searches, deletions and listings in a directory with an indirect table, where `delete_dir_entry` does not end; `DirTables` says what the store of an entry does to one.
- Partitions that another system wrote: here no record from 256 on says its own number, as every format and sync leaves it.
- Directories held open across calls by `sys_opendir`: a directory other than the root is opened by each call that changes it.
- Entries of regular files in the runs of `DiskTrees`; a file and its entry are the subject of `Volumes`.
- The kernel's own pages in `AddressSpaces`: its tables are there from boot and shared by all directories.
- TLB invalidation, and the use of a process's control block after its page is freed.
- The exit path that frees user frames (`release_prog_resource`).
- Inodes.SyncNarrow: numbers from 256 on, where the property is false; `Inodes.SyncWorksIff` is the exact statement.
- Files.FileSystem.FileRead: positions past the end of the file; `sys_lseek` gives none, but a write of no bytes to an empty file leaves position 2^32 - 1.
- Files.FileSystem.FileCreate: the descriptor tables; `slotFree` tells whether the file table has a free slot, and `Volumes.Volume.CreateFile` stores the entry.
- Dirs.Directory.SyncDirEntry: with all twelve direct blocks full the source goes on to an indirect table, see `DirTables.SyncDirEntry`.
- DiskTrees.RunKeeps: a command that fails, halts or meets a full directory is no step.
- DiskTrees.RmdirKeeps: names that are a dot, see `Trees.SysRmdir`.
- PageAlloc.Memory.MfreePage: pages that are not mapped, whose stale entries the source would read.
- PageAlloc.Memory.MallocPage: the bits past the end of a bitmap, see `Bitmaps.ScanPastEnd`.
- Arenas.Heap.SysMalloc: the zeroing of the block, and page requests that stop inside `malloc_page`.
- Arenas.Heap.SysFree: pointers that `sys_malloc` did not return.
- Volumes.Volume.CreateFile: directories that need an indirect table.
- Trees.SysRmdir: paths of several slashes and no component, where the number searched for is junk.
- Trees.Getcwd: the bound of 4096 on inode numbers it asserts.
- Rings.RingSafety: whether a sleeper is ever woken; see `Rings.SleepsOnUsableIff`.
