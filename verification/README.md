# A verified model of the xv6 lab kernel

This project models the parts of the kernel and its user programs in `Lab/code` where correctness
depends on more than one function or on more than one process, and proves what they keep.

- **Redo log** (`log.c`): commit and recovery as sequences of disk writes, group commit as a protocol
  of interleaved operations with crashes at any write, in which log_write's unlocked test and its
  locked append are two steps, the code that issues these writes and takes this protocol's steps,
  and the space reservations of `begin_op`.
- **Heap** (`umalloc.c`): the circular free list in memory, free and malloc over it, and the
  conservation of units.
- **File system** (`fs.c`, `mkfs.c`): bitmap, direct and indirect blocks, file contents as byte
  sequences, the inodes in memory and those on disk, the image that mkfs writes and the kernel
  mounts, and the split of a write into operations (`file.c`).
- **Links** (`sysfile.c`, `fs.c`): directory entries, link counts and reachability over runs of
  create, link and unlink.
- **Buffer cache** (`bio.c`): the least-recently-used ring and what a block reads as.
- **Memory** (`vm.c`, `kalloc.c`): two-level page tables as a map, ownership of every page, growing,
  shrinking, copying and freeing address spaces.
- **Processes** (`proc.c`): semaphores over sleep and wakeup in the interleaving of single lock
  operations, the fork/exit/wait/kill table over all runs, and the scheduling policies.
- **Pipes** (`pipe.c`): the ring with its wrapping counters over all interleavings of readers and
  writers.
- The **shell's parser** (`sh.c`) and the **matcher** of `grep.c`.

Code that updates state in place is a class or a method with loops; each method is proved equal to
a function of the old state, and the theorems are about that function. Protocols are state
machines: `Next` gives the effect of one step, `Play` runs a sequence of steps, `Inv` is what every
step keeps, and the main theorems quantify over every run. Where a promise of the code turns out
false there is a run or an input that breaks it and an if-and-only-if that says exactly when the
promise holds (`StepExact`, `PanicFreeIffLogLarger`, `RoomIffLogLarger`, `DurableIffLogLarger`,
`WithinReservation`, `UnitsEnough`, `MorecoreKeepsIff`, `AccountedIff`, `Writei`, `Readi`,
`RootMappedIff`, `RoundedRootHoles`, `GrantExact`, `InitExact`, `ValuesPlainIffFitting`, the
`PoliteIsExact` of links and of pipes, `KilledSleeperExact`, `PidsExact`, `MarksExact`, `CopyUvm`). A panic of the source
is an explicit result, a `None`, or a `requires` where only the caller can rule it out. I/O, the
clock, `sbrk`, `ialloc` and the interleaving are parameters.

Where the code and its comments disagree the model follows the code: `random` (`proc.c:893`) returns
values below its argument, and 1 for an argument that is not positive; policy 3 is called CFS and is
round robin (`sdh.h`); the shell's `>>` is the same as `>` (`sh.c:391-393`); the inode cache is not
written through, as `fs.c:219` has it, when bmap fills an address below the size; the chunks of filewrite are said to avoid exceeding the
transaction size (`file.c:127-130`) and are larger than what begin_op reserves.

Run `dafny verify dfyconfig.toml` to check the whole project.

## Model

| member | source | states |
|---|---|---|
| `RedoLog.HeaderRoundTrip` | Lab/code/log.c:86-112 | reading the log header back gives exactly the count and block numbers that were written, whatever the block held before |
| `RedoLog.AbsorbKeeps` | Lab/code/log.c:223-229 | absorption keeps the logged blocks distinct, adds the block, and changes no other entry |
| `RedoLog.RecoveryPrefix` | Lab/code/log.c:70-122 | after any prefix of the writes of recovery, running recovery again gives the same disk as one complete recovery |
| `RedoLog.RecoverySurvivesCrashes` | Lab/code/log.c:116-122 | recovery is idempotent under any number of crashes, each at any write |
| `RedoLog.CommitBeforeHeader` | Lab/code/log.c:178-202 | until the header is written, recovery shows none of the transaction |
| `RedoLog.CommitAtHeader` | Lab/code/log.c:193-202 | right after the header write the log holds the whole transaction and the rest of commit is what recovery does |
| `RedoLog.CommitAfterHeader` | Lab/code/log.c:193-202 | from the header write on, recovery shows all of the transaction |
| `RedoLog.CrashAtomicity` | Lab/code/log.c:116-202 | commit cut off after any number of its writes and recovery cut off any number of times leave all of the transaction or nothing, and every other home block as it was |
| `RedoLogDriver.Log.constructor` | Lab/code/log.c:54-66 | initlog at boot or after a crash: issues the recovery writes, starts with an empty header and no outstanding operation, and takes the protocol through its recovery steps |
| `RedoLogDriver.Log.BWrite` | Lab/code/bio.c:110-116 | one disk write is appended to the history of writes and applied to the disk |
| `RedoLogDriver.Log.ReadHead` | Lab/code/log.c:86-97 | the in-memory header becomes what the disk header decodes to |
| `RedoLogDriver.Log.WriteHead` | Lab/code/log.c:102-113 | one write, of the encoded header, to the header block |
| `RedoLogDriver.Log.InstallTrans` | Lab/code/log.c:70-82 | exactly the writes that copy each log block to its home, in order |
| `RedoLogDriver.Log.RecoverFromLog` | Lab/code/log.c:116-122 | issues exactly the recovery writes of the disk it finds and leaves an empty header |
| `RedoLogDriver.Log.WriteLog` | Lab/code/log.c:178-190 | exactly the writes that copy each cached block into the log, in order |
| `RedoLogDriver.Log.Commit` | Lab/code/log.c:193-202 | for a header that fits the log, issues exactly the commit writes of the transaction, nothing when it is empty, and empties it |
| `RedoLogDriver.Log.LogCheck` | Lab/code/log.c:218-221 | the test without the lock: the step LogCheck, possible exactly when there is no panic |
| `RedoLogDriver.Log.LogAppend` | Lab/code/log.c:223-232 | the locked part, without a test: logs the block once with its latest contents, as the step LogAppend; writes past the end of the header array exactly when that is full and the block new; a header that fitted the log still does exactly when the append has room |
| `RedoLogDriver.Log.LogWrite` | Lab/code/log.c:214-233 | with nothing in between: panics exactly when the transaction is full or no operation is outstanding; otherwise the block is logged once with its latest contents and the log is not overrun; for an outstanding operation it is the steps LogCheck and LogAppend |
| `RedoLogDriver.Log.BeginOp` | Lab/code/log.c:126-141 | the step BeginOp: admits exactly when the protocol allows it, and otherwise nothing has changed |
| `RedoLogDriver.Log.Leave` | Lab/code/log.c:148-163 | panics exactly during a commit, and only the last one out is to commit; for an outstanding operation there is no panic and it is the step EndOp |
| `RedoLogDriver.Log.EndOp` | Lab/code/log.c:146-173 | never panics; takes the protocol through the step EndOp and, for the last operation, one step for every write of the commit and the one that ends it; issues exactly those writes and leaves the log open |
| `RedoLogRuns.NoStraddle` | Lab/code/log.c:126-173 | at a point where nothing is open, no operation has events on both sides |
| `RedoLogRuns.RecoveredIsDurable` | Lab/code/log.c:116-202 | in every reachable state the disk, recovered, is the replay of the durable prefix of the history |
| `RedoLogRuns.StepKeeps` | Lab/code/log.c:126-233 | every step of operations, commit, crash and recovery that is not an append without room keeps the invariant |
| `RedoLogRuns.StepExact` | Lab/code/log.c:218-229 | a step keeps the invariant if and only if it is not an append of a new block to a full header or a full log |
| `RedoLogRuns.DurableStateIsWholeOperations` | Lab/code/log.c:126-233 | over every run whose appends find room, with crashes anywhere, recovery restores the effect of a prefix of the history that cuts no operation in two |
| `RedoLogRuns.CommitRuns` | Lab/code/log.c:165-202 | a commit that has begun can be run to its end: the disk is the plan applied, the transaction is empty, operations may begin |
| `RedoLogRuns.RecoveryRuns` | Lab/code/log.c:116-122 | a recovery that has begun can be run to its end, with the recovered disk and everything else unchanged |
| `RedoLogRuns.CommitCutAnywhere` | Lab/code/log.c:177-202 | after any number of the writes of any commit of any run whose appends found room, recovery restores the durable prefix as it was before, or from the header write on the whole history |
| `RedoLogRuns.ProtocolSafety` | Lab/code/log.c:126-173 | over every run, with room or not, no commit or recovery is under way while an operation is outstanding, end_op never panics, logged blocks are distinct, no operation has events on both sides of the durable point, and what a finished commit covered is durable |
| `RedoLogRuns.ConsistencySurvivesCrash` | Lab/code/log.c:116-233 | any property of the home blocks that holds whenever no operation is open holds after a crash anywhere in a run whose appends find room, and recovery |
| `RedoLogSpace.ReservationsFit` | Lab/code/log.c:126-141 | over every run within budgets, entries in use plus unspent reservations never exceed LOGSIZE |
| `RedoLogSpace.LogWriteNeverPanics` | Lab/code/log.c:214-221 | with an on-disk log larger than LOGSIZE, an operation within its budget never panics in log_write |
| `RedoLogSpace.PanicFreeIffLogLarger` | Lab/code/log.c:218-219 | for operations of at most k blocks, k at least MAXOPBLOCKS, freedom from that panic over all runs holds if and only if k is MAXOPBLOCKS and the on-disk log is larger than LOGSIZE; mkfs makes it equal |
| `RedoLogSpace.BudgetedIsRoomy` | Lab/code/log.c:126-233 | over every run within budgets, no append overruns a log larger than LOGSIZE, whatever comes between a test and its append |
| `RedoLogSpace.RoomIffLogLarger` | Lab/code/log.c:218-229 | for operations of at most k blocks, k at least MAXOPBLOCKS, every append of every run finds room if and only if k is MAXOPBLOCKS and the log is larger than LOGSIZE, or the log is a header block only |
| `RedoLogSpace.SmallLogLosesBlock` | Lab/code/log.c:177-233 | for every log of 2 to LOGSIZE blocks, a run within budgets in which two operations pass the test together and the commit overwrites the block behind the log, so that recovery no longer gives the old disk |
| `RedoLogSpace.DurableIffLogLarger` | Lab/code/log.c:126-233 | over all runs within budgets, with crashes anywhere, recovery restores the durable prefix if and only if the log is larger than LOGSIZE, or is a header block only |
| `FreeList.SameUnitsSameList` | Lab/code/umalloc.c:24-44 | a sorted, coalesced free list is determined by the set of free units |
| `FreeList.CoalesceCanonical` | Lab/code/umalloc.c:30-42 | freeing keeps the list sorted, apart and with no two neighbours touching |
| `FreeList.CoalesceCovers` | Lab/code/umalloc.c:30-42 | freeing adds exactly the units of the chunk |
| `FreeList.CoalesceTotal` | Lab/code/umalloc.c:30-42 | freeing adds exactly the chunk's size to the total |
| `FreeList.CarveCanonical` | Lab/code/umalloc.c:75-84 | taking a chunk, whole or from the tail, keeps the list canonical and apart from what was taken |
| `FreeList.CarveCovers` | Lab/code/umalloc.c:75-84 | taking removes exactly the units handed out |
| `FreeList.CarveTotal` | Lab/code/umalloc.c:75-84 | taking removes exactly the units asked for from the total |
| `FreeList.FreeUndoesMalloc` | Lab/code/umalloc.c:24-90 | freeing what was just handed out gives back the very same list |
| `FreeListMemory.SearchStops` | Lab/code/umalloc.c:30-32 | free's loop condition is met at the last node below the chunk and at no other, from any starting node |
| `FreeListMemory.FreeLinks` | Lab/code/umalloc.c:33-42 | free's updates of at most two headers turn the circular list in memory into that of the coalesced list |
| `Heap.UnitsEnough` | Lab/code/umalloc.c:69 | the units computed hold the request if and only if it is at most 0xFFFFFFF8 bytes; for 0xFFFFFFFF one header is handed out |
| `Heap.SbrkAsksRight` | Lab/code/umalloc.c:54 | sbrk's int argument is the bytes wanted if and only if fewer than 2^28 units are wanted |
| `Heap.MorecoreKeepsIff` | Lab/code/umalloc.c:46-61 | after sbrk has moved the break as growproc does with its int argument, taking the chunk that was asked for keeps the heap invariant if and only if fewer than 2^28 units were asked for; where sbrk empties the program and returns -1, the heap is lost if there was one |
| `Heap.FreeKeeps` | Lab/code/umalloc.c:24-44 | free keeps the heap invariant: every unit obtained is free or live, never both, and the totals add up |
| `Heap.CarveKeeps` | Lab/code/umalloc.c:75-84 | malloc's updates keep it, and the chunk handed out was not live |
| `Heap.GrowKeeps` | Lab/code/umalloc.c:52-59 | new core keeps it |
| `Heap.SearchFrom` | Lab/code/umalloc.c:30-32 | free's walk ends within one lap at the node to insert after |
| `Heap.Allocator.constructor` | Lab/code/umalloc.c:21-22 | an unused allocator has no free list and satisfies the invariant |
| `Heap.Allocator.Free` | Lab/code/umalloc.c:24-44 | the live chunk at the pointer goes back into the list, merged with both neighbours when they touch; nothing else changes |
| `Heap.Allocator.Take` | Lab/code/umalloc.c:75-84 | the units come from the chunk found and become live |
| `Heap.Allocator.Morecore` | Lab/code/umalloc.c:46-61 | at least 4096 units are obtained and freed at the end of the list |
| `Heap.Allocator.Malloc` | Lab/code/umalloc.c:63-90 | succeeds without sbrk exactly when some free chunk is large enough, asks once otherwise, and fails with nothing changed when sbrk does |
| `FsLayout.WordSet` | Lab/code/fs.c:391-393 | an entry of an indirect block reads back as written and no other entry changes |
| `FsLayout.OwnedMeans` | Lab/code/fs.c:53-96 | what the ownership invariant says: no block is in two slots, and a block is marked exactly when it is metadata or in a slot |
| `FsLayout.WriteData` | Lab/code/fs.c:499-505 | overwriting a data block changes exactly the bytes of its slot |
| `FsLayout.AllocateBlock` | Lab/code/fs.c:57-78 | marking and zeroing a free block changes no slot and no file |
| `FsLayout.LinkAddr` | Lab/code/fs.c:379-389 | putting a new block into an empty address changes no file |
| `FsLayout.LinkEntry` | Lab/code/fs.c:390-395 | putting a new block into an empty indirect entry changes no file |
| `FsLayout.Unlink` | Lab/code/fs.c:415-432 | clearing an address drops its own slots, and for the indirect block all of its entries, and no other |
| `FsLayout.Release` | Lab/code/fs.c:81-96 | a block in no slot is marked and can be freed |
| `FsLayout.FreeDirect` | Lab/code/fs.c:415-420 | freeing a direct block and clearing its address keeps ownership; bfree cannot panic |
| `FsLayout.Drain` | Lab/code/fs.c:425-428 | freeing the indirect entries one by one frees each present block once |
| `FsLayout.EndDraining` | Lab/code/fs.c:429-432 | the indirect block itself is then freed and ownership is restored |
| `FsDisk.AccountedIff` | Lab/code/fs.c:221-238 | with the inodes on disk short of addresses filled in memory, the disk accounts for every marked block if and only if it lacks none of them |
| `FsDisk.Unsaved` | Lab/code/fs.c:379-389 | a block whose address is in memory only is marked in the bitmap and in no slot of the disk |
| `FsDisk.ReloadReads` | Lab/code/fs.c:297-308 | when the inode is read from disk again, bytes behind an unsaved address read as zeros and the others as in memory |
| `FsDisk.MappedHasNoHoles` | Lab/code/fs.c:373-401 | a file whose blocks below its size are all there has no empty address on the way of a read or write below its size |
| `FileSystem.SpliceReads` | Lab/code/fs.c:482-512 | the file after a write reads as the data in its range and as before elsewhere |
| `FileSystem.Volume.constructor` | Lab/code/fs.c:172-187 | an image whose blocks are owned is a volume with memory and disk in agreement |
| `FileSystem.Volume.Iupdate` | Lab/code/fs.c:221-238 | the inode on disk becomes the one in memory; when no other differed, disk and memory agree |
| `FileSystem.Volume.Reload` | Lab/code/fs.c:289-313 | the inode in memory becomes the one on disk, and no other changes; when no other differed, memory agrees with the disk |
| `FileSystem.WriteSaved` | Lab/code/fs.c:499-511 | after a write from a disk that agreed with memory, the disk accounts for every mark if and only if the file grew or the range had no empty address |
| `FileSystem.Volume.Balloc` | Lab/code/fs.c:56-78 | the first free block is marked and zeroed; the panic is exactly a full bitmap |
| `FileSystem.Volume.Bfree` | Lab/code/fs.c:81-96 | clears the block's bit; panics exactly when it is clear already |
| `FileSystem.Volume.Allocate` | Lab/code/fs.c:56-78 | the new block is in no slot and no file changes |
| `FileSystem.Volume.Bmap` | Lab/code/fs.c:373-401 | returns the block of that file block, allocating what is missing without changing any file; only the addresses in memory change, and nothing when the block is there; fails only past MAXFILE or with a full bitmap |
| `FileSystem.Volume.Writei` | Lab/code/fs.c:482-512 | fails exactly on a hole, an overflow or a file too large; otherwise the contents are spliced, no other file changes and every block in range is there; from a disk that agrees with memory, the disk still accounts for every marked block if and only if the file grows or no address on the way was empty, and agrees with memory again when the file was mapped; mapped files stay mapped |
| `FileSystem.Volume.Readi` | Lab/code/fs.c:453-477 | fails exactly on an offset past the end or an overflow; otherwise returns the contents in range, cut at the size; from a disk that agrees with memory, the disk still accounts for every marked block if and only if no address on the way was empty; reading a mapped file changes nothing; outside any operation, as fileread calls it, it changes nothing and panics exactly when a block in range is missing |
| `FileSystem.Volume.Itrunc` | Lab/code/fs.c:408-436 | frees every block of the inode once and no other, never panics, leaves an empty file in memory and on disk, and a disk that accounts for every mark when the other inodes were saved |
| `FileWrite.FileWrite` | Lab/code/file.c:117-157 | the chunks together splice the file as one write; fails exactly on an offset past the end or a file too large, after exactly the chunks that fit; a disk that agreed with memory still does for a mapped file; the panic for a short write is unreachable |
| `FileWrite.WriteLogs` | Lab/code/fs.c:499-505 | a write logs as many different data blocks as it touches file blocks |
| `FileWrite.WithinReservation` | Lab/code/file.c:133 | these are at most MAXOPBLOCKS if and only if the write ends within that many blocks of the start of its first one; a full chunk has 13 or 14 |
| `FileWrite.ChunkWritersPanic` | Lab/code/file.c:133-145 | whatever the size of the log, a run of three operations of at most the 13 data blocks of a chunk that is about to panic in log_write |
| `Mkfs.RootMappedIff` | Lab/code/mkfs.c:158-163 | after the root's size is rounded up, all its blocks are allocated if and only if its size was not a multiple of the block size |
| `Mkfs.RoundedRootHoles` | Lab/code/mkfs.c:158-163 | a scan of the rounded root comes to an empty address if and only if its size was a multiple of the block size and the block after it is a direct one, or the first indirect one with no indirect block there |
| `Mkfs.Image.constructor` | Lab/code/mkfs.c:87-115 | a fresh image has no file contents and satisfies the invariant |
| `Mkfs.Image.NextBlock` | Lab/code/mkfs.c:270-286 | the next block handed out is zero and in no slot |
| `Mkfs.Image.MapBlock` | Lab/code/mkfs.c:269-286 | the block of a file block is found or handed out; only that slot is filled |
| `Mkfs.Image.IAppend` | Lab/code/mkfs.c:255-297 | the file's contents grow by exactly the data and no other file changes; fails only when the image or the file is full |
| `Mkfs.Image.WriteBitmap` | Lab/code/mkfs.c:237-251 | the bitmap written makes the image satisfy the ownership invariant the kernel starts from; the assertion fails exactly when it does not fit |
| `Mkfs.Image.Finish` | Lab/code/mkfs.c:158-168 | rounds the root's size, writes the bitmap and mounts: the volume is valid with memory and disk in agreement, the root reads as its entries followed by zeros, and every file is mapped but the root when it ended on a block boundary |
| `Mkfs.FullRootLosesBlock` | Lab/code/mkfs.c:158-163 | a mounted image with a root of exactly one block on which reading one entry past it, as dirlookup does, leaves a marked block that no inode on disk owns |
| `Links.CreatedKeeps` | Lab/code/sysfile.c:242-284 | creating in a live directory keeps names unique, entries sound and all link counts right |
| `Links.LinkedKeeps` | Lab/code/sysfile.c:119-165 | so does another link to a file |
| `Links.ToUnlink` | Lab/code/sysfile.c:213-228 | what may be unlinked has a link to take away, and an empty directory has exactly one name and its parent a link for it |
| `Links.UnlinkedKeeps` | Lab/code/sysfile.c:221-234 | unlinking keeps names unique, entries sound and all link counts right |
| `LinkRuns.ReclaimKeeps` | Lab/code/fs.c:333-351 | freeing an inode without links keeps everything |
| `LinkRuns.UnlinkKeeps` | Lab/code/sysfile.c:185-238 | sys_unlink keeps the invariant in every case, also in an unlinked directory |
| `LinkRuns.PoliteIsExact` | Lab/code/sysfile.c:119-284 | an operation keeps the invariant if and only if it adds no entry to a directory that has been unlinked |
| `LinkRuns.EntryInUnlinkedDirectory` | Lab/code/sysfile.c:241-284 | a run of three operations, making and removing a directory and making a file in it, after which the file has one link and no name |
| `LinkRuns.LiveIsReachable` | Lab/code/sysfile.c:242-284 | a directory with a link count has a path of entries from the root |
| `LinkRuns.LinkCounts` | Lab/code/sysfile.c:119-284 | over every run that adds nothing to unlinked directories: a file's link count is the number of live entries that name it, a directory in use is reachable and counts itself and its subdirectories, names are unique up to DIRSIZ |
| `LinkRuns.Directories.DirLookup` | Lab/code/fs.c:525-549 | the first entry whose stored name is the name's first DIRSIZ characters |
| `LinkRuns.Directories.DirLink` | Lab/code/fs.c:552-579 | fails exactly when the name is present and panics exactly when it is not and the directory is as large as a file can be; otherwise the first empty slot, or a new one, takes the entry |
| `LinkRuns.Directories.IsDirEmpty` | Lab/code/sysfile.c:168-181 | true exactly when no entry but the first two is in use |
| `LinkRuns.Directories.Create` | Lab/code/sysfile.c:241-284 | the step Create, with the invariant kept in a live directory; an existing file is returned only for a file; panics exactly when a new name finds no room |
| `LinkRuns.Directories.SysLink` | Lab/code/sysfile.c:118-165 | the step Link; on failure the count taken first is given back and nothing has changed; panics exactly when a new name for a file finds no room |
| `LinkRuns.Directories.SysUnlink` | Lab/code/sysfile.c:184-238 | the step Unlink; never panics from a state that satisfies the invariant |
| `LruList.UnlinkNode` | Lab/code/bio.c:132-133 | the two assignments take the node out of the ring |
| `LruList.PushNode` | Lab/code/bio.c:134-137 | the four assignments put it behind the head |
| `BufferCache.RecycleKeeps` | Lab/code/bio.c:81-86 | recycling a clean unused buffer changes what no block reads as, and no two buffers hold one block |
| `BufferCache.FillKeeps` | Lab/code/bio.c:97-106 | reading a block in changes no view |
| `BufferCache.FlushKeeps` | Lab/code/bio.c:110-116 | writing a buffer out changes no view |
| `BufferCache.ModifyView` | Lab/code/bio.c:95-116 | changing a locked buffer changes what its own block reads as and no other |
| `BufferCache.MoveToFront` | Lab/code/bio.c:132-137 | the six assignments of brelse keep the ring a permutation of all buffers ordered by when they were freed |
| `BufferCache.OldestFree` | Lab/code/bio.c:81-91 | scanning backwards, the first free buffer is the one freed longest ago |
| `BufferCache.Cache.constructor` | Lab/code/bio.c:38-56 | the list holds every buffer once and every block reads as on disk |
| `BufferCache.Cache.FindCached` | Lab/code/bio.c:69-76 | finds the buffer that holds the block, or says that none does |
| `BufferCache.Cache.FindVictim` | Lab/code/bio.c:81-91 | the clean unreferenced buffer freed longest ago, or none when there is none |
| `BufferCache.Cache.Bget` | Lab/code/bio.c:61-93 | returns the one buffer for the block, takes a reference, changes no view; panics exactly when the block is not cached and no buffer is free |
| `BufferCache.Cache.Lock` | Lab/code/bio.c:73-89 | taking the buffer's sleep-lock changes nothing else |
| `BufferCache.Cache.Fill` | Lab/code/bio.c:97-106 | the locked buffer then holds what the block reads as |
| `BufferCache.Cache.Modify` | Lab/code/bio.c:95-116 | exactly its block reads differently |
| `BufferCache.Cache.Bwrite` | Lab/code/bio.c:109-116 | the disk block becomes what the block read as; no view changes |
| `BufferCache.Cache.Pin` | Lab/code/log.c:230 | marks the buffer dirty, so that it cannot be recycled; no view changes |
| `BufferCache.Cache.Brelse` | Lab/code/bio.c:120-141 | gives up lock and reference; the last reference moves the buffer to the front as the one freed last |
| `VmLayout.OwnedMeans` | Lab/code/kalloc.c:59-95 | what ownership says: no page frame has two uses, none in use is on the free list, and every frame is one or the other |
| `VmLayout.AddTableEffect` | Lab/code/vm.c:46-54 | a new page table takes a frame and changes no translation |
| `VmLayout.SetEntryEffect` | Lab/code/vm.c:61-80 | setting an entry through the two levels changes the translation of that page of that directory and no other: the tables refine a map |
| `VmLayout.ClearRangeEffect` | Lab/code/vm.c:265-277 | visiting every page of a user range clears exactly those translations, frees exactly their frames and leaves all other pages' contents |
| `VmLayout.Detach` | Lab/code/vm.c:284-298 | a directory without user pages owns its own frame and those of its page tables, nothing else |
| `Vm.SkipLands` | Lab/code/vm.c:267-268 | the jump over a missing page table lands on the next table's first page, with no 32-bit wrap below KERNBASE |
| `Vm.AsIfVisited` | Lab/code/vm.c:265-269 | the pages jumped over had nothing to free |
| `Vm.UndoMapped` | Lab/code/vm.c:236-245 | clearing the range takes back everything allocuvm had mapped, and only page tables stay |
| `Vm.NeedStep` | Lab/code/vm.c:233-247 | the frames a page takes: one, and one more when its page table is missing |
| `Vm.LeakCondition` | Lab/code/vm.c:326-336 | copying stops with a page in hand exactly when the spare frames are one more than a multiple of 1025 |
| `Vm.Kernel.constructor` | Lab/code/kalloc.c:46-53 | all frames start on the free list |
| `Vm.Kernel.Kalloc` | Lab/code/kalloc.c:82-95 | takes the first frame of the list, which is in no use; fails exactly when the list is empty |
| `Vm.Kernel.Kfree` | Lab/code/kalloc.c:59-77 | puts the frame in front of the list, filled with junk |
| `Vm.Kernel.WalkPgDir` | Lab/code/vm.c:35-56 | finds or makes the page table without changing any translation; fails exactly when it is missing and may not or cannot be made |
| `Vm.Kernel.MapPage` | Lab/code/vm.c:68-78 | maps the one page; on failure nothing has changed |
| `Vm.Kernel.DeallocPage` | Lab/code/vm.c:266-276 | frees the page if it is mapped |
| `Vm.Kernel.DeallocLoop` | Lab/code/vm.c:264-277 | the loop with its jumps ends in the state of visiting every page |
| `Vm.Kernel.DeallocUvm` | Lab/code/vm.c:255-279 | exactly the pages past the new size are freed; nothing when the new size is not smaller |
| `Vm.Kernel.FreeVm` | Lab/code/vm.c:283-298 | every frame of the directory is freed once, all other directories keep translations and contents |
| `Vm.Kernel.MapRegion` | Lab/code/vm.c:60-80 | maps a whole kernel range; succeeds exactly when there is a frame for every page table it lacks |
| `Vm.Kernel.SetupKvm` | Lab/code/vm.c:118-136 | succeeds exactly when there are frames for a directory and the kernel map's page tables, and then translates exactly as the kernel map says; otherwise leaves no trace |
| `Vm.Kernel.NewPage` | Lab/code/vm.c:234-246 | a page with the wanted contents in a frame of its own, exactly when there are frames for it and its table |
| `Vm.Kernel.AllocUvm` | Lab/code/vm.c:221-249 | succeeds exactly when there are frames for all pages and missing tables, with zeroed pages and as many frames fewer; otherwise all translations and contents are as before and no frame is lost |
| `Vm.Kernel.CopyUvm` | Lab/code/vm.c:315-343 | succeeds exactly when there are enough frames, with equal bytes and flags in frames of the copy's own; on failure nothing is left but, exactly when the spare frames are 1 modulo 1025, one frame that nobody frees |
| `Vm.CopyLeaksOnePage` | Lab/code/vm.c:325-342 | for every kernel map there is a machine on which copying a process of one page leaves a frame that nobody frees |
| `Semaphores.StepKeeps` | Lab/code/proc.c:531-770 | every step of every process that does not raise a value past a sleeper without waking it keeps the invariant |
| `Semaphores.NobodyIsStranded` | Lab/code/proc.c:702-770 | over every run of such steps, whenever a semaphore's lock is free each sleeper asks for more than its value |
| `Semaphores.ValueIsConserved` | Lab/code/proc.c:702-770 | over every run, with any arguments, the value is what was put in less what was granted, modulo 2^32, as a signed int |
| `Semaphores.GrantExact` | Lab/code/proc.c:735-751 | granting a wait for c keeps every good state if and only if c is not negative |
| `Semaphores.InitExact` | Lab/code/proc.c:702-716 | initialising to v keeps a good state if and only if the semaphore is active already, nobody waits, or v is below the smallest request |
| `Semaphores.ValuesPlainIffFitting` | Lab/code/proc.c:757-770 | over every run with nonnegative arguments, values are in every state nonnegative and exactly what was put in less what was granted, if and only if no signal takes one past 0x7FFFFFFF |
| `Semaphores.SignalOverflows` | Lab/code/proc.c:764 | a run with nonnegative arguments that ends with the value -2^31 |
| `Semaphores.CarefulRunsAreSafe` | Lab/code/proc.c:702-770 | over every run in which waits are not negative and initial values are below the requests of those already waiting, whatever is signalled, nobody is stranded |
| `Semaphores.NegativeWaitStrands` | Lab/code/proc.c:735-751 | a run in which waiting for -1 leaves a sleeper behind |
| `Semaphores.LateInitStrands` | Lab/code/proc.c:702-716 | a run in which initialising a semaphore with a sleeper leaves it behind |
| `Pipe.SlotIsPlain` | Lab/code/pipe.c:93-116 | the wrap of the 32-bit counters does not move a byte's slot, because PIPESIZE divides 2^32 |
| `Pipe.SlotsDistinct` | Lab/code/pipe.c:93-116 | bytes in flight are in different slots whatever the counters are |
| `Pipe.CounterTests` | Lab/code/pipe.c:85-116 | the comparisons of wrapping counters test exactly for empty and full |
| `Pipe.PutAppends` | Lab/code/pipe.c:93 | a byte put at the write counter of a ring that is not full comes last |
| `Pipe.TakeRemoves` | Lab/code/pipe.c:116 | the byte at the read counter of a ring that is not empty is the oldest |
| `Pipe.FillAppends` | Lab/code/pipe.c:84-94 | the write loop appends as many bytes as there is room for, in order |
| `Pipe.FillCounts` | Lab/code/pipe.c:93 | and moves the write counter by their number, modulo 2^32 |
| `Pipe.DrainRemoves` | Lab/code/pipe.c:113-117 | the read loop takes the oldest bytes in order and leaves the rest |
| `Pipe.DrainCounts` | Lab/code/pipe.c:116 | and moves the read counter by their number, modulo 2^32 |
| `Pipe.Buffer.constructor` | Lab/code/pipe.c:34-38 | a new pipe is empty |
| `Pipe.Buffer.WriteSome` | Lab/code/pipe.c:84-94 | the loop in place fills the ring as Fill does: as many bytes as fit are appended in order |
| `Pipe.Buffer.ReadSome` | Lab/code/pipe.c:113-117 | the loop in place drains the ring as Drain does: the oldest bytes are removed in order |
| `PipeRuns.PipeIsFifo` | Lab/code/pipe.c:78-121 | over every run on the ring, however often the counters wrap: what was delivered is a prefix of what was written, the rest is in the ring in order, at most PIPESIZE bytes are in flight, and the counters are the numbers of bytes modulo 2^32 |
| `PipeRuns.SleepersHaveReason` | Lab/code/pipe.c:59-121 | over every polite run, a reader in sleep means an empty open pipe and a writer in sleep a full one |
| `PipeRuns.PoliteIsExact` | Lab/code/pipe.c:85-92 | a step keeps that if and only if it is not a writer's return from a full pipe that it filled without waking the readers |
| `PipeRuns.KilledWriterStrandsReader` | Lab/code/pipe.c:86-89 | a run in which a killed writer leaves a reader asleep before a full pipe |
| `PipeRuns.KilledSleeperExact` | Lab/code/pipe.c:86-110 | a step keeps killed processes from sleeping if and only if it is not the sleep of one that was killed after its last test |
| `PipeRuns.KilledReaderSleeps` | Lab/code/pipe.c:106-112 | a run in which a reader is killed between the test and the sleep, and sleeps on |
| `ProcTable.Table.Wakeup1` | Lab/code/proc.c:568-579 | exactly the sleepers on the channel become runnable |
| `ProcTable.Table.AllocProc` | Lab/code/proc.c:87-115 | the first unused slot becomes an embryo with the next number; none exactly when no slot is unused |
| `ProcTable.Table.Kill` | Lab/code/proc.c:592-611 | the first slot with the pid, a signed 32-bit number, is marked and woken |
| `ProcTable.Table.WaitScan` | Lab/code/proc.c:302-322 | the first zombie child is reaped and its pid returned; otherwise says whether there are children |
| `ProcTable.Table.Exit` | Lab/code/proc.c:270-284 | slot by slot: the parent is woken, children go to init, which is woken exactly when one of them is a zombie, and the process is a zombie |
| `ProcRuns.ExitKeeps` | Lab/code/proc.c:249-289 | exit keeps the table's invariant |
| `ProcRuns.StepKeeps` | Lab/code/proc.c:87-611 | every step of fork, exit, wait, kill, sleep, wakeup and scheduling, by any process, keeps it |
| `ProcRuns.TableSafety` | Lab/code/proc.c:202-379 | over every run: a process past EMBRYO has a parent that can still wait for it, a process asleep in wait has a child and no zombie child, no process is reaped twice, and pids are positive and distinct while at most 2^31 - 1 have been handed out |
| `ProcRuns.ZombieIsSeen` | Lab/code/proc.c:249-379 | over every run, an exited process that has not been reaped is a zombie whose parent is alive and not asleep waiting |
| `ProcRuns.PidsExact` | Lab/code/proc.c:105 | a step keeps the pids of processes positive and distinct if and only if it is not a fork whose next pid is negative, zero or in use |
| `ProcRuns.PidsWrap` | Lab/code/proc.c:105 | runs of failing forks after which a child gets the pid -2^31, or the pid of the first process |
| `ProcRuns.MarksExact` | Lab/code/proc.c:592-611 | only processes named to kill stay marked killed if and only if kill does not hit an unused slot and fork does not abandon a marked child |
| `ProcRuns.BornKilled` | Lab/code/proc.c:592-611 | a run in which kill(0) marks an unused slot and the next child is born killed |
| `Scheduler.Generator.Random` | Lab/code/proc.c:896-926 | at least 0 and below a positive argument from any state of the generator; 1 otherwise |
| `Scheduler.Generator.Default` | Lab/code/proc.c:977-987 | a runnable slot, or none exactly when no slot is runnable |
| `Scheduler.Smallest` | Lab/code/proc.c:990-1024 | the first runnable slot with the smallest priority, or creation time; none exactly when no slot is runnable |
| `Scheduler.Generator.MultiLevel` | Lab/code/proc.c:1046-1070 | a runnable slot of the lowest level that has one; the random index is in range |
| `Scheduler.RoundRobin.Pick` | Lab/code/proc.c:1029-1039 | the next runnable slot around the table from the saved index; none exactly when no slot is runnable |
| `Scheduler.RoundRobinIsFair` | Lab/code/proc.c:1029-1039 | from any saved index and whatever other slots do, a slot that stays runnable is returned within as many calls as there are slots, and no slot is returned twice before it |
| `ShellWords.LineWords` | Lab/code/sh.c:266-448 | every span the parser keeps is a whole word, ended by a character in no word |
| `ShellWords.ParsedReadsBack` | Lab/code/sh.c:328-343 | for every line that parses, after cutting at the ends of words each word reads, up to its NUL, as it stood in the line |
| `Shell.Parser.Peek` | Lab/code/sh.c:311-320 | moves past blanks and tests the character there |
| `Shell.Parser.GetToken` | Lab/code/sh.c:266-308 | the token, its span and the position after the blanks that follow it |
| `Shell.Parser.ParseRedirs` | Lab/code/sh.c:375-398 | computes the redirections the grammar gives, or fails on a missing file |
| `Shell.Parser.ParseExec` | Lab/code/sh.c:416-447 | computes what the grammar gives for a simple command or a block |
| `Shell.Parser.ParseArgs` | Lab/code/sh.c:430-447 | the words and the redirections among them; fails on a stray symbol or a tenth word |
| `Shell.Parser.ParseBlock` | Lab/code/sh.c:400-413 | computes what the grammar gives for a parenthesis, or fails when it is not closed |
| `Shell.Parser.ParsePipe` | Lab/code/sh.c:362-372 | computes what the grammar gives for a pipeline, grouped to the right |
| `Shell.Parser.ParseLine` | Lab/code/sh.c:345-359 | computes what the grammar gives for background signs and lists |
| `Shell.Parser.ParseCmd` | Lab/code/sh.c:328-343 | the whole line is a command or the parse fails |
| `Shell.NulTerminate` | Lab/code/sh.c:450-494 | writes a NUL at the end of every word and nowhere else |
| `Shell.ParseBuffer` | Lab/code/sh.c:328-343 | after parsing and cutting the buffer the command reads word for word as the line did |
| `ShellRoundTrip.RoundTrip` | Lab/code/sh.c:266-494 | parsing the parenthesised printing of any well-formed command gives the command back, uses up the line, and reads back the same after the line is cut |
| `ShellRoundTrip.AppendIsOutput` | Lab/code/sh.c:387-394 | a command with two output signs parses to the same as with one |
| `ShellRoundTrip.PrintIsLine` | Lab/code/sh.c:337 | a printed command holds no NUL, so the round trip covers every well-formed command |
| `Matcher.OneCharacter` | Lab/code/grep.c:93-94 | a literal or dot matches one character and the rest of the pattern the rest |
| `Matcher.ManyCharacters` | Lab/code/grep.c:98-106 | a star matches some number of repetitions and the rest of the pattern the rest |
| `Matcher.OnlyEnd` | Lab/code/grep.c:91-92 | a final dollar matches only the end |
| `Matcher.MatchHere` | Lab/code/grep.c:85-96 | true exactly when some prefix of the text is in the pattern's language |
| `Matcher.MatchStar` | Lab/code/grep.c:99-106 | true exactly when some number of repetitions leaves a match |
| `Matcher.Match` | Lab/code/grep.c:72-82 | true exactly when the pattern matches somewhere, or at the start when anchored |

## Left out

- Heap.Allocator.Malloc: requires that the units asked of sbrk are fewer than 2^28; beyond that `MorecoreKeepsIff` shows that the heap invariant is lost as soon as core is asked for.
- Heap.Allocator.Malloc: sbrk returns addresses above all earlier ones and aligned to a header; programs that call sbrk themselves and writes outside a payload are not modelled.
- Heap.Allocator.Free: requires a pointer that malloc returned and that has not been freed since, as C does.
- Vm.Kernel.DeallocUvm: requires an old size of at most KERNBASE, which all its callers pass; past it the kernel's own pages would be freed.
- Vm.Kernel.AllocUvm: requires the range to be unmapped; otherwise the source panics in mappages.
- Vm.Kernel.CopyUvm: requires the pages below the size to be mapped; otherwise the source panics.
- Vm.Kernel.MapPage: mappages is called for one user page at a time, or for a range of kernel pages, which is `MapRegion`; ranges that start inside a page do not occur.
- Vm.Kernel.Kfree: the free list is a sequence, not threaded through the pages; its lock and the check of the address range are not modelled.
- BufferCache.Cache.Brelse: requires a changed buffer to have been written or pinned, which is what the callers in fs.c and log.c do.
- FileSystem.Volume.Writei: device files are not part of this file's model, and the log is taken as done: `Disk` is what a commit would leave; a panic, which is exactly for want of blocks, leaves the state unspecified.
- FileSystem.Volume.Reload: one inode is in memory for each inode on disk; which ones the inode cache holds is not modelled.
- FileSystem.Volume.Balloc: the bitmap is a sequence of bits; the byte and mask of a bit are not modelled.
- Mkfs.Image.IAppend: a failure leaves the state unspecified. The source stops on a full image because the block cannot be read back (`mkfs.c:217-220`), and by its assertion on a file of MAXFILE blocks.
- Mkfs.Image.Finish: requires a root whose rounded size is no larger than a file can be, 4991 entries at most; mkfs does not check its size when it rounds.
- LinkRuns.Directories.Create: takes the inode number that ialloc picks as a parameter and a directory that the path was resolved to; path resolution, inode locks and the limit of a 16-bit link count are not modelled.
- RedoLogDriver.Log.LogAppend: a write past the end of the header array is reported and not carried out.
- RedoLogDriver.Log.Commit: requires a header that fits the log; what its first writes do to a log that is overrun is `SmallLogLosesBlock`.
- RedoLogRuns.ProtocolSafety: does not bound the header; `StepExact` and `RoomIffLogLarger` say exactly when it stays within LOGSIZE and the log. After an overrun the later writes of the commit are followed only as far as no block is both home and log.
- Scheduler.Generator.MultiLevel: the three levels are written out rather than looped over.
- ProcRuns.StepKeeps: a step is a whole critical section of ptable.lock.
- PipeRuns.PipeIsFifo: a step is a whole critical section of the pipe's lock; the finer interleaving of sleep and wakeup with their locks is covered once, in `Semaphores`.
- clone and join (`proc.c:773-866`): threads share a page directory that wait would free; page ownership is claimed for forked processes only.
- setscheduler (`proc.c:941-968`): its bound check admits one index past the table; policies are modelled one by one.
- FileWrite.FileWrite: the operations of other processes between two chunks are not modelled, nor are pipes and devices behind a file.
- The inode cache (iget, iput's reference counts, ilock) and namex.
- exec, loaduvm, copyout and the ELF format.
- grep's line buffering, runcmd, and the other user programs.
- getptable, setpriority, procdump and the time statistics: easy scans of the table.
- Boot code, traps, interrupt controllers, console, keyboard, UART and disk drivers.
