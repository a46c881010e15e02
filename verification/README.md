# Verified core of xv6 with lazy mmap and copy-on-write fork

This project models the parts of the kernel and of its user programs whose correctness is
not visible from any one function, and proves what each of them is for:

- **Crash safety** (`LogSpec`, `CrashMachine`, `CrashSafety`, `Logger`): the write-ahead log
  as a step machine over single disk writes and crashes, and the code of the log as methods
  of a class whose every disk image is recorded.
- **Files** (`Bitmap`, `FsSpec`, `FsMap`, `FsBytes`, `FsLog`, `FsImage`, `Volume`, `FileLayer`,
  `Ownership`, `InodeTable`, `Mkfs`): the block allocator, the direct and indirect block map,
  `readi` and `writei` against a plain byte sequence, ownership of every block, the exact set
  of blocks a write logs, the transaction bound, and the image `mkfs` starts from.
- **Files across crashes** (`FsFormat`, `FileCrash`, `WriteCrash`): what the blocks of a volume look like on
  the disk, and the transactions of file writes as operations of the log.
- **Buffer cache** (`BcacheList`, `Bcache`, `CommitCrash`): the doubly linked MRU list, what it
  caches, when a commit finds the buffers it needs, and what a crash leaves of one.
- **Directories** (`LinkSpec`, `LinkLaws`, `Links`): link counts and the shape of the tree.
- **User heap** (`HeapSpec`, `Umalloc`): `malloc` and `free` from the free ring up.
- **Processes** (`SleepLock`, `ProcTable`, `Ptable`, `PipeQueue`): sleep and wakeup, the
  process table, pipes.
- **Virtual memory** (`Kalloc`, `VmSpec`, `Vm`, `VmCopy`, `Cow`, `Mmap`): page frames, the
  two-level page tables, copy-on-write after fork, placement of mappings.
- **User programs** (`ShellGrammar`, `ShellText`, `ShellOrder`, `Shell`, `Grep`): the shell's
  lexer and parser, and grep's matcher.

`Params` holds the kernel's constants and `Wrappers` the option type. Code that changes things
in place is a class or a method with loops, proved equal to a specification function or
relation; runs of operations are sequences of events over those functions. Spinlock acquisition
and release, context switches and single-block disk writes are atomic steps. Answers that come
from outside the modelled code (`sbrk`, the inode that `ialloc` finds, the result of a path
lookup, whether a process has been killed) are parameters.

Places where the code falls short of its intent are kept as they are.  Each has the exact
condition under which the intent is met and an input where it is not:

- `mkfs` makes the log one block too short for its capacity check (`CrashSafety.NeverPanicsExactly`).
- The cache has as many buffers as the log has slots, so a full transaction cannot be committed
  (`Bcache.FitsExactly`, `Bcache.FullTransaction`).
- `mkfs` leaves a hole in a root directory whose length is a multiple of the block size
  (`Mkfs.RootSolidExactly`, `Mkfs.HoledRoot`).
- `pipewrite` returns early without waking readers (`PipeQueue.ReadersExactly`, `PipeQueue.StrandedReader`).
- A failed `allocuvm` unmaps pages that were mapped before it (`Vm.Machine.Allocuvm`, `Vm.GrowthLosesPage`).
- Freeing a page table that shares frames breaks the other process (`Cow.ExitKeepsExactly`, `Cow.FreedBySharer`).
- An entry made in a removed directory spoils the link counts (`LinkLaws.LinkKeepsExactly`,
  `LinkLaws.CreateKeepsExactly`, `LinkLaws.RemovedWhileOpen`).
- `munmap` is documented as removing the mapping it is given and always removes the first one
  (`Mmap.Mappings.Munmap`, `Mmap.MunmapLosesFirst`).
- A page freed twice leaves links that no list fits, and is handed out twice (`Kalloc.Kmem.Kfree`,
  `Kalloc.FreedTwice`).
- `malloc` of 2^31 bytes or more can get less memory than it writes in the header (`Umalloc.ChunkFits`,
  `Umalloc.HugeRequest`).

A write into a hole could log one block more than an operation may (`FileLayer.LargestChunk`), but no file
the code writes has one: the operations keep all files without holes (`Ownership.ConsistentThroughout`), and
the directory `mkfs` may leave with one is never passed to `filewrite`.

## Model

| member | source | states |
|---|---|---|
| `LogSpec.SlotWriteInvisible` | xv6-public/log.c:178-190 | Writing a log slot while the header is empty does not change what recovery would restore |
| `LogSpec.InstallInvisible` | xv6-public/log.c:70-82 | Copying a slot to its home block does not change what recovery would restore |
| `LogSpec.HeadWriteCommits` | xv6-public/log.c:102-113 | After the one write of the header block, recovery reads exactly the list that was in memory |
| `CrashMachine.SystemCallsRunOutsideCommit` | xv6-public/log.c:126-163 | While the log commits no operation is outstanding, so a system call's steps never meet a commit's |
| `CrashMachine.StepKeeps` | xv6-public/log.c:70-233 | Every step, a crash in any phase included, keeps the machine invariant and its tie to the abstract committed and current contents |
| `CrashSafety.CrashAtomicity` | xv6-public/log.c:70-202 | After any run with any crashes the recoverable blocks are the initial ones plus, in order, all writes of a set of operations that had ended and of no others |
| `CrashSafety.CommittedForever` | xv6-public/log.c:193-202 | An operation once committed stays committed whatever follows |
| `CrashSafety.QuietMeansCommitted` | xv6-public/log.c:146-202 | From the header write to the end of the commit, every operation whose end_op came after the last crash is committed, and the recoverable blocks are the cached ones |
| `CrashSafety.RecoveryCompletes` | xv6-public/log.c:116-122 | Recovery that is not interrupted ends with the recovered blocks at home, cache equal to disk, and an empty header |
| `CrashSafety.ReservationHolds` | xv6-public/log.c:126-163 | Over every run of operations within budget, blocks logged plus slots still reserved never exceed LOGSIZE |
| `CrashSafety.LogWriteSafe` | xv6-public/log.c:214-233 | An operation with budget left can always log another block when the log has LOGSIZE + 1 blocks |
| `CrashSafety.NeverPanicsExactly` | xv6-public/mkfs.c:25 | Budgeted operations never hit log_write's size panic if and only if the log has LOGSIZE + 1 blocks; mkfs gives it LOGSIZE |
| `CrashSafety.RecoversQuiescent` | xv6-public/log.c:126-202 | Whatever operations run side by side and whenever the machine crashes, the recoverable blocks are the current ones of some moment with no operation under way |
| `CrashSafety.OlderIsCommitted` | xv6-public/log.c:146-202 | If an operation is committed, so is every operation that wrote before it wrote, unless a crash came between |
| `FsFormat.UnloggedSame` | xv6-public/fs.c:482-511 | A block of the volume that was not logged holds what it held: bitmap block, inode block or data |
| `FsFormat.FormatSeparates` | xv6-public/fs.h:29-37 | The disk format tells apart any two contents that may stand in the same block: two bitmap blocks, two data blocks, or two blocks of equally many inodes |
| `FsFormat.KindsCoincide` | xv6-public/fs.h:29-57 | It does not tell a bitmap block from a data block with the same bytes, so more cannot be asked of a format |
| `FileCrash.VolumeAfterCrash` | xv6-public/log.c:126-202 | If the current blocks hold a volume at every moment with no operation under way, then after any run with any crashes the recoverable blocks hold the volume of one such moment |
| `FileCrash.GroupIsAtomic` | xv6-public/log.c:126-202 | File operations that write one after the other, under way together and committed in groups: after any run with any crashes the recoverable blocks hold the volume after the first n of them, and of those that wrote exactly these are committed |
| `FileCrash.WriteIsAtomic` | xv6-public/file.c:134-142 | One operation that is the only writer of the run: the recoverable blocks hold the volume before it or the one after it, the latter only if it ended and always if it is committed |
| `FileCrash.ReadBack` | xv6-public/fs.c:453-476 | The blocks determine the file: any two volumes they hold have the same contents there, for any format that separates contents of one kind |
| `FileCrash.FilesAfterCrash` | xv6-public/log.c:126-202 | For such a group: the file on whatever volume is found after the crash is the one the first n operations left |
| `FileCrash.FileAfterCrash` | xv6-public/file.c:134-142 | One write, the only writer of the run: on whatever volume is found after the crash the file is the old one, or the old one with all of the bytes at the offset, and that if the write is committed |
| `WriteCrash.FilewriteAfterCrash` | xv6-public/file.c:118-154 | The transactions of one filewrite in any run in which they write one after the other: the file found after a crash is the old one with the bytes of the first n transactions and of no others |
| `WriteCrash.WriteThenCrash` | xv6-public/file.c:118-154 | filewrite itself, and every such run of its transactions |
| `WriteCrash.TransactionThenCrash` | xv6-public/file.c:134-142 | One transaction of filewrite, and every run in which it is the only writer: the old file or the new one |
| `WriteCrash.TransactionRuns` | xv6-public/log.c:126-202 | Such a run exists: boot, begin_op, a write of every logged block, end_op and the commit |
| `Logger.Log.WriteLog` | xv6-public/log.c:178-190 | Fills all slots; every disk image on the way recovers to the old contents |
| `Logger.Log.WriteHead` | xv6-public/log.c:102-113 | One disk write puts the in-memory header on disk and touches no home block |
| `Logger.Log.InstallTrans` | xv6-public/log.c:70-82 | Copies every slot home; every disk image on the way recovers to the same contents |
| `Logger.Log.Commit` | xv6-public/log.c:193-202 | Every disk image before the header write recovers to the old contents and every later one to the new; at the end disk equals cache |
| `Logger.Log.ReadHead` | xv6-public/log.c:86-96 | Loads exactly the header on disk |
| `Logger.Log.RecoverFromLog` | xv6-public/log.c:116-122 | The disk then holds what was recoverable, and every image on the way still recovers to it |
| `Logger.Log.BeginOp` | xv6-public/log.c:126-141 | Lets an operation in exactly when no commit is under way and its MAXOPBLOCKS blocks fit beside what is logged and reserved, which is when the machine of `CrashMachine` can take a Begin step, and is that step; the invariant of the log holds before and after |
| `Logger.Log.LogWrite` | xv6-public/log.c:214-233 | Pins the block, absorbing a repeated one, and keeps logged blocks distinct and outside the log; panics exactly at the two guards |
| `Logger.Log.EndOp` | xv6-public/log.c:146-174 | The last operation out commits; all images on the way recover to the old or the new contents |
| `HeapSpec.InsertKeeps` | xv6-public/umalloc.c:29-43 | Linking a block in keeps the ring address-ordered and the partition of the heap |
| `HeapSpec.MergeKeeps` | xv6-public/umalloc.c:33-42 | Joining two touching free blocks keeps ring and partition |
| `HeapSpec.SplitKeeps` | xv6-public/umalloc.c:78-83 | Cutting the tail off a free block keeps ring and partition |
| `HeapSpec.UnlinkKeeps` | xv6-public/umalloc.c:76-77 | Taking a whole block off the ring keeps ring and partition |
| `HeapSpec.GrowKeeps` | xv6-public/umalloc.c:47-61 | A chunk from sbrk joins the partition as a block in use |
| `Umalloc.PayloadFits` | xv6-public/umalloc.c:69 | The block asked for holds nbytes if and only if the rounding to units does not wrap |
| `Umalloc.ChunkFits` | xv6-public/umalloc.c:52-54 | sbrk is passed the bytes of the chunk if and only if they fit in an int |
| `Umalloc.ShortChunk` | xv6-public/umalloc.c:47-61 | With a header that says more units than were obtained the heap is no partition |
| `Umalloc.HugeRequest` | xv6-public/umalloc.c:47-90 | malloc(0xFFFFFFF8) asks sbrk for 0 bytes |
| `Umalloc.FreeKeeps` | xv6-public/umalloc.c:25-44 | After free the ring is sorted, circular and fully coalesced, and live and free blocks still partition the heap |
| `Umalloc.StopsThere` | xv6-public/umalloc.c:30-32 | The search loop's exit test holds at exactly one place of the ring, the wrap-around included |
| `Umalloc.Allocator.Search` | xv6-public/umalloc.c:29-32 | Terminates at the free block after which the freed one belongs |
| `Umalloc.Allocator.Free` | xv6-public/umalloc.c:25-44 | Removes the block from the live set, keeps every unit of every other live block, header and payload, and leaves a free block at least as large |
| `Umalloc.Allocator.Morecore` | xv6-public/umalloc.c:47-61 | Adds a free block of the size asked for, or changes nothing when sbrk refuses; the chunk falls short of its header exactly when its bytes do not fit in an int |
| `Umalloc.Allocator.Malloc` | xv6-public/umalloc.c:64-90 | Hands out a new block of exactly the units needed, disjoint from all live ones and without touching any unit of them; takes it from the free list whenever a block there is large enough, else calls morecore once; fails only if no block fits and sbrk refuses; gets a short chunk exactly when no block fits, sbrk answers and the bytes do not fit in an int |
| `Umalloc.Allocator.Take` | xv6-public/umalloc.c:75-87 | Unlinks the block found or cuts off its tail, keeping the heap invariant |
| `Bitmap.SetBitTests` | xv6-public/fs.c:68-70 | Setting one bit by mask changes the test of that bit and no other |
| `Bitmap.ClearBitTests` | xv6-public/fs.c:90-93 | Clearing one bit by mask changes the test of that bit and no other |
| `Bitmap.MarkOne` | xv6-public/fs.c:68-70 | Marking adds exactly one block to the set in use |
| `Volume.Volume.Balloc` | xv6-public/fs.c:57-78 | Takes the lowest free block, zeroes it, and marks just it; finds none only if all are in use |
| `Volume.Volume.Bfree` | xv6-public/fs.c:82-95 | Unmarks just that block; the panic is reached exactly for a block that is free |
| `Volume.Volume.Bmap` | xv6-public/fs.c:373-400 | Returns the mapped block, allocating the lowest free blocks for it and the indirect block; no other slot or block of anyone changes; says exactly what is logged; fails only past the largest file or on a full disk with fewer blocks allocated than needed |
| `Volume.Volume.Iupdate` | xv6-public/fs.c:221-236 | Read-modify-write of the block of eight entries: the inode's entry becomes the in-memory copy, and the seven beside it and all others stay |
| `Volume.Volume.Readi` | xv6-public/fs.c:453-476 | Returns the bytes of the file at the offset, cut at the end, allocating nothing; fails exactly on a bad or wrapping offset |
| `Volume.Volume.Writei` | xv6-public/fs.c:482-511 | Without holes the file becomes the old one with exactly the given range replaced, still without holes and with the on-disk inode up to date; always, the blocks allocated are the lowest free ones, exactly as many as needed, the blocks logged are exactly the stated ones and cover every block that changed; fails exactly on bad ranges and panics exactly when fewer blocks are free than needed |
| `Volume.Volume.Itrunc` | xv6-public/fs.c:408-435 | Frees exactly the blocks of the inode and leaves it empty |
| `FsBytes.WrittenContents` | xv6-public/fs.c:498-504 | Block-by-block copying adds up to replacing one range of the byte sequence |
| `FsLog.InOrderAlike` | xv6-public/fs.c:57-78 | Two sequences of allocations that each take the lowest free block agree as far as both go |
| `FsLog.LoggedAtMost` | xv6-public/fs.c:482-511 | What a write logs, counted: a block per file block, a bitmap block per allocation and the indirect block, at most |
| `FsLog.LoggedExactly` | xv6-public/fs.c:482-511 | Exactly that, each bitmap block counted once, if neither bitmap nor inode block belongs to the file; the bound is reached if the allocations are under different bitmap blocks |
| `FileLayer.TransactionFits` | xv6-public/file.c:127-152 | A chunk of at most 1536 bytes logs at most MAXOPBLOCKS distinct blocks if the file has no holes, and at most one more if it has |
| `FileLayer.FitsExactly` | xv6-public/file.c:127-152 | With bitmap and inode block metadata, a chunk logs at most MAXOPBLOCKS blocks if and only if the blocks it spans, the bitmap blocks of the lowest free blocks it needs, the indirect block if it gains an entry and the inode block if the size grows are no more |
| `FileLayer.LargestChunk` | xv6-public/file.c:127-152 | writei of 1536 bytes at the end of twelve blocks less a byte, with the lowest free blocks under different bitmap blocks, succeeds and logs exactly MAXOPBLOCKS blocks, and exactly one more if block 11 is a hole |
| `FileLayer.LargestChunkExists` | xv6-public/file.c:127-152 | A volume on which it does, one with no hole and one with |
| `FileLayer.Filewrite` | xv6-public/file.c:118-154 | On success all bytes are in the file at the offset, on failure exactly those before the new offset, where writei refuses the next chunk; every transaction on the way is within MAXOPBLOCKS, logs all it changes and leaves a prefix of the bytes in a file without holes |
| `FileLayer.WriteTransaction` | xv6-public/file.c:134-142 | One chunk is one transaction within MAXOPBLOCKS, replaces exactly its range, and logs every block it changes |
| `Ownership.OwnedOnce` | xv6-public/fs.c:373-435 | A used block that is not metadata sits in exactly one slot of exactly one inode |
| `Ownership.OperationKeepsOwned` | xv6-public/fs.c:332-435 | An operation on one inode within bmap's contract keeps ownership of all blocks of all inodes |
| `Ownership.OwnedThroughout` | xv6-public/fs.c:57-435 | Over any run of such operations the free map is exactly metadata plus owned blocks |
| `Ownership.FileOperationKeeps` | xv6-public/fs.c:373-511 | An operation on one inode that leaves it without holes keeps every inode without holes and every other file as it was |
| `Ownership.ConsistentThroughout` | xv6-public/fs.c:373-511 | Over any run of such operations the volume is consistent in every state and a file changes only when an operation is on its own inode |
| `InodeTable.Write` | xv6-public/fs.c:482-511 | writei on a mounted volume is such an operation: free map and inode table stay in agreement, every other inode keeps its entry, its contents and its lack of holes, and the file is the old one with the range replaced |
| `InodeTable.Trunc` | xv6-public/fs.c:332-346 | The freeing path of iput is such an operation: it returns exactly the inode's blocks, and every other inode keeps its entry, its contents and its lack of holes |
| `Mkfs.Image.constructor` | xv6-public/mkfs.c:94-112 | The empty image satisfies ownership and no-holes |
| `Mkfs.Image.Iappend` | xv6-public/mkfs.c:256-297 | Appends exactly the bytes, keeps every other file, ownership and no-holes; gives up only on a full image or a file too large |
| `Mkfs.Image.FixRoot` | xv6-public/mkfs.c:158-163 | Rounding the root's size keeps ownership; it keeps no-holes exactly when the size was not a multiple of BSIZE |
| `Mkfs.RootSolidExactly` | xv6-public/mkfs.c:158-163 | The rounded size has no hole if and only if the size was not a multiple of BSIZE |
| `Mkfs.HoledRoot` | xv6-public/mkfs.c:130-163 | An image whose root got 32 entries of 16 bytes through iappend and has a hole after the size fix |
| `Mkfs.Finish` | xv6-public/mkfs.c:158-166 | The finished image with the bitmap of balloc(freeblock) satisfies the agreement of free map and inode table, and is consistent if the root has no hole |
| `Mkfs.Balloc` | xv6-public/mkfs.c:238-252 | The bitmap marks exactly the first `used` blocks |
| `BcacheList.Unlink` | xv6-public/bio.c:130-131 | Two pointer writes take an element out of the circular list |
| `BcacheList.PushFront` | xv6-public/bio.c:132-135 | Four pointer writes put it at the front |
| `Bcache.Cache.constructor` | xv6-public/bio.c:39-56 | All buffers on the list, none standing for a disk block |
| `Bcache.Cache.Bget` | xv6-public/bio.c:62-93 | Returns the one buffer of the block if there is one, else recycles the least recently released clean unreferenced buffer; fails exactly when there is none |
| `Bcache.Cache.Bread` | xv6-public/bio.c:97-106 | The buffer returned holds the latest contents of the block, with uniqueness and coherence kept; fails exactly for a block that is neither cached nor readable into an idle buffer |
| `Bcache.Cache.LogWrite` | xv6-public/log.c:224-231 | The written block becomes the latest contents and is pinned; the pinned blocks stay exactly those in the log header |
| `Bcache.Cache.Bwrite` | xv6-public/bio.c:110-116 | Disk, buffer and latest contents agree, the block is no longer pinned, and the new disk is recorded as the next image |
| `Bcache.Cache.Brelse` | xv6-public/bio.c:121-141 | The last release puts the buffer in front of all others, whose order does not change |
| `Bcache.Cache.WriteLog` | xv6-public/log.c:178-190 | Every slot then holds what its block holds, one disk write per slot and no other; finds its buffers exactly when one is idle or every slot is cached |
| `Bcache.Cache.WriteHead` | xv6-public/log.c:102-113 | Word 0 of the header block on the disk is then the count, the words after it are the list, the rest is as before, and no other block changes; finds a buffer exactly when one is idle or the header block is cached |
| `Bcache.Cache.Seal` | xv6-public/log.c:196-197 | Before the first block goes home the header on the disk reads as the list of the transaction, by `LogSpec`, and every slot holds its block; the disks written on the way are those of `Bcache.Image` |
| `Bcache.Cache.InstallTrans` | xv6-public/log.c:70-82 | With the slots filled: no block is pinned, the latest contents are unchanged, and each disk write copies the next slot home |
| `Bcache.Cache.Commit` | xv6-public/log.c:193-202 | Ends with nothing pinned, disk equal to the latest contents, those unchanged outside the log, and a header that says 0; its disk writes are the slots, the header, the homes and the header again, in that order; panics for want of a buffer exactly when none is idle and the header block or a slot is not cached, which from a quiet state is when the transaction is as large as the cache |
| `Bcache.FitsExactly` | xv6-public/log.c:193-202 | With no buffer held, a commit finds its buffers if and only if the transaction is smaller than the cache |
| `Bcache.FullTransaction` | xv6-public/param.h:11-12 | With NBUF buffers, a transaction of LOGSIZE blocks through bread, log_write and brelse whose commit panics |
| `CommitCrash.CommitAtomic` | xv6-public/log.c:193-202 | The same of the sequence of disks, for any log area, list and contents, with the header on the disk naming the list from its first write to its second |
| `CommitCrash.Commit` | xv6-public/log.c:193-202 | A commit through the cache, cut short after any of its disk writes: recovery finds the blocks as they were up to the header write and the whole transaction from it on; at the end the disk is ready for the next |
| `LinkSpec.OneMoreRef` | xv6-public/fs.c:572-575 | One new entry raises the number of links to its inode by one |
| `LinkLaws.LinkKeepsExactly` | xv6-public/sysfile.c:119-165 | Adding a name keeps link counts, unique names, dots and the tree if and only if the directory is live |
| `LinkLaws.LinkTells` | xv6-public/sysfile.c:119-165 | The new name is found, every other lookup in every directory answers as before, and one link count goes up by one |
| `LinkLaws.CreateKeepsExactly` | xv6-public/sysfile.c:242-283 | Creating a file, device or directory keeps them if and only if the directory is live |
| `LinkLaws.CreateTells` | xv6-public/sysfile.c:242-283 | The inode has the kind asked for and is found under its name, a directory also under its dots; every other lookup answers as before, and only a subdirectory raises a link count |
| `LinkLaws.UnlinkKeeps` | xv6-public/sysfile.c:185-239 | Removing a name keeps them; the removed directory is dead and the nlink panic cannot happen |
| `LinkLaws.UnlinkTells` | xv6-public/sysfile.c:185-239 | The name is found no more, every other lookup answers as before; its inode loses a link, and the parent loses one if it was a directory |
| `LinkLaws.EmptyDirFacts` | xv6-public/sysfile.c:211-229 | An empty directory has exactly one link, its name, and its parent keeps at least one after losing the `..` |
| `LinkLaws.FreeKeeps` | xv6-public/fs.c:332-352 | Giving back an inode without links keeps the tree |
| `LinkLaws.LastNameFrees` | xv6-public/fs.c:332-352 | After unlink and the last iput the inode is free for create, and found nowhere, if and only if the name unlinked was its only one |
| `LinkLaws.NewTreeOk` | xv6-public/mkfs.c:117-128 | The root directory mkfs makes satisfies the invariant |
| `LinkLaws.RemovedWhileOpen` | xv6-public/sysfile.c:119-283 | From the new root: mkdir, a file, rmdir while open; then creating or linking a file in the removed directory breaks the invariant |
| `Links.FileSystem.Dirlookup` | xv6-public/fs.c:525-548 | Finds an entry of that name if and only if there is one in use |
| `Links.FileSystem.Dirlink` | xv6-public/fs.c:552-578 | Refuses a name in use; otherwise writes the first unused entry, after which that name is found and every other lookup answers as before; panics exactly when that entry is past the largest file |
| `Links.FileSystem.Isdirempty` | xv6-public/sysfile.c:169-181 | True exactly if the directory has no entry in use besides its dots |
| `Links.FileSystem.Link` | xv6-public/sysfile.c:119-165 | Adds the name and the count, keeping the invariant if and only if the directory is live, or rolls the count back so that nothing changed |
| `Links.FileSystem.Unlink` | xv6-public/sysfile.c:185-239 | Removes the name exactly when it is removable, never panics, and keeps the invariant |
| `Links.FileSystem.Create` | xv6-public/sysfile.c:242-283 | Makes the inode and its entries, keeping the invariant if and only if the directory is live, or returns the existing file, or changes nothing; says when each panic happens, and the ones for the dots and the new name cannot |
| `Links.FileSystem.Iput` | xv6-public/fs.c:332-352 | The inode is free afterwards if and only if it was before, or it has no links and this was the last reference; no other inode changes |
| `SleepLock.StepKeeps` | xv6-public/sleeplock.c:23-42 | Every interleaved step of acquiresleep, releasesleep, sleep and wakeup keeps the lock invariant |
| `SleepLock.MutualExclusion` | xv6-public/sleeplock.c:23-42 | In every reachable state at most one process holds the lock, and pid names it |
| `SleepLock.NoLostWakeup` | xv6-public/proc.c:490-547 | Whenever the inner spinlock is free, a process asleep on the lock implies that a process holds it |
| `SleepLock.NeverStuck` | xv6-public/proc.c:490-547 | While any process is in the protocol, some process in it can take a step |
| `ProcTable.ExitTree` | xv6-public/proc.c:322-337 | After exit no parent pointer names the exiting process |
| `ProcTable.ExitWaits` | xv6-public/proc.c:317-337 | After exit nobody sleeps in wait beside a zombie child, init included |
| `ProcTable.ExitExactly` | xv6-public/proc.c:317-337 | Slot by slot: the caller is a zombie, its children are init's, exactly the sleepers on its parent, and on init if it leaves a zombie child, are runnable, and no other field of any slot changes |
| `ProcTable.WaitKeeps` | xv6-public/proc.c:344-387 | A turn of wait keeps the tree, the pids and the account of exited processes |
| `ProcTable.WaitExactly` | xv6-public/proc.c:344-387 | A turn of wait reports no child if and only if there is no zombie child and there are no children or the caller is killed; reaps the first zombie child, answering its pid and emptying its slot alone, if and only if there is one; else only sets the caller asleep on its own channel |
| `ProcTable.StepKeeps` | xv6-public/proc.c:80-570 | Every critical section on the process table keeps all of these |
| `ProcTable.ProcessTree` | xv6-public/proc.c:80-387 | From boot, over any run: parents are alive, only init has none, live pids are distinct, no sleeper in wait has a zombie child, each exited child is reaped at most once and none is lost |
| `Ptable.Ptable.Allocproc` | xv6-public/proc.c:80-99 | Claims the first unused slot with a new pid, if and only if there is one, and changes no other slot |
| `Ptable.Ptable.Wakeup1` | xv6-public/proc.c:532-539 | Makes exactly the sleepers on the channel runnable and changes nothing else |
| `Ptable.Ptable.Exit` | xv6-public/proc.c:317-337 | Its two scans refine the specified exit, every slot ending as `ProcTable.ExitExactly` says |
| `Ptable.Ptable.Wait` | xv6-public/proc.c:344-387 | One turn reaps the first zombie child and answers its pid, reports that there is none to wait for, or sleeps, each exactly in the case `ProcTable.WaitExactly` gives |
| `Ptable.Ptable.Kill` | xv6-public/proc.c:552-571 | Marks the first process of that pid killed and, if asleep, runnable, and changes nothing else; succeeds exactly if there is one |
| `PipeQueue.QueueLaw` | xv6-public/pipe.c:60-121 | Over any interleaving bytes read followed by bytes buffered are the bytes accepted, at most 512 are buffered, a sleeping writer means full with the read end open, and nobody sleeps in a pipe that has been freed |
| `PipeQueue.ReadTells` | xv6-public/pipe.c:101-121 | A read answers with the next bytes, the lesser of n and what is queued, exactly when there are any or the write end is closed, and takes just those; else it fails, if killed, or sleeps |
| `PipeQueue.WriteTells` | xv6-public/pipe.c:79-98 | A write is done exactly when all fits, and else puts in exactly what fits and fails, if the read end is closed or the caller killed, or sleeps |
| `PipeQueue.AnswersLaw` | xv6-public/pipe.c:79-121 | Over any interleaving the bytes readers were handed, one answer after the other, are a prefix of the bytes writers gave, short by at most 512, and are exactly the bytes taken |
| `PipeQueue.ReadersExactly` | xv6-public/pipe.c:79-121 | Throughout a run a sleeping reader means empty with the write end open, if and only if no pipewrite of the run gives up while a reader sleeps |
| `PipeQueue.GivesUpExactly` | xv6-public/pipe.c:85-90 | pipewrite fails early exactly when more bytes remain than fit and the read end is closed or the caller killed |
| `PipeQueue.StrandedReader` | xv6-public/pipe.c:85-89 | A run in which a reader stays asleep beside a full pipe |
| `PipeRing.SlotSurvivesWrap` | xv6-public/pipe.c:93-116 | The ring slot of a byte does not depend on 32-bit wrap-around of its counter |
| `PipeRing.CountersCompare` | xv6-public/pipe.c:85-114 | The wrapped counters tell full and empty exactly |
| `PipeRing.Ring.constructor` | xv6-public/pipe.c:33-36 | A new pipe is the empty queue with both ends open |
| `PipeRing.Ring.Pipewrite` | xv6-public/pipe.c:79-98 | One turn appends what fits and ends exactly when that is all; else it fails or sleeps as specified, and says how far it got |
| `PipeRing.Ring.Piperead` | xv6-public/pipe.c:101-121 | The bytes returned are those taken from the front of the queue, the lesser of n and what is there; it fails or sleeps exactly when there is nothing and the write end is open |
| `PipeRing.Ring.Pipeclose` | xv6-public/pipe.c:60-75 | Closes one end, wakes the sleepers of the other, and frees the pipe exactly when both ends are closed |
| `Kalloc.Kmem.Kalloc` | xv6-public/kalloc.c:83-95 | Hands out the page at the head and follows its link; on a list that is the most recently freed page, and 0 exactly when none is free |
| `Kalloc.Kmem.Kfree` | xv6-public/kalloc.c:60-77 | Pushes a legal page; panics on exactly the illegal ones; the links then fit some list of pages if and only if the page was not on the list |
| `Kalloc.FreedTwice` | xv6-public/kalloc.c:60-95 | A page freed twice, and two allocations that both return it |
| `Kalloc.Kmem.Freerange` | xv6-public/kalloc.c:47-53 | Frees exactly the whole pages between the two addresses |
| `VmSpec.SetEntryGet` | xv6-public/vm.c:36-57 | Writing one page-table entry changes one page of one directory in the flat map and nothing else |
| `VmSpec.HardwareIs` | xv6-public/vm.c:49-55 | What the processor grants through both levels together is what the page's own entry says: no directory entry takes away writing or user access |
| `VmSpec.SkipIsSafe` | xv6-public/vm.c:281-282 | Where a directory entry is absent, no page up to the next page table is present |
| `Vm.Machine.Walkpgdir` | xv6-public/vm.c:36-57 | Finds or makes the page table without changing any page; every directory entry allows writing and user access; fails exactly when absent and not to be made or out of memory; a frame leaves the free list exactly when a table is added |
| `Vm.Machine.Mappages` | xv6-public/vm.c:62-88 | Maps exactly the covered pages, or a prefix of them when memory runs out or a page is already mapped; the processor reaches each with exactly the permissions asked for, through both levels; nothing else changes |
| `Vm.Machine.Deallocuvm` | xv6-public/vm.c:270-293 | Unmaps exactly the pages of the range, frees exactly their frames, and terminates despite the skip |
| `Vm.Machine.Freevm` | xv6-public/vm.c:298-312 | Frees exactly the frames of the directory: pages, tables and itself |
| `Vm.Machine.Allocuvm` | xv6-public/vm.c:236-263 | Maps zeroed fresh frames, which a user program may read and write, over exactly the new pages, taking one frame for each and one for each missing table; or, fewer being free, cuts the range back without losing one; after a failure the user mapping is what it was if and only if the range was unmapped before; panics only at a mapped page reached before the frames run out |
| `Vm.GrowthLosesPage` | xv6-public/vm.c:249-259 | Four frames, one page mapped, and a growth that fails and takes the page with it |
| `VmCopy.Setupkvm` | xv6-public/vm.c:127-150 | A new directory through which the processor reaches the regions page for page, as each region permits, and nothing else, with no user page, or no trace of one; takes a frame for itself and one for each table, and fails exactly when fewer are free; panics only if two regions share a page, and succeeds only if none do |
| `VmCopy.BuildingUndone` | xv6-public/vm.c:356-358 | Freeing a half-built directory gives back every frame and leaves every other page as it was |
| `VmCopy.Copyuvm` | xv6-public/vm.c:330-359 | Either equal pages in fresh frames, on which the processor allows what it allows on the parent's, below the same kernel half, or the same free frames and owners as before; it takes exactly the directory, each page table once and the pages, and runs out only when fewer frames are free; with enough frames it succeeds exactly when all pages are present and no two regions share a page, and panics accordingly |
| `Cow.StepKeeps` | xv6-public/proc.c:224-260 | Every step keeps a frame with two mappings unwritable in both and acts on the views as on private memories |
| `Cow.Isolation` | xv6-public/proc.c:643-661 | Over any run of forks, stores, faults and exits each process reads what its own private memory would hold |
| `Cow.OthersStoresAreInvisible` | xv6-public/proc.c:224-260 | What a process reads at a page changes only by its own doing |
| `Cow.StoreCompletes` | xv6-public/proc.c:643-661 | A store to any mapped page completes after at most one fault and is seen at that page only |
| `Cow.ForkSharesExactly` | xv6-public/proc.c:224-260 | The child reads the parent's bytes at exactly the present private pages and nobody else notices |
| `Cow.ExitKeepsExactly` | xv6-public/vm.c:298-312 | Freeing a page table keeps the invariant if and only if it shares no frame |
| `Cow.FreedBySharer` | xv6-public/kalloc.c:67-68 | A run in which a child's exit overwrites its parent's page |
| `Cow.Kernel.SharePage` | xv6-public/proc.c:237-256 | Parent and child entry become the same, unwritable and marked; an absent page and every other entry, frame and free frame stay |
| `Cow.Kernel.ShareMappings` | xv6-public/proc.c:224-260 | The nested loops are exactly one sharing step per page of each private mapping |
| `Cow.Kernel.PageFault` | xv6-public/proc.c:643-661 | The copy-on-write branch is exactly the fault step, taken exactly for a marked unwritable page: a free frame with the same bytes, writable and no longer marked, and nothing else; with no frame free it panics |
| `Mmap.UnroundedSuffices` | xv6-public/sysproc.c:108-112 | The overlap test with the unrounded end is exact for page-aligned starts |
| `Mmap.Mappings.FindAvailableAddress` | xv6-public/sysproc.c:97-126 | The least page-aligned address in the area whose pages are all free, or 0 exactly when there is none |
| `Mmap.Mappings.Mmap` | xv6-public/sysproc.c:145-211 | Appends a mapping disjoint by pages from all others and inside the area, or changes nothing; fails exactly when nothing fits or an argument is bad, and overruns the table exactly when it is full and the call would succeed |
| `Mmap.Mappings.Munmap` | xv6-public/sysproc.c:232-297 | Succeeds exactly for a range inside the first mapping, its own range included, that is written back; shifts the table down over its first entry, keeping all mappings disjoint, unless that entry's write-back failed or panicked over a closed file; of the mapping that holds the range: it is removed, and the call succeeds, if and only if it is the first, and otherwise the first is lost |
| `Mmap.MunmapLosesFirst` | xv6-public/sysproc.c:232-297 | Two mappings, and a munmap of the second that returns -1, keeps it and loses the first |
| `ShellGrammar.LineSound` | xv6-public/sh.c:345-446 | Whatever is parsed is a sentence of the grammar followed by what is left |
| `ShellGrammar.LineComplete` | xv6-public/sh.c:345-446 | Every sentence is parsed to its own derivation |
| `ShellGrammar.AcceptsExactly` | xv6-public/sh.c:328-446 | The parser accepts exactly the sentences with fewer than MAXARGS words per command |
| `ShellGrammar.Unambiguous` | xv6-public/sh.c:328-446 | A sentence has one derivation, the one found |
| `ShellText.LexSpaced` | xv6-public/sh.c:266-308 | Tokens spelled out with any blanks, or none, around symbols are read back as the same tokens |
| `ShellText.LexSpacing` | xv6-public/sh.c:266-308 | Every line is its tokens with blanks around them, each word a maximal run of word characters and >> always one token |
| `ShellText.LexExactly` | xv6-public/sh.c:266-308 | The tokens of a line are the only ones that, spelled out with blanks or nothing between them, and something between two words and between > and >, are the line |
| `ShellText.LexKeepsText` | xv6-public/sh.c:266-308 | Any line without its blanks is the spelling of its tokens one after the other: no character is lost or read twice |
| `ShellText.LineMeans` | xv6-public/sh.c:345-446 | Every command tree is the meaning of some derivation |
| `ShellText.PrintParses` | xv6-public/sh.c:328-446 | Reading back the text of any command tree, spaced in any way, gives that tree |
| `ShellOrder.TreeKeepsOrder` | xv6-public/sh.c:345-446 | The tree of any line that parses has the line's words, pipes, lists and backgrounds from left to right, and its redirections in order with their directions |
| `Shell.Parser.Peek` | xv6-public/sh.c:311-320 | Consumes no token and tells whether the next one starts with one of the symbols |
| `Shell.Parser.Gettoken` | xv6-public/sh.c:266-308 | Steps over blanks, then exactly the characters that spell the next token, which it delimits, then blanks; consumes that token and no other |
| `Shell.Parser.Parseredirs` | xv6-public/sh.c:375-397 | Reads exactly the redirections of the grammar, or panics where it has none |
| `Shell.Parser.Parseargs` | xv6-public/sh.c:429-446 | Reads exactly the words of a command with their redirections, or panics as the grammar fails |
| `Shell.Parser.Parseexec` | xv6-public/sh.c:416-446 | Delivers the tree of the simple command the grammar derives |
| `Shell.Parser.Parseblock` | xv6-public/sh.c:400-413 | Delivers the tree of the parenthesised line with its redirections |
| `Shell.Parser.Parsepipe` | xv6-public/sh.c:362-372 | Delivers the tree of the pipeline the grammar derives |
| `Shell.Parser.Parseline` | xv6-public/sh.c:345-359 | Delivers the tree of the line the grammar derives, and terminates |
| `Shell.EndsBetween` | xv6-public/sh.c:450-493 | No terminating NUL falls inside any word |
| `Shell.Nulterminate` | xv6-public/sh.c:450-493 | Writes NUL at exactly the ends of the tree's words |
| `Shell.Parsecmd` | xv6-public/sh.c:328-342 | For any line: a tree whose C strings, read from the terminated buffer, are those of the line's derivation, or the panic when there is none |
| `Grep.MatchesFirst` | xv6-public/grep.c:85-106 | A text matches a list of items exactly if a prefix fits the first and the rest matches the rest |
| `Grep.LiteralFound` | xv6-public/grep.c:73-96 | A pattern without special characters matches exactly the texts that contain it, under ^ those that begin with it, and between anchors itself |
| `Grep.StarRepeats` | xv6-public/grep.c:85-106 | Between anchors c* matches exactly the repetitions of c, and .* everything |
| `Grep.Match` | xv6-public/grep.c:73-82 | True if and only if some suffix, or the whole text under ^, splits into pieces accepted by the pattern's items |
| `Grep.MatchHere` | xv6-public/grep.c:85-96 | The same at the start of the text, with the star test before the final $ and a leading * literal |
| `Grep.MatchStar` | xv6-public/grep.c:99-106 | True if and only if some run of fitting characters is followed by a match of the rest |

## Left out

- Reference counts and locking of the in-memory inode cache (`iget`, `ilock`, `idup`): whether a
  reference is the last one is a parameter of `Links.FileSystem.Iput`.
- Path walking (`namex`, `skipelem`): link, unlink and create take the looked-up inodes, and names
  are already cut to 14 characters.
- Directory blocks as bytes: a directory is its sequence of entries; reading and writing those bytes
  is what `Volume` proves of any file.
- Lazy filling and growth in the page fault handler: the code maps a second page for an unaligned
  address and does not decide which mapping owns it.
- Write-back in `munmap`: whether it succeeds is a parameter, and the pages themselves are not
  modelled.
- MAP_FIXED and MAP_GROWSUP mappings: they may overlap others by design, and the placement law is
  about the rest.
- Device drivers, boot, traps, system call argument fetching, `exec`, the console and the small user
  programs: plumbing with little to prove beyond the parts modelled here.
- Memory ordering inside spinlocks and the context switch itself: acquire, release and switching are
  atomic steps.
- Overflow of `nextpid` and of the 16-bit `nlink`: both are unbounded here, so distinct pids and
  exact counts are for fewer than 2^31 forks and 2^15 links.
- Overflow of `addr + length` in fork's loop: mappings lie below KERNBASE, where it does not occur.
- Umalloc.Allocator.Morecore: where the chunk is shorter than its header would say, the model stops
  and says so; what the source does to memory it was not given is not modelled.
- FileCrash.GroupIsAtomic: operations whose writes interleave block by block are covered only by
  `FileCrash.VolumeAfterCrash`, from what the cache holds when none is under way; and the run ends
  its writes at the first crash, after which the next boot is a run of its own from the recovered
  blocks, with an empty log (`CrashSafety.RecoveryCompletes`).
- FileCrash.WriteIsAtomic: one writer in the run; several are the subject of
  `FileCrash.GroupIsAtomic`.
- Type, device numbers and link count of an inode do not occur in `FsFormat`: file writes leave them
  alone.
- Bcache.Cache.Commit: the list is at most LOGSIZE blocks long, which is what `log_write` allows and
  what fits the header; the test itself is in `Logger.Log.LogWrite`.
- Vm.Machine.Mappages: requires a positive size that does not pass the end of the address space;
  with a size of 0 the source's loop runs on through all of memory.
- Vm.Machine.Deallocuvm: requires the old size to be at most KERNBASE, as every caller passes; above
  the last page table the source's skip wraps around.
- Frames shared by copy-on-write are outside `VmSpec`, where a frame has one owner, and are the
  subject of `Cow`, where page contents are single values.
- Mmap.Mappings.Mmap: a 33rd mapping is stored past the end of the table; the model says when that
  happens and not what is overwritten.
- Shell.Parser.Parseexec: builds the tree of a command after its last word, where the source adds
  words to a command already wrapped in redirections; the trees are the same.
