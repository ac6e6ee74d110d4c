# Verified models of testfs, the thread library and the web server

Three models of the repository's C programs, each with proofs about it.

1. **testfs** (`fs/`), bottom up: bit arrays (`Bitmap.dfy`), the super block with its write-through freemaps
   (`Super.dfy`), the three-level block map of an inode with allocation, roll-back, reading, writing and freeing
   (`BlockMap.dfy`, `Volume.dfy`, `Allocation.dfy`, `FlatFile.dfy`, `Freeing.dfy`, `FileState.dfy`, `Inode.dfy`), all
   inodes of a device together (`FileSystem.dfy`), the inode table and the inode cache (`InodeTable.dfy`,
   `InodeCache.dfy`), directories as logs of entries (`DirLog.dfy`, `Directory.dfy`), the tree of names (`NameTree.dfy`,
   `NamePath.dfy`), and the commands on top of it all (`Command.dfy`).
2. **The thread library** (`threads/thread.c`): the ready queue threaded through the thread table, wait queues, exit
   clean-up, and create, yield, exit, kill, sleep and wakeup as methods over arrays (`Sequence.dfy`, `ReadyList.dfy`,
   `WaitList.dfy`, `Scheduler.dfy`);
   the same calls as steps between states (`ThreadStep.dfy`), runs of them (`ThreadRun.dfy`), and locks and condition
   variables (`Lock.dfy`). Interrupts are off inside a call, so a call is one step up to its context switch;
   preemption is a further yield to any thread.
3. **The web server** (`webserver/server_thread.c`): the ring buffer and the protocol around it (`RequestBuffer.dfy`,
   `RequestRun.dfy`), and the file cache of hash chains, LRU list and byte count (`CacheList.dfy`, `Cache.dfy`).

Code that updates things in place is modelled by methods over objects and arrays with the source's loops, proved
against specifications on values (`Vol`, `Fs`, `Tree`, `Sys`, ...). What the methods' contracts call by name is defined
on those values, and the lemmas prove what the program promises about it. The last layer, `Commands.Testfs`, puts the
file system together: its methods work on blocks of bytes, and its contracts speak of a tree of names.

## Where the code is not what its comments promise

The model does what the code does. Where that is not what the comments, the headers or an assertion promise, a lemma
gives the exact condition under which it is, and an input for which it is not.

- An allocation of a doubly indirect block that runs out of room is undone, except in two branches: with one block left
  the new double indirect block stays (`fs/read_write.c:260-261`), with two left the single indirect block is freed in its
  stead (`fs/read_write.c:294`). `Allocations.AllOrNothingIff`, `Allocations.GoodIff`, `Allocations.LeakHappens`,
  `FileStates.WriteKeepsIff`.
- testfs_free_blocks compares a count of freed blocks with a count of logical blocks, so the assertion
  `block_count == 0` of testfs_remove_inode fails for long dense files: `FileStates.RemovableIff`,
  `FileStates.DenseIsNotRemovable`.
- Errors that the headers promise to be negative are positive in `fs/read_write.c:22,132,201,359`; the contracts give the
  number as it is. The last copy of a read over a block boundary copies too much (line 168): `Inodes.Inode.ReadData`
  says exactly when.
- A directory entry that could not be written can leave a directory that is no longer made of entries, exactly unless
  not even the first of its several blocks could be had: `Directories.FailedAddIff`,
  `Directories.FullDeviceLosesEntries`. testfs_add_dirent does not by itself keep names unique: `DirLogs.AddKeepsUniqueIff`.
- testfs_allocate_block lets block MAX_FILE_SIZE through to an index outside the index block (`fs/read_write.c:201`), and
  a long enough write asks for it: `Inodes.Inode.WriteData` says exactly which.
- Only element 0 of the exit array starts as -1 (`threads/thread.c:40`), so that the first exit can cut the ready queue
  behind thread 0: `Schedulers.Scheduler.Exit`, `ThreadRuns.RunsKeepPartition`, `ThreadRuns.ThreadsAreLost`. The wait queue
  inside a lock or a condition variable is not initialised (lines 840-843, 916-917):
  `Schedulers.WaitQueue.Embedded`, `Locks.StartIsOkIff`.
- Waking the last waiter singly moves the head on to whatever its link holds, and leaves the tail (lines 749-770). The
  next sleeper is found again exactly if it happens to be that head, and the next wake-up does no harm exactly if the
  queue happens to lead along the last ready threads: `ThreadRuns.StaleIff`, `ThreadRuns.RunsKeepPartition`,
  `ThreadRuns.SecondSleeperIff`, `WaitLists.AloneAgainIff`, `WaitLists.TailAgainIff`. This is how condition variables
  with one waiter are used.
- The cache's eviction reports failure although it made room, does not unlink the first of several components of a chain,
  and loses the end of the list when the last entry goes from behind a pinned one (`webserver/server_thread.c:252-315`):
  `CacheLists.SucceedsIff`, `Caches.DeletedIff`, `Caches.Cache.EvictSeveral`.

## Model

| member | source | states |
|---|---|---|
| Bitmaps.Bitmap.constructor | fs/bitmap.c:20-54 | a new array has no index in use, and the bits left over in its last word are preset |
| Bitmaps.BitPlace | fs/bitmap.c:93-100 | index i is bit i % 8, from the least significant one, of word i / 8 |
| Bitmaps.AllBitsWord | fs/bitmap.c:77-78 | the word the scan skips is exactly the word without a clear bit |
| Bitmaps.FirstFree | fs/bitmap.c:76-88 | the clear bit at which the word-skipping scan stops is the least free index below nbits, never a padding bit |
| Bitmaps.TakeBit | fs/bitmap.c:82-84 | setting the bit of a free index adds just that index and keeps the padding |
| Bitmaps.ScanFailed | fs/bitmap.c:90 | a scan that finds no clear bit means that every index is in use |
| Bitmaps.FullIffCount | fs/bitmap.c:146-157 | every index is in use exactly when as many bits are set as there are indices |
| Bitmaps.Bitmap.Alloc | fs/bitmap.c:69-91 | takes the least free index and changes no other; fails, changing nothing, exactly when all are in use |
| Bitmaps.Bitmap.Mark | fs/bitmap.c:102-113 | takes one index that is not in use, and no other |
| Bitmaps.Bitmap.Unmark | fs/bitmap.c:115-127 | releases one index, which undoes taking it |
| Bitmaps.Bitmap.NrAllocated | fs/bitmap.c:146-157 | the count is the cardinality of the set of indices in use |
| Codec.GetPutInts | fs/inode.h:12-19 | a record of 32-bit little-endian fields is read back as it was stored |
| Codec.PtrOfSetPtr | fs/read_write.c:263-264 | an address stored into a pointer block is read back, and no other address of the block changes |
| Codec.SetPtrUndone | fs/read_write.c:288-290 | clearing an address that was stored over a null one restores the block byte for byte |
| Supers.SuperRoundTrip | fs/super.c:14-22 | the super block is read back from the bytes it was written to |
| Supers.WriteOneChunk | fs/super.c:24-48 | writing only the one freemap block that holds the changed word keeps device and memory equal |
| Supers.SuperBlock.Mount | fs/super.c:136-173 | counters and freemaps are those on the device, read from wherever its super block says |
| Supers.SuperBlock.Remount | fs/super.c:136-196 | closing and initialising again gives the same super block, freemaps and allocated blocks, and leaves the device as it was |
| Supers.SuperBlock.GetInodeFreemap | fs/super.c:198-212 | takes the least free inode number, written through; fails exactly when all are taken; data blocks, inode table and block map stay |
| Supers.SuperBlock.PutInodeFreemap | fs/super.c:214-223 | releases one inode number, written through; nothing else changes |
| Supers.SuperBlock.AllocBlock | fs/super.c:225-241 | takes the least free block, counts it and writes freemap and count through; fails, changing nothing, exactly when the limit or the freemap is exhausted; the inode table and the inode numbers stay |
| Supers.SuperBlock.FreeBlock | fs/super.c:243-255 | releases one block and zeroes it; no other data block, no inode and no inode number changes |
| BlockMap.PathsAreLogicalBlocks | fs/read_write.c:28-100 | the div and mod arithmetic of the three levels maps logical blocks one to one to positions of the tree |
| BlockMap.Grow | fs/read_write.c:205-343 | hanging a free block into an empty position keeps every block owned once and adds just that block |
| BlockMap.Untouched | fs/read_write.c:16-117 | an inode none of whose blocks changed keeps its tree and everything it contains |
| BlockMap.FillThird | fs/read_write.c:255-265 | recording a third-level block in the double indirect block changes that one position of the tree and no other |
| BlockMap.FillLeaf | fs/read_write.c:275-282 | recording a data block in a third-level block changes that one position of the tree and no other |
| Volumes.TakeThird | fs/read_write.c:255-265 | allocating and recording a third-level block fills that one empty position and changes no contents |
| Volumes.TakeLeaf | fs/read_write.c:275-282 | so does allocating and recording a data block, whose contents are zeros as the hole was |
| Inodes.Inode.ReadBlock | fs/read_write.c:16-117 | gives the physical block and contents of a logical block, zeros for a hole |
| Inodes.Inode.AllocateBlock | fs/read_write.c:189-344 | for every amount of room: an existing block is found; a missing one is allocated with the index blocks above it, contents unchanged; or the stated failure state |
| Allocations.AllOrNothingIff | fs/read_write.c:225-343 | all-or-nothing holds exactly unless one or two blocks are left where the double indirect block is missing |
| Allocations.GoodIff | fs/read_write.c:283-297 | the inode still owns its tree afterwards exactly unless two blocks are left there |
| Allocations.LeakHappens | fs/read_write.c:283-297 | on any device that is full but for two blocks the first doubly indirect block breaks an empty inode |
| Inodes.Inode.ReadData | fs/read_write.c:119-182 | delivers the bytes of the flat file from start, as many as there are; the last copy is too long exactly when the read crosses a block boundary |
| Inodes.Inode.WriteData | fs/read_write.c:347-429 | for every start, length and amount of room: block MAX_FILE_SIZE is asked for exactly if the write runs more than one block past the largest file and there is room for all blocks before; in all other cases success exactly if all missing blocks fit, then the bytes are those written, all others as before, the size the larger end; otherwise which blocks were written and what became of the size |
| FlatFiles.MissingNext | fs/read_write.c:384-398 | block by block, a write needs just the blocks that earlier ones did not provide |
| FlatFiles.WrittenMore | fs/read_write.c:376-420 | pieces copied into successive blocks add up to one run of bytes in the file, across blocks and levels |
| FlatFiles.ReadsWhatWasWritten | fs/read_write.c:119-429 | a run of bytes that was written is what is read from there |
| Inodes.Inode.WriteAndRead | fs/read_write.c:119-429 | a write that succeeds, followed by a read of the same range, delivers the bytes written |
| FlatFiles.HolesReadAsZero | fs/read_write.c:110-115 | in a file that had no blocks everything around what was written reads as zero |
| FileStates.WriteKeepsIff | fs/read_write.c:347-429 | a write, failed or not, leaves the file in order (nothing mapped beyond its end, no empty third-level block, sound ownership) exactly when it is not one of the writes named by Harmful, which the state before the write decides |
| FileStates.RemovableIff | fs/read_write.c:469-499 | of a file in order everything is freed exactly if the blocks below the double indirect block are at most one more than the logical blocks counted there |
| FileStates.ShortIsRemovable | fs/inode.c:219-231 | every file of at most 2048 doubly indirect blocks can be removed |
| FileStates.DenseIsNotRemovable | fs/inode.c:219-231 | no longer file without holes can |
| Freeing.GuardIff | fs/read_write.c:442-499 | the walk frees every position in use exactly under FreeGuard |
| Freeing.AllFreedIff | fs/inode.c:248-257 | block_count is 0 in the end exactly when every position in use was freed |
| Inodes.Inode.FreeBlocks | fs/read_write.c:433-503 | block_count ends at 0 exactly under FreeGuard; then exactly the inode's tree is free and zero; other blocks keep their bytes |
| FileSystems.OtherFilesUntouched | fs/read_write.c:347-503 | what one inode does leaves the tree and the contents of every other as they were |
| FileSystems.StepKeepsOrder | fs/super.c:225-255 | it also keeps all trees disjoint and their union the set of allocated blocks |
| FileSystems.BlocksAreConserved | fs/inode.c:235-257 | used_block_count is the sum of the block counts of all inodes |
| FileSystems.WriteIsLocal | fs/read_write.c:347-429 | every write that is not harmful is such a step, successful or not |
| FileSystems.FreeIsLocal | fs/read_write.c:433-503 | so is freeing |
| FileSystems.RunsStayInOrder | fs/read_write.c:347-503 | ownership and conservation hold after every sequence of such steps |
| FileSystems.FileSystem.Write | fs/read_write.c:347-429 | a write to one of many inodes, of any length: its outcome; all files are in order afterwards exactly if the write is not harmful, and then all other contents are the same |
| FileSystems.FileSystem.Truncate | fs/read_write.c:433-503 | freeing one of many inodes under FreeGuard leaves the others their blocks and contents |
| InodeTables.RoundTrip | fs/inode.h:12-19 | an inode copied into its slot is copied out again as it was |
| InodeTables.SlotPlace | fs/inode.c:78-96 | slot nr lies at byte 64 * nr of the table, within one block, and within the table exactly if there is such an inode |
| InodeTables.SlotWritten | fs/inode.c:155-158 | writing one slot of an inode block changes no other slot |
| InodeCaches.WithoutMembers | fs/list.h:308-317 | unlinking takes one member out of its chain and leaves the others |
| InodeCaches.InodeCache.Find | fs/inode.c:48-61 | the bucket of a number is where its inode is found, if it is cached |
| InodeCaches.InodeCache.Get | fs/inode.c:115-144 | one inode in memory for every number, counted once more, holding what the number stands for; nothing else changes |
| InodeCaches.InodeCache.Sync | fs/inode.c:146-160 | the slot becomes what is in memory; no other slot and no other block of the device changes |
| InodeCaches.InodeCache.Put | fs/inode.c:162-171 | one use less; the inode leaves memory exactly with its last use; what every number stands for stays |
| InodeCaches.InodeCache.Create | fs/inode.c:197-216 | the least free number, its inode empty but for the type and in memory with one use more; no other inode and no other count changes, and no block of the inode table; fails with nothing changed exactly if every number of the table is taken |
| InodeCaches.InodeCache.CreateAndPut | fs/dir.c:213-233 | an inode that is created under a number not in memory, written and put back leaves memory as it was before; its slot holds it |
| InodeCaches.InodeCache.Remove | fs/inode.c:218-231 | inode and slot are zero, the number is free and used once less, so that free numbers always stand for zeroed inodes; no other slot changes |
| InodeCaches.InodeCache.EmptyIff | fs/inode.c:37-46 | the assertion on shutdown holds exactly if every inode has been put back |
| DirLogs.HeaderFields | fs/dir.h:4-12 | length and inode number of an entry are read back from its header |
| DirLogs.EncodeInjective | fs/dir.c:13-42 | the bytes of a directory determine its entries |
| DirLogs.Overwritten | fs/dir.c:106-113 | an entry overwritten by one of equal length leaves all other entries where they were |
| DirLogs.AddBinds | fs/dir.c:84-114 | adding a name that is not there binds it, and changes no other binding, whether an entry is reused or appended |
| DirLogs.AddKeepsUniqueIff | fs/dir.c:98-109 | names stay unique exactly if the name was not there, which the scan alone does not see to |
| DirLogs.DuplicateHappens | fs/dir.c:98-109 | a removed entry of the same length before the name makes a second entry of that name |
| DirLogs.RemoveUnbinds | fs/dir.c:166-173 | removing an entry unbinds its name and nothing else |
| DirLogs.ReuseKeepsLength | fs/dir.c:106-113 | after a removal a name of the same length does not lengthen the log |
| Directories.NextDirent | fs/dir.c:13-42 | walks the bytes entry by entry and ends exactly at the size |
| Directories.NameToInodeNr | fs/dir.c:323-340 | looks a name up in the map that the entries denote |
| Directories.FindDirent | fs/dir.c:44-61 | finds the first entry with an inode number |
| Directories.AddDirent | fs/dir.c:63-114 | refuses, or writes the new entry over the first removed one of its length or at the end; reusing an entry never fails |
| Directories.FailedAddIff | fs/dir.c:77-81 | after an append, for every amount of room: the bytes are those of entries exactly if all blocks fit, or not even the first of several can be had without meeting line 294; then they are the entries with, or without, the new one |
| Directories.FullDeviceLosesEntries | fs/dir.c:77-81 | on a full device an entry that starts a block of its own makes the size the largest there is and leaves bytes that are no entries |
| Directories.RemoveDirentAllowed | fs/dir.c:116-138 | only an empty directory, or a file, may go |
| Directories.RemoveDirent | fs/dir.c:142-176 | the result for every name; the overwriting of the entry never fails, whatever room there is |
| NameTrees.EnterKeepsTree | fs/dir.c:199-238 | a new file or directory leaves a tree rooted at inode 0 |
| NameTrees.RemoveKeepsTree | fs/dir.c:406-424 | so does the removal of a file or an empty directory, and the current directory is never the one removed |
| NameTrees.CommandKeepsTree | fs/dir.c:342-424 | every successful mkdir, create, rm and cd keeps the names a tree |
| NameTrees.CommandOutcome | fs/dir.c:342-424 | mkdir and create bind a new name to an inode that was free, rm unbinds a name and frees its inode, cd leads to the directory named; every other binding and inode stays |
| NameTrees.RunsKeepTree | fs/dir.c:317-321 | hence after any sequence of commands from the new file system |
| NameTrees.RmUndoesCreate | fs/dir.c:387-424 | rm after create or mkdir restores every binding and every other inode |
| NamePaths.FoundIsChild | fs/dir.c:257-259 | the entry pwd looks for in the parent is there and is not "." or "..": its assertion always holds |
| NamePaths.PwdLeadsBack | fs/dir.c:240-265 | looking up, from the root, the names that pwd prints leads to the directory; pwd terminates after as many steps as the directory is deep |
| NamePaths.PathIsPwd | fs/dir.c:240-265 | no other path without "." and ".." leads there |
| NamePaths.CdMovesThePath | fs/dir.c:342-362 | after cd, pwd prints the path before with the new name at its end; without its last name for ".."; the same for "." |
| NamePaths.LsrPrintsEverythingOnce | fs/dir.c:267-290 | lsr from the root terminates and prints every file and directory exactly once under its own name |
| NamePaths.LsrPrintsAllLines | fs/dir.c:267-290 | with "." and ".." it prints just the entries that are not removed ones of all directories there are |
| NamePaths.LsPrintsEntries | fs/dir.c:267-290 | ls prints the entries of one directory that are not removed ones, in their order |
| Commands.ShortEntryIsHarmless | fs/read_write.c:225-299 | entries within the direct and indirect blocks of a directory never meet the branches that do harm |
| Commands.EntryKeepsOrderIff | fs/dir.c:84-114 | writing an entry, or failing to, leaves all files and directories in order exactly if it is not one of the harmful writes |
| Commands.Testfs.constructor | fs/mktestfs.c:22-97 | a new file system is one directory, the root, over blocks that are in order |
| Commands.Testfs.MakeEmptyDir | fs/dir.c:178-197 | a new directory gets "." and ".." exactly if there is room for one block |
| Commands.Testfs.RemoveInode | fs/inode.c:218-231 | the inode is emptied and zeroed, its number free, exactly its tree is free, all other inodes and contents are the same, and all files and directories in order |
| Commands.AllocWithout | fs/inode.c:218-231 | when one inode has given up its blocks and all others are the same, exactly the blocks of its tree are free that were not |
| Commands.UsedIs | fs/dir.c:199-238 | what CreateFileOrDir promises of the other files: they keep their inode and what they contain |
| Commands.Testfs.CreateFileOrDir | fs/dir.c:199-238 | over blocks and bytes: it succeeds exactly if the name is new, an inode number is left, and the room covers the block of a new directory and the missing blocks of the entry; the names are then those of mkdir or create on the tree; refused exactly if the name is taken, with nothing changed; otherwise the names are as before exactly unless the first block of the entry could be had and another not; a created file is empty; every other file and directory, but for the current one, keeps its inode and contents, and the current one too when the name is taken or the new node does not fit |
| Commands.Testfs.RemoveEntry | fs/dir.c:142-176 | the entry of the current directory goes, whose inode and blocks stay; every other inode and its contents are as they were |
| Commands.Testfs.Rm | fs/dir.c:406-424 | the result for every name; on success the names are those of rm on the tree, the inode removed is zeroed and exactly its blocks are free, and every other file and directory but the current one keeps its inode and contents, the current one its inode; on failure nothing changes |
| Commands.Testfs.Cd | fs/dir.c:342-362 | the result for every name; on success the current directory is the one named |
| Commands.Testfs.Pwd | fs/dir.c:240-265 | the recursion over bytes prints the path of the tree |
| Commands.Testfs.Ls | fs/dir.c:267-290 | the scan over bytes, recursive or not, prints the listing of the tree |
| Commands.Testfs.WriteFile | fs/file.c:114-118 | a write to a file by number has its outcome; files and directories are in order afterwards exactly if it is not harmful, and then no name and no other file has changed |
| Commands.Testfs.FileOf | fs/file.c:13-30 | the file of a name, or -ENOENT, or -EISDIR |
| Commands.Testfs.Write | fs/file.c:84-120 | the result for every name; a write to a file as above, after which no inode is left dirty; no other inode changes, whatever the outcome |
| Commands.Testfs.Read | fs/file.c:33-82 | the result for every name; bytes within the size of a file as they are |
| ReadyLists.Unlinked | threads/thread.c:320-425 | cutting a thread out at the head, in the middle or at the tail leaves the list without it |
| ReadyLists.RotatedList | threads/thread.c:246-446 | both ways of moving the caller to the end give the list without the chosen thread and with the caller last |
| ReadyLists.ClearedIff | threads/thread.c:45-61 | cutting the links of exited threads keeps the ready list exactly if none of them has a successor in it |
| ReadyLists.WaitTookFirstIff | threads/thread.c:749-770 | taking the first waiter leaves a queue of the others exactly if there are others |
| WaitLists.EnqueuedIff | threads/thread.c:680-686 | a queue that nobody waits in leads to the next sleeper exactly if it is empty or its head is the sleeper |
| WaitLists.AloneAgainIff | threads/thread.c:680-751 | a thread that waits alone, is woken singly and waits again is led to exactly if its link is itself; the queue is then as before |
| WaitLists.ChainUnique | threads/thread.c:749-811 | the threads that a wake-up takes are determined by head, tail and links |
| WaitLists.PutAtEnd | threads/thread.c:752-812 | the links that a wake-up writes make a thread the end of the ready queue, and drop those behind it if it was ready |
| WaitLists.RewokenForm | threads/thread.c:776-796 | of the ready threads those in front of the frontmost one woken again stay, then come those woken after it |
| WaitLists.TailAgainIff | threads/thread.c:776-796 | nobody is dropped or added exactly if those woken are the last ready threads, the frontmost of them first |
| Schedulers.WaitQueue.Embedded | threads/thread.c:832-848 | the queue inside a lock is an empty queue exactly if its memory happened to hold -1 twice |
| Schedulers.Scheduler.CleanExitArray | threads/thread.c:45-61 | forgets exactly the threads noted up to the first free slot |
| Schedulers.Scheduler.Create | threads/thread.c:164-244 | the least free id above 0 becomes a thread at the end of the ready queue, or the error that applies and no change |
| Schedulers.Scheduler.Yield | threads/thread.c:246-494 | refines one operation on the ready sequence, for any or a given thread at any position; every failing return leaves it unchanged |
| Schedulers.Scheduler.Exit | threads/thread.c:496-518 | the first ready thread runs, the caller is gone; everything is in order exactly if the exit array was settled or thread 0 is not ready with a successor; otherwise the head leads to the threads up to thread 0 only |
| Schedulers.Scheduler.Kill | threads/thread.c:520-610 | a ready thread other than thread 0 is gone, otherwise nothing changes |
| Schedulers.Scheduler.Sleep | threads/thread.c:659-722 | whatever the queue holds: the caller goes to its end and the first ready thread runs, or the error that applies and no change; the queue leads to its waiters afterwards exactly if it did, or its head happens to be the caller |
| Schedulers.Scheduler.Wakeup | threads/thread.c:724-823 | whatever the queue holds: the threads it leads along, one or all, become the end of the ready queue in their order; of a queue in order these are the waiters, and it stays in order exactly unless its last waiter was woken singly; otherwise the ready queue is in order exactly if nobody was dropped and all in it exist and do not run |
| ThreadRuns.StartIsPartition | threads/thread.c:130-147 | the library starts with every thread in one place |
| ThreadRuns.StepKeepsPartition | threads/thread.c:164-823 | every call keeps every thread in exactly one of running, ready, one wait queue that leads to it, or unused, exactly unless it does harm: the state before tells |
| ThreadRuns.RunsKeepPartition | threads/thread.c:164-823 | after any run each thread is in exactly one place, exactly if the first exit with another thread to run did not find thread 0 ready with a successor, no wait queue was used that nobody waited in and that led elsewhere, and no thread was killed by an id outside the table |
| ThreadRuns.EveryCallIsAStep | threads/thread.c:164-823 | from every state in order every call has a step, so that no run is left out |
| ThreadRuns.CreateOutcome | threads/thread.c:164-244 | a new thread has the least id that is not in use and is the last one ready; otherwise nothing changes |
| ThreadRuns.YieldOutcome | threads/thread.c:246-494 | the thread asked for runs, the first one ready for any, and the caller is the last one ready; nobody else comes or goes |
| ThreadRuns.ExitOutcome | threads/thread.c:496-518 | if another thread is ready, who exits runs, waits and is ready nowhere any more, and the first ready thread runs; otherwise it goes on |
| ThreadRuns.KillOutcome | threads/thread.c:520-610 | who is killed runs, waits and is ready nowhere any more; the others stay where they are; thread 0, the caller and who is not ready cannot be killed |
| ThreadRuns.SleepOutcome | threads/thread.c:659-722 | who sleeps is the last one waiting in the queue, no other queue changes, and the first ready thread runs |
| ThreadRuns.WakeupOutcome | threads/thread.c:724-823 | of a queue in order the first waiter, or all, come to the end of the ready queue, in their order, and are counted |
| ThreadRuns.GoneForGood | threads/thread.c:164-823 | in every run, a thread that is gone neither runs nor is ready until its id is handed out anew |
| ThreadRuns.StaleIff | threads/thread.c:659-823 | a queue that was in order leads elsewhere exactly since its only waiter was woken singly, until somebody sleeps in it or all are woken |
| ThreadRuns.ThreadsAreLost | threads/thread.c:40-61 | create, create, yield, create, exit: thread 3 exists, and neither runs nor is ready nor waits |
| ThreadRuns.SecondSleeperIff | threads/thread.c:659-751 | create, sleep, wake one, sleep: thread 1 sleeps in a queue that leads elsewhere exactly unless malloc left 1 in link 0 |
| ThreadRuns.NobodyIsPassedOver | threads/thread.c:225-811 | no call moves a ready thread back, and taking the first one moves the others up by one, unless the thread is woken although ready; it is lost exactly if the first exit finds thread 0 before it, or a thread before it is woken although ready |
| ThreadRuns.BoundedWaiting | threads/thread.c:225-811 | while a thread with i threads before it has neither run nor been killed or woken again, the first ready thread is taken at most i times, however calls that come back interleave; it is still ready exactly unless the last call lost it |
| Locks.StartIsOkIff | threads/thread.c:832-848 | locks start in order exactly if the memory of their wait queues happened to hold -1 twice |
| Locks.AcquireOutcome | threads/thread.c:866-880 | a try comes out of lock_acquire exactly if the lock is free; the caller is then its owner and alone inside; otherwise the caller is the last one waiting for it, and holds nothing |
| Locks.ReleaseOutcome | threads/thread.c:882-902 | nobody is inside, the lock is free, and all who waited for it are ready, in their order, to try again |
| Locks.EveryCallMayBeMade | threads/thread.c:866-986 | from every state in order there is a step for each call that the running thread may make, and for no other |
| Locks.InsideIff | threads/thread.c:866-956 | over all interleavings a thread is inside exactly if it came out of lock_acquire and has not released, waited or been killed since |
| Locks.OneHolder | threads/thread.c:866-956 | hence two threads are never both out of lock_acquire and not yet out of the section, and the lock is not free meanwhile |
| Locks.StepKeepsInv | threads/thread.c:866-986 | every step keeps the owner of a lock the one thread inside it, and nobody waiting for a free lock; it does harm to the threads exactly if the state before tells so, which acquiring and releasing never do |
| Locks.LocksAreSafe | threads/thread.c:866-902 | over all interleavings from locks in order, if only holders release: mutual exclusion and no stranded waiter; each thread is in one place exactly up to the first step that does harm |
| Locks.WaitHasNoGap | threads/thread.c:939-956 | cv_wait releases, enqueues and will acquire the lock again, in one step, if another thread can run |
| Locks.SignalOutcome | threads/thread.c:958-986 | a signal moves the first waiter to the end of the ready queue, a broadcast all of them, but only while the lock is taken; no lock changes |
| Locks.WaitsUntilWoken | threads/thread.c:939-986 | before any broadcast the waiters are those of the beginning less one for every signal with the lock held, in their order, with later ones behind |
| Locks.WokenInTurn | threads/thread.c:958-986 | over all interleavings, however often condition variables are used: the waiter at position i is made ready by the (i+1)st signal or the first broadcast, whichever comes first, and by no earlier step |
| Locks.WokenInOrder | threads/thread.c:958-986 | waiters become ready in the order in which they slept, also within one broadcast |
| Locks.LongerWaitersFirst | threads/thread.c:958-986 | when a waiter is woken, everybody who had waited longer has been |
| RequestBuffers.SlotsCount | webserver/server_thread.c:514-520 | the mod arithmetic counts the slots in use; empty is in == out |
| RequestBuffers.Server.PutRequest | webserver/server_thread.c:505-522 | a put appends, signals exactly on the empty buffer, and waits exactly on the full one |
| RequestBuffers.Server.GetRequest | webserver/server_thread.c:525-541 | a get takes the oldest, signals exactly on the full buffer, and waits exactly on the empty one |
| RequestRuns.BufferIsSafe | webserver/server_thread.c:505-541 | every run with at least one worker: exactly once, in order, never over the limit, never all workers blocked beside a non-empty buffer, and, if the limit is at least one, never everybody blocked |
| RequestRuns.NothingIsLost | webserver/server_thread.c:505-541 | in every run the descriptors submitted are, in order, those handed out, then those in the buffer, then the one the main thread waits with |
| RequestRuns.SubmitOutcome | webserver/server_thread.c:505-522 | on a full buffer the main thread waits with its descriptor; otherwise the descriptor is the last one in the buffer, and a waiting worker is woken if the buffer was empty |
| RequestRuns.FetchOutcome | webserver/server_thread.c:525-541 | on an empty buffer the worker waits; otherwise it gets the oldest descriptor, and a waiting main thread is woken if the buffer was full |
| RequestRuns.StepExistsIff | webserver/server_thread.c:505-541 | whoever does not wait can go on, and nobody else |
| RequestRuns.DeliveredInTurn | webserver/server_thread.c:526-541 | the descriptor at position p is handed out when workers have looked at the buffer p + 1 times, and until then one of them can run |
| RequestRuns.BlockedUntilFetch | webserver/server_thread.c:532-537 | a blocked main thread is woken by the next worker that takes something |
| RequestRuns.DeliversIff | webserver/server_thread.c:543-569 | anything can be delivered exactly if the buffer was configured for at least one request |
| CacheLists.MovedToTail | webserver/server_thread.c:168-197 | relinking an entry behind the tail moves it and no other |
| CacheLists.SucceedsIff | webserver/server_thread.c:207-318 | success is reported exactly if unpinned entries from the front, but not all entries, give room enough |
| CacheLists.WhichLeave | webserver/server_thread.c:230-316 | unpinned entries leave from the front, none that is not needed; if a pinned one stops that too early, the first unpinned one behind it leaves too, and failure is reported |
| CacheLists.OnlyUnpinnedLeave | webserver/server_thread.c:232-311 | no pinned entry leaves |
| CacheLists.EnoughIsNotReported | webserver/server_thread.c:312-315 | evicting everything gives room enough and is reported as failure |
| CacheLists.BehindPinnedIsNotReported | webserver/server_thread.c:256-271 | so is evicting one entry from behind a pinned one |
| Caches.DeletedIff | webserver/server_thread.c:280-304 | a deletion takes the file out of its chain exactly if it is not the first of several |
| Caches.StaleHappens | webserver/server_thread.c:287-304 | the first of two files of a chain stays in it, the second does not |
| Caches.Cache.SetLru | webserver/server_thread.c:168-197 | the entry of a name becomes the most recently used, the others keep their order |
| Caches.Cache.FindLru | webserver/server_thread.c:320-339 | finds the entry of a name |
| Caches.Cache.Lookup | webserver/server_thread.c:407-439 | finds a file through its chain exactly if it is in the list, and keeps chains, list and byte count in agreement |
| Caches.Cache.EvictSeveral | webserver/server_thread.c:230-316 | which entries go and what is reported; chains, list and count agree afterwards exactly if each file that left was unlinked and the end of the list was not lost |
| Caches.Cache.Evict | webserver/server_thread.c:207-318 | the same with the empty list, where nothing is done, and the list of one entry, which goes exactly if it is not pinned, whatever is required |
| Caches.Cache.Insert | webserver/server_thread.c:341-398 | exactly when a file is inserted, told from the one entry alone in a list of one; it is then the most recently used, within the budget, and the cache agrees with itself if it did after making room |

## Left out

Of testfs:

- Device and stdio calls and their exits: the device is a total sequence of zeroed blocks. malloc failure, printing, the
  shell loop, argument parsing and number conversion, `cmd_stat` and mktestfs' options.
- Inodes.Inode.ReadData: what the overlong copy moves past the caller's buffer is not modelled, only that it happens;
  start is asked to be at most the size, as cmd_read and the directory scans see to.
- Inodes.Inode.AllocateBlock: the logical block MAX_FILE_SIZE itself, which the test with `>` lets through to an index
  outside the pointer block, is excluded. Of the callers only the loop of a write (lines 384-398) comes to it, and
  Inodes.Inode.WriteData says exactly when.
- Inodes.Inode.ReadBlock: likewise; a read within the size of the file does not come to it.
- Inodes.Inode.WriteData: a write that comes to ask for block MAX_FILE_SIZE is followed up to there, with all blocks
  before it written, and not into what lies outside the index block. Sizes of 2^31 bytes and more in one call, which the
  `int` counters would wrap, are excluded.
- Commands.Testfs.CreateFileOrDir: asks that writing the entry is not one of the harmful writes, which is so of every
  directory within its direct and indirect blocks (Commands.ShortEntryIsHarmless); after any other nothing is in order
  (Commands.EntryKeepsOrderIff), and what removing the new inode then does is not modelled. A directory whose bytes are no entries
  any more (Directories.FailedAddIff) takes no further command, and neither do inodes that were left dirty.
- Commands.Testfs.Rm: asks for FreeGuard of what is removed, because the program aborts at an assertion otherwise.
- Commands.Testfs.Sync: the class keeps all inodes in memory and their dirty flags; the copy on the device and the
  reference counts are in InodeCaches alone. That `fs/dir.c:310-311` keeps a reference is not modelled.
- Directories.AddDirent: offsets of 2^31 and more, which `int offset` would truncate, are excluded.
- InodeCaches.WithoutMembers: chains are sequences; the `pprev` links of `fs/list.h` are not modelled.
- Directories.NextDirent: the overlong copy of a header or name that straddles two blocks is taken to do no harm, see
  Inodes.Inode.ReadData.
- Commands.Testfs.Ls: prints names and inode numbers, not the mark that tells directories.
- The other list macros of `fs/list.h`.

Of the thread library:

- getcontext and setcontext, stacks and their alignment, signals and timers: a switch changes the current thread, which
  first runs the clean-up. thread_stub, printing, and lock and condition variable destruction.
- Schedulers.Scheduler.Kill: ids between the control codes and 0, and 1024, index outside the array and are excluded.
- ThreadRuns.RunsKeepPartition: a run ends with the first call that does harm; what happens after it is not modelled. A
  call that writes outside its arrays, or walks a queue for ever, ends it where that begins.
- Schedulers.Scheduler.Sleep: a caller that sleeps is in no wait queue, and queues do not share memory with the table.

Of the web server:

- Sockets, HTTP parsing, file contents, the client programs; the hash is any function of the name.
- The lock is dropped between lookup and pin (lines 464-468), so that an entry can be evicted in between: each cache
  operation is modelled as one step under the lock, interleavings of requests are not modelled.
- Caches.Cache.EvictSeveral: reads freed cells (line 306), which are taken to hold what they held; operations on a cache
  that no longer agrees with itself are not modelled.
- RequestRuns.DeliversIff: for a limit of 0 server_init leaves the indices unset, which are taken to be 0.
- The hash table is taken to start with null chains, which the malloc in server_init does not promise. Chains are
  sequences of files; the components that are not freed are not counted.

`warmup/` holds small exercises that would only add easy members.
