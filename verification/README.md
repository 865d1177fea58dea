# Verified models of the P-OS kernel

Dafny models of the storage, memory, context-switching and descriptor layers of
P-OS, a small Unix-like kernel, and proofs of what those layers promise. In each
one a fast mutable structure must agree with a simple abstract object over every
run; the abstract object and the agreement are the subject of the proofs.

| file | what it models | what it is proved to be |
|---|---|---|
| `BlockDevice.dfy` | write-back block cache over a driver | one flat byte array |
| `HeapLayout.dfy`, `Heap.dfy` | free-list heap that hosts its own descriptors | a tiling of the heap by live pieces, free extents and descriptors |
| `Ext2Bitmap.dfy` | block and inode allocation | a set of ids in use, with counts in step |
| `Ext2Tree.dfy`, `Ext2File.dfy`, `Ext2Run.dfy` | block pointers, reading and writing files with holes | a table of pointers without sharing; a flat byte array |
| `Ext2DirFile.dfy`, `Ext2Dir.dfy`, `Ext2DirRun.dfy` | linked-list directories on such files | a chain of records that tiles the file; a map from names to inodes |
| `Fpu.dfy` | lazy FPU switching, signal frames, forks | a machine with FPU registers per task |
| `Mruc.dfy` | hash table with an LRU list, both intrusive | two plain lists, by last use and by addition |
| `Pipe.dfy` | blocking pipe on counting semaphores | a byte queue of its writes, without lost wake-ups |
| `AddressMap.dfy` | a process's mapped regions and its page faults | page-disjoint intervals, with a least-hole search; the bytes of the mapped files |
| `Streams.dfy` | descriptor tables and reference counts | counts that equal the references, frees that happen once |
| `Ramfs.dfy` | extent files under the VFS padding rule | a plain byte sequence |
| `Arith.dfy`, `Bytes.dfy`, `Options.dfy` | shared facts about division and memcpy, optional results | |

Objects that the source updates in place are classes, its loops are loops, and
its buffers and tables are arrays or sequence fields. `util/mruc.c` and
`util/llist.c` keep their pointers; elsewhere a linked list that is only searched,
appended to and unlinked from is a sequence. What the source asks of its
environment is a parameter: whether the heap has memory left (`alloc`, `spare`,
`budget`), what a driver answers, which driver writes fail and how they tear a
block, which task the scheduler wakes. Driver reads fail on a fixed set of blocks.

## What turned out not to hold

The models do what the code does, also where that is not what one would expect.
Each case has its exact condition in a contract and, where the condition can be
missed, a member that shows the failure.

- A block the driver cannot read is cached as zeros (`BlockDevice.UnreadableBlock`).
- Block allocation that starts elsewhere than at 0 can report ENOSPC with a block
  free, because a skipped full group leaves a stale position behind
  (`Ext2Bitmap.EnospcExactly`, `Ext2Bitmap.EnospcTooEarly`).
- The last inode can be allocated and not freed (`Ext2Bitmap.IdTable.FreeInode`,
  `Ext2Bitmap.LastInodeStays`), and freeing an id twice puts the counts out of step
  (`Ext2Bitmap.IdTable.Unset`).
- A missing inner pointer block is allocated but not linked, and the pointer is
  stored in block 0 (`Ext2File.File.SetBlockId`, `Ext2Run.FirstDoublyBlockLost`).
- A write behind a missing inner pointer block reports success and changes nothing
  (`Ext2File.File.WriteInode`, `Ext2Run.Run`).
- A merged directory record length wraps at 65536 (`Ext2Dir.Dir.Unlink`,
  `Ext2DirRun.Spoil`). A link that makes the directory grow by a block it cannot
  have, or cannot point to, leaves a directory that cannot be read, and in the second
  case can report success (`Ext2Dir.Dir.Link`, `Ext2DirRun.Outgrow`).
- A task whose first FPU use is in a signal handler does not get fresh registers
  back (`Fpu.Kernel.SigExit`, `Fpu.FirstUseInHandler`). A handler whose frame does
  not fit loses the alternate stack (`Fpu.AltStackLost`). A fork empties the mask of
  the forking task and takes its alternate stack away, also under a handler that runs
  there (`Fpu.StackFlagExactly`, `Fpu.ForkLosesStack`), and a forked task that returns
  from a handler of its parent gets its parent's kernel stack (`Fpu.InheritedStack`).
- A pipe write longer than the buffer can run past its data
  (`Pipe.Pipe.WriteLoop`, `Pipe.LongWriteOverruns`), a read of 0 bytes discards the
  contents (`Pipe.System.Serve`), and the end of file is reported once
  (`Pipe.System.EofOnce`).
- The search for a hole spins on an empty region
  (`AddressMap.AddressMap.FindAddress`, `AddressMap.SpinsOnEmpty`), when it fails its
  callers map at address 0 (`AddressMap.AddressMap.Mmap`, `AddressMap.MapsAtZero`),
  and a file mapping with too small an offset frees a null region
  (`AddressMap.AddressMap.MapFile`). A page that runs over the end of its file
  cannot be loaded (`AddressMap.AddressMap.Touch`).
- dup2 of a descriptor onto itself reads freed memory (`Streams.Kernel.Dup2`).
- A ramfs write behind the end leaves a gap; only the VFS keeps it from happening
  (`Ramfs.Inode.WriteInode`). When the padding cannot be written its buffer leaks
  (`Ramfs.Inode.Pad`).

Two places in the source read as if they could happen and cannot: the search of
`kernel/mm/heapmm.c:239-254` for a free block below never finds one, and the
sanity loops of `kernel/mm/heapmm.c:266-267` and `kernel/mm/heapmm.c:550-552` are
never entered.

## Model

| member | source | states |
|---|---|---|
| `BlockDevice.UncachedStored` | kernel/dev/blkcache.c:185-207 | a block that is not in the cache has its current bytes on the driver |
| `BlockDevice.EvictClean` | kernel/dev/blkcache.c:246-254 | dropping a clean entry cannot be seen in the flat array, outside blocks the driver cannot read |
| `BlockDevice.AppendEntry` | kernel/dev/blkcache.c:268-366 | a new entry that agrees with the driver, or is dirty, keeps the refinement |
| `BlockDevice.DirtyEntry` | kernel/dev/blkdev.c:485-491 | a memcpy into a cached block that is then dirty is the same memcpy into the flat array |
| `BlockDevice.FlushEntry` | kernel/dev/blkdev.c:139-168 | a driver write of a dirty block keeps the flat array, also when it fails and tears the block |
| `BlockDevice.RereadEntry` | kernel/dev/blkdev.c:178-221 | reading over a clean entry cannot be seen, over a dirty one it takes the unflushed bytes back to the driver's |
| `BlockDevice.AllClean` | kernel/dev/blkdev.c:223-261 | with nothing dirty the driver holds the flat array |
| `BlockDevice.Device.constructor` | kernel/dev/blkcache.c:34-52 | an empty cache over a driver is the flat array the driver holds |
| `BlockDevice.Device.Find` | kernel/dev/blkcache.c:185-207 | finds the entry of a block, and misses exactly when there is none |
| `BlockDevice.Device.GetDirty` | kernel/dev/blkcache.c:144-156 | the first dirty entry, and -1 exactly when there is none |
| `BlockDevice.Device.Get` | kernel/dev/blkcache.c:268-366 | reports Blocked exactly when the cache is full and its oldest entry is dirty; evicts only clean entries; the flat array stays |
| `BlockDevice.Device.Flush` | kernel/dev/blkdev.c:139-168 | a dirty block stays in the cache until the driver has it |
| `BlockDevice.Device.GetFlushing` | kernel/dev/blkdev.c:448-481 | after flushing the candidate the retry never finds the cache blocked again |
| `BlockDevice.Device.Fetch` | kernel/dev/blkdev.c:178-221 | a block that was not cached is cached with its flat bytes, and only an unreadable one leaves a zeroed entry behind; over a cached one the driver's bytes replace what was not flushed; it fails only for a fault or an unreadable block |
| `BlockDevice.Device.WritePart` | kernel/dev/blkdev.c:418-491 | read-modify-write overlays exactly its bytes on the flat array, or none on failure |
| `BlockDevice.Device.WriteWhole` | kernel/dev/blkdev.c:445-491 | a whole-block write needs no read and overlays exactly its bytes |
| `BlockDevice.Device.WriteTurn` | kernel/dev/blkdev.c:402-499 | one turn writes the bytes up to the next block boundary, all of them or none |
| `BlockDevice.Device.Write` | kernel/dev/blkdev.c:377-507 | a write that fails part-way has applied exactly a prefix, and reports its length unless it is 0; it fails only for a failed driver write, missing memory or an unreadable block in its range |
| `BlockDevice.Device.ReadChunk` | kernel/dev/blkdev.c:561-587 | a chunk is read from the flat array |
| `BlockDevice.Device.Read` | kernel/dev/blkdev.c:521-601 | a read returns the latest bytes written, or on failure a prefix of them, and touches no other byte of the buffer; it fails only for a failed driver write, missing memory or an unreadable block in its range |
| `BlockDevice.Device.FlushAll` | kernel/dev/blkdev.c:223-261 | terminates, keeps the flat array, on success the driver holds all of it, and a failure is a failed driver write |
| `BlockDevice.Device.Run` | kernel/dev/blkdev.c:377-601 | every run of reads, writes and flushes gives the outcomes a flat byte array gives, for any cache size from 1 on, any evictions and any failing driver writes; every failing outcome has a new fault or an unreadable block in its range, and a flush that succeeds leaves the driver with the flat array |
| `BlockDevice.UnreadableBlock` | kernel/dev/blkdev.c:178-221 | the first read of an unreadable block fails, and if that leaves an entry behind, as it does when the cache is full and its oldest entry clean, the next read succeeds with zeros |
| `HeapLayout.BlocksApart` | kernel/mm/heapmm.c:128-257 | two free blocks have no byte in common, counting their descriptors |
| `HeapLayout.PieceApart` | kernel/mm/heapmm.c:128-257 | a free block and a live allocation have no byte in common |
| `HeapLayout.LiveApart` | kernel/mm/heapmm.c:285-389 | two live allocations have no byte in common |
| `HeapLayout.AbsorbAfter` | kernel/mm/heapmm.c:146-154 | growing the block in front over the freed bytes keeps the tiling |
| `HeapLayout.AbsorbBefore` | kernel/mm/heapmm.c:156-166 | growing the block behind down over the freed bytes keeps the tiling |
| `HeapLayout.MergeNext` | kernel/mm/heapmm.c:218-237 | emptying the block behind into the one in front keeps the tiling, and leaves a spare descriptor |
| `HeapLayout.AddBlock` | kernel/mm/heapmm.c:207-214 | a freed piece with a descriptor of its own keeps the tiling |
| `HeapLayout.HostBlock` | kernel/mm/heapmm.c:178-194 | a freed piece that hosts its own descriptor keeps the tiling |
| `HeapLayout.Carve` | kernel/mm/heapmm.c:359-373 | cutting an allocation out of a block keeps the tiling |
| `HeapLayout.Detach` | kernel/mm/heapmm.c:295-304 | a recycled descriptor becomes live bytes, and nothing else changes hands |
| `HeapLayout.Grow` | kernel/mm/heapmm.c:57-103 | new core at the top is one more live piece until it is freed into the list |
| `Heap.Select` | util/llist.c:151-166 | the first element the iterator accepts, and none exactly when it accepts none |
| `Heap.ServedKeepsGap` | kernel/mm/heapmm.c:167-214 | allocating a descriptor in the middle of a free brings no free block next to the piece being freed |
| `Heap.PadAligns` | kernel/mm/heapmm.c:516-530 | the padding in front reaches the next multiple of the alignment |
| `Heap.Heap.constructor` | kernel/mm/heapmm.c:578-584 | the first core becomes one free block of all but the 16 bytes of its descriptor, and nothing is live |
| `Heap.Heap.FindFit` | kernel/mm/heapmm.c:262-317 | an empty descriptor is recycled first and only for a descriptor-sized request, then the first exact fit, then the first larger block, and a miss means no block fits; the sanity spin loop is unreachable |
| `Heap.Heap.TakeAt` | kernel/mm/heapmm.c:295-389 | the result is a new live piece, disjoint from all others by the tiling |
| `Heap.Heap.Morecore` | kernel/mm/heapmm.c:57-103 | the heap grows by at least the request, and the free bytes at its top by nearly a page |
| `Heap.Heap.MergeInto` | kernel/mm/heapmm.c:218-254 | after the merge no two nonempty free blocks are adjacent; the search below never finds one |
| `Heap.Heap.FreeFar` | kernel/mm/heapmm.c:167-215 | a descriptor is found, hosted in the piece, or core is added and the free starts over |
| `Heap.Heap.FreeInternal` | kernel/mm/heapmm.c:128-257 | terminates despite the mutual recursion; exactly the freed piece stops being live; a double free is not seen; space_left stays at or above the free bytes |
| `Heap.Heap.AllocInternal` | kernel/mm/heapmm.c:285-389 | terminates; fails only without permission to grow; the result is live and disjoint; space_left stays at or above the free bytes |
| `Heap.Heap.Alloc` | kernel/mm/heapmm.c:546-554 | never fails, and the sanity spin on a result above the top is unreachable |
| `Heap.Heap.Free` | kernel/mm/heapmm.c:568-571 | the inverse of an allocation on the live pieces |
| `Heap.Heap.TakeFront` | kernel/mm/heapmm.c:497-503 | an aligned larger block is shortened from the front |
| `Heap.Heap.TakeWhole` | kernel/mm/heapmm.c:507-514 | an aligned exact block is unlinked and its descriptor freed |
| `Heap.Heap.TakePadded` | kernel/mm/heapmm.c:516-530 | the padding in front of an unaligned block is freed again |
| `Heap.Heap.FindAligned` | kernel/mm/heapmm.c:399-480 | an accepted block can hold the aligned request, and a miss bounds every block |
| `Heap.Heap.AllocAligned` | kernel/mm/heapmm.c:447-539 | terminates; the result is aligned for every power of two, live, and disjoint from all live pieces |
| `Heap.Heap.Run` | kernel/mm/heapmm.c:128-571 | in every run the pieces callers hold are pairwise disjoint and inside the heap |
| `Ext2Bitmap.ClearUpdate` | fs/ext2/blkmgr.c:172-180 | flipping a bit changes the number of clear bits by one |
| `Ext2Bitmap.MissAt` | fs/ext2/blkmgr.c:117-140 | exactly when one pass over the groups misses, and the position it leaves behind |
| `Ext2Bitmap.EnospcExactly` | fs/ext2/blkmgr.c:107-167 | block allocation misses exactly when nothing is free, or no group from the start on has a free block and the others have theirs only in front of the stale position |
| `Ext2Bitmap.EnospcFromZero` | fs/ext2/blkmgr.c:107-167 | from start 0, ENOSPC exactly when no bit is clear |
| `Ext2Bitmap.EnospcTooEarly` | fs/ext2/blkmgr.c:107-167 | a consistent volume of two groups of 8192 blocks with a free block on which allocation from a block in the other group reports ENOSPC |
| `Ext2Bitmap.SearchMisses` | fs/ext2/blkmgr.c:107-167 | ENOSPC in terms of what a caller can see before the call |
| `Ext2Bitmap.PassFinds` | fs/ext2/blkmgr.c:117-140 | a pass enters the first group that is not full, and every bit from its entry position up to its hit is set |
| `Ext2Bitmap.TwiceFinds` | fs/ext2/blkmgr.c:107-167 | which block a search hands out: the least free one from its entry on, or else the least free one of the volume; the entry is the start itself unless its group is full |
| `Ext2Bitmap.ZeroFinds` | fs/ext2/blkmgr.c:107-167 | from start 0 it is the least free block of the volume |
| `Ext2Bitmap.ScanWord` | fs/ext2/blkmgr.c:128-131 | the first clear bit of a word from a position on |
| `Ext2Bitmap.ScanMap` | fs/ext2/blkmgr.c:127-134 | the first clear bit of a bitmap block, with full words skipped |
| `Ext2Bitmap.ScanGroup` | fs/ext2/blkmgr.c:122-137 | the first clear bit of a group from a position on, over several bitmap blocks |
| `Ext2Bitmap.MarkConsistent` | fs/ext2/blkmgr.c:168-190 | setting the bit of a free id uses exactly that id and keeps superblock, group counts and bits in step |
| `Ext2Bitmap.UnmarkConsistent` | fs/ext2/blkmgr.c:46-81 | clearing the bit of a used id frees exactly that id and keeps all counts in step |
| `Ext2Bitmap.UnmarkBreaks` | fs/ext2/blkmgr.c:46-81 | clearing the bit of a free id puts the counts out of step |
| `Ext2Bitmap.FreeUndoesAlloc` | fs/ext2/blkmgr.c:27-202 | a free undoes the allocation, bit for bit and count for count |
| `Ext2Bitmap.IdOfPosition` | fs/ext2/blkmgr.c:110-116 | ids and bit positions correspond one to one |
| `Ext2Bitmap.IdTable.ScanPass` | fs/ext2/blkmgr.c:117-140 | one pass of the group loop is the pass function, stale positions included |
| `Ext2Bitmap.IdTable.Locate` | fs/ext2/blkmgr.c:110-116 | group, bitmap block, word and bit of an id, in agreement with the bit position |
| `Ext2Bitmap.IdTable.Claim` | fs/ext2/blkmgr.c:168-190 | the id handed out was free, and no other id changes |
| `Ext2Bitmap.IdTable.AllocBlock` | fs/ext2/blkmgr.c:86-202 | the id was free and inside the volume, only it is in use afterwards, counts stay in step; from start 0 it is the least free id, from a start whose group is not full the least free one from there on, or else of all; ENOSPC exactly when the search misses |
| `Ext2Bitmap.IdTable.AllocInode` | fs/ext2/inomgr.c:27-109 | one pass from inode 11: the id was free, no other changes, counts stay in step; it is the least free one from inode 11 on if that inode's group is not full, else from the entry of the first group that is not; ENOSPC exactly when the pass misses |
| `Ext2Bitmap.IdTable.Unset` | fs/ext2/blkmgr.c:46-81 | exactly the id stops being in use, and the counts stay in step if and only if it was |
| `Ext2Bitmap.IdTable.FreeBlock` | fs/ext2/blkmgr.c:27-84 | the same, for every id behind the first |
| `Ext2Bitmap.IdTable.FreeInode` | fs/ext2/inomgr.c:111-171 | the same, for every id behind the first but the last, which the assertion shuts out |
| `Ext2Bitmap.IdTable.Run` | fs/ext2/blkmgr.c:27-202 | in every run of allocations and frees, of blocks or of inodes, up to a free the assertions refuse: the held ids are distinct and were free, exactly they are in use beyond the old ones, and the free count accounts for each |
| `Ext2Bitmap.LastInodeStays` | fs/ext2/inomgr.c:27-171 | a table whose last inode is handed out and cannot be freed again |
| `Ext2Tree.WordAfterPut` | fs/ext2/inoblk.c:240-249 | a stored pointer reads back and leaves the other pointers of its block alone |
| `Ext2Tree.PointerLayout` | fs/ext2/inoblk.c:240-249 | pointers are 32-bit words with the lowest byte first |
| `Ext2Tree.PathOfIsLeaf` | fs/ext2/inoblk.c:57-133 | every file block number decodes to a path with all indices below the pointer count |
| `Ext2Tree.BlockOfIsInverse` | fs/ext2/inoblk.c:57-133 | every path is the path of exactly one file block number: decoding is onto |
| `Ext2Tree.PathOfInjective` | fs/ext2/inoblk.c:57-133 | decoding is one to one |
| `Ext2Tree.PathOfOrder` | fs/ext2/inoblk.c:57-133 | file blocks and the pointers to them are in the same order, slot by slot and word by word |
| `Ext2Tree.ValSetWord` | fs/ext2/inoblk.c:240-249 | writing one pointer changes the lookup of that path and of no other |
| `Ext2Tree.ValSetDirect` | fs/ext2/inoblk.c:251-253 | so does setting a direct pointer |
| `Ext2Tree.ValHang` | fs/ext2/inoblk.c:224-238 | hanging a zeroed pointer block into an empty slot adds only zero pointers |
| `Ext2Tree.SoundUpdate` | fs/ext2/inoblk.c:135-254 | no block is referenced twice and every referenced block is in use, kept by every pointer update |
| `Ext2File.File.DecodeBlockId` | fs/ext2/inoblk.c:57-133 | step-by-step decoding is the lookup of the block's path, 0 for a hole at any level |
| `Ext2File.File.AllocZeroed` | fs/ext2/inoblk.c:28-55 | a new block is zeroed, was not in use, and no other block changes; none exactly when the search misses, which from 0 means that nothing is free |
| `Ext2File.File.Hang` | fs/ext2/inoblk.c:224-238 | a missing top-level pointer block is hung in without changing a lookup, no block in use is written, and it fails exactly when nothing is free |
| `Ext2File.File.InnerStep` | fs/ext2/inoblk.c:204-220 | a missing inner pointer block is allocated but never linked, and the walk goes on with block 0; no block in use is written |
| `Ext2File.File.SetFirst` | fs/ext2/inoblk.c:224-249 | singly indirect: the pointer is set and no other changes, or the call fails for want of a block and none changes |
| `Ext2File.File.SetSecond` | fs/ext2/inoblk.c:186-249 | doubly indirect: set if the inner pointer block exists, otherwise no lookup changes; the blocks taken and the one block in use that is written |
| `Ext2File.File.SetThird` | fs/ext2/inoblk.c:152-249 | triply indirect: set if both inner pointer blocks exist, otherwise no lookup changes, unless block 0 leads the walk astray; in every case the blocks taken, the one block in use that is written, and that lookups which do not pass through it are as before |
| `Ext2File.File.SetBlockId` | fs/ext2/inoblk.c:135-254 | set then decode returns the value and leaves every other number's decoding alone if the inner pointer blocks exist, and otherwise changes no decoding; it succeeds exactly when there are as many free blocks as pointer blocks are missing on the way; of the blocks in use it writes one word of one, which is block 0 or the block that block 0 names when the walk breaks off, and then every lookup that does not pass through that block is as before |
| `Ext2File.StrayLookups` | fs/ext2/inoblk.c:135-254 | wherever the pointer is stored, the lookups that do not pass through that block are as before |
| `Ext2File.SettledElsewhere` | fs/ext2/inoblk.c:135-254 | unless the walk breaks off at the first of three pointer blocks, no block of another file but block 0 is written or referenced |
| `Ext2File.BytesLinked` | fs/ext2/inode.c:143-147 | linking a zeroed block where there was a hole does not change the file's bytes |
| `Ext2File.File.Provide` | fs/ext2/inode.c:133-148 | a missing block is allocated, and linked if and only if the inner pointer block exists; the file's bytes stay; it fails only at a hole when a search misses, from hint 0 exactly when there are too few blocks |
| `Ext2File.File.WriteChunk` | fs/ext2/inode.c:133-155 | one turn changes exactly its bytes of one file block if the inner pointer block exists, and no byte of the file if not |
| `Ext2File.File.WriteInode` | fs/ext2/inode.c:95-159 | of the first n bytes of the buffer exactly those reach the file at the offset whose inner pointer block exists, and no other byte changes; it fails only at a hole, with ENOSPC, when a search for a free block misses, and inside one block exactly when there are too few; pointers that are set stay, and no block of another file changes or becomes referenced |
| `Ext2File.WroteContents` | fs/ext2/inode.c:95-159 | a write is a memcpy of which only the bytes with inner pointer blocks arrive |
| `Ext2File.File.ReadTurn` | fs/ext2/inode.c:194-213 | one turn returns the file's bytes up to the end of their block, zeros for a hole |
| `Ext2File.File.ReadInode` | fs/ext2/inode.c:161-217 | the file's bytes, clipped at the size; past it EINVAL |
| `Ext2Run.WroteFlat` | fs/ext2/inode.c:95-159 | a write is a memcpy into the flat file of which only the bytes with inner pointer blocks arrive |
| `Ext2Run.Run` | fs/ext2/inode.c:95-217 | every run of reads and writes at any offset gives the outcomes a flat byte array of the largest file size gives, in which the bytes whose inner pointer block was missing at the start swallow what is written to them; a write fails only where the file had a hole at the start; no block of another file changes |
| `Ext2Run.FirstDoublyBlockLost` | fs/ext2/inoblk.c:186-222 | on an inode without blocks and a volume with two free ones, setting the first doubly indirect block reports success, takes both, leaves the pointer zero and overwrites block 0 |
| `Ext2DirFile.DirFile.constructor` | fs/ext2/dir.c:134-150 | an inode without blocks is an empty directory file |
| `Ext2DirFile.DirFile.ReadAt` | fs/ext2/inode.c:161-217 | reading inside a directory file returns its bytes |
| `Ext2DirFile.DirFile.WriteAt` | fs/ext2/inode.c:95-159 | writing inside a directory file is a memcpy that takes no block and disturbs no other file |
| `Ext2DirFile.DirFile.Grow` | fs/ext2/dir.c:180-185 | the size grows by a block, which reads as zeros |
| `Ext2DirFile.DirFile.WriteNew` | fs/ext2/inode.c:95-159 | a write into the new block changes the file exactly if the block's pointer can be set and there are blocks enough, and takes what the pointer needs |
| `Ext2DirFile.DirFile.AddBlock` | fs/ext2/dir.c:180-199 | name and header of the first record of a new block are in the file afterwards, or the block is lost: exactly when its pointer cannot be set or there are too few blocks |
| `Ext2DirFile.FewNeeded` | fs/ext2/inoblk.c:152-249 | at most two pointer blocks are missing on the way, and at most one below the doubly indirect range |
| `Ext2Dir.EncodeDecode` | fs/ext2/dir.c:187-199 | a header written is the header read |
| `Ext2Dir.HeaderLayout` | include/fs/ext2/fsdata.h:153-158 | where a record header keeps inode number, record length, name length and file type, in any bytes, lowest byte first |
| `Ext2Dir.RootDot` | include/fs/ext2/fsdata.h:153-158 | the eight bytes of one real header, both ways |
| `Ext2Dir.RecWritten` | fs/ext2/dir.c:187-199 | a record written reads back as that record |
| `Ext2Dir.ReuseRep` | fs/ext2/dir.c:165-199 | reusing a nameless record keeps the chain |
| `Ext2Dir.SplitRep` | fs/ext2/dir.c:170-207 | splitting a record with slack keeps the chain, both parts large enough for their names |
| `Ext2Dir.AppendRep` | fs/ext2/dir.c:180-199 | a new block at the end keeps the chain |
| `Ext2Dir.GrowRep` | fs/ext2/dir.c:78-84 | growing the record in front over the removed one keeps the chain |
| `Ext2Dir.MoveRep` | fs/ext2/dir.c:98-128 | moving the second record into the first slot keeps the chain |
| `Ext2Dir.LinkedLookup` | fs/ext2/dir.c:134-211 | linking an absent name adds exactly that lookup |
| `Ext2Dir.LookupRemoved` | fs/ext2/dir.c:26-132 | removing the first match changes no other name's lookup |
| `Ext2Dir.OneReading` | fs/ext2/dir.c:276-325 | the bytes of a directory determine its records |
| `Ext2Dir.MergedFits` | fs/ext2/dir.c:78-128 | no file reads as the merged chain when the merged length needs more than 16 bits |
| `Ext2Dir.GrowWraps` | fs/ext2/dir.c:78-84 | after a wrapped growth every reading of the file leaves the chain at the record that grew |
| `Ext2Dir.MoveWraps` | fs/ext2/dir.c:98-128 | so it does after a wrapped move of the second record |
| `Ext2Dir.ZeroTail` | fs/ext2/dir.c:180-199 | a directory with a block of zeros behind its last record cannot be read at all |
| `Ext2Dir.Dir.FindDir` | fs/ext2/dir.c:276-358 | the inode of the first entry with the name |
| `Ext2Dir.Dir.FindRoom` | fs/ext2/dir.c:156-178 | the first record that is nameless and large enough, or has enough slack, and none exactly when no record is |
| `Ext2Dir.Dir.Link` | fs/ext2/dir.c:134-211 | with room in a record there is one entry more, in a reused or split record; a crowded directory grows by a block, and there is one entry more if and only if the block's pointer can be set and the volume has the blocks it takes; otherwise the directory cannot be read afterwards, whatever the call reports: success if only the pointer was at fault |
| `Ext2Dir.Dir.PutRec` | fs/ext2/dir.c:193-199 | name and header are written and nothing else changes |
| `Ext2Dir.Dir.Split` | fs/ext2/dir.c:170-207 | the new record is cut from the slack of another, one entry more |
| `Ext2Dir.Dir.LinkNew` | fs/ext2/dir.c:180-199 | the new record gets a block of its own, or the directory is lost |
| `Ext2Dir.Dir.FindRecord` | fs/ext2/dir.c:49-91 | the first record with the name, and the one in front of it |
| `Ext2Dir.Dir.Absorb` | fs/ext2/dir.c:78-84 | the file reads as the chain without the entry if and only if the merged length fits 16 bits, and goes astray otherwise |
| `Ext2Dir.Dir.MoveSecond` | fs/ext2/dir.c:98-128 | the same for the first record |
| `Ext2Dir.Dir.Unlink` | fs/ext2/dir.c:26-132 | exactly the first match goes and the file reads as the merged chain, if and only if the merged length fits 16 bits; ENOENT exactly when there is no match; a directory's only record is refused |
| `Ext2DirRun.NamesUnlinked` | fs/ext2/dir.c:26-132 | unlinking removes the name from the map the directory stands for |
| `Ext2DirRun.Step` | fs/ext2/dir.c:26-358 | one call is a step of the map, and leaves a readable directory if and only if it is neither an unlink whose merged length does not fit nor a link that makes the directory grow by a block that is lost |
| `Ext2DirRun.Run` | fs/ext2/dir.c:26-358 | every run of link, unlink and lookup, from any directory without doubled names, is a run over a map from names to inodes, up to an unlink whose merged length does not fit, a link that leaves the directory unreadable because the new block's pointer cannot be set or the volume is full, or a link that goes astray; no block of another file changes |
| `Ext2DirRun.FillTo` | fs/ext2/dir.c:134-211 | links alone make a directory of any number of blocks up to the end of the singly indirect range, with two free blocks for each |
| `Ext2DirRun.Spoil` | fs/ext2/dir.c:78-84 | unlinking the second record of it over and over reaches an unlink that reports success and leaves a file that does not read as the directory |
| `Ext2DirRun.Outgrow` | fs/ext2/dir.c:180-207 | a directory without doubly indirect blocks outgrows its singly indirect ones: a link reports success and the directory cannot be read any more, for every block size |
| `Fpu.Nested` | arch/i386/signal.c:52-192 | as long as a task stays inside n handlers, what they interrupted is untouched, whatever forks, handlers and system calls run |
| `Fpu.HandlerRestores` | arch/i386/signal.c:52-192 | a handler that returns gives back FPU state, context and mask of the moment it interrupted, whatever ran in between; the mark on the alternate stack is as before if the handler took that stack itself, or its task neither forked nor failed to start a handler there |
| `Fpu.StackFlagExactly` | kernel/task/scheduler.c:103-152 | exactly when the alternate stack is marked after the return: a fork in between clears the mark, a handler that failed to start leaves it set |
| `Fpu.ForkLosesStack` | kernel/proc/signal.c:82-86 | a fork inside a handler that interrupted one on the alternate stack: the return brings everything back but the mark, and the fork has emptied the mask |
| `Fpu.AltStackLost` | arch/i386/signal.c:97-150 | a handler whose frame does not fit on the alternate stack leaves that stack marked as taken, and sigaltstack refused, until its task forks |
| `Fpu.FlagsAgree` | arch/i386/signal.c:97-181 | mark and frames agree in every run in which their owner neither forks nor fails to start a handler on that stack |
| `Fpu.EntryMeans` | arch/i386/signal.c:76-150 | field by field: the handler's mask is the old one with sa_mask and, without SA_NODEFER and SA_RESETHAND, the signal; it starts at its address, on the alternate stack exactly if asked for and free; nothing else changes; a failed start differs only in where it starts and what is remembered |
| `Fpu.HandlerBlocks` | arch/i386/signal.c:76-181 | from the entry of a handler until its task returns from it, forks or calls sigprocmask, through any other handlers, all that was blocked before, all of sa_mask and, without the two flags, the signal itself stay blocked |
| `Fpu.MaskMeans` | kernel/proc/signal_api.c:128-178 | sigprocmask signal by signal, for each way of changing the mask |
| `Fpu.ActionKept` | kernel/proc/signal_api.c:43-78 | an installed action stays, through every run, until it is replaced or used up by SA_RESETHAND |
| `Fpu.AltKept` | kernel/proc/signal_api.c:80-126 | an installed alternate stack stays until the next sigaltstack or a fork |
| `Fpu.LeftAlone` | arch/i386/task_switch.c:197-237 | in every run a task that does not run keeps registers, context, mask, actions and frames |
| `Fpu.SwitchedBack` | arch/i386/task_switch.c:197-237 | a task that was switched away comes back with all it had, on the kernel stack it was left with |
| `Fpu.OwnRegisters` | arch/i386/fpu.c:79-132 | in every run without a return from a handler of its own, the FPU registers a task sees are its own instructions applied one after the other |
| `Fpu.TrustedKept` | arch/i386/signal.c:180-190 | kernel stack pointer and segments do not come from a signal frame: they only change when their task enters the kernel or is switched away |
| `Fpu.ForkMeans` | kernel/task/scheduler.c:103-152 | field by field: the child starts as the parent was, but for its kernel stack |
| `Fpu.OneShot` | arch/i386/signal.c:92-94 | a handler with SA_RESETHAND is started, or fails to start, once until it is installed again |
| `Fpu.KernelStackKept` | arch/i386/signal.c:180-190 | a task keeps its kernel stack as long as it does not return from a handler it inherited |
| `Fpu.InheritedStack` | arch/i386/signal.c:180-190 | the first return of a forked task from an inherited handler puts it onto its parent's kernel stack |
| `Fpu.Release` | arch/i386/fpu.c:114-132 | taking the registers from their owner cannot be seen |
| `Fpu.Acquire` | arch/i386/fpu.c:114-132 | giving them to a task, loaded or fresh, cannot be seen |
| `Fpu.Kernel.constructor` | arch/i386/fpu.c:61-71 | one task that has not used the FPU |
| `Fpu.Kernel.SaveOwned` | arch/i386/fpu.c:79-97 | saving the registers of their owner cannot be seen, and its context then holds them |
| `Fpu.Kernel.HandleIll` | arch/i386/fpu.c:114-132 | after the trap the current task owns the enabled registers, and no task sees a difference |
| `Fpu.Kernel.Use` | arch/i386/fpu.c:114-132 | an FPU instruction acts on the current task's own registers |
| `Fpu.Kernel.Switch` | arch/i386/task_switch.c:197-237 | a context switch is invisible to every task's registers, and the one that is left remembers its kernel stack |
| `Fpu.Kernel.Fork` | kernel/task/scheduler.c:103-152 | the child gets the parent's registers, frames, mask and alternate stack of before, whoever owns the FPU, and a kernel stack of its own; the parent loses mask and alternate stack, even without memory for a child |
| `Fpu.Kernel.Reap` | arch/i386/task_switch.c:327-340 | a dead task leaves no trace in the others' registers |
| `Fpu.Kernel.SigEnter` | arch/i386/signal.c:52-160 | entering a handler is the eager machine's entry: the mask signal by signal, handler reset, alternate stack and saved moment; when a push fails all but the last has happened |
| `Fpu.Deliver` | arch/i386/signal.c:76-150 | the steps in the source's order give what the eager machine's entry describes, and the mask signal by signal |
| `Fpu.Kernel.SigExit` | arch/i386/signal.c:162-192 | leaving it is the eager machine's exit if and only if the saved registers were in use, or that task does not own the FPU, or the unused save area happens to hold the initial state |
| `Fpu.Kernel.UserEnter` | arch/i386/task_switch.c:59-77 | kernel entry records the user registers and segments of the current task only, and neither of its kernel stack pointers |
| `Fpu.Kernel.SetAction` | kernel/proc/signal_api.c:43-78 | refused exactly for a signal that cannot be caught, else only that action changes |
| `Fpu.Kernel.SetMask` | kernel/proc/signal_api.c:128-178 | the mask after blocking, unblocking or setting, never with the two signals that cannot be blocked |
| `Fpu.Kernel.SetAltStack` | kernel/proc/signal_api.c:80-126 | refused exactly while the stack is marked as taken |
| `Fpu.Kernel.Run` | arch/i386/task_switch.c:197-237 | every run of uses, switches, forks, deaths, signal entries, failed entries, legal exits and signal system calls is a run of the machine with eager per-task registers |
| `Fpu.FirstUseInHandler` | arch/i386/signal.c:162-192 | a task whose first FPU use is in a handler gets its unused save area back instead of fresh registers |
| `Mruc.AddEnd` | util/llist.c:83-91 | the circle of nodes is the old list with the new node at its end |
| `Mruc.Unlink` | util/llist.c:97-107 | the circle is the old list without the node |
| `Mruc.First` | util/llist.c:23-30 | the first node, and none exactly for an empty list |
| `Mruc.BktAppend` | util/mruc.c:88-104 | the bucket's circle gets the entry at its end |
| `Mruc.BktRemove` | util/mruc.c:134-151 | the bucket's circle loses the entry, and the head moves on if it was the head |
| `Mruc.PlacedAdd` | util/mruc.c:85-104 | every entry stays in the bucket of its hash, in order of addition |
| `Mruc.PlacedRemove` | util/mruc.c:134-151 | so it does when one is removed |
| `Mruc.GetMeans` | util/mruc.c:155-179 | mruc_get's answer is the first entry in order of addition with the hash, or none |
| `Mruc.Cache.constructor` | util/mruc.c:37-56 | an empty table and an empty list |
| `Mruc.Cache.Get` | util/mruc.c:155-179 | the earliest added entry with the hash, and NULL exactly when there is none |
| `Mruc.Cache.Insert` | util/mruc.c:75-108 | table and list both get the entry |
| `Mruc.Cache.Add` | util/mruc.c:75-115 | evicts exactly the least recently added or bumped entry, and only when the cache is full |
| `Mruc.Cache.Remove` | util/mruc.c:117-153 | table and list both lose exactly the entry |
| `Mruc.Cache.Bump` | util/mruc.c:58-73 | the entry becomes the most recently used, all others keep their order and buckets |
| `Mruc.Cache.Flush` | util/mruc.c:181-192 | terminates with an empty cache |
| `Mruc.Cache.Run` | util/mruc.c:58-192 | every run is a run over two plain lists, by last use and by addition, with the same answers; count never exceeds csize |
| `Pipe.Pipe.constructor` | kernel/pipe.c:23-36 | an empty pipe with zero semaphores |
| `Pipe.Pipe.WriteLoop` | kernel/pipe.c:108-147 | for writes of any length: the bytes put in are the next ones of the data; a write of at most 4096 bytes ends if and only if it is not empty and all of it has room, a longer one fills the room; EPIPE only without a reader, EAGAIN only for a nonblocking call with a reader, and a nonblocking call never waits; it runs past its data if and only if it is longer than the buffer and there is more room than data left |
| `Pipe.Pipe.Compact` | kernel/pipe.c:190-207 | moving the rest to the front, or failing to, loses no byte |
| `Pipe.Pipe.ReadData` | kernel/pipe.c:187-208 | a read takes a prefix of the contents and leaves the rest |
| `Pipe.Pipe.ReadEmpty` | kernel/pipe.c:161-186 | when a blocking read of an empty pipe waits and when it reports the end of file |
| `Pipe.Pipe.ReadLoop` | kernel/pipe.c:149-210 | both cases of a read, up to its return or its wait |
| `Pipe.System.Serve` | kernel/pipe.c:108-210 | bytes are conserved by a call exactly if it is not a read of 0 bytes on a pipe with contents; the answer tells the truth about the other end |
| `Pipe.System.Resume` | kernel/pipe.c:127-146 | a woken call goes on behind its wait, conserves bytes, and loses no wake-up |
| `Pipe.System.Step` | kernel/pipe.c:47-210 | every event conserves bytes, concerns the calls and the open ends it should, answers what the open ends say and, with one reader and one writer, loses no wake-up |
| `Pipe.System.Run` | kernel/pipe.c:108-210 | in every run with any number of readers and writers, up to a write that runs past its data, the delivered bytes and the contents are the bytes put in, and what a call puts in is its own data, whole for a write of at most 4096 bytes that is accepted and nothing otherwise; EPIPE means that no reader is open, the end of file that no writer is, EAGAIN that one is and the call was nonblocking, and a nonblocking call never waits |
| `Pipe.WholeWrite` | kernel/pipe.c:108-147 | a write over all its waits: what its task has put in is always the beginning of its data, and all of it, each byte once and in order, when it returns |
| `Pipe.System.NoDeadlock` | kernel/pipe.c:115-208 | one reader and one writer are never both blocked on zero semaphores |
| `Pipe.System.Progress` | kernel/pipe.c:115-208 | if both wait, two wake-ups move bytes or end a call, and end one if the write is not longer than the buffer |
| `Pipe.System.ReadersGone` | kernel/pipe.c:57-63 | the last reader's close wakes a waiting writer, which gets EPIPE |
| `Pipe.System.WritersGone` | kernel/pipe.c:65-71 | the last writer's close wakes a waiting reader of an empty pipe, which gets the end of file |
| `Pipe.System.EofOnce` | kernel/pipe.c:161-186 | after the last writer closed a first blocking read returns, and a second one waits through every event but a writer's or its own interruption |
| `Pipe.System.DrainAndWake` | kernel/pipe.c:115-146 | a reader can keep a write longer than the buffer from ending evenly |
| `Pipe.LongWriteOverruns` | kernel/pipe.c:115-146 | every write longer than the buffer can be driven past its data, from an empty pipe |
| `AddressMap.CollidesExactly` | kernel/proc/procvmm.c:339-377 | the four tests find exactly a common address, or an empty region whose place the other covers |
| `AddressMap.CollidesIsIntersection` | kernel/proc/procvmm.c:339-377 | for nonempty regions the four tests are interval intersection |
| `AddressMap.SkipCollides` | kernel/proc/procvmm.c:430-440 | every page-aligned place the greedy search skips collides |
| `AddressMap.SkipAdvances` | kernel/proc/procvmm.c:430-440 | the search moves on if and only if no empty region sits at the place it tries; otherwise it spins |
| `AddressMap.SkipsNoSpin` | kernel/proc/procvmm.c:430-440 | the search cannot spin at a place that it skips |
| `AddressMap.SolidNeverSpins` | kernel/proc/procvmm.c:416-443 | without empty regions the search never spins |
| `AddressMap.PagesApart` | kernel/proc/procvmm.c:446-461 | regions that do not collide and start at pages share no page |
| `AddressMap.FileOffsetKept` | kernel/proc/procvmm.c:590-612 | moving the start down to its page leaves every requested address on its byte of the file, and exactly the first file_sz of them are backed by the file or, when 0 was asked for, as many as the file is long |
| `AddressMap.AddressMap.Lookup` | kernel/proc/procvmm.c:202-226 | the first region with the address |
| `AddressMap.AddressMap.FindCollide` | kernel/proc/procvmm.c:385-398 | the first other region that collides, and none exactly when the range is free |
| `AddressMap.AddressMap.FindAddress` | kernel/proc/procvmm.c:416-443 | the least free page-aligned place from heap_max on, or NULL only if every one below stack_top collides; the search spins if and only if an empty region sits at a place where everything below collides and is the first to collide there |
| `AddressMap.AddressMap.Add` | kernel/proc/procvmm.c:446-461 | added exactly when it collides with nothing, and the map stays one of page-aligned regions exactly if this one is |
| `AddressMap.AddressMap.Resize` | kernel/proc/procvmm.c:471-492 | resized exactly when the new extent meets no other region; otherwise the map is as before |
| `AddressMap.AddressMap.MapAnon` | kernel/proc/procvmm.c:504-542 | exactly when an anonymous mapping succeeds, and that a failure changes nothing |
| `AddressMap.AddressMap.MapFile` | kernel/proc/procvmm.c:565-667 | exactly when a file mapping succeeds, with which extent and backing, that a failure leaves the map alone, and exactly when it hands a null region to the heap |
| `AddressMap.AddressMap.PageIn` | kernel/proc/procvmm.c:912-1016 | exactly when a page fault is fatal; otherwise every byte of the page is the mapped byte of the file, or 0 where there is none, or the page is the right frame of the shared segment |
| `AddressMap.AddressMap.Touch` | kernel/proc/procvmm.c:565-1016 | mapping a file and touching a requested address: the byte of the file that belongs there, or 0 behind what was asked for or behind the file; fatal if and only if the page starts inside the file, and the file ends inside the page and inside what was asked for |
| `AddressMap.AddressMap.Mmap` | kernel/proc/procvmm.c:1020-1057 | exactly when a mapping succeeds at the address it ends up with, which is 0 when the search finds no hole; one that was found is never refused for a collision |
| `AddressMap.AddressMap.MapShm` | kernel/proc/procvmm.c:781-818 | exactly when a shared mapping succeeds, at any start, and exactly when the map stays one of page-aligned regions |
| `AddressMap.AddressMap.AttachShm` | kernel/proc/procvmm.c:1059-1078 | exactly when an attachment succeeds at the address it ends up with: the least free place, or 0 when the search finds no hole |
| `AddressMap.AddressMap.Unmap` | kernel/proc/procvmm.c:861-904 | exactly the region goes |
| `AddressMap.AddressMap.Detach` | kernel/proc/procvmm.c:1080-1092 | exactly the region with the address goes |
| `AddressMap.AddressMap.Run` | kernel/proc/procvmm.c:446-1092 | in every run, up to a search that spins, no page belongs to two regions |
| `AddressMap.MapsAtZero` | kernel/proc/procvmm.c:1020-1057 | on a full map a search fails and the file is mapped at address 0 |
| `AddressMap.SpinsOnEmpty` | kernel/proc/procvmm.c:416-443 | an empty mapping at heap_max makes the next search spin |
| `Streams.CountedAdd` | kernel/streams.c:148-176 | a new descriptor with a bumped count keeps all counts right |
| `Streams.CountedClose` | kernel/streams.c:2087-2104 | removing a descriptor and dropping its count keeps all counts right, and frees at 0 only |
| `Streams.OthersExactly` | kernel/streams.c:2087-2104 | exactly the descriptors with other numbers stay |
| `Streams.OthersInOrder` | kernel/streams.c:2087-2104 | they stay in their order |
| `Streams.KeptExactly` | kernel/streams.c:217-225 | exactly the descriptors without close-on-exec are kept |
| `Streams.KeptInOrder` | kernel/streams.c:217-225 | they are kept in their order |
| `Streams.UsedOpen` | kernel/pipe.c:47-55 | usage counts of a pipe are the numbers of its live ends, kept by an open |
| `Streams.UsedClose` | kernel/pipe.c:38-71 | kept by a close, and the pipe goes exactly with its last end |
| `Streams.LoggedFree` | kernel/streams.c:2173-2179 | nothing is freed twice |
| `Streams.Kernel.Find` | kernel/streams.c:105-136 | the descriptor with the number, and none exactly when there is none |
| `Streams.Kernel.Release` | kernel/streams.c:2104-2176 | the stream is freed, and its pipe exactly when no other stream is an end of it |
| `Streams.Kernel.Close` | kernel/streams.c:2071-2183 | exactly the descriptor goes; its stream is freed exactly when no process has another |
| `Streams.Kernel.AllocFd` | kernel/streams.c:255-265 | a number above all descriptors of the process |
| `Streams.Kernel.Claim` | kernel/streams.c:271-276 | the counter stays above a claimed number |
| `Streams.Kernel.Dup2` | kernel/streams.c:1541-1597 | the new number points to the old one's stream and nothing else; the descriptor that is copied has been freed if and only if an open descriptor is copied onto itself; without memory the new number has been closed all the same |
| `Streams.Kernel.Dup` | kernel/streams.c:1608-1630 | never reads a freed descriptor; exactly one descriptor more, with a new number |
| `Streams.Kernel.Pipe2` | kernel/streams.c:1642-1783 | two descriptors to two new streams of one new pipe, or no change but the counter |
| `Streams.Kernel.Fork` | kernel/streams.c:148-192 | the child has the parent's descriptors without close-on-exec, as many as memory allows, and every count is bumped |
| `Streams.Kernel.CloseOnExec` | kernel/streams.c:217-225 | exactly the unflagged descriptors are left, in their order |
| `Streams.Kernel.CloseAll` | kernel/streams.c:240-249 | terminates with an empty table |
| `Streams.Kernel.Step` | kernel/streams.c:148-2183 | every call keeps counts, tables and the log of frees right, and only dup2 onto itself reads freed memory |
| `Streams.Kernel.Run` | kernel/streams.c:148-2183 | over every run of any number of processes, up to a dup2 of an open descriptor onto itself: no call reads freed memory, ref_count is the number of descriptors, numbers are unique and below fd_ctr, nothing is freed twice, nothing leaks |
| `Streams.Kernel.NothingLeft` | kernel/streams.c:2071-2183 | without descriptors no stream and no pipe is left |
| `Ramfs.TilesExactly` | fs/ramfs/ramfs.c:90-95 | extents cover each byte of the file exactly once and no byte behind it |
| `Ramfs.FlatSet` | fs/ramfs/ramfs.c:141-149 | a copy into an extent is a copy into the file |
| `Ramfs.TiledAdd` | fs/ramfs/ramfs.c:154-163 | a new extent keeps the tiling exactly if it starts at the end |
| `Ramfs.Inode.constructor` | fs/ramfs/ramfs.c:27-42 | an empty file |
| `Ramfs.Inode.Search` | fs/ramfs/ramfs.c:90-95 | first match, and none exactly when no extent covers the offset |
| `Ramfs.Inode.ReadInode` | fs/ramfs/ramfs.c:97-126 | the bytes of the flat file, and EIO exactly when the range leaves it |
| `Ramfs.Inode.ReadTurn` | fs/ramfs/ramfs.c:106-118 | one turn returns the bytes up to the end of their extent, and none exactly behind the end of the file |
| `Ramfs.Inode.Rewrite` | fs/ramfs/ramfs.c:137-153 | the part of a write that lies inside the file is an overlay |
| `Ramfs.Inode.WriteInode` | fs/ramfs/ramfs.c:128-164 | a write at or before the end is a write to the flat file; the tiling survives exactly if the write leaves no gap |
| `Ramfs.Inode.Pad` | kernel/vfs.c:223-270 | skipped bytes become zeros and the buffer is freed with its size, or nothing changes and it is freed with size 0 |
| `Ramfs.Inode.Write` | kernel/vfs.c:213-292 | the file afterwards, and exactly when the call succeeds |
| `Ramfs.Inode.Read` | kernel/vfs.c:448-492 | in range a read never fails and never ends short, and its bytes are those of the file from the offset on |
| `Ramfs.Inode.Truncate` | fs/ramfs/ramfs.c:166-195 | on success the file has the length asked for, the old bytes are its beginning and every byte behind them is 0; shrinking is refused without a change |
| `Ramfs.WriteMeans` | kernel/vfs.c:213-292 | byte by byte, with and without memory: new bytes where written, zeros where skipped, old bytes elsewhere |
| `Ramfs.TruncMeans` | fs/ramfs/ramfs.c:166-195 | byte by byte: a truncation only lengthens, all bytes stay, the new ones are 0 |
| `Ramfs.Inode.Run` | kernel/vfs.c:213-741 | every run of reads, writes and truncates is a run over a plain byte sequence |
| `Ext2File.File.WriteTurn` | fs/ext2/inode.c:125-156 | one turn of the write loop changes exactly the bytes up to the end of their file block, if their inner pointer block exists |
| `Ext2File.File.AllocData` | fs/ext2/inode.c:137-141 | allocating a data block changes no pointer and no byte of the file |
| `Ext2File.File.Link` | fs/ext2/inode.c:143-147 | setting the pointer of a hole to a zeroed block changes no byte of the file, and sets it if and only if the inner pointer block exists |
| `Mruc.Cache.HashIn` | util/mruc.c:85-104 | the new entry is in the bucket of its hash and in no other |
| `Mruc.Cache.HashOut` | util/mruc.c:134-151 | the entry is in no bucket |
| `Streams.Kernel.Attach` | kernel/streams.c:1581-1590 | one more descriptor and one more reference, all counts right |
| `Streams.Kernel.OpenEnd` | kernel/streams.c:1706-1760 | one new stream that is one end of its pipe, referenced once |

## Left out

- Ext2File.File.SetBlockId: when the walk goes astray, lookups that pass through the block that is written are not stated; what is written there is.
- Ext2File.File.WriteInode: ranges in which no walk breaks off at the first of three pointer blocks; there the source goes on with words of block 0, which earlier writes may have changed. I/O errors of the device are not modelled.
- Ext2Run.Run: the same ranges, and no write starts behind the largest file size.
- Ext2Dir.Dir.Link: stops where such a walk would begin; device errors are not modelled, and directory sizes are whole blocks.
- Ext2Dir.Dir.Unlink: when the merged length does not fit, what is stated is where every reading goes astray, not which entries a given one still finds.
- Ext2DirRun.Run: names are linked after a lookup missed them, as the VFS does.
- Ext2Bitmap.IdTable.Run: I/O errors on bitmaps and descriptors are not modelled.
- Pipe.System.Progress: one reader and one writer; with more of a kind one semaphore count can be taken by a task that cannot use it.
- Heap.Heap.AllocInternal: sizes are positive, and core requests are granted with at least the pages asked for, contiguous at the top.
- Fpu.Kernel.SigEnter: a process has one task, as scheduler_spawn makes them; frames stay as they were pushed; pending signals, default and ignored dispositions, and requests that sigaltstack rejects as malformed are not modelled.
- Streams.Kernel.Close: streams are pipe ends; files, FIFOs, devices and external streams, and closes that fail, are not modelled.
- Integer wrap-around of sizes, offsets, addresses and counters is excluded, except for space_left in the heap and 16-bit record lengths in directories.
- Table size of util/mruc.c and alignments in kernel/mm/heapmm.c are powers of two, so masks are remainders.
- Locks around devices, inodes and streams: calls are modelled one at a time, except in the pipe.
- blkcache_bump, blkcache_free, several minor devices of one driver, and the ENODEV check.
- AddressMap.AddressMap.PageIn: device mappings and what a mapped page is written back to are not modelled.
- Page tables, frames and shared memory reference counts in kernel/proc/procvmm.c.
- Inline symbolic links, ext2_shrink_inode, mkdir and rmdir on ext2; ramfs directories and shrinking truncate; access times and permissions in the VFS.
- Path lookup, mounting, inode caching, system-call argument copying, drivers, consoles, boot code and inline assembly.
