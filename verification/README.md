# A verified model of the Pintos kernel's data structures and protocols

This project models, in Dafny 4.11, the parts of a Pintos kernel and its user library whose
correctness is hard to see from the code: two memory allocators, the buffer cache and the indexed
file layer above it, the monitors and locks, an interprocessor protocol, the containers with their
sorting and searching, 64-bit division, an archive format and the arithmetic of the scheduler.
`dafny verify dfyconfig.toml` checks the whole project.

| modules | what they model |
|---|---|
| `UserHeapLists`, `UserHeapBlocks`, `UserHeapInvariant`, `UserHeapSearch`, `UserHeap` | the user allocator: boundary tags in untyped memory words, a `pinuse` bit instead of footers on used blocks, 16 free lists threaded through the free blocks |
| `UserHeapRuns`, `UserHeapMiss` | whole runs of a program over that allocator, and a heap on which its search misses a block that fits |
| `Disk`, `LruOrder`, `Cache` | the 64-block write-back cache as a refinement of a plain array of sectors, and its replacement order over whole sequences of requests |
| `Bitmap` | word-packed bitmaps and the map of free sectors |
| `IndexTable`, `InodeIndex`, `InodeState`, `InodeFile`, `InodeLife`, `Inode` | the direct, indirect and doubly indirect index of sparse files, reading, writing, creation and removal, over the buffer cache and the bitmap of free sectors |
| `InodeFull` | the index look-up on a disk that runs full |
| `Sequences`, `Orders`, `KernelList`, `ListSort` | doubly linked lists and the natural merge sort that works on them in place |
| `HashBits`, `HashTable` | the chained hash table with resizing |
| `Heap`, `Stdlib` | heapsort and binary search over elements of any size in an array of bytes |
| `KernelArenas`, `KernelMalloc` | the kernel's size-class allocator |
| `Numbers`, `Arithmetic` | 64-bit division out of a 64-by-32-bit divide |
| `Bytes`, `OctalText`, `Ustar` | octal text fields and ustar headers |
| `Synch`, `Condition` | semaphores, locks and condition variables as step systems |
| `RwLock` | the read-write lock as a step system |
| `RingBuffer`, `Channel` | the blocking queue and the pipe as a step system |
| `TlbShootdown` | the TLB shootdown as a step system |
| `Cfs`, `Scheduler` | weights, slices, virtual run times and the ready queue |

Code that changes memory in place is modelled by classes and arrays with loops; a protocol is a set
of steps, and its theorems hold after every possible sequence of steps by any number of threads.

Conventions. A word of the user heap is a record of its two flag bits and its size field; a list
link is a word whose size field is the address. Integers are unbounded; where the machine cuts a
value off, the model says so (`AdjustedWords`, `PageCount`, `Udiv64`, `Signed`, `BlankFields`). In
the step systems `woken` means taken off a waiter list and not yet run: other threads may run first.
Where the code does less than its documentation says, the model follows the code:

- A request within 19 bytes of 4 GiB wraps around in the user allocator and gets too small a block
  (`AdjustedWordsSuffice`, `HugeRequestWraps`). Of the requests that wrap around in the kernel
  allocator all but the eleven largest fail, and those eleven get a single page if there is one
  (`PageCountIs`, `HugeRequestGetsOnePage`, `Allocator.Malloc`).
- `find_fit` may miss a block that fits once fifty blocks were too small: which blocks it looks at
  (`FindFit`), and a heap where that happens (`FindFitMisses`).
- The first `malloc` of a process faults if the kernel refuses the first four words, since the free
  lists are then never set up (`Heap.Malloc`, `UninitialisedListsFault`).
- A new file of nonzero length shows what its last sector held before: which sector that is, when
  it matters (`NewFileReadsZero`), and a device where it does (`StaleByteShows`).
- A write that fails on a full disk may have changed the inode's block without marking it dirty: when
  exactly (`MarksWhatItChanges`), that the change is then lost when the cache gives up the block
  (`LostWhenEvicted`), and an inode where it happens (`FullDiskLosesTable`).
- Readers woken by a leaving writer may be overtaken by a writer once one of them has left
  (`ReadersGoFirst`, `WriterOvertakes`), and a run shows it (`ReaderOvertaken`).
- Closing one end of a pipe wakes one of the threads that wait at the other; the rest sleep on
  (`StrandedByCloseWrite`, `StrandedByCloseRead`), and a run shows it (`CloseStrandsAConsumer`).
- `sdiv64` of the least number by -1 does not truncate, as no 64-bit number is the quotient (`Sdiv64`).
- A header composed for a regular file of negative size is refused as too large (`RoundTrip`).

## Model

| member | source | states |
|---|---|---|
| `UserHeapLists.PushBackLists` | src/lib/kernel/list.c:216-220 | after list_push_back on memory words all 16 lists are sound: every next has a prev that leads back, and the new element is the last of its list |
| `UserHeapLists.RemoveLists` | src/lib/kernel/list.c:256-263 | after list_remove of any element all lists are sound and hold everything but that element |
| `UserHeapLists.WalkMeetsAll` | src/lib/user/malloc.c:460-480 | following next from a list head meets every element of that list, each exactly once, and ends |
| `UserHeapBlocks.FreedTags` | src/lib/user/malloc.c:145-148 | mark_block_free keeps every tag true: header, footer and the right neighbour's pinuse bit |
| `UserHeapBlocks.UsedTags` | src/lib/user/malloc.c:137-142 | mark_block_used keeps every tag true although it writes no footer |
| `UserHeapInvariant.PrevBlock` | src/lib/user/malloc.c:110-114 | when pinuse is clear the word before a header is the footer of a free block that ends there, so prev_blk finds it |
| `UserHeapInvariant.FreePush` | src/lib/user/malloc.c:220-233 | putting a block on a list before it is marked free disturbs no tag and no other payload |
| `UserHeapInvariant.FreeMark` | src/lib/user/malloc.c:145-148 | marking that block free disturbs no list and no payload |
| `UserHeapInvariant.MergeMark` | src/lib/user/malloc.c:238-285 | one header and one footer over two touching free blocks give a sound heap with one block less and the same user data |
| `UserHeapInvariant.MergeMarkThree` | src/lib/user/malloc.c:238-285 | the same over three free blocks in a row, marked in one go |
| `UserHeapInvariant.Rematch` | src/lib/user/malloc.c:238-285 | lists and free blocks match again once the absorbed elements are off and the merged block is on the list for its size |
| `UserHeapInvariant.PlaceWhole` | src/lib/user/malloc.c:440-455 | handing out a whole free block restores the invariant and adds one payload |
| `UserHeapInvariant.PlaceSplit` | src/lib/user/malloc.c:440-455 | splitting a free block leaves sound tags and lists and adds one payload of the requested size |
| `UserHeapInvariant.Extend` | src/lib/user/malloc.c:412-434 | new words from sbrk become one free block in front of a new fence and leave all user data as it was |
| `UserHeap.AdjustedWordsSuffice` | src/lib/user/malloc.c:187-215 | the adjusted block holds the request if and only if size + 19 does not wrap around 32 bits, and then it is the smallest of whole 16-byte units that does, or a minimal one |
| `UserHeap.HugeRequestWraps` | src/lib/user/malloc.c:187-215 | a request of 4 GiB - 1 is adjusted to 8 words |
| `UserHeapSearch.GetNonEmptyList` | src/lib/user/malloc.c:541-590 | the first list that is not empty and whose limit admits the size, else the last list |
| `UserHeapSearch.ClassLimit` | src/lib/user/malloc.c:487-534 | no block that get_list puts on a list exceeds the limit by which get_non_empty_list skips that list |
| `UserHeapSearch.ClassIs` | src/lib/user/malloc.c:487-535 | list i holds the free blocks from 2^i words up to twice that, the last list all larger ones, and a block of exactly 128 words is one list below |
| `UserHeap.Heap.constructor` | src/lib/user/malloc.c:153-182 | before mm_init there are no blocks |
| `UserHeap.Heap.MmInit` | src/lib/user/malloc.c:153-182 | -1 exactly when sbrk refuses: without the first four words nothing changes, without the chunk the heap is valid and empty, else it holds one free chunk |
| `UserHeap.UninitialisedListsFault` | src/lib/user/malloc.c:187-215 | before mm_init every list looks non-empty and starts with the null pointer, so the search reads a header below address 0 |
| `UserHeap.Heap.ExtendHeap` | src/lib/user/malloc.c:412-434 | NULL and no change exactly when sbrk refuses, else a free block of at least the size asked for, coalesced |
| `UserHeap.Heap.Coalesce` | src/lib/user/malloc.c:238-285 | in all four cases no two free blocks touch afterwards, the block returned covers the one given, and no payload changes |
| `UserHeap.Heap.Place` | src/lib/user/malloc.c:440-455 | the payload is exactly the requested words if the rest would make a block, and the whole block otherwise; the rest then lies in a free block, and all other payloads keep their words |
| `UserHeap.Heap.FindFit` | src/lib/user/malloc.c:460-480 | the first block that fits among those it looks at, NULL if and only if none of them does; then no free block is large enough or at least fifty are too small |
| `UserHeapSearch.ExaminedFree` | src/lib/user/malloc.c:460-480 | what the search looks at are elements of different free blocks of the classes from its start on |
| `UserHeapSearch.MissAfterFifty` | src/lib/user/malloc.c:460-480 | when nothing the search looks at fits, nothing fits at all or at least fifty free blocks are too small |
| `UserHeapMiss.FindFitMisses` | src/lib/user/malloc.c:460-480 | a heap that satisfies the invariant, with a free block of 12 words behind fifty of 8 on one list, where the search for 12 words finds nothing |
| `UserHeap.Heap.Malloc` | src/lib/user/malloc.c:187-215 | a block that was not live, 16-byte aligned and of the adjusted size or less than a minimal block more, the first that fits of those the search looks at, else at the end of a heap grown by the request or a chunk, and every live block keeps its words; NULL if and only if the size is 0, or the search finds nothing and the kernel refuses, and then the break stays; on the first call that is: the kernel refuses the first chunk, or the request is larger than it and refused; a fault exactly on the first request of a process to which the kernel refuses four words |
| `UserHeap.Heap.Free` | src/lib/user/malloc.c:220-233 | exactly the given block stops being live and all others keep their words |
| `UserHeap.Heap.Store` | src/lib/user/malloc.c:137-148 | a program may write every word of its block, the last one included, without disturbing the allocator |
| `UserHeap.LiveBlocksApart` | src/lib/user/malloc.c:137-148 | live blocks do not overlap, lie between the fences and are 16-byte aligned |
| `UserHeap.HeapIsTiled` | src/lib/user/malloc.c:118-121 | every word between the fences belongs to exactly one block |
| `UserHeapRuns.Session` | src/lib/user/malloc.c:187-233 | for any sequence of malloc, free, stores and changes of what the kernel offers: each request in turn does what it promises, and at every point of the run the live blocks are those from before, unchanged, and the program's own with exactly the words its own calls and stores say; the run ends early exactly at a request that kills the process, and no request that was served is one |
| `UserHeapRuns.WordsStay` | src/lib/user/malloc.c:187-233 | between two points of a run a block keeps its words unless the program itself stored into it, freed it or was given it anew |
| `UserHeapSearch.FreeListsAreExact` | src/lib/user/malloc.c:487-534 | walking list i in memory meets exactly the free blocks whose size belongs there, each once |
| `Cache.ChangedThenEvicted` | src/filesys/cache.c:153-194 | a block is changed and later evicted: its sector keeps the new data if the block was or is marked dirty, and has its old contents otherwise |
| `Cache.Evicted` | src/filesys/cache.c:153-194 | writing back the victim and giving it a new sector changes no sector's contents and keeps the cache sound |
| `Cache.Adopted` | src/filesys/cache.c:83-150 | a free block that joins the cache changes no sector's contents |
| `Cache.CleanIsOnDisk` | src/filesys/cache.c:301-327 | when every cached block is clean and not held by a writer the disk equals the abstract array |
| `Cache.BufferCache.constructor` | src/filesys/cache.c:59-78 | 64 free blocks; the cache stands for the device as it is |
| `Cache.BufferCache.Lookup` | src/filesys/cache.c:242-260 | finds the block of a sector if and only if the sector is cached |
| `Cache.BufferCache.FindVictim` | src/filesys/cache.c:153-194 | the victim is not held, and every block behind it in the list is |
| `Cache.BufferCache.EvictLRUBlock` | src/filesys/cache.c:153-194 | the last block of the list that nobody holds takes over the sector; no sector changes its contents |
| `Cache.BufferCache.GetBlock` | src/filesys/cache.c:83-150 | the block at the front stands for the sector and is locked as asked; no sector changes; the cached sectors are those that one request leaves in the order of LruOrder |
| `LruOrder.CachedInOrder` | src/filesys/cache.c:83-194 | after any sequence of requests the cached sectors stand in the order of their last requests |
| `LruOrder.LeastRecentlyRequested` | src/filesys/cache.c:83-194 | after any sequence of requests, a miss on a full cache drops exactly one sector, not held, and of those the one last requested furthest back |
| `LruOrder.NothingDropped` | src/filesys/cache.c:83-150 | a hit, or a miss with a free block, drops no sector |
| `Cache.ReadAll` | src/filesys/cache.c:83-220 | a new cache serves any sequence of reads with the contents of the device, and ends with the sectors that LruOrder says of that sequence |
| `Cache.BufferCache.ReadBlock` | src/filesys/cache.c:209-220 | returns the contents of the block's sector |
| `Cache.BufferCache.ZeroBlock` | src/filesys/cache.c:223-231 | the sector becomes zeros and the block valid and dirty |
| `Cache.BufferCache.ChangeData` | src/filesys/cache.c:209-220 | a writer's change of the data it was given is a change of that sector alone |
| `Cache.BufferCache.MarkBlockDirty` | src/filesys/cache.c:234-239 | no sector changes; a valid block becomes dirty |
| `Cache.BufferCache.PutBlock` | src/filesys/cache.c:197-206 | releasing a block changes no sector, given that a writer marked what it changed |
| `Cache.BufferCache.Flush` | src/filesys/cache.c:301-327 | no sector changes, unpinned blocks end clean, pinned ones stay as they are on the disk too, and with nothing pinned the disk equals the abstract array |
| `Cache.BufferCache.Load` | src/filesys/cache.c:83-150 | get, read, put: the sector's contents, with nothing changed and no block left held |
| `Cache.BufferCache.Save` | src/filesys/cache.c:83-150 | get, read or zero, change, mark dirty, put: the array of sectors with that one sector replaced and no block left held |
| `Bitmap.OrOneBit` | src/lib/kernel/bitmap.c:156-163 | or-ing a one-bit mask sets that bit and no other |
| `Bitmap.AndNotOneBit` | src/lib/kernel/bitmap.c:166-173 | and-ing the complement clears that bit and no other |
| `Bitmap.StaysInWidth` | src/lib/kernel/bitmap.c:43-47 | both keep an element within its width |
| `Bitmap.BitArray.constructor` | src/lib/kernel/bitmap.c:78-94 | all bits are clear |
| `Bitmap.BitArray.Set` | src/lib/kernel/bitmap.c:144-153 | one bit of the word-packed array changes |
| `Bitmap.BitArray.Test` | src/lib/kernel/bitmap.c:188-194 | reads the bit from its element |
| `Bitmap.BitArray.SetMultiple` | src/lib/kernel/bitmap.c:208-219 | exactly the bits of the range take the value |
| `Bitmap.BitArray.Contains` | src/lib/kernel/bitmap.c:241-254 | true if and only if some bit of the range has the value |
| `Bitmap.BitArray.Scan` | src/lib/kernel/bitmap.c:286-301 | the first run of the value, and failure only if there is none |
| `Bitmap.BitArray.ScanAndFlip` | src/lib/kernel/bitmap.c:310-317 | flips exactly the first run, or nothing |
| `Bitmap.BitArray.Allocate` | src/filesys/free-map.c:27-34 | takes the first free run of sectors, fails only if there is none |
| `Bitmap.BitArray.Release` | src/filesys/free-map.c:37-43 | frees exactly the given sectors, which are in use |
| `IndexTable.WordRoundTrip` | src/filesys/inode.c:100-123 | a word stored little-endian in a sector is read back and leaves every other word alone |
| `IndexTable.FillTable` | src/filesys/inode.c:237-258 | whatever the sector held, the fresh table holds -1 in every word |
| `InodeIndex.DataSlotInverse` | src/filesys/inode.c:62-96 | the slot that byte_to_sector picks determines the block |
| `InodeIndex.BlockOfInverse` | src/filesys/inode.c:62-96 | every data slot is picked for exactly one block |
| `InodeIndex.ReachInjective` | src/filesys/inode.c:62-258 | two slots that reach the same sector are the same slot of the same inode |
| `InodeState.ReachedIsUsed` | src/filesys/inode.c:62-258 | a sector that any slot of any inode reaches is marked in the free map |
| `InodeIndex.LinkIndex` | src/filesys/inode.c:100-232 | an unowned sector put into an empty slot keeps every sector reached once |
| `InodeIndex.NewInode` | src/filesys/inode.c:278-325 | a new inode reaches nothing and changes no other inode's index |
| `InodeIndex.DropInode` | src/filesys/inode.c:392-449 | forgetting an inode keeps the index of all others |
| `InodeFile.RoundDone` | src/filesys/inode.c:525-587 | one chunk of a write extends the written range and leaves all other bytes of all inodes alone |
| `InodeFile.LengthUpdated` | src/filesys/inode.c:525-587 | raising the length disturbs no byte and no slot |
| `InodeFile.BlocksTouchedIs` | src/filesys/inode.c:525-587 | the number of blocks a write touches, from offset and size |
| `InodeFile.DemandStep` | src/filesys/inode.c:62-232 | the empty slots on the way to some blocks and one more are those on the way to the first, plus those still empty on the way to the last |
| `InodeFile.SpentStep` | src/filesys/inode.c:62-232 | filling one more block takes exactly its empty slots' worth of the lowest free sectors and the block gets the last of them; blocks filled before keep theirs |
| `InodeLife.PathSize` | src/filesys/inode.c:62-96 | a block of an empty file needs one, two or three sectors, as it is direct, indirect or doubly indirect |
| `InodeLife.BlankInodeAdded` | src/filesys/inode.c:278-325 | an empty inode in an unowned sector keeps the invariant and every other file's bytes |
| `InodeLife.AllSectors` | src/filesys/inode.c:392-449 | data blocks up to the length, both kinds of tables and the inode sector are all the sectors of an inode |
| `InodeLife.RemovedInv` | src/filesys/inode.c:392-449 | with exactly the sectors of an inode freed the rest is a sound file system |
| `Inode.FileSystem.FreeMapAllocate` | src/filesys/free-map.c:27-34 | takes the lowest free sector out of the bitmap, fails if and only if none is free and then changes nothing |
| `Inode.FileSystem.FreeMapRelease` | src/filesys/free-map.c:37-43 | a sector that is in use becomes free in the bitmap, and no other bit changes |
| `Inode.FileSystem.constructor` | src/filesys/free-map.c:10-19 | a device and a free map without inodes satisfy the invariant |
| `Inode.FileSystem.Fetch` | src/filesys/cache.c:83-220 | a sector is read through the cache, which goes on standing for the same array |
| `Inode.FileSystem.Replace` | src/filesys/cache.c:83-239 | a sector that the inode code changes is marked dirty while it is held, so the cache stands for the array with that sector replaced |
| `Inode.FileSystem.Sync` | src/filesys/cache.c:301-327 | after a flush the disk itself holds every sector as the files show it |
| `Inode.FileSystem.AccessIndirectBlock` | src/filesys/inode.c:237-258 | an existing table is used as it is, a missing one is the lowest free sector, emptied, and on a full disk the result is -2 and nothing changes |
| `Inode.FileSystem.LookupIndirectTable` | src/filesys/inode.c:127-167 | the data sector behind the indirect table; table and sector are allocated when missing, exactly that many of the lowest free sectors, and nothing else changes |
| `Inode.FileSystem.LookupDoubleIndirectTable` | src/filesys/inode.c:171-232 | the same through two levels of tables |
| `Inode.FileSystem.ByteToSector` | src/filesys/inode.c:62-96 | with write set: the sector of the block, holes filled with the lowest free sectors, exactly one for each empty slot on the way, and every other block of every inode keeps its sector and bytes |
| `InodeFull.LookUpTakes` | src/filesys/inode.c:62-258 | a look-up with write set fails if and only if fewer sectors are free than slots on the way are empty; it takes one for each of those, and every free sector when it fails |
| `InodeFull.MarksWhatItChanges` | src/filesys/inode.c:62-96 | a look-up that changes the inode's block marks it dirty, unless the inode was missing a table, some sectors were free, and not as many as needed |
| `InodeFull.LostWhenEvicted` | src/filesys/inode.c:62-96 | once the inode's block is evicted, the word that a look-up stored in it is gone, if and only if the look-up failed and nothing else had marked the block; until then the cache shows it |
| `InodeFull.FullDiskLosesTable` | src/filesys/inode.c:127-167 | an empty inode and one free sector: a write to an indirect block changes the inode's block and leaves it unmarked |
| `Inode.FileSystem.FindSector` | src/filesys/inode.c:62-96 | with write clear: the sector of the block, or none for a hole or past the index |
| `Inode.FileSystem.ReadAt` | src/filesys/inode.c:463-518 | as many bytes as size and length allow, each the byte of the file, holes reading as zero |
| `Inode.FileSystem.WriteAt` | src/filesys/inode.c:525-587 | the written bytes are the buffer, length is the larger of old length and end, every inode stays of its kind, all bytes of allocated sectors of this and all other inodes and all remaining holes are as before; the free map loses exactly one sector for each empty slot on the way to the blocks touched, the lowest ones, and each hole gets a sector that is known before the call |
| `Inode.FileSystem.WriteAndReadBack` | src/filesys/inode.c:463-587 | reading what was just written returns it |
| `Inode.FileSystem.Create` | src/filesys/inode.c:278-325 | one more inode, of the given length and kind; all others keep their bytes, length and kind; what each byte of the new file reads as in terms of the device and the free map before the call, and that it reads as zeros if and only if the sector for its last block held zeros |
| `InodeLife.NewFileReadsZero` | src/filesys/inode.c:278-325 | a new file reads as zeros if and only if the first, second or third lowest free sector before the call, as its last block is direct, indirect or doubly indirect, held zeros before the place of its last byte |
| `Inode.StaleByteShows` | src/filesys/inode.c:278-325 | a device on which a new file of two bytes reads as 7 and 0 |
| `Inode.FileSystem.CloseRemoved` | src/filesys/inode.c:392-449 | exactly the sectors of the inode are released, each once and while in use, and the rest stays sound |
| `Inode.FileSystem.Close` | src/filesys/inode.c:392-449 | only the last close of a removed inode releases anything |
| `KernelList.List.constructor` | src/lib/kernel/list.c:60-68 | two sentinels that point at each other |
| `KernelList.List.Insert` | src/lib/kernel/list.c:168-178 | the element stands just before the given one and all prev and next still mirror each other |
| `KernelList.List.Remove` | src/lib/kernel/list.c:256-263 | exactly the element is gone, links mirror, and its successor is returned |
| `KernelList.List.Splice` | src/lib/kernel/list.c:183-204 | the six pointer assignments move a range in front of an earlier element and keep all links mirrored |
| `KernelList.MovedIs` | src/lib/kernel/list.c:183-204 | what moving a range means for the order of the elements |
| `ListSort.FindEndOfRun` | src/lib/kernel/list.c:365-380 | the run from the element on is nondecreasing and cannot be longer |
| `ListSort.MoveSecond` | src/lib/kernel/list.c:387-407 | moving the smaller head of the second run to the front keeps the merged part sorted and below the rest |
| `ListSort.MoveKeepsOrder` | src/lib/kernel/list.c:387-407 | a move ahead of strictly larger elements keeps the order of equal ones |
| `ListSort.InplaceMerge` | src/lib/kernel/list.c:387-407 | two adjacent sorted runs become one, stably, with the same nodes and nothing outside touched |
| `ListSort.DescentsConcat` | src/lib/kernel/list.c:412-448 | runs of a concatenation are the runs of the parts, less one where they join |
| `ListSort.MergePass` | src/lib/kernel/list.c:412-448 | one pass takes r maximal runs to at most half of r, rounded up, and its counter is that half |
| `ListSort.Sort` | src/lib/kernel/list.c:412-448 | terminates with the same nodes, sorted, equal elements in their old order, links mirrored |
| `HashBits.MaskIsRemainder` | src/lib/kernel/hash.c:305-310 | masking with bucket_cnt - 1 is the remainder when bucket_cnt is a power of two |
| `HashBits.PowerOf2` | src/lib/kernel/hash.c:329-340 | is_power_of_2 is true exactly for powers of two |
| `HashBits.RoundDown` | src/lib/kernel/hash.c:351-413 | the loop that turns off low bits ends at the greatest power of two not above its argument |
| `HashTable.EntriesAreElements` | src/lib/kernel/hash.c:416-429 | the lengths of all buckets add up to the number of elements |
| `HashTable.Hash.constructor` | src/lib/kernel/hash.c:24-74 | an empty table of four buckets |
| `HashTable.Hash.FindBucket` | src/lib/kernel/hash.c:305-310 | the bucket that the hash value masks to |
| `HashTable.Hash.FindElem` | src/lib/kernel/hash.c:314-326 | finds an equal element if and only if one is anywhere in the table |
| `HashTable.Hash.InsertElem` | src/lib/kernel/hash.c:416-421 | a new key joins its bucket and the set |
| `HashTable.Hash.RemoveElem` | src/lib/kernel/hash.c:424-429 | exactly that element leaves its bucket and the set |
| `HashTable.Hash.Rehash` | src/lib/kernel/hash.c:351-413 | the same elements, each in the bucket of its hash; with memory, fewer than four per bucket and at least two unless there are four buckets; without, the old buckets |
| `HashTable.Hash.Insert` | src/lib/kernel/hash.c:98-110 | returns the equal element and changes nothing, or adds the new one |
| `HashTable.Hash.Replace` | src/lib/kernel/hash.c:114-127 | the new element takes the place of the equal one, which is returned |
| `HashTable.Hash.Find` | src/lib/kernel/hash.c:131-135 | an equal element, if and only if there is one |
| `HashTable.Hash.Delete` | src/lib/kernel/hash.c:144-154 | the equal element is removed and returned, if there is one |
| `HashTable.Hash.Size` | src/lib/kernel/hash.c:247-251 | elem_cnt is the number of elements and of list entries |
| `Heap.FloatStep` | src/lib/stdlib.c:96-123 | swapping an element with its greatest child moves the one place where the heap order may fail down |
| `Heap.RootIsGreatest` | src/lib/stdlib.c:131-152 | the root of a heap is not below any element |
| `Heap.RootToEnd` | src/lib/stdlib.c:131-152 | the root behind the heap extends the sorted end and leaves a heap but for its root |
| `Stdlib.DoSwap` | src/lib/stdlib.c:66-79 | byte by byte, two elements change places and no other byte changes |
| `Stdlib.DoCompare` | src/lib/stdlib.c:85-91 | compares the two elements at 1-based indexes |
| `Stdlib.Heapify` | src/lib/stdlib.c:96-123 | floating an element down makes a heap of the elements from it on; it only rearranges the first cnt elements |
| `Stdlib.Sort` | src/lib/stdlib.c:131-152 | for any total preorder the bytes end up as the same elements in order |
| `Stdlib.BinarySearch` | src/lib/stdlib.c:184-207 | the offset of an element that matches, or none matches |
| `Stdlib.SortThenSearch` | src/lib/stdlib.c:131-207 | a search after a sort succeeds if and only if some element matched before |
| `KernelArenas.BlockToArena` | src/threads/malloc.c:267-282 | rounding a block's address down to a page gives its arena |
| `KernelArenas.AddressInjective` | src/threads/malloc.c:285-294 | different blocks have different addresses |
| `KernelArenas.LiveBlocksApart` | src/threads/malloc.c:89-154 | live blocks, small and big, do not overlap |
| `KernelArenas.FreeCountIsExact` | src/threads/malloc.c:218-264 | an arena's free_cnt is the number of its blocks on its descriptor's list |
| `KernelArenas.AddArenaInv` | src/threads/malloc.c:124-146 | cutting a fresh page into blocks keeps the invariant and makes nothing live |
| `KernelArenas.TakeInv` | src/threads/malloc.c:148-153 | taking the front block makes exactly it live |
| `KernelArenas.GiveInv` | src/threads/malloc.c:238-242 | giving a block back makes exactly it free |
| `KernelArenas.DropArenaInv` | src/threads/malloc.c:241-253 | dropping an arena all of whose blocks are free keeps the invariant |
| `KernelArenas.LastBlock` | src/threads/malloc.c:241-253 | the count reaches blocks_per_arena if and only if no other block of the page is live |
| `KernelMalloc.PageCountIs` | src/threads/malloc.c:105-120 | the fewest pages that hold the request and the header when the rounding does not wrap around; when it does, no page, but one page for the eleven largest sizes |
| `KernelMalloc.HugeRequestGetsOnePage` | src/threads/malloc.c:105-120 | a request of 4 GiB - 1 asks for one page |
| `KernelMalloc.Allocator.constructor` | src/threads/malloc.c:71-85 | seven descriptors, 16 bytes to 1 kB, doubling, each with as many blocks to a page as fit |
| `KernelMalloc.Allocator.FindDesc` | src/threads/malloc.c:100-105 | the first descriptor large enough, or none is |
| `KernelMalloc.Allocator.Malloc` | src/threads/malloc.c:89-154 | null and no change exactly for size 0 or when the page allocator refuses what is needed, else a block that was not live: the front of the free list of the smallest class that serves the size, the first of a new page, or whole pages; it is smaller than asked for if and only if the size is one of the eleven largest and there is a free page; live blocks stay where and what they are |
| `KernelMalloc.Allocator.Free` | src/threads/malloc.c:218-264 | exactly the block stops being live, and its page goes back if and only if no other block in it is live; otherwise the block comes to the front of its free list |
| `KernelMalloc.EntriesLieInArenas` | src/threads/malloc.c:241-253 | every free-list entry lies in a page that is still held |
| `Arithmetic.Nlz` | src/lib/arithmetic.c:41-73 | shifting by the result brings the leading one to bit 31 |
| `Arithmetic.SmallDivisor` | src/lib/arithmetic.c:80-112 | for a 32-bit divisor the two partial quotients add up and the divide does not trap |
| `Arithmetic.SmallError` | src/lib/arithmetic.c:119-125 | clearing the low bits of a normalised divisor changes the quotient by less than one |
| `Arithmetic.Estimate` | src/lib/arithmetic.c:119-125 | the estimate is the quotient or one more |
| `Arithmetic.Correction` | src/lib/arithmetic.c:119-125 | the final comparison tells which, and its subtraction does not wrap |
| `Arithmetic.Udiv64` | src/lib/arithmetic.c:77-127 | the floor of the quotient for all 64-bit operands, with no trap in either use of divl |
| `Arithmetic.Sdiv64` | src/lib/arithmetic.c:139-146 | rounds toward zero for every pair but the least number and -1, where it returns the least number |
| `OctalText.PaddedValue` | src/lib/stdio.c:469-547 | zero-padded octal digits denote the number and fill the width exactly when the number fits |
| `OctalText.Output.Emit` | src/lib/stdio.c:45-52 | what fits is stored, everything is counted, and nothing outside the buffer changes |
| `OctalText.Output.Dup` | src/lib/stdio.c:550-555 | emits as many copies as asked |
| `OctalText.Output.FormatInteger` | src/lib/stdio.c:469-547 | emits the padded digits, most significant first |
| `OctalText.Snprintf` | src/lib/stdio.c:25-72 | the text, cut to the buffer, and a null; nothing else changes |
| `OctalText.ParseOctalField` | src/lib/ustar.c:129-162 | accepts exactly digits followed by a space or null whose value fits, and returns that value |
| `OctalText.PrintedIsRead` | src/lib/ustar.c:129-162 | a printed field is accepted and read as the number printed |
| `Ustar.Strip` | src/lib/ustar.c:65-73 | the loop computes the stripped name |
| `Ustar.StripsPieces` | src/lib/ustar.c:65-73 | stripping drops the pieces "/", "./" and "../" at the front, as many as there are, and nothing else; an empty rest or ".." becomes "." |
| `Ustar.EveryNameHasPieces` | src/lib/ustar.c:65-73 | every name is such pieces and a rest that starts with none of them |
| `Ustar.StrippedIsSocial` | src/lib/ustar.c:65-73 | a stripped name starts with no antisocial prefix, is neither empty nor "..", and is not changed by stripping again |
| `Ustar.StrippedIsSuffix` | src/lib/ustar.c:65-73 | stripping drops a prefix only, but for "." |
| `Ustar.CalculateChksum` | src/lib/ustar.c:36-54 | the sum of the octets with spaces for the checksum field |
| `Ustar.ChecksumIgnoresItself` | src/lib/ustar.c:36-54 | headers that differ in the checksum field only have the same checksum |
| `Ustar.Strlcpy` | src/lib/string.c:327-345 | at most size - 1 bytes of the source and a null; nothing else changes |
| `Ustar.MakeHeader` | src/lib/ustar.c:82-118 | fails if and only if the stripped name is longer than 99 bytes, else all 512 bytes are as the format says, checksum included |
| `Ustar.FixedBytes` | src/lib/ustar.c:83-122 | the mode, owner, time, magic and version bytes of a composed header, and the nulls, are the literal ones |
| `Ustar.IsAllZeros` | src/lib/ustar.c:166-173 | true if and only if every byte is null |
| `Ustar.ParseHeader` | src/lib/ustar.c:181-227 | end of archive, the first thing that is wrong, or name, type and size |
| `Ustar.RoundTrip` | src/lib/ustar.c:82-227 | a composed header is accepted with its name, type and size, unless a regular file's size was negative |
| `Ustar.MakeThenParse` | src/lib/ustar.c:82-227 | composing and parsing returns the stripped name, the type and the size, 0 for directories |
| `Synch.SemaphoreLaw` | src/threads/synch.c:65-124 | in every run the value is initial + ups - completed downs, and while a thread sleeps it is at most the number of woken threads that have yet to retry |
| `Synch.DownTakesOrSleeps` | src/threads/synch.c:65-104 | in every run a down takes a unit if there is one and otherwise goes to sleep behind the others; a try never sleeps |
| `Synch.SleptLongestIsWoken` | src/threads/synch.c:65-124 | in every run sema_up wakes exactly one sleeper, the one that went to sleep first |
| `Synch.SemaStepInv` | src/threads/synch.c:65-124 | every semaphore step keeps that |
| `Synch.AtMostOneHolder` | src/threads/synch.c:196-249 | in every run at most one thread is between a completed acquire and its release |
| `Synch.FreeLockIsTaken` | src/threads/synch.c:196-249 | if a thread sleeps on a lock then a thread is inside or a woken one is on its way, and can take its next step |
| `Synch.LockStepInv` | src/threads/synch.c:196-249 | the one unit of a lock is with its semaphore or with exactly one thread |
| `Condition.SignalTakesFront` | src/threads/synch.c:324-335 | a signal takes the waiter in front off the queue, and no other has waited longer |
| `Condition.QueueInOrder` | src/threads/synch.c:296-335 | in every run the queue stands in the order in which the waiters came |
| `Condition.MonitorLock` | src/threads/synch.c:296-335 | the lock of the monitor goes through the lock steps of the run and no others |
| `Condition.SignalIsNotLost` | src/threads/synch.c:300-335 | a signalled waiter never sleeps and its next step ends the wait, even if it had not gone to sleep when the signal came |
| `Condition.NoSignalNoReturn` | src/threads/synch.c:300-315 | a waiter on the queue stays in its wait |
| `Condition.BroadcastTakesAll` | src/threads/synch.c:343-351 | a broadcast leaves nobody on the queue and nobody unsignalled |
| `Condition.QueueBelongsToHolder` | src/threads/synch.c:300-335 | only the holder of the lock changes the queue, and nobody else is inside then |
| `RwLock.StepSeparate` | src/filesys/rw-lock.c:24-140 | every step keeps each thread in one place and the three counters true |
| `RwLock.StepExclusive` | src/filesys/rw-lock.c:24-140 | every step keeps writers exclusive and the readers' turn free of writers |
| `RwLock.StepAttended` | src/filesys/rw-lock.c:24-140 | every step keeps somebody responsible for each kind of sleeper |
| `RwLock.MutualExclusion` | src/filesys/rw-lock.c:24-140 | in every interleaving at most one writer, and never a reader beside it |
| `RwLock.SleepersAreAttended` | src/filesys/rw-lock.c:24-140 | in every interleaving, if a thread sleeps then a thread holds the lock or has been woken and not yet run, and can take its next step |
| `RwLock.WriterAssertions` | src/filesys/rw-lock.c:71-140 | the assertions on num_writers hold |
| `RwLock.WokenReadersGoFirst` | src/filesys/rw-lock.c:120-140 | after a writer hands over, no writer enters and no woken reader goes back to sleep until a reader has left |
| `RwLock.ReadersTurn` | src/filesys/rw-lock.c:24-140 | in every run it is the readers' turn if and only if a writer has left while readers waited and no reader has left since |
| `RwLock.PendingWriterIs` | src/filesys/rw-lock.c:71-94 | in every run a writer is pending if and only if one has gone to sleep and no woken writer has run since |
| `RwLock.WhoGetsIn` | src/filesys/rw-lock.c:24-94 | a reader gets in if and only if it is the readers' turn or no writer is inside or pending, a writer if and only if nobody is inside and it is not the readers' turn; else they sleep behind the others |
| `RwLock.WhoIsWoken` | src/filesys/rw-lock.c:50-140 | a writer that leaves while readers wait wakes all of them and no writer, and it is their turn; otherwise, and when a reader leaves, the writer that has slept longest wakes |
| `RwLock.ReadersGoFirst` | src/filesys/rw-lock.c:118-140 | every reader that waits when a writer leaves is inside before any writer, as long as no reader has left |
| `RwLock.WriterOvertakes` | src/filesys/rw-lock.c:50-94 | without that condition it fails: when the last reader inside leaves, the next writer to ask gets in, whoever else was woken |
| `RwLock.ReaderOvertaken` | src/filesys/rw-lock.c:24-140 | a run in which a woken reader is overtaken by a writer and sleeps again |
| `RingBuffer.NextIsRemainder` | src/lib/kernel/queue.c:39-44 | the wrap-around of an index is the remainder by the capacity |
| `RingBuffer.EmptyIsNone` | src/lib/kernel/queue.c:31-44 | the tests for empty and full are exact |
| `RingBuffer.PushAppends` | src/lib/kernel/queue.c:83-105 | storing at the advanced tail appends one item |
| `RingBuffer.PopTakesFirst` | src/lib/kernel/queue.c:63-80 | reading at the advanced head takes the oldest item |
| `Channel.StepInv` | src/filesys/pipe.c:40-156 | every step, closing an end included, keeps the order and bounds of the items, the wakeups, and the account of every item offered |
| `Channel.FirstInFirstOut` | src/lib/kernel/queue.c:63-105 | in every interleaving the items removed are a prefix of those accepted, the ring holds the rest in order, within the true capacity |
| `Channel.NoLostWakeup` | src/filesys/pipe.c:56-103 | a consumer asleep beside an item implies a woken consumer, a producer asleep beside a free spot a woken producer |
| `Channel.NotBothAsleep` | src/lib/kernel/queue.c:63-105 | producers and consumers never all sleep |
| `Channel.ItemsAreConserved` | src/filesys/pipe.c:56-103 | in every interleaving every item brought so far was accepted exactly once, or is carried by exactly one waiting producer, or was dropped |
| `Channel.DropsOnly` | src/lib/kernel/queue.c:83-105 | an item is dropped only when the ring is full, on the first try of a queue that discards or, on any try, once the read end is closed |
| `Channel.EnqueueOutcome` | src/lib/kernel/queue.c:83-105 | every try to enqueue: with room the item joins at the end and the consumer asleep longest wakes; without, it is dropped if and only if the read end is closed or a discarding queue tries first, else the producer sleeps behind the others with it |
| `Channel.DequeueOutcome` | src/lib/kernel/queue.c:62-79 | every try to dequeue: the oldest item leaves and the producer asleep longest wakes; without items the consumer sleeps behind the others, or returns if the write end is closed |
| `Channel.EndsOpen` | src/filesys/pipe.c:128-156 | in every run an end is open until it is closed, and its signal is due from then until it is given |
| `Channel.NothingIsLost` | src/filesys/pipe.c:83-103 | without discarding and with the read end open no item is ever dropped |
| `Channel.AfterCloseWrite` | src/filesys/pipe.c:127-156 | once the write end is closed and signalled, no consumer falls asleep and exactly one, the first, wakes for each item still accepted |
| `Channel.AfterCloseRead` | src/filesys/pipe.c:127-156 | the same for producers and items still removed once the read end is closed |
| `Channel.StrandedByCloseWrite` | src/filesys/pipe.c:127-156 | if nothing is accepted after the signal all consumers get away if and only if at most one was asleep at it; the others sleep for good |
| `Channel.StrandedByCloseRead` | src/filesys/pipe.c:127-156 | the same for producers at the closing of the read end |
| `Channel.CloseStrandsAConsumer` | src/filesys/pipe.c:127-156 | a run that ends with a closed write end, an empty ring, one consumer asleep and nobody to wake it |
| `TlbShootdown.StepInv` | src/userprog/pagedir.c:323-383 | every step, context switches and TLB fills included, keeps the account of who has yet to acknowledge |
| `TlbShootdown.ShootdownComplete` | src/userprog/pagedir.c:357-383 | when the wait ends every other CPU has acknowledged exactly once and no CPU holds a translation of the page directory older than the change |
| `TlbShootdown.CounterIsExact` | src/userprog/pagedir.c:357-383 | the counter is the number of CPUs yet to acknowledge and never negative |
| `TlbShootdown.PhaseHistory` | src/userprog/pagedir.c:357-383 | in every run the lock is held from its taking to its release, and the interrupts are out from their sending to the release |
| `TlbShootdown.VersionIsChanges` | src/userprog/pagedir.c:357-383 | in every run the version of a page directory is the number of its changes |
| `TlbShootdown.TlbHistory` | src/userprog/pagedir.c:323-383 | in every run a TLB holds exactly what was cached in it since a switch, or a flush of the page directory active there, last emptied it |
| `TlbShootdown.NoStaleTranslation` | src/userprog/pagedir.c:357-383 | when a flush ends, no CPU that has the page directory active holds a translation from before the changes made when the flush began |
| `TlbShootdown.FlushGoesOn` | src/userprog/pagedir.c:345-383 | in every run the next step of a flush can be taken until the lock is released |
| `TlbShootdown.FlushEnds` | src/userprog/pagedir.c:345-383 | each step of a handler leaves one less to take, no other step adds one, and the lock can be released exactly when none is left |
| `Cfs.RoundLength` | src/threads/scheduler.c:280-289 | the slices of n runnable threads add up to more than 4000000 n - n and at most 4000000 n nanoseconds |
| `Cfs.NicerIsLighter` | src/threads/scheduler.c:29-40 | weight strictly falls with niceness, by between a ninth and a third for each step |
| `Cfs.NicerGetsNoMore` | src/threads/scheduler.c:280-289 | a nicer thread never gets a longer slice |
| `Cfs.FairAdvance` | src/threads/scheduler.c:270-289 | a full slice advances any two threads' virtual run times by amounts that differ by less than 70, whatever their nice values |
| `Cfs.TotalOfPermutation` | src/threads/scheduler.c:231-244 | the total weight does not depend on the order of the threads |
| `Scheduler.DefaultThreadIsChargedItsTime` | src/threads/scheduler.c:270-276 | a thread of default nice value is charged the time it ran, with either bonus |
| `Scheduler.SliceIsSettled` | src/threads/scheduler.c:280-289 | while the same threads are runnable a slice does not depend on which of them is current |
| `Scheduler.ReadyQueue.constructor` | src/threads/scheduler.c:58-65 | an empty queue |
| `Scheduler.ReadyQueue.SetMinVruntime` | src/threads/scheduler.c:194-211 | the least nonzero virtual run time of the runnable threads, or 0 |
| `Scheduler.ReadyQueue.QueueTotalWeight` | src/threads/scheduler.c:231-244 | the weight of the current and all ready threads together |
| `Scheduler.ReadyQueue.CalcIdealRuntime` | src/threads/scheduler.c:280-289 | the slice of a thread among the runnable ones |
| `Scheduler.ReadyQueue.FindThread` | src/threads/scheduler.c:248-266 | no ready thread has less virtual run time, or as much and a smaller id |
| `Scheduler.ReadyQueue.PickNext` | src/threads/scheduler.c:142-153 | the least thread by virtual run time and id leaves the list, which otherwise stays, and nr_ready stays its length |
| `Scheduler.ReadyQueue.Yield` | src/threads/scheduler.c:121-130 | the thread joins the list with its run accounted for |
| `Scheduler.ReadyQueue.Unblock` | src/threads/scheduler.c:79-114 | the run of the current thread is accounted for and the least virtual run time refreshed, which is 0 or that of a runnable thread and not above that of any other that counts; a thread that slept joins the list at its own virtual run time with its last run charged, or 20 ms behind the least one if that is later; nr_ready stays the length |
| `Scheduler.ReadyQueue.Reschedule` | src/threads/scheduler.c:121-153 | yielding and picking keep the set of runnable threads, charge the one that ran and no other, and make the least one by virtual run time and id current |

## Left out

- User `realloc`, kernel `calloc` and `realloc`.
- `write_lock_try_acquire` as a step of the read-write lock; the cache uses it only as a test that a block is not held.
- Concurrent misses in the buffer cache, read-ahead, write-behind and prefetching: every cache call is one step here.
- What becomes of a file after a write that failed on a full disk, and the file in which the free map is kept.
- `umod64` and `smod64`, whose results are cut to 32 bits.
- The `less`-ordered insertion, reversal, uniqueness and extrema functions of the list library, and hash iteration.
- printf conversions other than zero-padded unsigned octal, and the parsing of format strings.
- `pipe_read` and `pipe_write`, which treat a zero byte as the end of data.
- `balance_load` and the timer tick.
- Device drivers, boot, descriptor tables, context switching, process loading, system calls, path lookup, the shell and user programs.
- UserHeap.Heap.Malloc: the heap stays below 2^29 words and the allocator is the only caller of sbrk.
- UserHeap.Heap.Store: words are written whole; a store of single bytes is a store of the word that results.
- Cache.BufferCache.GetBlock: needs a block that can be given up and a lock that can be had, as waiting for them is not modelled.
- Inode.FileSystem.Replace: every access takes and releases its own block; the inode code keeps the block of the inode while it works on a table, which makes no difference to a single thread.
- Inode.FileSystem.LookupIndirectTable: needs as many free sectors as slots on the way are empty; `InodeFull` covers fewer.
- Inode.FileSystem.LookupDoubleIndirectTable: needs as many free sectors as slots on the way are empty; `InodeFull` covers fewer.
- Inode.FileSystem.ByteToSector: needs as many free sectors as slots on the way are empty; `InodeFull` covers fewer.
- Inode.FileSystem.WriteAndReadBack: needs as many free sectors as the write has to allocate.
- Inode.FileSystem.WriteAt: needs as many free sectors as it has to allocate and an end within the index, so that allocation never fails.
- Inode.FileSystem.Create: needs the sectors for its last block and an inode sector that is marked in use.
- KernelList.List.Splice: covers a range that comes after the element it moves in front of, in the same list, as inplace_merge uses it; the range may not start at that element, where the assignments would tie the list into a ring.
- HashTable.Hash.Rehash: whether the allocation succeeds is a parameter, and buckets are sequences, whose links `KernelList` models.
- KernelMalloc.Allocator.Malloc: the page allocator is a function from a page count to a first page that is free, and the descriptor locks are not modelled.
- Arithmetic.Udiv64: the divide instruction is a method that requires its quotient to fit 32 bits.
- Arithmetic.Sdiv64: negation of the least number wraps around, which C leaves undefined.
- Synch.SemaphoreLaw: the value does not wrap around at 2^32.
- Condition.SignalIsNotLost: a waiter is known by its thread, which waits for one condition at a time.
- RwLock.MutualExclusion: a thread holds or waits for the lock once at a time.
- Channel.FirstInFirstOut: a queue or pipe outlives its users, and memory for the ring was granted.
- TlbShootdown.ShootdownComplete: every interrupt that was sent can be taken, and the initiating thread runs under its own page directory, which is not the one changed.
- Scheduler.ReadyQueue.Unblock: calc_vruntime with bonus 0 reads before the start of its table for a negative nice value; the word it finds there is a parameter and not 0.
- Scheduler.ReadyQueue.CalcIdealRuntime: products do not wrap around at 2^63.
