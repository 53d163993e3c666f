# A Pintos kernel, modelled and proved in Dafny

This project models the parts of a Pintos kernel that stand without hardware and proves what they promise: its linked
lists and their merge sort, its scheduler and synchronization primitives under every interleaving, its layered
allocators, its file system from sectors to directories, and its arithmetic and codecs. `dafny verify dfyconfig.toml`
checks all of it.

| module | models | main results |
|---|---|---|
| `NaturalMerge`, `KernelList`, `ListUnique` | `lib/kernel/list.c` | `list_sort` relinks a doubly linked list in place into the one stable sorted permutation; each pass halves the number of runs |
| `Threads`, `ThreadInvariants`, `SemaphoreSafety`, `LockSafety`, `ConditionSafety`, `KernelRuns`, `KernelCalls` | `threads/synch.c`, `threads/thread.c` | a step system with any number of threads; invariants of every reachable state, theorems over every run, and what each call does in terms of the calls alone |
| `Words`, `Bitmap` | `lib/kernel/bitmap.c` | 32-bit words refine a sequence of bits |
| `Palloc` | `threads/palloc.c` | every interleaving of single-bit steps: no page has two owners and none is lost; the pools do not overlap |
| `HeapModel`, `Malloc` | `threads/malloc.c` | blocks in use are disjoint, arena counters exact, malloc and free undo each other, everything freed returns every page |
| `Sectors`, `FreeMap`, `FreeMapFile`, `InodeTree`, `InodeData`, `FileIsolation` | `filesys/inode.c`, `filesys/free-map.c` | the index tree is read back as it was allocated; reads and writes refine a flat byte sequence; which files share a sector, and that writing one leaves the others; the free map on the device is the one in memory |
| `Directory`, `OpenFiles` | `filesys/directory.c`, `filesys/file.c` | a directory refines a finite map, and exactly when, if reads fail; write denials are counted exactly |
| `HashTable`, `HeapSort` | `lib/kernel/hash.c`, `lib/stdlib.c` | a chained table refines a set under resizing; heapsort and binary search |
| `Arithmetic`, `Stdio`, `Ustar`, `ElfLoad` | `lib/arithmetic.c`, `lib/stdio.c`, `lib/ustar.c`, `userprog/process.c` | exact 64-bit division, print/read and make/parse round trips, segment loading |

`Basics` holds what several modules share.

## How the model is built

- Objects that the source updates in place are classes with ghost views; every method states its new view in terms of
  the old one. Lists are linked through `prev` and `next` fields; bitmaps are arrays of words; a device is its sectors.
- Concurrency is a step system over values. A section with interrupts off is one step; a thread's place in the code is
  its control point; any thread may lose the processor between steps.
- What the model cannot see is an input: whether memory is available, what a write of the free map puts on the device,
  whether an inode can be opened or a page mapped.
- Machine arithmetic that matters is written out modulo its width.

## Where the code falls short of its comments

The model follows the code. These are the places where a promise in a comment does not hold as stated, each with the
exact condition under which it does:

- `malloc` promises a block of at least SIZE bytes; the size plus the 12-byte header wraps in 32 bits
  (`HeapModel.TakenEnough`: the block is large enough exactly when SIZE is at most 2^32 - 12; `HeapModel.TakenShort`: a
  request for 2^32 - 1 bytes gets 4084).
- `calloc` means to refuse products that do not fit; its check misses some (`Malloc.CallocWraps`,
  `Malloc.Heap.Calloc`: the block holds the product exactly when the product is at most 2^32 - 12).
- `umod64` and `smod64` return 32 bits (`Arithmetic.Umod64Exact`, `Arithmetic.Smod64Exact`: exact for every dividend just
  if the divisor is at most 2^32, or 2^31 in absolute value).
- `compute_total_sectors` rounds the number of second-level blocks down (`InodeTree.SlotCovered`: the last logical
  sector gets no sector exactly when there are more than 124 and the rest is not a multiple of 128). Its pointer is 0,
  the sector of the free map's inode (`FileIsolation.FreeBefore`, `FileIsolation.FilesApart`: two files share no sector
  exactly when not both have such a count).
- `write_sectors_to_disk` ignores failed allocations (`InodeTree.FreshExactly`: the file gets sectors of its own exactly
  when every write of the free map succeeds; `InodeTree.StalePosition`, `InodeTree.StaleStartExample`: otherwise a sector
  is used twice, or one that was in use).
- `dir_add` relies on short reads happening only at the end of the file; `inode_read_at` also stops short when it gets no
  bounce buffer. `Directory.AddRefines`: the map gains the name and loses nothing exactly when nothing is written, or the
  reads up to an entry with the name and the reads before the first free entry succeed. Otherwise a name is there twice
  (`Directory.DuplicateExample`) or another file's name is overwritten (`Directory.LostExample`).
- `dir_remove` promises to fail only for want of the name, and `dir_readdir` only at the end (`Directory.RemoveRefines`,
  `Directory.ListAll`: exactly while the reads they need succeed).
- `ustar_make_header` accepts a negative size, which its reader refuses (`Ustar.RoundTrip`).

## Model

| member | source | states |
|---|---|---|
| NaturalMerge.PassHalves | lib/kernel/list.c:398-440 | one pass leaves half as many runs, rounded up |
| NaturalMerge.PassElements | lib/kernel/list.c:398-440 | one pass rearranges: the same elements, each as often |
| NaturalMerge.MergeStable | lib/kernel/list.c:374-399 | a merge keeps the relative order of equivalent elements |
| NaturalMerge.MergeNoDescents | lib/kernel/list.c:374-399 | merging two sorted runs gives a sorted run |
| NaturalMerge.RunEndMaximal | lib/kernel/list.c:353-372 | the run found is nondecreasing and cannot be extended |
| NaturalMerge.SortCorrect | lib/kernel/list.c:401-440 | under any strict weak order the passes end in a sorted, stable rearrangement of the input |
| NaturalMerge.StableSortUnique | lib/kernel/list.c:401-440 | there is only one such rearrangement, so the result is determined |
| KernelList.List.Reverse | lib/kernel/list.c:324-337 | the elements are in reverse order and the links spell that out both ways |
| KernelList.MirrorTwice | lib/kernel/list.c:324-337 | reversing twice gives the list back |
| KernelList.List.Size | lib/kernel/list.c:296-306 | counts the elements between the headers |
| KernelList.List.PushBack | lib/kernel/list.c:216-220 | appends an element that is on no list |
| KernelList.List.PushFront | lib/kernel/list.c:208-212 | prepends an element that is on no list |
| KernelList.List.PopFront | lib/kernel/list.c:259-265 | takes the first element off |
| KernelList.Insert | lib/kernel/list.c:165-178 | the element comes just before the given one; nothing else moves |
| KernelList.Remove | lib/kernel/list.c:222-255 | the element is gone, the rest stays linked both ways, and its successor is returned |
| KernelList.Splice | lib/kernel/list.c:180-204 | a range moves in front of another element of its list, in order |
| KernelList.SpliceInto | lib/kernel/list.c:180-204 | a range moves from one list in front of an element of another; both stay linked both ways |
| KernelList.FindEndOfRun | lib/kernel/list.c:353-372 | returns the end of the maximal nondecreasing run |
| KernelList.InplaceMerge | lib/kernel/list.c:374-399 | relinks two adjacent runs into their stable merge and touches nothing outside them |
| KernelList.SortPass | lib/kernel/list.c:405-440 | one pass over the list is one pass on its sequence, and returns the number of runs left |
| KernelList.Sort | lib/kernel/list.c:401-440 | the list is valid, sorted, and a stable rearrangement of what it was |
| ListUnique.MakeUnique | lib/kernel/list.c:461-486 | of adjacent equal elements the first stays; the others leave it and are appended in order to the list of duplicates, if there is one |
| ListUnique.AllThere | lib/kernel/list.c:461-486 | every element is kept or dropped, none lost |
| ListUnique.KeptSorted | lib/kernel/list.c:461-486 | on a sorted list exactly one element of each class is left, in strict order |
| ListUnique.UniqueIs | lib/kernel/list.c:461-486 | under any strict weak order the elements left are the first and each that differs from the one before it; the rest are the duplicates; both keep their order |
| ThreadInvariants.BaseStep | threads/thread.c:227-257 | every step keeps one running thread, an exact ready list, and blocked threads exactly on wait lists |
| SemaphoreSafety.WakeStep | threads/synch.c:60-121 | every step keeps the bound on values of semaphores with waiters |
| SemaphoreSafety.LedgerStep | threads/synch.c:60-135 | every step keeps initial value plus ups equal to value plus downs |
| LockSafety.LockStepKeeps | threads/synch.c:190-251 | every step keeps lock ownership exclusive, also while the holder field lags |
| ConditionSafety.CondStepKeeps | threads/synch.c:302-353 | every step keeps waiters, signals, broadcasts and returns accounted for |
| KernelRuns.StepKeeps | threads/synch.c:60-353 | every step of any thread keeps the whole invariant |
| KernelRuns.RunKeeps | threads/synch.c:60-353 | the invariant holds in every state of every run |
| KernelRuns.OneListEach | threads/thread.h:78-83 | a thread's list element is on at most one list, once |
| KernelRuns.OneRunning | threads/thread.c:227-257 | exactly one thread runs; the ready list is exactly the ready threads other than idle |
| KernelRuns.NoLostWakeUp | threads/synch.c:60-121 | a semaphore with waiters is no higher than the threads already woken from it, and those are running or ready |
| KernelRuns.WakesInOrder | threads/synch.c:102-121 | ups of a semaphore or lock make its waiters ready oldest first |
| KernelRuns.ValueConserved | threads/synch.c:60-135 | initial value plus ups is value plus completed downs |
| KernelRuns.MutualExclusion | threads/synch.c:190-262 | a lock's value plus the threads between its down and its up is one, and its holder is that thread |
| KernelRuns.RoundRobin | threads/thread.c:536-612 | a thread at place k of the ready list moves up with each switch and runs at the (k+1)-th |
| KernelRuns.ReadyTaken | threads/thread.c:536-612 | a switch gives the processor to the front of the ready list, or to idle |
| KernelRuns.ReadyKept | threads/thread.c:246-257 | without a switch the ready list only grows at its back |
| KernelRuns.SignalsInOrder | threads/synch.c:326-340 | signals release queued waiters oldest first |
| KernelRuns.SignalFindsWaiter | threads/synch.c:302-340 | a signal finds its waiter inside cond_wait with its semaphore down, asleep or not |
| KernelRuns.SignaledWaiterRuns | threads/synch.c:302-340 | a signaled waiter is never left blocked |
| KernelRuns.OneReturnPerSignal | threads/synch.c:302-340 | returns of cond_wait never exceed signals; the difference is the waiters on their way out |
| KernelRuns.ReturnHoldsLock | threads/synch.c:302-318 | cond_wait returns to the one thread that holds the lock |
| KernelRuns.BroadcastReleasesAll | threads/synch.c:342-353 | broadcast leaves an empty queue after one signal for each waiter it found; without waiters nobody need hold the lock |
| KernelCalls.StepLaw | threads/synch.c:60-135 | which events are ups, downs, sleeps and tests of which semaphore, and what each does: an up adds one and wakes the first waiter, a down takes one, anything else leaves it |
| KernelCalls.ValueCounted | threads/synch.c:60-135 | between any two states of a run a value changes by the ups less the downs among the events, counted on the events themselves |
| KernelCalls.WaitersFifo | threads/synch.c:60-121 | a wait list is what it was, then everybody who went to sleep since, less as many from the front as were woken |
| KernelCalls.UpRaises | threads/synch.c:109-121 | sema_up adds one, takes the first waiter off the list and puts it last on the ready list |
| KernelCalls.WokenRuns | threads/synch.c:109-121 | that waiter runs after as many switches as threads were ready before it, and one more |
| KernelCalls.TriesTake | threads/synch.c:83-102 | sema_try_down and lock_try_acquire take exactly when the value is positive, and else change nothing |
| KernelCalls.StepCondLaw | threads/synch.c:302-353 | cond_wait queues its caller last; a signal on a queue takes its front and goes on to that waiter; nothing else touches a condition |
| KernelCalls.QueueFifo | threads/synch.c:302-353 | a condition's queue is what it was, then the callers of cond_wait since, less as many from the front as were signaled |
| KernelCalls.OwnWork | threads/synch.c:60-353 | each step of a thread takes the ups and downs it makes off what its call still owes |
| KernelCalls.CallDone | threads/synch.c:60-353 | when a call returns, its thread has made the ups and downs that the call is there for, each once, and no others |
| KernelCalls.ReturnsHolding | threads/synch.c:207-236 | lock_acquire, and a lock_try_acquire that succeeds, return with the lock held by their caller alone |
| KernelCalls.HolderLaw | threads/synch.c:207-251 | the holder field changes only where a lock is taken or let go, to the taker or to nobody |
| KernelCalls.NeverStuck | threads/synch.c:60-353 | in every state of every run the running thread can go on, or may make exactly the calls whose assertions hold |
| KernelCalls.CreateReturns | threads/thread.c:168-219 | thread_create makes a thread that was not there and returns with it last on the ready list, ready to run |
| Bitmap.OneBitOps | lib/kernel/bitmap.c:157-202 | or, and-not and xor with a mask set, clear and flip that bit of a word and no other |
| Bitmap.Map.Mark | lib/kernel/bitmap.c:156-167 | sets one bit |
| Bitmap.Map.Reset | lib/kernel/bitmap.c:169-180 | clears one bit |
| Bitmap.Map.Flip | lib/kernel/bitmap.c:182-195 | flips one bit |
| Bitmap.Map.Test | lib/kernel/bitmap.c:197-204 | reads one bit |
| Bitmap.Map.SetMultiple | lib/kernel/bitmap.c:217-229 | fills a range and nothing else |
| Bitmap.Map.Contains | lib/kernel/bitmap.c:249-264 | some bit of the range has the value |
| Bitmap.Map.CountBits | lib/kernel/bitmap.c:231-247 | the number of bits of the range with the value |
| Bitmap.CountIs | lib/kernel/bitmap.c:231-247 | the count is the number of places with the value |
| Bitmap.ElemCntIs | lib/kernel/bitmap.c:49-54 | as few words as have room for the bits |
| Bitmap.Map.Scan | lib/kernel/bitmap.c:289-311 | the first group of that many equal bits, or none exists |
| Bitmap.Map.ScanAndFlip | lib/kernel/bitmap.c:313-327 | flips that group, or changes nothing when there is none |
| Palloc.StepKeeps | threads/palloc.c:70-142 | every single-bit step keeps held and claimed pages disjoint and marked, and none lost |
| Palloc.OneOwner | threads/palloc.c:70-142 | in no run does a page have two owners, or an owner while it is being handed out or freed |
| Palloc.Granted | threads/palloc.c:70-102 | the pages a call returns were nobody's and are its caller's from then on |
| Palloc.NoPageLost | threads/palloc.c:70-142 | in every run a page is marked exactly when it is held or claimed |
| Palloc.FreedStillSet | threads/palloc.c:117-142 | the bits a free call has yet to clear stay set, as its assertion demands |
| Palloc.FirstFit | lib/kernel/bitmap.c:289-327 | in every run a call takes the first group that it did not find in use, of the size asked for, and gives up only when it found a page in use in every group |
| Palloc.GetReturns | threads/palloc.c:70-101 | a request for pages takes the lock and returns by letting it go, with a group of the size asked for or for want of one |
| Palloc.FreeDone | threads/palloc.c:116-142 | a free call takes the pages from their owner and has cleared each of them when it returns |
| Palloc.CallEnds | threads/palloc.c:70-142 | however the steps of others fall between, a call takes no more steps of its own than a bound in the pages asked for and the size of the pool |
| Palloc.SomeGoOn | threads/palloc.c:70-142 | while a call is in progress some call can take a step: the pool never deadlocks |
| Palloc.BitmapFits | threads/palloc.c:151-171 | a pool is made exactly when its pages can hold a bitmap for them; the pages set aside hold a bit for each page left, and are no more than a bitmap for all needs |
| Palloc.PoolsApart | threads/palloc.c:43-63 | the pools and their bitmaps fill the free pages without overlap; a page is from one pool exactly, unless it is no free page or in a bitmap |
| Palloc.PoolSizes | threads/palloc.c:43-63 | the user pool has half the free pages, rounded down, or the limit if that is less |
| Malloc.Descriptors | threads/malloc.c:70-86 | the descriptors' block sizes are 16 to 1024, doubling |
| Malloc.Heap.GetPages | threads/palloc.c:64-102 | the first group of that many free pages, or none exists |
| Malloc.Heap.FreePages | threads/palloc.c:116-142 | the pages are free again and overwritten |
| Malloc.Heap.OtherTakes | threads/palloc.c:64-102 | another caller's pages are new to it and leave the heap valid |
| Malloc.Heap.OtherReturns | threads/palloc.c:116-142 | pages another caller held come back and leave the heap valid |
| Malloc.Heap.FindDesc | threads/malloc.c:100-104 | the smallest descriptor that fits, or one past the last |
| Malloc.Heap.CutPage | threads/malloc.c:138-142 | the new arena's blocks are on the free list, in order |
| Malloc.Heap.UncutPage | threads/malloc.c:245-251 | each block of an idle arena is on the free list when it is taken off |
| Malloc.Heap.Malloc | threads/malloc.c:87-154 | keeps the heap valid; fails only when the pages are not there; else the new state is the request met |
| Malloc.MetOrNot | threads/malloc.c:87-154 | malloc is out of memory exactly when no block and no new heap meet the request |
| Malloc.Heap.SizeOf | threads/malloc.c:177-186 | the capacity of a block in use |
| Malloc.Heap.Free | threads/malloc.c:216-264 | keeps the heap valid; the block is gone, the arena too if it was the last; exactly the freed bytes are overwritten |
| Malloc.Heap.Realloc | threads/malloc.c:188-214 | a new block beginning with the old one's bytes; no other block changes; size 0 frees, a null block is malloc; it fails exactly for want of memory, and then nothing changes |
| Malloc.Heap.Calloc | threads/malloc.c:156-175 | zeroes the block; it holds the product exactly when the product does not wrap; it fails only when the overflow check or malloc does |
| Malloc.CallocWraps | threads/malloc.c:164-167 | the overflow check lets 65537 * 65537 through as 131073, and a pool of 33 pages gives a block of 135156 bytes for it |
| Malloc.WipedApart | threads/malloc.c:216-264 | free overwrites no byte of another block, which stays where it was and as large |
| Malloc.WipedNotOthers | threads/malloc.c:216-264 | free overwrites no byte of a page somebody else holds |
| HeapModel.BlockAtIs | threads/malloc.c:284-294 | block i of an arena lies in the page, past the header, where block_to_arena expects it |
| HeapModel.PageCntExact | threads/malloc.c:105-109 | the pages for a large request suffice exactly when size plus header does not wrap |
| HeapModel.PageCntIs | threads/malloc.c:105-109 | as few pages as hold header and block, in 32-bit arithmetic; none when rounding up wraps |
| HeapModel.Layout | threads/malloc.c:70-86 | as many blocks to an arena as fit in a page after the header, at least three |
| HeapModel.TakenKeeps | threads/malloc.c:87-154 | handing out a block keeps the invariant and returns a block that was not in use |
| HeapModel.TakenEnough | threads/malloc.c:87-90 | the block is at least as large as asked for exactly when the size does not wrap |
| HeapModel.TakenShort | threads/malloc.c:87-119 | a pool of one page meets a request for 2^32 - 1 bytes with a block of 4084 |
| HeapModel.FreedKeeps | threads/malloc.c:216-264 | freeing keeps the invariant and takes exactly that block out of use |
| HeapModel.TakenFreed | threads/malloc.c:87-264 | malloc, then free of the block, leaves the heap exactly as it was: lists, counts, arenas and pages |
| HeapModel.FreedTaken | threads/malloc.c:87-264 | free of a block whose arena stays, then malloc of a size that fits it, gives that block and the heap as it was |
| HeapModel.FullIsIdle | threads/malloc.c:240-251 | an arena whose count reaches blocks_per_arena has every block on the free list, and the count never passes it |
| HeapModel.HoldsCovered | threads/malloc.c:71-154 | every byte of a block lies in its arena's pages, past the header |
| HeapModel.BlocksDisjoint | threads/malloc.c:71-154 | no byte belongs to two blocks in use |
| HeapModel.BlockApartFromOthers | threads/malloc.c:71-154 | blocks lie in used pages that nobody else holds |
| HeapModel.BlockApartFromHeaders | threads/malloc.c:33-47 | no block overlaps an arena header |
| HeapModel.NoIdleArena | threads/malloc.c:240-255 | every arena has a block in use |
| HeapModel.AllFreed | threads/malloc.c:216-264 | with no block in use malloc holds no page and its free lists are empty |
| Sectors.PackWord | filesys/inode.c:19-34 | a 32-bit word stored in a sector is read back |
| FreeMap.Table.constructor | filesys/free-map.c:11-20 | all sectors are free but those of the free map and the root directory |
| FreeMap.Table.Allocate | filesys/free-map.c:22-41 | the first group of free sectors; a failed write rolls back exactly; the device changes by what is written of the bitmap |
| FreeMap.Table.Release | filesys/free-map.c:43-50 | the sectors are free again, and the device changes by what is written of the bitmap |
| FreeMap.Table.Unused | filesys/free-map.c:87-92 | the number of free sectors |
| FreeMapFile.Store | lib/kernel/bitmap.c:355-362 | bitmap_write succeeds exactly when all bytes can be moved; then the file holds the bitmap; only sectors of the file change |
| FreeMapFile.Load | lib/kernel/bitmap.c:339-353 | bitmap_read succeeds exactly when all bytes can be moved; then the bitmap is the one the file holds |
| FreeMapFile.ReadBackMap | lib/kernel/bitmap.c:339-362 | a file holds one bitmap of a size, so what is read is what was written |
| FreeMapFile.Masked | lib/kernel/bitmap.c:63-70 | last_mask keeps every bit of the bitmap |
| FreeMapFile.Allocate | filesys/free-map.c:22-41 | with the file open: after a success the file on the device holds the new map; else the map is as it was, for want of a group or of a write |
| FreeMapFile.StoreIsPut | filesys/free-map.c:30-33 | a write of the bitmap puts sectors of the free map file on the device and nothing else |
| InodeTree.InodeRoundTrip | filesys/inode.c:19-28 | an on-disk inode is read back from its sector |
| InodeTree.SlotsApart | filesys/inode.c:449-501 | logical sectors are allocated in order, at places apart from index blocks |
| InodeTree.JustEnough | filesys/inode.c:36-42 | as few sectors as hold the bytes |
| InodeTree.NoneWasted | filesys/inode.c:428-501 | every allocation is a logical sector of the file, its first-level block, or the second-level block of a group in use |
| InodeTree.GroupsFit | filesys/inode.c:129-133 | a file within the size limit needs at most 128 second-level blocks, one for each group |
| InodeTree.SlotCovered | filesys/inode.c:427-446 | which logical sectors get a sector: all, or all but the last |
| InodeTree.PositionsFresh | filesys/inode.c:449-501 | with room and no failed write, the sectors handed out were free, are distinct and increase |
| InodeTree.FreshExactly | filesys/inode.c:449-501 | the sectors handed out are distinct, were free and are now marked, exactly when every write of the free map succeeds |
| InodeTree.StalePosition | filesys/inode.c:456-486 | a failed allocation after the first uses a sector twice |
| InodeTree.StaleStart | filesys/inode.c:451-463 | a failed first allocation uses a sector that is in use, not marked, or handed out again |
| InodeTree.StaleStartExample | filesys/inode.c:451-463 | a device where it uses a sector that is in use |
| InodeTree.ReadBack | filesys/inode.c:62-95 | byte_to_sector finds the sector allocated for each logical sector, or the zero left there |
| InodeTree.WriteSectors | filesys/inode.c:448-501 | the inode's pointers and the device, but for the free map file, are exactly the tree of the allocated sectors |
| InodeTree.Create | filesys/inode.c:107-155 | succeeds exactly when there is memory, the size is in bounds and sectors suffice, and leaves index and inode on the device; else changes nothing |
| InodeTree.CreatedSector | filesys/inode.c:62-95 | on a new inode byte_to_sector gives the allocated sector, and 0 for a last one that got none |
| InodeTree.CreatedInOrder | filesys/inode.c:107-155 | the sectors of a new file were free and come in allocation order |
| InodeTree.CreatedUsable | filesys/inode.c:107-155 | the sectors of a new file are distinct, on the device, and no index block |
| FileIsolation.SectorsOf | filesys/inode.c:107-155 | the sectors and index blocks of a new file are its own allocations, and sector 0 exactly when its last logical sector got none |
| FileIsolation.FreeBefore | filesys/inode.c:107-155 | every sector of a new file was free exactly when each logical sector got one |
| FileIsolation.FilesApart | filesys/inode.c:107-155 | two files made one after the other share no sector exactly when not both have a last sector that got none; no index block of one is a sector of the other |
| FileIsolation.WriteApart | filesys/inode.c:333-399 | writing a file leaves the contents of one that shares no sector with it |
| FileIsolation.WritesApart | filesys/inode.c:333-399 | so writing either of two such files leaves the contents of the other |
| FileIsolation.LastSectorShared | filesys/inode.c:62-95 | two files whose last sector is sector 0 always have the same bytes there |
| InodeData.SameMap | filesys/inode.c:62-95 | writing the file's own sectors does not move its map |
| InodeData.NextChunk | filesys/inode.c:290-330 | each chunk stays in its sector and in the file, and the loop ends with all that can be moved |
| InodeData.TransferredIs | filesys/inode.c:278-399 | the one number of bytes that meets Complete: no more than asked for or than the file has, all of it with a bounce buffer, and without one all up to the first part of a sector |
| InodeData.WriteChunk | filesys/inode.c:363-392 | writing one sector overwrites consecutive bytes of the file and no others |
| InodeData.WriteAt | filesys/inode.c:333-399 | the file's bytes from the offset on become the buffer's; its map and all other sectors stay; it stops only at the size, at the end of the file, for a denial, or for want of a bounce buffer before part of a sector |
| InodeData.ReadAt | filesys/inode.c:278-331 | the buffer begins with the file's bytes from the offset on; past them it is unchanged; it stops only at the size, at the end of the file, or for want of a bounce buffer before part of a sector |
| InodeData.WriteThenRead | filesys/inode.c:278-399 | what was written is what is read back, and the rest of the file is as it was |
| Directory.MapHas | filesys/directory.c:91-112 | a name in use is in the map with its sector |
| Directory.SearchAgrees | filesys/directory.c:86-112 | lookup finds a name exactly when an entry has it and the reads up to it succeed; it agrees with the map exactly when no such read fails |
| Directory.SlotFree | filesys/directory.c:158-168 | the entry that the scan stops at is free exactly when the reads before the first free entry succeed |
| Directory.Lookup | filesys/directory.c:86-112 | stops at the first entry in use under the name, or where reading stops |
| Directory.Add | filesys/directory.c:135-179 | writes the new entry in the first free slot or fails with the entries unchanged |
| Directory.AddRefines | filesys/directory.c:135-179 | names stay unique and the map gains a new name or is unchanged, exactly when nothing is written or no read it needs fails; then it fails only for a bad or used name, a full directory or a failed write |
| Directory.DuplicateName | filesys/directory.c:155-175 | a name that lookup missed is in the directory twice, in any directory |
| Directory.LostName | filesys/directory.c:158-175 | a name stored in an entry in use takes another file's name out of the map |
| Directory.DuplicateExample | filesys/directory.c:155-175 | a directory and a call where a name is then there twice |
| Directory.LostExample | filesys/directory.c:158-175 | a directory and a call where a name is lost |
| Directory.Remove | filesys/directory.c:181-216 | frees the entry found, or leaves all entries |
| Directory.RemoveRefines | filesys/directory.c:181-216 | names stay unique and the map loses the name or is unchanged, whatever fails; it fails only for want of the name, the open or the write exactly when no read that it needs fails |
| Directory.NamesAre | filesys/directory.c:218-236 | the names up to the first failed read are those of the entries reached, each once; all names exactly when no read fails at or before the last entry in use |
| Directory.Dir.ReadDir | filesys/directory.c:218-236 | returns the next name in use and moves past it, or stops where a read fails |
| Directory.ListAll | filesys/directory.c:218-236 | repeated dir_readdir lists each name it reaches once, and all of them exactly when no read fails at or before the last entry in use |
| OpenFiles.Table.Open | filesys/file.c:14-34 | fails exactly for want of memory; a sector that is open gets the same inode; counters stay exact |
| OpenFiles.Table.Close | filesys/file.c:44-54 | the denial goes with the file, and the inode with its last opener |
| OpenFiles.Table.DenyWrite | filesys/file.c:116-127 | at most one denial an opener, so the assertion on the counters holds |
| OpenFiles.Table.AllowWrite | filesys/file.c:129-141 | withdraws the opener's denial; the assertions on the counters hold |
| OpenFiles.Table.MayWrite | filesys/inode.c:346-347 | writing goes ahead exactly when no open file of the inode denies it |
| HashTable.TurnOffKeepsTop | lib/kernel/hash.c:329-341 | is_power_of_2 is exact; turning off low bits keeps the highest |
| HashTable.IdealBuckets | lib/kernel/hash.c:362-371 | the largest power of two not above half the elements, at least four |
| HashTable.IdealLoad | lib/kernel/hash.c:343-346 | at that size there are fewer than four elements to a bucket |
| HashTable.MaskIsMod | lib/kernel/hash.c:304-310 | masking the hash picks the bucket modulo the count |
| HashTable.NoTwoEqual | lib/kernel/hash.c:95-109 | no two elements of a table are equal |
| HashTable.Table.Find | lib/kernel/hash.c:129-135 | an equal element, or null exactly when there is none |
| HashTable.Table.Insert | lib/kernel/hash.c:95-109 | adds the element unless an equal one is there, which is returned |
| HashTable.Table.Replace | lib/kernel/hash.c:112-126 | the element takes the place of an equal one |
| HashTable.Table.Delete | lib/kernel/hash.c:137-154 | takes out exactly the equal element |
| HashTable.Table.Rehash | lib/kernel/hash.c:348-413 | the same elements, each in the bucket of its hash; the ideal size unless memory ran out |
| HashTable.Cursor.Next | lib/kernel/hash.c:210-235 | the next element in bucket order, or null after the last |
| HashTable.VisitAll | lib/kernel/hash.c:181-235 | the iteration idiom visits each element exactly once |
| HeapSort.Heapify | lib/stdlib.c:93-122 | restores the heap below an index, permutes only the heap, and ends |
| HeapSort.Sort | lib/stdlib.c:124-152 | the array becomes a sorted permutation of itself under any total preorder |
| HeapSort.BinarySearch | lib/stdlib.c:172-207 | finds a match exactly when there is one |
| Arithmetic.Nlz | lib/arithmetic.c:39-73 | the number of leading zero bits |
| Arithmetic.NarrowExact | lib/arithmetic.c:80-110 | the exact quotient for a 32-bit divisor; divl does not trap |
| Arithmetic.WideExact | lib/arithmetic.c:111-125 | the exact quotient for a wide divisor; divl does not trap |
| Arithmetic.Udiv64Exact | lib/arithmetic.c:75-127 | the exact quotient for all operands; traps exactly for divisor 0 |
| Arithmetic.Umod64Truncated | lib/arithmetic.c:129-135 | the remainder modulo 2^32 |
| Arithmetic.Umod64Exact | lib/arithmetic.c:129-135 | the remainder for all dividends exactly when the divisor is at most 2^32 |
| Arithmetic.Sdiv64Exact | lib/arithmetic.c:137-146 | truncates toward zero, but for the least value divided by -1 |
| Arithmetic.Smod64Truncated | lib/arithmetic.c:148-154 | the signed remainder wrapped to 32 bits |
| Arithmetic.Smod64Exact | lib/arithmetic.c:148-154 | the remainder for all dividends exactly when the divisor is at most 2^31 in absolute value |
| Stdio.PutDigits | lib/stdio.c:504-513 | the digits of any 64-bit value in any base, grouped or not, stay below index 44 of the buffer |
| Stdio.PutZeros | lib/stdio.c:515-524 | padding to the precision never leaves the 64-byte buffer |
| Stdio.DigitsMean | lib/stdio.c:504-513 | in any base the digits stand for the value, without a leading zero; with grouping a comma stands exactly where a whole number of groups is to its right |
| Stdio.PrecisionMet | lib/stdio.c:515-524 | zeros bring the number to the precision, as far as the buffer has room, and # gives an octal number one leading zero |
| Stdio.FrontIs | lib/stdio.c:482-502 | which sign and which prefix are printed, exactly when |
| Stdio.WidthMet | lib/stdio.c:526-547 | the field is as wide as the width or the number, whichever is more, exactly when - and 0 are not both set for a short number; the padding is on the side and of the kind that the flags ask for |
| Stdio.FormatInteger | lib/stdio.c:462-547 | prints padding, sign, prefix and number as the flags, width and precision say |
| Stdio.ParseInt | lib/stdlib.c:7-41 | reads white space, a sign and digits with 32-bit wrap-around |
| Stdio.AtoiExact | lib/stdlib.c:7-41 | of white space, a sign, digits and the rest atoi returns the number the digits stand for, however many, reduced to 32 bits |
| Stdio.AtoiParts | lib/stdlib.c:7-41 | every string has such parts |
| Stdio.RoundTrip | lib/stdio.c:462-547 | atoi of the decimal output is the int, for all ints, flags but grouping, widths and precisions |
| Ustar.StripPrefixes | lib/ustar.c:56-73 | drops every leading "/", "./" and "../" |
| Ustar.StripSafe | lib/ustar.c:56-73 | a stripped name is not empty, not "..", has no such prefix, and is a suffix of the name or "." |
| Ustar.StripTwice | lib/ustar.c:56-73 | stripping is idempotent |
| Ustar.StripExactly | lib/ustar.c:56-73 | what is dropped is made of such prefixes only, and is all that can be |
| Ustar.StripSplits | lib/ustar.c:56-73 | the name is what was dropped and what is left |
| Ustar.Checksum | lib/ustar.c:35-54 | the sum of the header's bytes with its own field as spaces |
| Ustar.SumIgnoresField | lib/ustar.c:46-51 | filling in the checksum does not change it |
| Ustar.SumZeros | lib/ustar.c:35-54 | a header of zeros sums to 256 |
| Ustar.SumChange | lib/ustar.c:35-54 | changing a byte changes the sum by as much outside the checksum field, and not at all inside |
| Ustar.OctalRoundTrip | lib/ustar.c:120-162 | an octal field is read back |
| Ustar.ParseOctal | lib/ustar.c:120-162 | reads a field digit by digit, refusing overflow, bad characters and a missing end |
| Ustar.ParseExact | lib/ustar.c:120-162 | a field of octal digits that ends is read as the number they stand for, or refused when that takes more than 32 bits |
| Ustar.ParseOnly | lib/ustar.c:120-162 | nothing else is read as a number |
| Ustar.MakeHeader | lib/ustar.c:75-118 | fails exactly for a stripped name over 99 bytes, with the header unchanged; else fills every field |
| Ustar.HeaderLayout | lib/ustar.c:99-117 | every byte of a header that is made, at its offset in the ustar format |
| Ustar.ParseHeader | lib/ustar.c:175-227 | accepts or refuses a header for the reasons the source checks, in its order |
| Ustar.AcceptedExactly | lib/ustar.c:175-227 | a header is accepted exactly when magic, version, checksum, name, type and size are right in the terms of the format, refused for one that is not, and an entry has what its fields hold |
| Ustar.ChangeRefused | lib/ustar.c:199-210 | an accepted header with one byte outside the checksum field changed is refused |
| Ustar.RoundTrip | lib/ustar.c:75-227 | a header made is parsed to the stripped name, type and size, unless a file's size is negative |
| ElfLoad.NoWrap | userprog/process.c:348-370 | for an accepted header no sum wraps and the pages lie in user memory above page 0 |
| ElfLoad.Accepted | userprog/process.c:403-446 | a header is accepted exactly when, in unbounded arithmetic, offset and address agree in the page, the file part starts in the file and fits the memory part, and that is not empty, above page 0 and ends below PHYS_BASE |
| ElfLoad.AddressSpace.LoadSegment | userprog/process.c:448-505 | maps pages from the file, then zeros, in order; succeeds exactly when each page has a frame, its bytes and a free place |
| ElfLoad.LoadsExactly | userprog/process.c:348-377 | an accepted header is loaded exactly when all its bytes are in the file and each page gets a frame, a free place, a page table and a good read |
| ElfLoad.AddressSpace.Install | userprog/process.c:575-593 | maps a page only where none is mapped |
| ElfLoad.LoadHeader | userprog/process.c:348-377 | succeeds exactly for an accepted header whose pages load; then memory holds the file's bytes and zeros; never a page outside user memory, never one already mapped |

## Left out

- Malloc.Heap.Malloc: the bytes of free blocks and arena headers, where the kernel keeps links and magic numbers, are not part of `mem`; a call is one step, as its descriptor lock makes it.
- Malloc.Heap.GetPages: one pool; the flags PAL_ASSERT, PAL_ZERO and PAL_USER are not modelled here.
- HeapSort.Sort: an element is one unit; its bytes are not swapped one by one.
- Ustar.MakeHeader: snprintf is taken to print the octal digits that format_integer would.
- InodeTree.WriteSectors: the two callocs of index blocks are taken to succeed, and the variable position to start as some sector number.
- InodeTree.Create: the sectors that writes of the free map change are an input, as is whether each succeeds; `FreeMapFile` shows what they are. byte_to_sector and inode_close read index blocks through pointers that are never assigned; they are modelled as buffers of their own.
- OpenFiles.Table.Open: the removed flag, file positions and directory openers are not modelled.
- ElfLoad.LoadHeader: one PT_LOAD header; the ELF header, the other header types and the stack are not modelled.
- Stdio.FormatInteger: parse_conversion, strings and the vsnprintf buffer are not modelled; the round trip leaves out digit grouping, as atoi does not read commas.
- Threads and synchronization are on values, as steps: links of the lists, tick counters, priorities and thread names are not part of them; the lists themselves are `KernelList`.
- Sector conservation over create and remove: inode_close frees a rounded-down count and never the first-level block.
- Exactly-once freeing of exited threads and children: that code runs with interrupts on.
- list_insert_ordered, list_max, list_min, hash_clear, hash_apply and the FNV hashes: they would add easy members.
- free_map_open and free_map_create: calls of what is modelled.
- Priority donation, the multi-level feedback scheduler, memory mapping and system calls, of which the source has stubs.
- Device drivers, interrupts, paging hardware, partition tables and console output.
