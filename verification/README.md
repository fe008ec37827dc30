# Verified model of the kernel's data structures and protocols

The kernel is a hobby x86 system written in C. This project models its self-contained cores in Dafny and proves what
they promise over every input and every run. Each core is kept in the form the kernel gives it: objects whose fields are
updated in place are classes with methods, algorithms over buffers work on arrays, and the two protocols are machines of
small steps. Beside each core stands a simple description of what it should do (a tiling of the heap, a flat page map, a
logical disk, a ring of tasks, a finite map, a sequence, a glob, a chain of clusters), and the methods are proved to
follow that description.

`dafny verify dfyconfig.toml` checks the whole project.

## Files

| file | what it models |
|---|---|
| `Machine.dfy` | 32-bit words: powers of two, `__builtin_clz`, bitwise operators, little-endian memory |
| `HeapModel.dfy`, `HeapLaws.dfy` | the kernel heap as a tiling with thirty bucket lists; what its operations keep |
| `HeapMemory.dfy`, `KernelHeap.dfy` | the allocator on raw bytes: boundary tags, intrusive lists, roots |
| `HeapRuns.dfy` | runs of the allocator and its callers' writes from `heap_init` |
| `Bitmap.dfy`, `Frames.dfy`, `Paging.dfy` | bitmaps, reference-counted frames, two-level page tables (32-bit paging, section 4.3 of the Intel SDM volume 3A) |
| `DiskCache.dfy` | the write-back sector cache |
| `SchedModel.dfy`, `Scheduler.dfy` | the round-robin ring as a machine, and the code on the circular list |
| `RingBuffer.dfy`, `IntWorker.dfy` | the single-producer single-consumer queue and the deferred-interrupt worker |
| `LinkedList.dfy`, `HashTable.dfy` | the nodes behind the buckets; the table with its mutually recursive insert and rebuild |
| `DynamicArray.dfy`, `Quicksort.dfy` | the circular deque and Hoare's quicksort on it |
| `Glob.dfy` | the wildcard matcher on two bitmaps |
| `Utf8.dfy`, `LongNames.dfy` | UTF-8 conversion (section 3 of RFC 3629) and long file names |
| `FatModel.dfy`, `Fat32.dfy` | cluster chains, and files over them (Microsoft FAT32 File System Specification v1.03, "FAT Data Structure") |

## How to read the model

- A failed `ASSERT` or a `PANIC` stops the kernel. Methods report it as `Panicked`, as `ok == false`, or as a step to a
  `Panicked` place; after one the object is not used again.
- The heap is entered with tasks locked, so its calls are atomic. The worker is not: interrupts arrive between its steps.
- `__builtin_clz(0)` is undefined. The deque reaches it when a pop leaves one element in eight places; what the builtin
  yields there is a parameter, and `ClzOfZeroDecides` says exactly for which values the new size fits.
- Where the code does not do what its name suggests, the code is followed and the exact condition is a lemma:
  `MapOverPresentLeaks`, `ReadMissExact`, `LargeWriteExact`, `ShrinkUndone`, `ClzOfZeroDecides`,
  `MemswapExchangesExactly`, `AgreesExactly`, `NameSurvives`, `ReadStaysInFile`, `PanicsExactly`.
- src/kernel/heap.c:81 clears the first word of a footer as if it were a signature. A footer starts with its size
  (src/kernel/heap.h:31-35), so the size is what is cleared, and so it is in the model.

## Model

| member | source | states |
|---|---|---|
| HeapModel.SizeIndexIsCeilLog2 | src/kernel/heap.c:26-32 | the bucket index of a size is its binary logarithm rounded up |
| HeapModel.SizeIndexInRange | src/kernel/heap.c:26-32 | no block of the heap outgrows the thirty buckets |
| HeapModel.InitialKeeps | src/kernel/heap.c:166-183 | the heap starts as two guards with one void between them, tiled, listed, and with nothing live |
| HeapModel.CarveKeeps | src/kernel/heap.c:185-222 | malloc turns the chosen void, and nothing else, into a live block of at least the requested bytes and keeps tiling, buckets and merged voids |
| HeapLaws.CarveTakes | src/kernel/heap.c:185-222 | malloc gives at most 24 bytes more than asked for; the rest of the void is a void again, up to where it ended, and no other void changes |
| HeapModel.ReleaseKeeps | src/kernel/heap.c:119-164 | free ends the life of its block and of nothing else, and leaves no two neighbouring voids |
| HeapModel.ReleaseStructure | src/kernel/heap.c:119-164 | the released block becomes one void together with the voids on either side, in the bucket of the joined size |
| HeapLaws.FirstFitIsFirst | src/kernel/heap.c:185-222 | a bucket list is searched for its first void that is large enough, and found not to have one only if none is |
| HeapLaws.ChooseComplete | src/kernel/heap.c:224-261 | malloc finds a void if and only if one of at least the requested bytes exists anywhere, and then one from the lowest bucket that has any |
| HeapLaws.FallbackFails | src/kernel/heap.c:250-258 | the last try, in the bucket below the size's own, can never succeed |
| HeapLaws.ExtendKeeps | src/kernel/heap.c:350-412 | growing in place gives the block at least the new size and leaves every other live block as it is |
| HeapLaws.ExtendTakes | src/kernel/heap.c:378-402 | growing in place takes at most 24 bytes more than asked for; the rest of the void behind the block is a void again, up to where it ended, and no other void changes |
| HeapLaws.LeftOfAllocation | src/kernel/heap.c:263-321 | what malloc returns never has a void on its left, so alligned_malloc's own check cannot fail |
| HeapLaws.AlignKeeps | src/kernel/heap.c:263-321 | the gap below an aligned start becomes a void or is absorbed by the left neighbour: no byte is lost and the other live blocks lose none |
| HeapLaws.AlignVoids | src/kernel/heap.c:300-318 | the gap becomes a void exactly if more than 24 bytes lie below the aligned start, ends where the block begins, and no other void comes, goes or changes |
| HeapLaws.ReleaseUndoesCarve | src/kernel/heap.c:323-348 | free undoes malloc: the same tiling, data blocks and voids |
| HeapMemory.PushRepresents | src/kernel/heap.c:107-117 | linking at the front of a bucket, in bytes, puts exactly the new void in front of that bucket's list |
| HeapMemory.UnlinkRepresents | src/kernel/heap.c:84-105 | unlinking, in bytes, takes exactly that void out of the doubly linked list |
| HeapMemory.EraseRepresents | src/kernel/heap.c:78-82 | clearing the header signature and the footer's size word of a data block disturbs no other tag or link |
| HeapMemory.PayloadWritten | src/kernel/heap.c:34-37 | a user's write inside a live block's payload leaves all tags and lists readable as before |
| KernelHeap.Allocator.BucketErase | src/kernel/heap.c:84-105 | memory and roots follow the removal of one void from its bucket; payloads do not change |
| KernelHeap.Allocator.BucketAddBegin | src/kernel/heap.c:107-117 | memory and roots follow the addition of one void to its bucket; payloads do not change |
| KernelHeap.Allocator.TryMerge | src/kernel/heap.c:119-164 | the merge in memory is the merge of the tiling |
| KernelHeap.Allocator.HeapInit | src/kernel/heap.c:166-183 | whatever memory held, it then shows the initial heap |
| KernelHeap.Allocator.TryMallocFromBucket | src/kernel/heap.c:185-222 | the walk along the links carves the list's first fit, or changes nothing and returns NULL if there is none |
| KernelHeap.Allocator.Malloc | src/kernel/heap.c:224-261 | panics exactly when no void is large enough, and otherwise carves the chosen void; no payload changes |
| KernelHeap.Allocator.AlignedMalloc | src/kernel/heap.c:263-321 | the result is a multiple of the alignment and owns at least the size; a size whose padding wraps is excluded, see WrappedRequest |
| KernelHeap.Allocator.Free | src/kernel/heap.c:323-348 | NULL does nothing, a pointer without the data signature panics, a live block is released and the other payloads stay |
| KernelHeap.Allocator.Realloc | src/kernel/heap.c:350-412 | the block stays, grows into the void on its right, or moves; the old bytes are kept either way and no other payload changes |
| KernelHeap.Allocator.Memcpy | src/kernel/system.c:72-88 | copies exactly the given bytes between ranges that do not overlap |
| KernelHeap.RoundUp | src/kernel/heap.c:263-321 | the masked sum is the least multiple of a power of two that is not below the pointer |
| KernelHeap.WrappedRequest | src/kernel/heap.c:263-321 | if size and alignment together pass 2^32, no heap block could have the size at all |
| HeapRuns.StepKeeps | src/kernel/heap.c:224-412 | every allowed call keeps the heap well formed; its result is live, new and large enough; blocks not given back lose no byte |
| HeapRuns.StopsExactly | src/kernel/heap.c:224-412 | a call stops the kernel if and only if the alignment is no power of two, or no void, and for realloc not the void behind the block either, has the room |
| HeapRuns.MovesExactly | src/kernel/heap.c:350-412 | realloc leaves a block where it is if and only if it is large enough or the void behind it has the room, and a large enough block untouched |
| HeapRuns.Run | src/kernel/heap.c:166-412 | whatever allowed calls and writes follow a well-formed heap, the heap at the end of the run is well formed, by recursion from the first heap alone |
| HeapRuns.RunKeeps | src/kernel/heap.c:166-412 | after any run of allowed calls and owners' writes from heap_init live blocks lie inside the heap and apart, no two neighbours are void, and each void is in the list of its size; nothing is assumed of the heaps in between |
| HeapRuns.LiveUntilGiven | src/kernel/heap.c:224-412 | over any run a block stays live and loses none of its size until it is given back |
| HeapRuns.LastWritten | src/kernel/heap.c:323-412 | over any run what an owner wrote last at a place of its block is known of the block wherever realloc has taken it, until it is overwritten or the block is freed |
| HeapRuns.NothingLive | src/kernel/heap.c:119-164 | when nothing is live the free memory is a single void between the guards, or none |
| HeapRuns.Perform | src/kernel/heap.c:224-412 | each call of the allocator on raw memory is the step of the run machine; no byte of a block not given back changes, and realloc takes all bytes along |
| HeapRuns.PerformAll | src/kernel/heap.c:224-412 | the allocator goes through any run on raw memory, and every byte that an owner wrote is found at its offset in its block, wherever realloc has moved it; it stops only with the machine's PANIC |
| HeapRuns.Boot | src/kernel/heap.c:166-412 | the same from heap_init in memory of any content |
| BitmapModule.Ctz | src/lib/bitmap.c:48-54 | the count of trailing zeros names the lowest set bit |
| BitmapModule.AndTestsBit | src/lib/bitmap.h:29-32 | masking with a shifted one tests that bit |
| BitmapModule.OrSetsBit | src/lib/bitmap.h:19-22 | or with a shifted one sets that bit and no other, within the word |
| BitmapModule.AndClearsBit | src/lib/bitmap.h:24-27 | masking with the complement clears that bit and no other |
| BitmapModule.Bitmap.FindFirstZero | src/lib/bitmap.c:38-65 | the word-wise scan returns the least clear bit from the start on, or the size of the bitmap |
| BitmapModule.Bitmap.FindFirstOne | src/lib/bitmap.c:67-95 | the word-wise scan returns the least set bit from the start on, or the size of the bitmap |
| BitmapModule.Bitmap.SetInterval | src/lib/bitmap.c:97-114 | sets exactly the bits of the interval |
| BitmapModule.Bitmap.AllocInterval | src/lib/bitmap.c:135-152 | exact first fit: the least place from the start on where the clear bits begin, which alone are then set, or the size with nothing changed if there is none |
| Frames.FrameManager.AllocFrame | src/arch/pmm.c:32-43 | the first frame without references gets one; memory is full only if every frame has some |
| Frames.FrameManager.FreeFrame | src/arch/pmm.c:45-65 | one reference less, the bit cleared with the last; a kernel frame's last reference panics |
| Frames.FrameManager.SetAlloced | src/arch/pmm.c:67-78 | one reference more, the bit set; panics exactly for frames beyond memory |
| Paging.PteWordParts | src/arch/paging.c:137-152 | flags below 4096 leave the frame address intact, the entry present, and make up its low bits |
| Paging.EntryWritten | src/arch/paging.c:137-152 | writing one entry is an update of the flat page map at that page, and changes no other entry and no directory entry |
| Paging.TranslateFlat | src/arch/paging.c:35-50 | the two-level walk translates as the flat map does |
| Paging.CoveringPages | src/arch/paging.c:154-169 | the computed page count covers exactly the pages that hold bytes of the interval |
| Paging.CountedMap | src/arch/paging.c:137-152 | mapping an absent page adds one reference and keeps every counter equal to the number of entries naming its frame |
| Paging.CountedUnmap | src/arch/paging.c:211-232 | unmapping a present page takes one reference, which existed, and keeps every counter right |
| Paging.MapOverPresentLeaks | src/arch/paging.c:137-183 | mapping a page to any frame, a free one or a given one, keeps the counters right if and only if the page was absent |
| Paging.CountsDetermined | src/arch/pmm.c:32-78 | the counters are determined by what is mapped |
| Paging.AddressSpaces.CopyThenDestroy | src/arch/paging.c:251-283 | a copy into a dictionary without tables, destroyed again, cannot panic, kernel frames included, and leaves all counters and dictionaries as they were |
| Paging.IntervalTranslates | src/arch/paging.c:186-209 | after mapping an interval to physical memory, each of its bytes is found at the same distance from the physical start |
| Paging.FreshIntervalTranslates | src/arch/paging.c:154-169 | after mapping an interval every byte of it translates, and every address outside its pages translates, or faults, as before |
| Paging.AddressSpaces.Create | src/arch/paging.c:111-119 | a new dictionary maps nothing and changes no other |
| Paging.AddressSpaces.MapPage | src/arch/paging.c:137-152 | the page goes to a frame without references and fails only if there is none; the counters stay right if and only if the page was absent; its entry has the given flags with the present and the write bit, a new table too, and all other entries keep all their bits |
| Paging.AddressSpaces.MapPageToPhys | src/arch/paging.c:171-183 | the page goes to the given frame, which gains a reference; panics exactly beyond memory; the counters stay right if and only if the page was absent; its entry has the given flags with the present bit, a new table the write bit too, and all other entries keep all their bits |
| Paging.AddressSpaces.UnmapPage | src/arch/paging.c:211-232 | the page goes and its frame loses a reference; the exact condition of the panic is given; its entry is cleared and no other entry or directory entry changes |
| Paging.AddressSpaces.MapInterval | src/arch/paging.c:154-169 | every page of the interval goes to a frame of its own that nothing named, and nothing else changes; it fails only when no frame is left; the counters stay right if and only if all pages were absent; every entry has the given flags with the present and the write bit, and all others keep all their bits |
| Paging.AddressSpaces.MapIntervalToPhys | src/arch/paging.c:186-209 | the pages of the interval go to consecutive frames from the given one, and nothing else changes; the exact condition of the panic; the counters stay right if and only if all pages were absent; every entry has the given flags with the present bit, and all others keep all their bits |
| Paging.AddressSpaces.UnmapInterval | src/arch/paging.c:234-248 | exactly the covering pages go; panics exactly if one of them has no table or a kernel frame would lose all its pages; their entries are cleared and no other entry or directory entry changes |
| Paging.AddressSpaces.Copy | src/arch/paging.c:268-283 | the copy maps the same pages to the same frames, each with one more reference, and all its entries and tables have the flags of the original |
| Paging.AddressSpaces.Destroy | src/arch/paging.c:251-266 | every page gives its reference back and the other dictionaries keep theirs; panics exactly if a kernel frame has no page in another dictionary |
| DiskCacheModule.FlushedLogical | src/fs/disk.c:97-110 | writing the records back changes nothing a reader sees |
| DiskCacheModule.RecordWritten | src/fs/disk.c:134-149 | updating a record in place updates the logical disk on exactly the written range and keeps the records disjoint |
| DiskCacheModule.RangesExactly | src/fs/disk.c:33-75 | a record contains a range if and only if it covers all its sectors, and overlaps it if and only if it covers one |
| DiskCacheModule.RecordAdded | src/fs/disk.c:48-95 | a new record beside the others updates the logical disk on exactly its range |
| DiskCacheModule.ReadMissExact | src/fs/disk.c:117-132 | a read that misses is right, and leaves the logical disk alone, if and only if no sector of it is dirty in a record |
| DiskCacheModule.LargeWriteExact | src/fs/disk.c:134-149 | an uncovered write of more than 4096 sectors updates the logical disk for all data if and only if it overlaps no record |
| DiskCacheModule.StaleReadExample | src/fs/disk.c:117-132 | a concrete read across the edge of a dirty record that loses the new data |
| DiskCacheModule.DiskCache.Flush | src/fs/disk.c:97-110 | the physical disk becomes the logical one |
| DiskCacheModule.DiskCache.AddRecord | src/fs/disk.c:48-95 | overlapping records give way to the new one after a flush, and the records stay disjoint |
| DiskCacheModule.DiskCache.Read | src/fs/disk.c:117-132 | a covered read returns the logical sectors; a miss returns the physical ones and may cache them; a hit changes neither records nor disk, and after a miss of at most 4096 sectors a record holds just that range |
| DiskCacheModule.DiskCache.Write | src/fs/disk.c:134-149 | any write of at most 4096 sectors, partial overlap included, updates the logical disk on exactly its range; a hit does not touch the disk, and after a miss of at most 4096 sectors a record holds just that range |
| SchedModel.StepKeeps | src/kernel/sched/task.c:283-420 | ticks, switches, exits, creations and state changes keep the tasks distinct and the one lazy task in the ring |
| SchedModel.RunnersKept | src/kernel/sched/task.c:283-367 | only the current task is ever running, and after a switch or an exit it is |
| SchedModel.LazyOnlyWhenIdle | src/kernel/sched/sched.c:9-57 | the lazy task is chosen if and only if every other task neither can run nor is due to wake up |
| SchedModel.ChosenIsFirst | src/kernel/sched/sched.c:36-57 | the chosen task is the first to the right of the current one that can run or is due to wake up, or else the lazy one |
| SchedModel.SwitchStates | src/kernel/sched/task.c:283-290 | after a switch the chosen task is running, the one that gave way is ready if it was running, and every other task but the lazy one is as it was |
| SchedModel.LazyStates | src/kernel/sched/sched.c:9-57 | the lazy task runs if chosen, waits once it has been passed over, and is otherwise treated like any other |
| SchedModel.TickStates | src/kernel/sched/task.c:397-420 | a tick leaves every task in its place and wakes at most the sleeper that a switch would choose |
| SchedModel.StaysExactly | src/kernel/sched/task.c:283-290 | a switch leaves the current task current if and only if the search ends at it |
| SchedModel.SwitchApproaches | src/kernel/sched/sched.c:36-57 | a switch makes a ready task current or brings it strictly closer |
| SchedModel.StepApproaches | src/kernel/sched/sched.c:69-72 | no step takes a ready task further from the current one, since new tasks enter on the left |
| SchedModel.BoundedWaiting | src/kernel/sched/task.c:330-367 | over any run of switches, exits, creations and changes of others, a ready task becomes current within its ring distance in switches |
| SchedModel.PreemptedReturns | src/kernel/sched/task.c:283-290 | a running task that is preempted is current again within as many switches as there are tasks |
| SchedModel.CreatedWaits | src/kernel/sched/sched.c:69-72 | a new task is ready, furthest from the current one |
| Scheduler.RoundRobin.constructor | src/kernel/sched/sched.c:64-67 | the lazy task alone is a ring |
| Scheduler.RoundRobin.GetNext | src/kernel/sched/sched.c:36-57 | the walk along the right links chooses what the machine chooses and wakes what it wakes |
| Scheduler.RoundRobin.Tick | src/kernel/sched/task.c:398-420 | looking for another task is a tick of the machine, and it asks for a switch if and only if a switch would make another task current |
| Scheduler.RoundRobin.SwitchPrepare | src/kernel/sched/task.c:283-367 | a switch of tasks is a switch of the machine, and the ring keeps its members |
| Scheduler.RoundRobin.EraseCycle | src/lib/list.h:59-67 | unlinking a task leaves one cycle of the others in their order |
| Scheduler.RoundRobin.Exit | src/kernel/sched/task.c:300-350 | the exiting task leaves the ring for good and the machine's choice becomes current |
| Scheduler.RoundRobin.AddNew | src/lib/list.h:101-113 | a new task enters the cycle just left of the current one |
| Scheduler.RoundRobin.SetState | src/kernel/sched/sched.c:75-78 | a change of one task's state is a step of the machine |
| Scheduler.RoundRobin.Sleep | src/kernel/sched/task.c:375-378 | going to sleep is a step of the machine on the current task |
| Scheduler.CycleRotates | src/lib/list.h:14-18 | a cycle of links is the same cycle seen from any of its tasks |
| RingBuffer.ItemsPushed | src/lib/ring.c:39-50 | writing at the free place and moving the end appends the element, round the buffer |
| RingBuffer.ItemsPopped | src/lib/ring.c:52-62 | moving the start removes exactly the first element |
| RingBuffer.FullExactly | src/lib/ring.c:69-72 | the queue is full exactly with one element less than the buffer has places |
| RingBuffer.Ring.Create | src/lib/ring.c:5-26 | there is a queue, and an empty one, if and only if the size is a power of two |
| RingBuffer.Ring.PushBack | src/lib/ring.c:39-50 | appends the element unless the queue is full, in which case nothing changes |
| RingBuffer.Ring.PopFront | src/lib/ring.c:52-62 | takes the first element, and fails exactly on the empty queue |
| RingBuffer.Ring.Count | src/lib/ring.c:64-67 | the masked 32-bit difference is the number of elements |
| RingBuffer.Ring.IsFull | src/lib/ring.c:69-72 | true exactly when a push would fail |
| IntWorker.StepKeeps | src/kernel/int_worker.c:22-62 | every step of worker, interrupt, timer and scheduler keeps the protocol's invariant |
| IntWorker.NoLostWakeUp | src/kernel/int_worker.c:22-62 | in every interleaving a non-empty queue means a pending flag or a draining worker and never a waiting one, and what is handled is a first-in first-out prefix of what was queued, each once |
| IntWorker.PanicsExactly | src/kernel/int_worker.c:22-54 | the kernel stops exactly when 4095 elements are queued and another interrupt comes or the worker checks for it |
| IntWorker.EverythingHandled | src/kernel/int_worker.c:38-62 | from any state of any run, once interrupts stop, the worker handles all that is queued, unless the queue is full and its check for that is still ahead |
| IntWorker.FallsAsleep | src/kernel/int_worker.c:38-62 | from there the worker, once interrupts stop, has not only handled everything but waits, off the processor |
| IntWorker.SleepsUntilInterrupt | src/kernel/int_worker.c:22-30 | a waiting worker is left alone by everything but an interrupt, which makes it ready |
| LinkedListModule.LinkedList.AddBegin | src/lib/linked_list.c:49-71 | the value comes first, and an open list stays open, a cycle a cycle |
| LinkedListModule.LinkedList.Erase | src/lib/linked_list.c:88-108 | exactly that node's value goes, and the order of the others stays |
| LinkedListModule.LinkedList.Destroy | src/lib/linked_list.c:132-137 | erasing the root until there is none empties the list |
| LinkedListModule.AtCut | src/lib/linked_list.c:73-86 | without a node, its neighbours are each other's neighbours and all other links stay |
| HashTableModule.GetHash | src/lib/hash_table.c:10-19 | the loop computes the polynomial hash modulo 2^32, reduced to a bucket |
| HashTableModule.HashIsRemainder | src/lib/hash_table.c:10-19 | the hash is the key read as a number in base 1073741827, modulo 2^32 |
| HashTableModule.AddHolds | src/lib/hash_table.c:93-101 | adding at the front of both chains adds exactly that entry to the map the chains hold |
| HashTableModule.CutHolds | src/lib/hash_table.c:116-123 | cutting one place out of both chains removes exactly that key |
| HashTableModule.Looked | src/lib/hash_table.c:140-158 | a key not met in its chain is not in the map, and one that is met has the value at the same place of the value chain |
| HashTableModule.HashTable.Get | src/lib/hash_table.c:140-158 | returns the map's value for the key, or nothing if it has none |
| HashTableModule.HashTable.Insert | src/lib/hash_table.c:93-108 | the map gains or replaces the entry, elements stay below half the buckets, and the recursion with rebuild ends |
| HashTableModule.HashTable.Erase | src/lib/hash_table.c:110-138 | the map loses the key, found tells whether it was there, and the size the table settles at is given |
| HashTableModule.HashTable.Rebuild | src/lib/hash_table.c:42-72 | the same map in a table of the first size from the given one on that has room |
| HashTableModule.SettledFirst | src/lib/hash_table.c:42-72 | the size a table settles at is the least from the given one on with room for the elements |
| HashTableModule.ShrinkUndone | src/lib/hash_table.c:127-130 | a shrink by two sizes is undone at once if and only if the next smaller size is already too small |
| DynamicArrayModule.ShrinksFitting | src/lib/dynamic_array.c:54-69 | a pop that leaves too few elements shrinks to a power of two that fits them, a quarter of the old size if more than one is left |
| DynamicArrayModule.ClzOfZeroDecides | src/lib/dynamic_array.c:66 | with one element in eight places the new size fits the element and the buffer if and only if the builtin yields 29, 30 or 31 on zero |
| DynamicArrayModule.MovedToFront | src/lib/dynamic_array.c:71-79 | elements moved to the front are the same sequence in the new size |
| DynamicArrayModule.MovedToEnd | src/lib/dynamic_array.c:80-89 | moving only the elements before the wrap keeps the sequence in the new size |
| DynamicArrayModule.DynamicArray.Get | src/lib/dynamic_array.h:32-33 | the masked index is the element at that position of the sequence, also when the deque wraps |
| DynamicArrayModule.DynamicArray.PushBack | src/lib/dynamic_array.c:94-105 | appends to the sequence, through wrap-around and doubling; a place stays free; the size doubles exactly if the deque becomes full |
| DynamicArrayModule.DynamicArray.PushFront | src/lib/dynamic_array.c:107-118 | puts in front of the sequence, through wrap-around and doubling |
| DynamicArrayModule.DynamicArray.Expand | src/lib/dynamic_array.c:23-52 | a full deque keeps its sequence in twice the places |
| DynamicArrayModule.DynamicArray.Shrink | src/lib/dynamic_array.c:54-92 | a mostly empty deque keeps its sequence, and more than one element in a quarter of the places |
| DynamicArrayModule.DynamicArray.PopBack | src/lib/dynamic_array.c:120-130 | drops the last element, if any; the places still fit what is left |
| DynamicArrayModule.DynamicArray.PopFront | src/lib/dynamic_array.c:132-142 | drops the first element, if any; the size stays, becomes a quarter, or one for the empty deque |
| DynamicArrayModule.DynamicArray.Clear | src/lib/dynamic_array.c:144-154 | the empty sequence |
| DynamicArrayModule.DynamicArray.Swap | src/lib/dynamic_array.c:182-186 | exchanges two positions of the sequence and nothing else |
| Quicksort.Partition | src/lib/dynamic_array.c:157-190 | for any pivot the loop stays in range, ends, and leaves both parts strictly smaller and on their sides of the pivot |
| Quicksort.Sort | src/lib/dynamic_array.c:157-195 | for any strict weak order and any pivots the range becomes a sorted permutation of itself and the rest stays |
| Quicksort.SearchesPart | src/lib/dynamic_array.c:171-187 | two searches and an exchange move both borders past elements of the right side |
| Quicksort.SortedParts | src/lib/dynamic_array.c:193-194 | two sorted parts with elements like the pivot between them are sorted together |
| Quicksort.Memswap | src/kernel/system.c:144-161 | which bytes are exchanged, since the pointers never advance |
| Quicksort.MemswapExchangesExactly | src/kernel/system.c:144-161 | all elements of a size are exchanged if and only if the size is 0, 1 or 4 bytes |
| Glob.MatchIsGlob | src/lib/string.c:225-268 | the kernel's matcher is the textbook glob with a star at the end read as one character and a star |
| Glob.GlobMeans | src/lib/string.c:222-268 | the textbook glob holds if and only if the string falls into pieces for which the characters of the pattern stand in turn |
| Glob.SameExactly | src/lib/string.h:9 | without regard to case two characters are the same if and only if they are equal or a small letter and its capital |
| Glob.IgnoresCaseExactly | src/lib/string.c:251-254 | with ignore_case exactly those names match that differ from a match in the case of letters alone |
| Glob.NeverTooMuch | src/lib/string.c:225-268 | what the kernel accepts the textbook glob accepts |
| Glob.AgreesExactly | src/lib/string.c:225-268 | both agree on every name if and only if the pattern does not end in a star |
| Glob.DiffersOnCharacters | src/lib/string.c:225-268 | a pattern that ends in a star does not match its own characters, which the textbook glob accepts |
| Glob.CellValues | src/lib/string.c:240-258 | each cell of the two tables is what its later neighbours say |
| Glob.FillCell | src/lib/string.c:240-258 | one round of the inner loop sets exactly the bits due |
| Glob.IsMatchingPattern | src/lib/string.c:225-268 | the two bitmaps compute the recursive matcher in which the empty string matches only the empty pattern |
| Utf8.DecodeEncode | src/lib/string.c:271-339 | decoding gives back every string of 16-bit units that was encoded |
| Utf8.EncodeDecode | src/lib/string.c:271-339 | encoding gives back exactly those byte strings that consist of the shortest forms of their units |
| Utf8.EncodedDigits | src/lib/string.c:271-297 | a form holds the digits of its unit in base 64, the first with the mark for one, two or three bytes |
| Utf8.StrayByte | src/lib/string.c:300-339 | a byte that starts no form of up to three bytes decodes to a question mark, alone |
| Utf8.WideCharToUtf8 | src/lib/string.c:271-297 | writes the encoding of the longest part of the string that starts each unit before the last four bytes of room, and a terminator; a room below four wraps around to no bound |
| Utf8.Utf8ToWideChar | src/lib/string.c:300-339 | writes the decoded units up to the room given, and a terminator |
| Utf8.ThereAndBack | src/lib/string.c:271-339 | given room, converting to bytes and back gives the same string of non-zero units |
| LongNames.NameSurvives | src/fs/fat32/fat32.c:585-611 | split into records, stored last part first, read back to front and joined, a name is itself again if and only if all bytes before its last thirteen-byte part are ASCII and the last part is in shortest forms |
| LongNames.AsciiSurvives | src/fs/fat32/fat32.c:585-611 | every non-empty ASCII name meets that condition |
| LongNames.CutExample | src/fs/fat32/fat32.c:585-611 | a name of one two-byte form and twelve letters does not come back |
| LongNames.Split | src/fs/fat32/fat32.c:585-611 | yields the records of the name's thirteen-byte parts, the last part first |
| LongNames.StoredOrders | src/fs/fat32/fat32.c:599-607 | the records are numbered from one, the first stored is marked 0x45 instead, and a reader takes each for a long name record |
| LongNames.ReadBack | src/fs/fat32/fat32.c:140-160 | up to the file record, deciding on byte 0x0B of each entry, puts every record of a long name in front of those before it, which restores the order of the parts |
| LongNames.JoinName | src/fs/fat32/fat32.c:167-191 | joins the units up to the first zero, and cuts the name off only if it does not fit the buffer |
| LongNames.WriteAndReadBack | src/fs/fat32/fat32.c:585-611 | splitting, writing the records and the file record, reading back and joining in one: the name comes back if and only if it survives |
| FatModel.ChainGrows | src/fs/fat32/fat32.c:393-395 | a free cluster taken after the last one makes the chain longer by exactly that cluster |
| FatModel.TakeKeeps | src/fs/fat32/fat32.c:364-407 | taking a cluster keeps the table a set of disjoint acyclic chains in which every used cluster lies |
| FatModel.TakeFirstKeeps | src/fs/fat32/fat32.c:364-407 | taking a cluster after none begins a chain of one |
| FatModel.ReleaseKeeps | src/fs/fat32/fat32.c:409-440 | emptying one chain takes out exactly that chain |
| FatModel.GrownKeeps | src/fs/fat32/fat32.c:473-566 | growing one chain by any number of clusters keeps all chains disjoint and complete |
| Fat32.Volume.FatAt | src/fs/fat32/fat32.c:46-57 | masks the four reserved bits of an entry |
| Fat32.Volume.FatWrite | src/fs/fat32/fat32.c:59-81 | changes one entry and keeps both copies of the table the same |
| Fat32.Volume.TakeNewCluster | src/fs/fat32/fat32.c:364-407 | given two free entries from the hint on, the first is linked behind the previous cluster, the second becomes the hint, and one free entry less remains |
| Fat32.Volume.ReleaseClusters | src/fs/fat32/fat32.c:409-440 | ends on any in-range table, a cyclic one included, empties exactly what it visits, and succeeds exactly at a proper end |
| Fat32.WholeChain | src/fs/fat32/fat32.c:409-440 | a release from the start of a chain visits exactly the chain |
| Fat32.Volume.EraseFile | src/fs/fat32/fat32.c:568-583 | the file's chain, and nothing else, becomes free; on a broken or cyclic chain it fails and the file keeps its size and first cluster |
| Fat32.Volume.ReadFile | src/fs/fat32/fat32.c:251-302 | returns the bytes of the chain from the start on; how many, and exactly when it fails, also on broken and cyclic chains |
| Fat32.WalkExists | src/fs/fat32/fat32.c:251-302 | whatever links a table holds, cycles included, every read has the walk along it that ReadFile speaks of |
| Fat32.ReadStaysInFile | src/fs/fat32/fat32.c:272 | a read stays inside the file exactly under the given condition, since the position is not taken off the size |
| Fat32.Volume.WriteFile | src/fs/fat32/fat32.c:473-566 | the written range holds the buffer, all other bytes stay, the chain grows by just the clusters needed, the size becomes the end of the range if it was less and is otherwise kept; on a broken chain it succeeds if and only if the range ends before the last cluster, without changing the table |
| Fat32.Volume.WriteThenRead | src/fs/fat32/fat32.c:251-302 | what has been written is what a read of the same range returns |
| Fat32.WrittenMore | src/fs/fat32/fat32.c:520-551 | one changed cluster extends the written range by exactly its bytes |
| Fat32.OtherFilesKeep | src/fs/fat32/fat32.c:473-566 | a write leaves every byte of every other chain as it was |
| Fat32.WriteKeepsLive | src/fs/fat32/fat32.c:473-566 | a write keeps the table a set of disjoint chains in which only the file's own has grown |

## Left out

- Drivers, boot code, assembly, ports, ACPI, descriptor tables, FPU state, TLB flushes and CR3 switches: hardware effects. A sector transfer is a successful array read or write, so I/O failures are not modelled.
- The graphical shell, konsole, printf, user programs, path search and ELF loading: interface code and plumbing.
- KernelHeap.Allocator.AlignedMalloc: excludes a size and alignment whose sum passes 2^32, where the padded size wraps; WrappedRequest shows that no block could satisfy such a request.
- KernelHeap.Allocator.Free: requires that a pointer in front of which the data signature stands is one the heap handed out; the code cannot tell a forged signature from a real one. The same holds for Realloc.
- Frames.FrameManager.AllocFrame: reference counters are unbounded; a counter of 2^32 references would wrap.
- Frames.FrameManager.FreeFrame: frames beyond memory, where the code reads past the counters, and frames without references, whose counter would wrap, are excluded.
- Paging.AddressSpaces.MapPage: page tables are values in the directory entries, so the frames that hold the tables themselves are not counted. The same holds for the other methods of AddressSpaces.
- Paging.AddressSpaces.Copy: the destination has no tables yet, since the code would lose them without giving their frames back.
- DiskCacheModule.DiskCache.AddRecord: the capacity counter is never increased by the code, so eviction never runs and no bound on the cache is claimed.
- DiskCacheModule.DiskCache.Read: requests of no sectors, or beyond the disk, are left out. The same holds for Write. Where in the list a new record goes is not claimed: the code reads a link of a node it has just freed to decide it.
- Scheduler.RoundRobin.Exit: the process number returned to the pool when a terminated task is visited, and the freeing of stacks and page tables, are not modelled. Clocks do not wrap around 2^32.
- IntWorker.NoLostWakeUp: a handler is one step, and interrupts queued by a handler itself are those that arrive at that step; two producers racing inside one push are not modelled.
- HashTableModule.HashTable.Insert: keys and values are copied byte strings, their nodes are sequences here (LinkedList.dfy shows the nodes); at most 1073741828 elements, since there is no table beyond primes[30]. `hash_table_reserve` is left out, it can pick a table of no buckets.
- DynamicArrayModule.DynamicArray.PushBack: requires fewer than 2^29 places, so that doubling does not wrap around 32 bits. A buffer that realloc cannot grow panics in malloc. The same holds for PushFront.
- Quicksort.Sort: elements are exchanged whole, which memswap does for 4-byte elements; see MemswapExchangesExactly.
- Utf8.Utf8ToWideChar: strings whose last form is cut off are excluded, because the code reads past their end.
- LongNames.Split: names have at most 255 records, and no thirteen-byte part ends inside a form, because the code then reads past its fourteen-byte copy of the part. The same holds for WriteAndReadBack. Where in the directory the records go is left out.
- Fat32.Volume.TakeNewCluster: requires two free entries from the hint on, because the code searches past the end of the table otherwise. The count of free clusters in FSInfo is left out, release never writes it back.
- Fat32.Volume.WriteFile: chains that go round in a cycle are left out, for a write along them comes back to clusters it has written. The sector layout of table and clusters and the directory entry update are left out; it changes a sector of the directory's own chain.
- `fat32_create_file`, `fat32_create_directory`, `fat32_get_dos_filename`, `fat32_remove_directory_entry`: directory slots; crossing a cluster boundary and duplicate short names do not behave as intended there.
- `semaphore_acquire` and `refcount.h`: the code supports no clean theorem. `sys_brk`, `sys_mmap2`, `strstr`, `konsole_put_hex64` and input waiting: small system calls and strings with known defects.
