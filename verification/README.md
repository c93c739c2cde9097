# Umbra OS: memory, scheduling, locking, checksum and names

A Dafny model of the self-contained state machines of the Umbra kernel, with proofs about every input, every run or
every reachable state.

- **Memory.** One physical memory of 512-word frames (`PhysMem`) is shared by a next-fit page allocator over a bitmap
  (`Bitmap`, `NextFit`, `Pmm`), the slab heap with its free lists threaded through the pages (`HeapSpec`, `HeapSteps`,
  `Heap`) and 4-level page tables (`PageTables`, `TableTrees`, `VmmSpec`, `Vmm`). `Machine` puts heap and tables over
  one allocator and shows that neither disturbs the other. That a new table or slab page is fresh follows from the
  allocator's invariant.
- **Scheduling.** `TaskList` is the linked ring with its cursor, `SchedSpec` the scheduler as a state machine,
  `SchedRuns` what it keeps for single tasks, `Scheduler` its code, `Ringbuffer` the event queue, `Blocking` the interleaving of blocked terminal reads with
  timer, keyboard and network interrupts, `ReadRuns` what such a read returns.
- **Locking.** `Locks` models the spinlock at the grain of single instructions, with nested interrupts, system calls and
  task switches between any two of them.
- **Checksum and names.** `Checksum` relates both checksum implementations to RFC 1071 and models IPv4 headers in
  place; `HashMap`, `NameTree` and `Vfs` model the hash table and path resolution.

Methods follow the kernel's functions and update their state in place; each is proved against a function or predicate
on values, and the properties are lemmas about those. Hardware and the outside world appear as parameters: the memory
map, the time stamp counter (it increases with every read), interrupts (as steps), the network card's address.

Where the code falls short of what it is for, the model keeps the code and proves when it does work, with an input for
which it does not:
- the search limit of the page allocator is 512 times too large: `NextFit.OversizedLimit`;
- rounding the page count down can leave the bitmap too small: `Pmms.CoveredExactly`, `Pmms.BitmapTooSmall`;
- the page count of a request above 2^64 - 4096 bytes wraps to 1: `KernelHeaps.RunHasRoom`,
  `KernelHeaps.RequestTooLarge`;
- the search for a task does not end when two or more queued tasks all wait: `SchedSpec.SearchCanEndIff`,
  `Schedulers.SearchNeverEnds`, and `SchedSpec.SearchesEndOverRun` for when that cannot come about;
- a deadline past 2^64 wraps: `Schedulers.WakeTimeExactly`, `Schedulers.SleepTooLong`;
- with nothing queued the registers of the interrupted idle task are not saved: `SchedRuns.IdleKept`,
  `SchedRuns.IdleLosesRegisters`;
- `schedule` saves registers into the task that `kill_and_yield` has deleted: `SchedSpec.SavesIntoEndedTask`,
  `SchedSpec.EndedTaskWritten`;
- the saved interrupt flag can be overwritten: `Locks.RestoredExactly`, `Locks.InterruptsLost`;
- the last entry of a hash chain is not checked on insert: `HashMaps.DuplicatesExactly`, `HashMaps.InsertCanDuplicate`;
- the 32-bit sum of a checksum can wrap: `Checksums.RfcExactly`, `Checksums.LimitIsSharp`;
- a valid header with checksum 0xffff is dropped: `Checksums.AcceptedExactly`, `Checksums.ValidButDropped`;
- the total length of a packet of more than 65515 bytes of data is truncated: `Checksums.HeaderFields`;
- a leading slash creates an entry with an empty name: `NameTrees.RoundTrip`.

`dafny verify dfyconfig.toml` checks the whole project.

## Model

| member | source | states |
|---|---|---|
| Bitmaps.Bitmap.constructor | src/kernel/memory/pmm.cpp:29-42 | a new bitmap marks every page used |
| Bitmaps.Bitmap.Set | src/kernel/utils/bitmap.cpp:3-9 | sets or clears the bit of one page and leaves every other bit as it was |
| Bitmaps.Bitmap.Get | src/kernel/utils/bitmap.cpp:11-15 | tells whether the page is marked used |
| Bitmaps.MaskIsShift | src/kernel/utils/bitmap.cpp:5-8 | the masks used in the proofs are the shifts the code computes |
| Bitmaps.TestIsShift | src/kernel/utils/bitmap.cpp:12-14 | shifting right and testing bit 0 reads the bit that the mask selects |
| NextFit.SearchComplete | src/kernel/memory/pmm.cpp:65-103 | the two passes fail if and only if no run of n free pages starts anywhere below the limit, wherever the cursor stood; what they find is such a run |
| NextFit.OversizedLimit | src/kernel/memory/pmm.cpp:90-91 | with the limit the code passes (4096 bits per byte) the answer stays inside the bitmap, whatever memory follows it, if and only if a fitting run of free pages starts at or after the cursor |
| NextFit.OnePageSearch | src/kernel/memory/pmm.cpp:65-103 | one page can be had as long as one is free |
| Pmms.GrantedOk | src/kernel/memory/pmm.cpp:71-77 | handing out a free run keeps live runs disjoint, inside usable memory and in step with the bits |
| Pmms.ReturnedOk | src/kernel/memory/pmm.cpp:115-124 | taking a live run back keeps them so |
| Pmms.LiveRunsDisjoint | src/kernel/memory/pmm.cpp:87-103 | two live allocations share no page |
| Pmms.GrantTakesFree | src/kernel/memory/pmm.cpp:87-103 | handing out a run takes exactly its pages off the free ones |
| Pmms.MarkedCount | src/kernel/memory/pmm.cpp:71-121 | the free count drops by exactly the pages marked used and rises by exactly those cleared |
| Pmms.ReturnUndoesGrant | src/kernel/memory/pmm.cpp:87-124 | freeing what was just allocated restores every bit and the record of live runs |
| Pmms.StepKeepsState | src/kernel/memory/pmm.cpp:87-124 | one alloc or free keeps bits, live runs and usable memory consistent |
| Pmms.RunsConserve | src/kernel/memory/pmm.cpp:87-124 | after any sequence of allocs and frees: live runs pairwise disjoint, every usable page either free or in exactly one of them, none gained or lost |
| Pmms.AllocThenFree | src/kernel/memory/pmm.cpp:87-124 | an allocation takes exactly n pages off the free count; its free gives back the state before, but for the cursor |
| Pmms.SecondRunIsBehind | src/kernel/memory/pmm.cpp:65-124 | next fit: after an allocation and a free of any live run, the next allocation is the first fit behind the first one; only when nothing fits there, the first fit at all |
| Pmms.AllocTakes | src/kernel/memory/pmm.cpp:87-103 | an allocation only takes pages off the free set, exactly as many as asked for |
| Pmms.NoRunMeansNoPage | src/kernel/memory/pmm.cpp:87-103 | when not even one page can be had, none is free |
| Pmms.AllocStepAnswers | src/kernel/memory/pmm.cpp:87-103 | address 0 means the books are unchanged, any other address a fresh run of the length asked for |
| Pmms.ShrunkPages | src/kernel/memory/pmm.cpp:44-46 | taking the bitmap out of its entry takes exactly the bitmap's own pages out of the usable ones |
| Pmms.UsableExactly | src/kernel/memory/pmm.cpp:52-60 | the pages whose bits init clears are those whose address lies in some usable entry, whichever it is |
| Pmms.BitmapCovers | src/kernel/memory/pmm.cpp:27-29 | the bitmap has a bit for every page below the highest address if and only if the page count is a multiple of 8 or its whole bytes do not come to whole pages of bitmap |
| Pmms.CoveredExactly | src/kernel/memory/pmm.cpp:27-60 | init clears bits only inside its bitmap if and only if the page count is a multiple of 8, or its whole bytes do not come to whole pages of bitmap, or nothing but the bitmap itself lies past the last bit |
| Pmms.BitmapTooSmall | src/kernel/memory/pmm.cpp:27-60 | a map of 32769 pages for which init makes 32768 bits |
| Pmms.FindHighest | src/kernel/memory/pmm.cpp:18-25 | no usable entry ends above it and, unless it is 0, some usable entry ends there |
| Pmms.FindHome | src/kernel/memory/pmm.cpp:31-49 | the first usable entry with room for the bitmap |
| Pmms.Plan | src/kernel/memory/pmm.cpp:27-49 | bitmap size and place; the bitmap then has a bit for every usable page |
| Pmms.Pmm.constructor | src/kernel/memory/pmm.cpp:15-61 | after init nothing is allocated, and a page is free if and only if its address lies in some usable entry of the map and not in the bitmap |
| Pmms.Pmm.InnerAlloc | src/kernel/memory/pmm.cpp:65-85 | finds and marks the first free run at or after the cursor, leaves the cursor behind it; on failure marks nothing and leaves the cursor at the bound |
| Pmms.Pmm.TwoPasses | src/kernel/memory/pmm.cpp:90-99 | the second pass from page 0 up to where the first stopped completes the search |
| Pmms.Pmm.Alloc | src/kernel/memory/pmm.cpp:87-103 | is the allocation step of the state machine; returns 0 exactly when no run exists (or 0 pages were asked) |
| Pmms.Pmm.Calloc | src/kernel/memory/pmm.cpp:105-113 | the same, with exactly the pages handed out zeroed |
| Pmms.Pmm.FreeRunAt | src/kernel/memory/pmm.cpp:115-124 | frees exactly the run it is given |
| Pmms.Pmm.Mark | src/kernel/memory/pmm.cpp:74-121 | sets exactly the bits of a run |
| PhysMem.Ram.ClearPages | src/kernel/memory/pmm.cpp:105-113 | every word of the pages reads 0 afterwards, every other word as before |
| Words.OrOfFlags | src/kernel/memory/vmm.cpp:24-24 | page address | flag bits is their sum: no bit collides |
| PageTables.TableEntryReads | src/kernel/memory/vmm.cpp:24-24 | the entry for a new table is the bitwise or of its address and the three flags, is present and names that page |
| VmmSpec.LeafEntryReads | src/kernel/memory/vmm.cpp:139-163 | the word map stores reads back as the frame and the flags given |
| PageTables.ReachInTables | src/kernel/memory/vmm.cpp:100-122 | a walk only ever stands on tables, of the level it has come to, and the table records the indices taken |
| PageTables.WalksMeet | src/kernel/memory/vmm.cpp:100-122 | two walks that meet in a table took the same indices, from the same root unless the table is shared: page tables are separate |
| PageTables.HigherHalfAgrees | src/kernel/memory/vmm.cpp:38-94 | all address spaces translate the higher half alike |
| PageTables.AddedKeepsInvariant | src/kernel/memory/vmm.cpp:19-25 | hanging a fresh zeroed table keeps the tables a forest with shared higher half |
| PageTables.AddedTranslates | src/kernel/memory/vmm.cpp:19-25 | and changes no translation of any page in any space |
| PageTables.WithLeafTranslates | src/kernel/memory/vmm.cpp:132-139 | storing a leaf entry changes the translation of that page only: in its space, or for the higher half in all |
| PageTables.IndicesDetermine | src/kernel/memory/vmm.cpp:101-104 | the four 9-bit indices determine the page number, 48 bits of address less the offset |
| VmmSpec.AddGrows | src/kernel/memory/vmm.cpp:10-26 | what one lazily built table does: no translation, no other page, no other allocation changes |
| VmmSpec.LeafMaps | src/kernel/memory/vmm.cpp:132-140 | the store to the leaf is insert-if-absent on the flat map |
| VmmSpec.RangeStep | src/kernel/memory/vmm.cpp:150-155 | one more page of a range extends the mapped part by exactly that page |
| VmmSpec.RangeReads | src/kernel/memory/vmm.cpp:150-155 | after a complete map_range from a page-aligned address, the k-th page of the range, if it was not mapped, translates to the k-th frame and the flags: the word phys + 4096 * k + flags |
| VmmSpec.RangeFramesApart | src/kernel/memory/vmm.cpp:150-155 | two pages of a range get different frames, in order |
| PageTables.Digits | src/kernel/memory/vmm.cpp:101-104 | the four indices are the digits of the page number in base 512, level 4 first |
| VmmSpec.GoneKeepsInvariant | src/kernel/memory/vmm.cpp:166-190 | with a space's own tables gone the rest is still sound and still held |
| Pmms.LiveFixesFree | src/kernel/memory/pmm.cpp:87-124 | equal live allocations mean equal free pages |
| TableTrees.RootMadeKeepsInvariant | src/kernel/memory/vmm.cpp:85-94 | adding a PML4 with the kernel's higher half keeps the invariant |
| TableTrees.NewRootTranslates | src/kernel/memory/vmm.cpp:85-94 | a new space maps nothing below and what the kernel maps above |
| TableTrees.OwnIsBelow | src/kernel/memory/vmm.cpp:185-190 | what a space owns is exactly what hangs below its lower-half entries |
| TableTrees.NextBranch | src/kernel/memory/vmm.cpp:171-179 | each present entry adds exactly the tree below it to what destroy_pml has covered, none of it covered before |
| TableTrees.BelowComplete | src/kernel/memory/vmm.cpp:166-183 | all entries together with the table itself make up the whole tree |
| TableTrees.WithoutOwnKeepsInvariant | src/kernel/memory/vmm.cpp:166-190 | removing a space's own tables leaves the other spaces' trees whole |
| TableTrees.InitTreeDone | src/kernel/memory/vmm.cpp:32-40 | after the higher-half loop of init the invariant holds and nothing is mapped |
| Vmms.Vmm.GetNextLevel | src/kernel/memory/vmm.cpp:10-26 | follows an entry; when absent and asked to, hangs a zeroed table there without changing any translation; fails only when no page is free |
| Vmms.Vmm.VirtToPte | src/kernel/memory/vmm.cpp:100-122 | leads to the leaf table of the address, building missing levels without changing any translation, also when memory runs out on the way |
| Vmms.Vmm.Map | src/kernel/memory/vmm.cpp:124-141 | acts on the map (address mod 2^48)/4096 -> entry as insert-if-absent at that page; no other page of any space changes; with no memory nothing changes |
| Vmms.Vmm.MapRange | src/kernel/memory/vmm.cpp:150-155 | maps exactly the pages of the range that were unmapped, the k-th to frame phys / 4096 + k with the flags given; some may be missing, or come on a later round of the 48-bit space, only if memory ran out; only tables are written |
| Vmms.Vmm.VirtToPhys | src/kernel/memory/vmm.cpp:157-164 | the frame address of the mapping or UINT64_MAX; changes no translation although it allocates levels |
| Vmms.Vmm.NewSpace | src/kernel/memory/vmm.cpp:85-94 | a fresh PML4, lower half empty, higher half shared; no other space changes |
| Vmms.Vmm.CopyHigherHalf | src/kernel/memory/vmm.cpp:88-91 | copies exactly entries 256 to 511 |
| Vmms.Vmm.Init | src/kernel/memory/vmm.cpp:32-40 | builds the kernel's PML4 and its 256 level-3 tables, from 257 fresh pages, nothing else touched |
| Vmms.Vmm.FillHigherHalf | src/kernel/memory/vmm.cpp:35-40 | every higher-half entry leads to an empty level-3 table of its own |
| Vmms.Vmm.DestroyPml | src/kernel/memory/vmm.cpp:166-183 | frees the table and each table below it once, at level 0 nothing; ends by level |
| Vmms.Vmm.DestroySpace | src/kernel/memory/vmm.cpp:185-190 | frees exactly the space's PML4 and lower-half tables: no data frame, no shared table |
| Vmms.Vmm.SpaceLifetime | src/kernel/memory/vmm.cpp:85-190 | create, any lower-half maps, destroy: the same pages are free as before, other spaces translate as before |
| HeapSpec.MaxBlocksIsQuotient | src/kernel/memory/heap.hpp:28-37 | the block counts of the seven classes are MAX_BLOCKS of the layout |
| HeapSpec.BlockInPage | src/kernel/memory/heap.hpp:28-37 | every block lies in the page and behind the header |
| HeapSpec.BlocksApart | src/kernel/memory/heap.hpp:28-37 | two blocks of a slab do not overlap |
| HeapSpec.BlockAligned | src/kernel/memory/heap.hpp:28-37 | every block is aligned to its size but the 16-byte ones, which start 8 bytes off |
| HeapSpec.UserWordsApart | src/kernel/memory/heap.cpp:77-108 | no word belongs to two live allocations |
| HeapSpec.UserWordsClear | src/kernel/memory/heap.cpp:10-57 | no word of a live allocation is in a header or in a free block |
| HeapSpec.LargeEnough | src/kernel/memory/heap.cpp:77-108 | every word within the size asked for belongs to the allocation |
| HeapSpec.LiveDisjoint | src/kernel/memory/heap.cpp:77-108 | the byte ranges of live allocations are disjoint |
| HeapSpec.AlignmentTells | src/kernel/memory/heap.cpp:116-129 | a live pointer is page-aligned if and only if it is a page run; otherwise its page is the slab that owns it |
| HeapSteps.PopKeeps | src/kernel/memory/heap.cpp:41-45 | unlinking the first free block keeps free list and live blocks a partition of the slab |
| HeapSteps.PushKeeps | src/kernel/memory/heap.cpp:52-54 | so does putting a live block back at the head |
| HeapSteps.NewSlabKeeps | src/kernel/memory/heap.cpp:11-34 | a fresh slab linked to the end of a chain keeps the heap sound |
| HeapSteps.RunKeeps | src/kernel/memory/heap.cpp:94-104 | a page run with its header keeps the heap sound |
| HeapSteps.RunGoneKeeps | src/kernel/memory/heap.cpp:119-123 | dropping a page run keeps the heap sound |
| HeapSteps.UserStoreKeeps | src/kernel/memory/heap.cpp:77-108 | nothing a holder writes to its own words can break the heap |
| KernelHeaps.RoomAfterExtension | src/kernel/memory/heap.cpp:33-38 | in a chain that was full the added slab is the first with room |
| KernelHeaps.NoneFreeExactly | src/kernel/memory/heap.cpp:33-45 | the free list of a slab is empty if and only if all its blocks are in use |
| KernelHeaps.RoomExactly | src/kernel/memory/heap.cpp:33-45 | the slab that serves a request is the first in the chain with a block not in use; there is none if and only if all blocks of the class are in use |
| KernelHeaps.FreedIsReused | src/kernel/memory/heap.cpp:27-57 | the block freed last is handed out next, as long as the slabs before its own are in use |
| KernelHeaps.KfreeInvertsKmalloc | src/kernel/memory/heap.cpp:77-171 | on heap and books of the page allocator, kfree after kmalloc restores everything but for an empty slab page that had to be made |
| KernelHeaps.KernelHeap.KmallocThenKfree | src/kernel/memory/heap.cpp:77-171 | kmalloc and kfree in a row leave the heap and the free pages as they were, but for one page when a slab had to be made; every live allocation keeps its contents |
| KernelHeaps.KernelHeap.constructor | src/kernel/memory/heap.cpp:67-75 | one fresh slab for each class, nothing live, other pages untouched |
| KernelHeaps.KernelHeap.NewSlab | src/kernel/memory/heap.cpp:10-25 | a fresh page with header and all blocks on its free list |
| KernelHeaps.KernelHeap.FillSlab | src/kernel/memory/heap.cpp:13-22 | links the blocks in order |
| KernelHeaps.KernelHeap.SlabAlloc | src/kernel/memory/heap.cpp:27-46 | serves from the first slab of the chain with a free block; takes a new page only when all are full; ends |
| KernelHeaps.KernelHeap.ExtendChain | src/kernel/memory/heap.cpp:33-35 | a fresh slab at the end of the chain |
| KernelHeaps.KernelHeap.TakeBlock | src/kernel/memory/heap.cpp:41-45 | the first free block leaves the list and becomes live |
| KernelHeaps.KernelHeap.Kmalloc | src/kernel/memory/heap.cpp:77-108 | a pointer that was not live, to a block of its class or a page run; for a block, a page is taken if and only if every block of the class is in use, else the block is in the first slab with one left; every other live allocation keeps its contents |
| KernelHeaps.KernelHeap.TakeRun | src/kernel/memory/heap.cpp:92-104 | a page run behind its header page |
| KernelHeaps.KernelHeap.RunFor | src/kernel/memory/heap.cpp:92-104 | the branch for every 64-bit size: a run of the page count as it comes out in 64 bits, its header in the first page, a pointer to the second |
| KernelHeaps.RunHasRoom | src/kernel/memory/heap.cpp:94-104 | the run has room for the size, and the page that the pointer is to belongs to it, if and only if the size is at most 2^64 - 4096; it is then no page longer than needed |
| KernelHeaps.RequestTooLarge | src/kernel/memory/heap.cpp:94-104 | the smallest size for which the pointer is to a page that was not allocated |
| KernelHeaps.KernelHeap.Kfree | src/kernel/memory/heap.cpp:116-171 | a block rejoins its own slab, a run goes back whole to the page allocator; other live contents stay |
| KernelHeaps.KernelHeap.SlabFree | src/kernel/memory/heap.cpp:48-57 | the block becomes the head of its slab's list |
| Machines.TablesFrame | src/kernel/memory/vmm.cpp:100-122 | tables whose pages read the same form the same trees |
| Machines.UserPageNotTable | src/kernel/memory/heap.cpp:77-108 | no page with a live heap word is a page table |
| Machines.HeapStepKeepsTables | src/kernel/memory/heap.cpp:77-171 | no step of the heap changes any translation |
| Machines.TableStepKeepsHeap | src/kernel/memory/vmm.cpp:85-190 | no step of the page tables changes the heap or a live word |
| Machines.Machine.constructor | src/kernel/memory/heap.cpp:67-75 | heap and page tables set up over one allocator keep apart from the start |
| Machines.Machine.Kmalloc | src/kernel/memory/heap.cpp:77-108 | kmalloc over the shared memory: no translation changes |
| Machines.Machine.Kfree | src/kernel/memory/heap.cpp:116-171 | kfree over the shared memory: no translation changes |
| Machines.Machine.Map | src/kernel/memory/vmm.cpp:124-141 | map over the shared memory: no live heap word changes |
| Machines.Machine.MapRange | src/kernel/memory/vmm.cpp:150-155 | map_range over the shared memory: no live heap word changes |
| Machines.Machine.NewSpace | src/kernel/memory/vmm.cpp:85-94 | new_space over the shared memory |
| Machines.Machine.DestroySpace | src/kernel/memory/vmm.cpp:185-190 | destruction takes none of the heap's pages |
| Ringbuffers.Ringbuffer.Write | src/kernel/utils/ringbuffer.hpp:19-27 | appends; when full only the oldest item is lost |
| Ringbuffers.Ringbuffer.Read | src/kernel/utils/ringbuffer.hpp:29-38 | takes the oldest item, none if empty |
| Ringbuffers.Ringbuffer.IsEmpty | src/kernel/utils/ringbuffer.hpp:40-42 | true exactly when no item is kept |
| Ringbuffers.RunIsFifo | src/kernel/utils/ringbuffer.hpp:19-42 | over every run, what was written is what left, in order, followed by what is kept |
| Ringbuffers.ReadsFollowWrites | src/kernel/utils/ringbuffer.hpp:19-42 | reads are a subsequence of writes; without overflow they are all of them but what is kept |
| TaskLists.OneRound | src/kernel/scheduler.hpp:33-39 | |list| next_task calls come back to the start and stop at every task exactly once |
| TaskLists.AddedTurns | src/kernel/scheduler.hpp:41-52 | a new task has its turn after the tasks behind the cursor and before those in front of it; the others keep theirs |
| TaskLists.RemovedTurns | src/kernel/scheduler.hpp:54-75 | when the cursor's task is removed the others keep their turns |
| TaskLists.StepKeepsDistinct | src/kernel/scheduler.hpp:33-75 | no task is ever queued twice; removal takes exactly the cursor's task and moves the cursor to its successor |
| TaskLists.Relinked | src/kernel/scheduler.hpp:59-66 | bypassing a node leaves a chain without it, all prev links right but the front's |
| TaskLists.TaskList.NextTask | src/kernel/scheduler.hpp:33-39 | the cursor advances, round the end to the front |
| TaskLists.TaskList.AddTask | src/kernel/scheduler.hpp:41-52 | the task goes to the front, the cursor stays on its task |
| TaskLists.TaskList.RemoveCurrent | src/kernel/scheduler.hpp:54-75 | the cursor's node leaves the list and the cursor never dangles, although the front's prev may be stale |
| TaskLists.TaskList.IsEmpty | src/kernel/scheduler.hpp:77-79 | true exactly when nothing is queued |
| SchedSpec.PickUnique | src/kernel/scheduler.cpp:46-84 | from a given state at a given time only one pick is possible |
| SchedSpec.PickNotPast | src/kernel/scheduler.cpp:46-84 | the search never goes past an eligible task |
| SchedSpec.PickedByMayPick | src/kernel/scheduler.cpp:51-82 | with one counter reading for each sleeper looked at, none earlier than the one before, the search ends at the first task after the cursor that can run when it is looked at; that is a pick as the other rows have it |
| SchedSpec.ReadingsDecide | src/kernel/scheduler.cpp:51-82 | the readings alone decide the pick |
| SchedSpec.Fair | src/kernel/scheduler.cpp:46-84 | with fixed membership a task that stays eligible is chosen within as many schedule calls as there are tasks |
| SchedSpec.FairOverRun | src/kernel/scheduler.cpp:28-176 | the same of every run that leaves the membership as it is: the task is made current within as many schedule calls as it is places from the cursor |
| SchedSpec.NoPickWhenAllWait | src/kernel/scheduler.cpp:51-82 | with two or more tasks queued and all waiting for input no pick is right |
| Schedulers.SearchNeverEnds | src/kernel/scheduler.cpp:51-82 | then, after any number of next_task calls, the loop of schedule stands at a task that cannot run, whatever the counter reads |
| SchedSpec.SearchCanEndIff | src/kernel/scheduler.cpp:51-82 | a right pick exists at some time if and only if at most one task is queued or some queued task is not waiting for input |
| SchedSpec.StaysAwake | src/kernel/scheduler.cpp:99-176 | a queued task that neither waits nor ends by its own call is put to sleep for input by nobody else |
| SchedSpec.SearchesEndOverRun | src/kernel/scheduler.cpp:28-176 | as long as one queued task, such as the kernel's own, never waits for input or ends, every search in a run can end |
| SchedSpec.StepKeepsSched | src/kernel/scheduler.cpp:28-176 | every call and interrupt keeps the cursor on the current task's node, the queue duplicate-free, idle out of it |
| SchedSpec.StepKeepsContexts | src/kernel/scheduler.cpp:28-91 | and the saved registers of every queued task that is not running those it last ran with |
| SchedSpec.ResumesWithSaved | src/kernel/scheduler.cpp:86-88 | a picked task resumes with exactly those registers |
| SchedSpec.RunKeepsIntegrity | src/kernel/scheduler.cpp:28-176 | both hold in every state of every run |
| SchedRuns.FallsAsleep | src/kernel/scheduler.cpp:143-147 | the task that calls sleep is eligible again exactly from its deadline on, and the search comes back to it at once only if that has passed |
| SchedRuns.SleepsOn | src/kernel/scheduler.cpp:51-176 | no event but a search that reads a time at or past its deadline wakes a sleeper |
| SchedRuns.NotBeforeDeadline | src/kernel/scheduler.cpp:28-176 | over every run a sleeper runs again only from a search that ended at its deadline or later |
| Schedulers.WakeTimeExactly | src/kernel/scheduler.cpp:143-147 | the deadline is now plus the cycles of ms if and only if that fits 64 bits, else it is earlier by a multiple of 2^64 |
| Schedulers.SleepTooLong | src/kernel/scheduler.cpp:143-147 | a sleep of 9223372036855 ms that ends after 448384 cycles |
| SchedRuns.IdleKept | src/kernel/scheduler.cpp:32-44 | the idle task's saved registers are those it last ran with if and only if it is not interrupted, with others than it was resumed with, while nothing is queued |
| SchedRuns.IdleLosesRegisters | src/kernel/scheduler.cpp:32-44 | with nothing queued the interrupted idle task is resumed with older registers |
| SchedRuns.IdleResumesOverRun | src/kernel/scheduler.cpp:28-91 | over every run with the queue never empty the idle task holds the registers it last ran with |
| SchedRuns.FourAreKept | src/kernel/scheduler.cpp:155-165 | of the key events between two reads a queued task keeps the newest four |
| SchedRuns.WriteEvent | src/kernel/task.cpp:115-115 | writing to a ring of Size 5 is what wake_io does to a task's events |
| SchedSpec.SavesIntoEndedTask | src/kernel/scheduler.cpp:39-107 | schedule leaves the task that kill_and_yield deleted as it was if and only if nothing else is queued or the registers are those already saved |
| SchedSpec.EndedTaskWritten | src/kernel/scheduler.cpp:39-107 | two tasks, of which the running one ends and is written to after its deletion |
| Blocking.StretchReads | src/kernel/drivers/tty.cpp:8-31 | a stretch of Tty::read consumes a prefix of the event ring, gets exactly the characters typed in it, stops at length, at a newline, or blocks with the ring empty |
| Blocking.StepOnOthers | src/kernel/scheduler.cpp:28-176 | no step puts another queued task to sleep or takes from its ring; a key press or a packet leaves none waiting |
| Blocking.MoveKeepsSystem | src/kernel/scheduler.hpp:96-105 | a task blocked in Tty::read waits only while its ring is empty: kept by every move |
| Blocking.KeyWakesReaders | src/kernel/scheduler.cpp:155-165 | a key press wakes every blocked reader and leaves it that key to read |
| Blocking.SpuriousWakeWaitsAgain | src/kernel/scheduler.cpp:168-176 | a reader woken by the network with nothing to read blocks again with nothing got |
| Blocking.NoLostWakeUp | src/kernel/drivers/tty.cpp:14-18 | over every interleaving with timer, keyboard and network interrupts no wake-up is lost |
| ReadRuns.GetsWhatIsTyped | src/kernel/drivers/tty.cpp:8-31 | over every interleaving, what a read has got so far is what was typed among the events it took; these with the ones a full ring dropped and the ones left are all events since the call, in order; none is dropped if the ring had room at each key |
| ReadRuns.ReadReturns | src/kernel/drivers/tty.cpp:8-31 | so what read returns, however often it was blocked, is exactly what was typed among the events it took: the first length characters or fewer, up to the first newline |
| ReadRuns.StretchLine | src/kernel/drivers/tty.cpp:20-27 | a newline ends the read: there is none but in the last place |
| Schedulers.Scheduler.constructor | src/kernel/scheduler.cpp:23-26 | only the idle task, current |
| Schedulers.Scheduler.SaveContext | src/kernel/scheduler.cpp:32-44 | saves the interrupted task's registers unless it was never started or nothing is queued |
| Schedulers.Scheduler.FindTask | src/kernel/scheduler.cpp:46-84 | ends at the first task after the cursor that can run when the loop looks at it, each sleeper judged by a reading of its own, or at idle when the one queued task cannot; terminates whenever it can |
| Schedulers.Scheduler.Schedule | src/kernel/scheduler.cpp:28-91 | is the schedule step of the state machine, with the pick that the readings made decide, and returns the registers of the task it chose |
| Schedulers.Scheduler.AddTask | src/kernel/scheduler.cpp:109-111 | is the add step, in a fresh node at the front |
| Schedulers.Scheduler.KillAndYield | src/kernel/scheduler.cpp:99-107 | unlinks exactly the running task, in the nodes there are, and schedules; does nothing when nothing is queued |
| Schedulers.Scheduler.Sleep | src/kernel/scheduler.cpp:143-147 | is the sleep step; the caller is asleep until now plus the cycles of ms, in 64 bits, and can be run from then on, not before |
| Schedulers.Scheduler.AwaitIo | src/kernel/scheduler.cpp:149-152 | is the wait step |
| Schedulers.Scheduler.WakeIo | src/kernel/scheduler.cpp:155-165 | gives every queued task the event and wakes exactly those waiting |
| Schedulers.Scheduler.WakeNet | src/kernel/scheduler.cpp:168-176 | wakes exactly the queued tasks that wait |
| Schedulers.Scheduler.ReadStretchOf | src/kernel/drivers/tty.cpp:8-31 | the read loop up to its return or next await_io is a stretch; the rest of the buffer is untouched |
| Schedulers.Scheduler.ReadOn | src/kernel/drivers/tty.cpp:8-31 | entering or resuming Tty::read is a move of the interleaving that Blocking describes |
| Locks.StepKeepsCpu | src/kernel/lock.cpp:6-25 | over every interleaving of tasks, calls, handlers and switches a held lock is held by the running activation, with interrupts off |
| Locks.NeverSpins | src/kernel/lock.cpp:13-15 | test-and-set always finds the lock free |
| Locks.HeldMeansOff | src/kernel/lock.cpp:8-10 | a held lock implies interrupts are off and the running activation holds it |
| Locks.NothingHeldAcross | src/kernel/lock.cpp:8-10 | no handler is entered or left, no call made, no task switched while a lock that still exists is held |
| Locks.DiscardKeeps | src/kernel/memory/vmm.cpp:185-190 | destroying an object with the held lock inside it, as the destructor of an address space does, keeps all that |
| Locks.CriticalSectionIsClosed | src/kernel/lock.cpp:11-25 | from line 11 to the end of release nothing else runs and the saved flag stays |
| Locks.ReleaseRestores | src/kernel/lock.cpp:18-25 | release never turns on interrupts that acquire found off, and restores exactly unless line 7 ran again meanwhile |
| Locks.RestoredExactly | src/kernel/lock.cpp:6-25 | over every run: interrupts come back as the last execution of line 7 for the lock found them, so as acquire found them if and only if that was off or the last execution found them on |
| Locks.UninterruptedAcquireRestores | src/kernel/lock.cpp:6-25 | they come back exactly when nothing lands between lines 7 and 11 |
| Locks.InterruptsLost | src/kernel/lock.cpp:7-11 | a run where a handler using the lock lands between lines 7 and 11 and interrupts stay off |
| Locks.AcquireInOneGo | src/kernel/lock.cpp:6-16 | an uninterrupted acquire takes the lock at the first try and touches no other lock |
| Locks.ReleaseInOneGo | src/kernel/lock.cpp:18-25 | an uninterrupted release frees the lock and restores the saved flag |
| Locks.Spinlock.Acquire | src/kernel/lock.cpp:6-16 | locked, flag saved, interrupts off |
| Locks.Spinlock.Release | src/kernel/lock.cpp:18-25 | unlocked, interrupts as saved |
| Checksums.OnesSumIsNorm | src/kernel/net/socket.cpp:83-97 | adding with end-around carry is the sum modulo 65535, 0 kept apart from 65535 |
| Checksums.FoldedIsNorm | src/kernel/net/socket.cpp:91-96 | one fold and one carry are enough for every 32-bit sum |
| Checksums.FoldedTwiceIsNorm | src/apps/ping.c:33-36 | so are ping's two folds |
| Checksums.SwapAdd | src/kernel/net/socket.cpp:83-97 | end-around addition does not care for byte order (RFC 1071, section 2(B)) |
| Checksums.ByteOrderIndependent | src/kernel/net/socket.cpp:83-97 | summing little-endian words gives the byte-swapped sum of the big-endian ones |
| Checksums.RfcExactly | src/kernel/net/socket.cpp:83-97 | for every even size get_checksum is the RFC 1071 checksum if and only if the sum fits 32 bits or wraps a multiple of 65535 times to a result that is not 0 |
| Checksums.RfcUpToLimit | src/kernel/net/socket.cpp:83-97 | it is for every even size up to 131074 bytes |
| Checksums.LimitIsSharp | src/kernel/net/socket.cpp:83-97 | there are 131076 bytes for which it is not |
| Checksums.InsertedSumsToAllOnes | src/kernel/net/socket.cpp:83-97 | the checksum put into a zero field makes the block sum to 0xffff in either byte order |
| Checksums.ChangeDetected | src/kernel/net/socket.cpp:83-97 | changing one word changes the checksum unless it swaps 0 and 0xffff in a block not otherwise zero |
| Checksums.PingAgrees | src/apps/ping.c:20-37 | both implementations agree on even sizes, on odd ones exactly when the last byte is 0 |
| Checksums.PingExactly | src/apps/ping.c:20-37 | for every size, odd ones included, ping computes the RFC 1071 checksum of the block padded with a zero byte if and only if the sum survives 32 bits |
| Checksums.GetChecksum | src/kernel/net/socket.cpp:83-97 | the loop computes the wrapped sum of 16-bit words, folded; within the limit the RFC checksum |
| Checksums.PingSum | src/apps/ping.c:20-37 | ping's loop computes its sum, a last odd byte included |
| Checksums.SendIpv4 | src/kernel/net/socket.cpp:12-46 | the frame handed to the driver: Ethernet header, IPv4 header with its checksum, data; nothing without a driver |
| Checksums.FillHeader | src/kernel/net/socket.cpp:24-40 | writes exactly the 20 header bytes |
| Checksums.HeaderFields | src/kernel/net/socket.cpp:24-40 | each field of the header at its place (RFC 791, section 3.1); the total length is right if and only if the data is at most 65515 bytes |
| Checksums.ReceiveIpv4 | src/kernel/net/socket.cpp:48-81 | drops short, non-IPv4 and wrongly summed packets, dispatches the others; leaves the checksum field zero |
| Checksums.AcceptedExactly | src/kernel/net/socket.cpp:60-66 | a version 4 header is accepted if and only if it sums to 0xffff and its checksum field is not 0xffff |
| Checksums.DeliveredExactly | src/kernel/net/socket.cpp:55-78 | a header is dropped if and only if it is not version 4, does not sum to 0xffff or has checksum field 0xffff; else its protocol byte decides |
| Checksums.ValidButDropped | src/kernel/net/socket.cpp:60-66 | a version 4 header that sums to 0xffff and is dropped |
| Checksums.SentIsAccepted | src/kernel/net/socket.cpp:12-81 | every header the kernel sends, the kernel accepts and dispatches by protocol |
| HashMaps.HashKey | src/kernel/utils/hashmap.hpp:22-31 | the xor variant of djb2 over the C string, characters sign-extended, in 32 bits |
| HashMaps.HashBits | src/kernel/utils/hashmap.hpp:22-31 | bit by bit: 5381 for the empty key; one more character multiplies by 33 modulo 2^32 and flips the bits the sign-extended character has |
| HashMaps.OneCharacterTells | src/kernel/utils/hashmap.hpp:22-31 | keys of one length that differ in one character, wherever it stands, have different hashes |
| HashMaps.NeighboursApart | src/kernel/utils/hashmap.hpp:36-38 | hashes less than the table's length apart are in different chains |
| Words.XorBits | src/kernel/utils/hashmap.hpp:22-31 | the exclusive or of the model is the bitwise one |
| HashMaps.InsertIsPutIfAbsent | src/kernel/utils/hashmap.hpp:36-77 | through get, insert is put-if-absent on the hash, although the last entry of a chain is not checked |
| HashMaps.DuplicatesExactly | src/kernel/utils/hashmap.hpp:46-58 | an insert into a table without duplicates leaves one behind if and only if the key is already the last of its chain |
| HashMaps.InsertCanDuplicate | src/kernel/utils/hashmap.hpp:46-58 | inserting one key twice into an empty chain leaves two entries |
| HashMaps.InsertAfterFailedGet | src/kernel/fs/vfs.cpp:62-81 | inserting only what get did not find keeps hashes unique |
| HashMaps.ListsEachOnce | src/kernel/utils/hashmap.hpp:80-98 | then get_nth lists each entry with non-zero hash exactly once, with the value get finds |
| HashMaps.StringHashMap.ViewOk | src/kernel/utils/hashmap.hpp:36-77 | every entry of the linked chains is in the chain of its hash |
| HashMaps.StringHashMap.ListsAll | src/kernel/utils/hashmap.hpp:80-98 | the listing of the linked table meets each key with non-zero hash exactly once, with the value get finds, while no key is there twice |
| HashMaps.StringHashMap.constructor | src/kernel/utils/hashmap.hpp:34-34 | an empty table |
| HashMaps.StringHashMap.Get | src/kernel/utils/hashmap.hpp:61-77 | the value of the first entry in the chain with the key's hash |
| HashMaps.StringHashMap.Insert | src/kernel/utils/hashmap.hpp:36-59 | the linked chain becomes that of the insert step |
| HashMaps.StringHashMap.GetNth | src/kernel/utils/hashmap.hpp:80-98 | the n-th listed entry, none past the last |
| NameTrees.LeadingSlash | src/kernel/fs/vfs.cpp:56-60 | get_node looks up the names create does, but for the empty first name that a leading slash gives create |
| NameTrees.SplitsAtSlash | src/kernel/fs/vfs.cpp:56-60 | a name alone is one name; a slash ends it, further slashes are skipped, and the rest of the path gives the other names |
| NameTrees.SplitsJoined | src/kernel/fs/vfs.cpp:56-60 | splitting undoes joining: of a path put together from any list of names create and get_node look up exactly those |
| NameTrees.OneRoute | src/kernel/fs/vfs.cpp:92-125 | a node is reached by one list of name hashes only |
| NameTrees.WithChildOk | src/kernel/fs/vfs.cpp:65-82 | adding a child keeps the tree a tree with unique hashes per directory |
| NameTrees.WalkKept | src/kernel/fs/vfs.cpp:65-82 | every path that resolved resolves to the same node |
| NameTrees.WalkNew | src/kernel/fs/vfs.cpp:65-82 | the only path that newly resolves is the new node's |
| NameTrees.CreatedMeansNoFault | src/kernel/fs/vfs.cpp:62-81 | create reaches the end only if no proper prefix is a file |
| NameTrees.FoundExactly | src/kernel/fs/vfs.cpp:45-90 | after create exactly the old paths and the prefixes of the new one resolve |
| NameTrees.RoundTrip | src/kernel/fs/vfs.cpp:45-125 | get_node finds what create returned under the same path if and only if it has no leading slash, and then with one put in front too |
| NameTrees.SecondCreate | src/kernel/fs/vfs.cpp:45-90 | a second create of a path returns the same node and adds nothing |
| NameTrees.ResolvesForGood | src/kernel/fs/vfs.cpp:45-125 | over any run of creates, what resolved once and what create returned stays |
| Vfss.NextName | src/kernel/fs/vfs.cpp:57-60 | splits one name off in place, over repeated and trailing slashes, and leaves the rest of the path |
| Vfss.Vfs.Mount | src/kernel/fs/vfs.cpp:24-36 | a new empty root |
| Vfss.Vfs.AddChild | src/kernel/fs/vfs.cpp:65-82 | adds exactly one node to the tree, in its parent's table, with the next inode, its name a copy of the path component |
| Vfss.Vfs.Turn | src/kernel/fs/vfs.cpp:56-86 | one turn of the loop: the name up to the next slash is looked up, and a node of that name added if it is missing |
| Vfss.Vfs.Store | src/kernel/fs/vfs.cpp:81-81 | every other directory's table is untouched |
| Vfss.Vfs.Create | src/kernel/fs/vfs.cpp:45-90 | faults exactly where the path goes below a file, adding nothing; else adds exactly the missing prefixes, directories but for the last, and returns the last |
| Vfss.Vfs.GetNode | src/kernel/fs/vfs.cpp:93-125 | the node the walk finds, null if a name is missing, a fault below a file |

## Left out

- Pmms.Pmm.constructor: takes as search limit the number of bits in the bitmap, where the code passes `bitmap.size * PAGE_SIZE` (see NextFit.OversizedLimit); page 0 is taken to be unusable because address 0 also means failure, and some entry to have room for the bitmap; maps whose bitmap is too small (see Pmms.CoveredExactly) are left out.
- Pmms.Plan: the same maps are left out.
- Pmms.Pmm.Alloc: reads only the bits of the bitmap, for the same reason.
- Pmms.Pmm.FreeRunAt: is stated for a live run; the code would clear the bits of any range.
- Vmms.Vmm.NewSpace: needs one free page, because the code does not check for failure there and would write to physical page 0.
- Vmms.Vmm.Init: needs 257 free pages for the same reason, and stops before the mappings of kernel sections and physical memory, which are loops over `map`; `map_io_range` is such a loop too.
- Vmms.Vmm.Map: page tables are memory only; the processor's translation caches and `switch_space` are not modelled, and frames are page numbers below 2^40.
- KernelHeaps.KernelHeap.NewSlab: needs a free page, because the code does not check for failure and would write to physical page 0; so do the members that call it.
- KernelHeaps.KernelHeap.ExtendChain: needs a free page, as NewSlab does.
- KernelHeaps.KernelHeap.constructor: needs seven free pages, as NewSlab does.
- KernelHeaps.KernelHeap.SlabAlloc: needs a free page when the chain is full; and is one step, where the code releases the slab lock before it goes on to the next slab of the chain.
- KernelHeaps.KernelHeap.RunFor: needs a run of free pages, because the code does not check for failure.
- KernelHeaps.KernelHeap.TakeRun: needs a run of free pages, as RunFor does, and a size of at most 2^64 - 4096, above which the pointer is to memory the heap does not own (see KernelHeaps.RunHasRoom).
- KernelHeaps.KernelHeap.Kmalloc: needs what the branch it takes needs, so a size of at most 2^64 - 4096; the address space object itself is not allocated from the heap in the model.
- KernelHeaps.KernelHeap.KmallocThenKfree: needs what Kmalloc needs.
- HeapSpec.LargeEnough: is about heaps that these members lead to, which hold no run for a size above 2^64 - 4096.
- KernelHeaps.KernelHeap.Kfree: is stated for live pointers; the branch that reports an invalid size is then not reached.
- Machines.Machine.constructor: needs 264 free pages, as its parts do.
- Machines.Machine.Kmalloc: needs what the heap's Kmalloc needs, a size of at most 2^64 - 4096 included.
- Machines.Machine.Kfree: is stated for live pointers.
- Machines.Machine.NewSpace: needs one free page.
- Schedulers.Scheduler.WakeIo: a task holds the contents of its event ring, not a pointer to a Ringbuffer object; SchedRuns.WriteEvent is proved to act on such an object as the step here does.
- Schedulers.Scheduler.KillAndYield: the object of the task that ends is not given back to the heap in the model, so that `schedule` can still look at its status and save registers into it (see SchedSpec.SavesIntoEndedTask); address spaces and handles of tasks are not modelled.
- Schedulers.Scheduler.Schedule: requires that the search can end (SchedSpec.SearchCanEndIff); the call before the scheduler is initialised, the timer's stop and resume and the switch of address space are left out.
- Schedulers.Scheduler.FindTask: requires that the search can end; Schedulers.SearchNeverEnds says what its loop does otherwise.
- Schedulers.Scheduler.AwaitIo: requires that the search can end once the caller waits.
- Schedulers.Scheduler.ReadOn: requires the same if the read blocks.
- Schedulers.Scheduler.Sleep: the time stamp counter itself does not wrap.
- Locks.Spinlock.Acquire: tries once, which Locks.NeverSpins shows to be enough; the loop is the TestAndSet action of the machine. One processor; the discipline of the code (no call, yield or handler exit while holding a lock that still exists, last taken is first released, no exception inside a section) is part of when an action is possible. The destructor of an address space takes its lock and never releases it before the killed task yields; the lock is gone with the space by then, which is the Discard action.
- Locks.StepKeepsCpu: the memory, scheduler and name models above run each call as one step instead of on this machine.
- HashMaps.StringHashMap.constructor: the bucket array is taken to start out null; the code does not initialise it.
- Vfss.Vfs.Create: the test whether the path ends is taken to mean what it says, though the kernel's `strcmp` skips the first character; names are compared by hash only, as in the code; memory is never short.
- Vfss.Vfs.Mount: only the mount of a new root.
- Checksums.SendIpv4: the frame is handed over as its contents; the driver and the allocation of the frame are left out.
- `block_on` outside `Tty::read`, the wake-up race of the packet handler thread, futexes and the datagram sockets.
- `DoublyLinkedList`, file contents, directories' read positions, descriptors.
- Task creation and stacks, ELF loading, mmap, drivers, descriptor tables, assembly, more than one processor.
