# Jonix kernel: heap, pages, scheduler

A Dafny model of three parts of the Jonix kernel, with proofs of what they keep and promise. `dafny verify dfyconfig.toml` checks all of it.

**The heap** (`lib/heap.c` over `lib/util/oarray.c`) is a region tiled by blocks. Each block has a 12-byte header and an 8-byte footer, and free blocks are also listed in an array sorted by size. `Bytes` and `Tags` give the region as bytes with little-endian words, and the stores the code makes through header and footer pointers. `Tiling` has the blocks as values: a map from header address to end address and hole flag. `HeapSpec` says what each operation does to blocks and index, and what it keeps. `HeapTheorems` has the properties of single calls, `HeapRuns` those of whole runs. `KernelHeap` is the heap in memory, over the page mapper: every method is proved to turn the bytes and the index array into exactly the state `HeapSpec` gives, without changing a byte of any other live range. `SortedSeq` and `OrderedArray` are the ordered array and what insertion by a key does.

**Physical and virtual memory** (`lib/mem.c`). `FrameStack` has the two stacks of free page frames and the arithmetic of `mem_init`. `Paging` has two-level translation (Intel SDM Volume 3A, "32-Bit Paging"), the window the last directory slot opens on directory and tables, and what a change of one entry does. `BootTables` has the initial map. `Frames` is the account of where every frame is, and `PageMapper` the functions that move frames and change tables. `KernelBoot` is `mem_init` as a whole, up to the first heap.

**The scheduler** (`lib/time.c`, `lib/sched.c`, `lib/sem.c`, `lib/thr.c`, over `lib/util/list.c`) is one state machine whose steps are the timer interrupt, sleep, wait and release. `SchedSpec` has the steps, `SchedTheorems` the properties of steps and runs, `LinkedList` the linked lists, and `KernelSched` the kernel entries updating their global variables and those lists.

**The number printers** (`lib/c/printf.c`) are in `NumberText` and `HumanText`.

## How the model relates to the code

Integers are unbounded. Where 32 bits matter the model says so: tick targets and the tick count, list indices, words in memory, negation of the least int, the count of a new semaphore, the size sum of an allocation.

The code departs from its evident intent in some places. Each is treated so:

- `lib/heap.c:222` computes `new_hdr - sizeof(heap_ftr_t)` on a header pointer, so the moved footer lands 96 bytes below the new header and not 8. `AbsorbSliver` moves it by 8 bytes. `SpeltRightIff` says exactly when the spelt stores leave the memory that was meant: both the 8 bytes they miss and the 8 bytes they hit must have held that footer before. `SpeltHitsIff` says the same of whatever lies where the store goes: the payload of the previous block or, if that block is short, bytes in front of it. `SpeltPromiseIff` is the exact condition for what the absorbing block is promised, and `SpeltBreaksTwelve` gives a family of blocks for which it fails.
- `lib/c/string.c:49` counts an unsigned index down to zero and never ends. The footer move is a plain copy of its two words.
- `lib/heap.c:148` masks with `0xFFFFF000`, which is nonzero for aligned addresses too. This is kept: an aligned request always moves the start of the block, even a block that is aligned already.
- `lib/heap.c:251` and `lib/heap.c:323` ignore whether the index took a hole. This is kept: a full index drops it. `RoomToAdd` shows that none is dropped while the region has at most 20 bytes for each index entry, and the theorems that need an exact index say so.
- `lib/heap.c:332` sizes an extension without alignment slack. This is kept: `AlignedNullIff` and `PageRequestNullIff` say exactly when an aligned request then fails.
- `lib/heap.c:123` adds 20 to the size in 32 bits. `FitTestIff` says the size test is right exactly if the sum does not wrap, and that is the domain of `HeapAlloc`; `WrappedNeverFits` says that otherwise no block could hold the request and the first is taken all the same.
- `lib/mem.c:198` gives the directory entries of later tables no flags. `MemInit` takes the flags as a parameter: 0 as spelt, or 3 as at `lib/mem.c:170`. `LateFlagsIff` says exactly when 0 maps all of memstack2, and `LateFlagsWrong` gives a machine on which it does not.
- `lib/mem.c:510` masks the page number with `0xFFFF`. `KpfreeAtV` takes the modulus as a parameter. It frees the page whose entry the mask selects, `HitPage`; with the mask as spelt that is often another page, and the page asked for stays mapped. `FreeEntryIff` says exactly for which addresses the entry is the right one, and `FreeEntryWrong` gives an address for which it is not.
- `lib/mem.c:447-453` does not give a frame back when the mapping fails. This is kept: the account enters the frame as held.
- `lib/util/list.c:81-82` stores through a null pointer when the only node is deleted; the store falls outside every list. `lib/util/list.c:96-101` never updates `last`. Both are kept, and `Del` says exactly when `last` is still right. The scheduler deletes first nodes only, so its lists always have a right `last`: `KernelSched` proves that every entry keeps them valid.
- `lib/util/list.c:117-123` was written for negative indices, but the index is unsigned. `Get` says what is returned for every index.
- `lib/c/printf.c:47` negates the least int to itself. `DigitsInRangeIff` says this is the one number whose digits go wrong. `lib/c/printf.c:94-125` writes no NUL behind G and M. `UnterminatedIff` says exactly when the string ends that way.
- `lib/sem.c:20` stores an unsigned count in a signed field: `NewSemIff`.
- `lib/time.c:139-144` leaves the target unset for an unknown unit. The value it then has is a parameter (`stale`).

In `HeapSpec` the answers of the page mapper are a parameter; `KernelHeap` gets them from `PageMapper`. What fresh pages contain is a parameter throughout. Thread priorities are a fixed function of the thread.

## Model

| member | source | states |
|---|---|---|
| SortedSeq.Position | lib/util/oarray.c:42-45 | the insertion point: nothing before it has a greater key, and what stands there has one |
| SortedSeq.InsertIs | lib/util/oarray.c:33-66 | whatever shifts the items from that point up by one and puts the new one there has done the insertion |
| SortedSeq.InsertMembers | lib/util/oarray.c:33-66 | insertion adds the item once and loses nothing |
| SortedSeq.InsertSorted | lib/util/oarray.c:33-66 | insertion keeps the order |
| SortedSeq.InsertDistinct | lib/util/oarray.c:33-66 | insertion of an absent item makes no duplicate |
| SortedSeq.InsertSameKeys | lib/util/sort.h:31-36 | insertion depends on the items' key values alone, not on where they are read |
| SortedSeq.RemoveAtMembers | lib/util/oarray.c:97-111 | deletion by index takes that item and no other |
| SortedSeq.RemoveAtSorted | lib/util/oarray.c:97-111 | deletion keeps the order |
| SortedSeq.RemoveKeeps | lib/util/oarray.c:116-125 | deletion by value takes exactly that value, keeping order and distinctness |
| OrderedArray.OArray.constructor | lib/util/oarray.c:19-28 | an empty array of the given capacity |
| OrderedArray.OArray.Add | lib/util/oarray.c:33-66 | the in-place shift is the sorted insertion; it fails, changing nothing, exactly when the array is full |
| OrderedArray.OArray.ShiftUp | lib/util/oarray.c:59-62 | every item from the index up moves one place, those below stay |
| OrderedArray.OArray.FindValue | lib/util/oarray.c:79-91 | the first index of a value, -1 exactly if absent |
| OrderedArray.OArray.Del | lib/util/oarray.c:97-111 | the shift down removes exactly the item at the index |
| OrderedArray.OArray.DelValue | lib/util/oarray.c:116-125 | removes the first occurrence and says whether there was one, whatever the order of the array |
| Tags.PutBlockTags | lib/heap.c:90-97 | the stores that make a block leave a right header and footer, and touch nothing outside the block |
| Tags.TagBytes | lib/heap.c:54-65 | the bytes of a right block: hole flag, size, header address and both magic numbers, lowest byte first |
| Tags.CutFrontTags | lib/heap.c:296-319 | the stores of a tail split leave two blocks with right headers and footers |
| Tags.CutBackTags | lib/heap.c:238-262 | so do those of an aligned split |
| Tags.AbsorbTags | lib/heap.c:208-233 | giving a sliver to the previous block leaves both blocks right and the previous block's payload unchanged |
| Tags.JoinTags | lib/heap.c:414-424 | adding sizes and redirecting the outer footer makes one right block of two |
| Tags.SpeltRightIff | lib/heap.c:208-233 | with the pointer arithmetic as spelt, the stores leave exactly the memory that was meant if and only if the 8 bytes at c - 8 and the 8 bytes at c - 96 held the footer of the absorbing block already |
| Tags.SpeltHitsIff | lib/heap.c:222 | a stretch of bytes around the place the store goes, in the absorbing block's payload or in front of that block, survives if and only if its 8 bytes at c - 96 were that footer |
| Tags.SpeltPromiseIff | lib/heap.c:208-233 | with the store inside the payload, the absorbing block is right and its payload unchanged if and only if both places held that footer |
| Tags.SpeltFooterIff | lib/heap.c:222 | of that, the footer: the grown block ends in its own if and only if the same 8 bytes were that footer before |
| Tags.SpeltBreaksTwelve | lib/heap.c:222 | with a 12-byte sliver it then never is a right block |
| Tiling.SplitTiled | lib/heap.c:237-263 | cutting a block into pieces of at least 20 bytes keeps the tiling |
| Tiling.MergeTiled | lib/heap.c:414-457 | joining two neighbours keeps the tiling |
| Tiling.AppendTiled | lib/heap.c:88-108 | so does a block appended at the end |
| Tiling.ShiftBoundary | lib/heap.c:208-233 | so does moving the boundary between a block in use and the hole behind it; the sliver becomes part of the block in front |
| Tiling.PrevExists | lib/heap.c:181 | every block but the first has one that ends where it starts |
| Tiling.BlockCount | lib/heap.c:36-40 | a region holds at most one block for every 20 bytes |
| HeapSpec.Scan | lib/heap.c:128-159 | the first index entry whose block fits |
| HeapSpec.FitsIff | lib/heap.c:128-159 | an aligned request passes the tests of the loop if and only if the block has a page boundary P behind its header with P + size + 8 below its end; the boundary taken is the first such |
| HeapSpec.FitTestIff | lib/heap.c:123-130 | the 32-bit size test passes exactly the blocks that can hold the request if and only if size + 20 does not wrap; if it wraps every block passes |
| HeapSpec.WrappedNeverFits | lib/heap.c:123-130 | if it wraps, no block is large enough, and every block passes |
| HeapSpec.PlaceWf | lib/heap.c:24-71 | which arguments heap_place refuses; otherwise a well-formed heap with an index of 0x20000 entries, start 28 + 4 * 0x20000 behind the base, end behind the last page, and one hole between them |
| HeapSpec.SliverHasPrev | lib/heap.c:177-200 | heap->start is fixed modulo 4096, so a sliver always has a block in front and the discard branch never runs |
| HeapSpec.SliverPrevInUse | lib/heap.c:201-207 | the block that absorbs a sliver is in use, since holes meet only at multiples of 4096 |
| HeapSpec.RoomToAdd | lib/heap.c:459-464 | while the region has at most 20 bytes per index entry there is room for every hole not yet listed |
| HeapSpec.PageSplitKeeps | lib/heap.c:151-263 | moving the start to a page boundary keeps tiling, index order, seams and every block in use; the moved hole is as long as the rest |
| HeapSpec.SliverKeeps | lib/heap.c:177-236 | the same, where the previous block absorbs the sliver |
| HeapSpec.LeadingHoleKeeps | lib/heap.c:237-263 | the same, where the front becomes a hole |
| HeapSpec.ChooseReady | lib/heap.c:128-270 | the hole chosen for a fitting entry has room for the request, starts on a page if asked to, and is no longer listed |
| HeapSpec.GiveFrontKeeps | lib/heap.c:283-325 | handing out the front keeps the heap well formed and adds exactly that block to those in use: the whole hole if it has at most size + 40 bytes, else size + 20 of them, with the rest a hole |
| HeapSpec.ExtendKeeps | lib/heap.c:79-111 | an extension succeeds exactly if the pages are granted, end below the last 4MB and the index has room; it adds exactly one block and one index entry, and a refused one changes nothing |
| HeapSpec.FreeBackKeeps | lib/heap.c:385-427 | marking a block free and joining it to a hole in front changes no other block in use; holes can meet only behind it |
| HeapSpec.FreeForwardKeeps | lib/heap.c:431-457 | joining to a hole behind removes that meeting point |
| HeapSpec.FreeKeeps | lib/heap.c:367-467 | heap_free keeps the heap well formed, takes exactly the freed block out of use, leaves all others as they were, and succeeds while the index has room |
| HeapTheorems.CarveServes | lib/heap.c:128-326 | a fitting entry is served: a block not in use before, with room for the request, aligned if asked to |
| HeapTheorems.AllocServes | lib/heap.c:119-341 | every call ends with a well-formed heap; it serves the request, or returns NULL with every block as before; the index stays exact while it has room |
| HeapTheorems.ScanFinds | lib/heap.c:128-159 | the loop falls through exactly when no listed hole fits |
| HeapTheorems.BestFit | lib/heap.c:128-270 | with an exact index an unaligned request takes a hole that fits, no hole that fits is smaller, and nothing is extended |
| HeapTheorems.AlignedBestFit | lib/heap.c:128-270 | so does an aligned one: if any hole has a page boundary with room behind it, the pointer is the first such boundary of a hole, no hole that has one is smaller, and nothing is extended |
| HeapTheorems.AlignedServedIff | lib/heap.c:128-341 | without extension an aligned request is served if and only if some hole has such a boundary |
| HeapTheorems.UnalignedExtendsOnce | lib/heap.c:329-340 | when every listed hole is shorter than size + 20 there is one extension: if it succeeds it serves the request at the old end, else NULL and nothing has changed |
| HeapTheorems.GrantsBehind | lib/heap.c:329-340 | what an allocation does depends on the page mapper's answers from the heap's end on only |
| HeapTheorems.FreshIsChosen | lib/heap.c:329-340 | after a failed scan and an extension only the fresh block can fit |
| HeapTheorems.FreshServesIff | lib/heap.c:153-159 | a fresh extension serves an aligned request if and only if the size is 9 to 19 bytes short of whole pages |
| HeapTheorems.JustUnderPagesMeans | lib/heap.c:332 | that condition, as an interval below a multiple of 4096 |
| HeapTheorems.AlignedNullIff | lib/heap.c:329-340 | when no listed hole has a page boundary with room behind it, an aligned request fails if and only if its size is not just under whole pages or the first extension is refused; before it fails it extends until refused |
| HeapTheorems.PageRequestNullIff | lib/heap.c:348-359 | page requests fail if and only if no listed hole has a page boundary with that many pages and 8 bytes behind it: extending never helps |
| HeapTheorems.NullIff | lib/heap.c:119-341 | NULL if and only if no listed hole has room and the one extension that is asked for is refused or, for an aligned request, of no use |
| HeapTheorems.FoundIff | lib/heap.c:128-341 | the loop finds an entry if and only if a listed hole has room; then nothing is extended |
| HeapTheorems.AllocFreeRestores | lib/heap.c:119-467 | heap_alloc then heap_free gives back the exact blocks if and only if no sliver was absorbed and no hole touches the ends the freed block reaches |
| HeapTheorems.RestoresInPlace | lib/heap.c:283-467 | that, for a request served from the start of a hole |
| HeapTheorems.RestoresLead | lib/heap.c:237-467 | for one served behind a leading hole |
| HeapTheorems.SliverStays | lib/heap.c:201-236 | an absorbed sliver is not given back |
| HeapRuns.StepSound | lib/heap.c:24-467 | every call keeps: blocks in use are exactly those of live pointers, each with room for what was asked; other pointers stay live |
| HeapRuns.RequestSound | lib/heap.c:119-341 | that, for heap_alloc |
| HeapRuns.ReleaseSound | lib/heap.c:367-467 | that, for heap_free |
| HeapRuns.RunSound | lib/heap.c:24-467 | every run of calls keeps it; a pointer nobody frees stays live; the start never moves |
| HeapRuns.PlaceSound | lib/heap.c:24-71 | it holds right after heap_place |
| HeapRuns.LiveDisjoint | lib/heap.c:119-341 | live ranges share no byte with each other nor with any header or footer |
| HeapRuns.AllHoles | lib/heap.c:396-457 | with nothing in use every block but the first starts where an extension was appended |
| HeapRuns.ReleasingAllCoalesces | lib/heap.c:387-466 | freeing all live pointers in any order leaves at most one hole more than there were extensions |
| HeapRuns.RoundTripToPlaced | lib/heap.c:24-467 | without extension, any run followed by freeing what is live gives the very blocks heap_place made |
| KernelHeap.Heap.Make | lib/heap.c:45-70 | the bytes and the index array heap_place writes are the placed heap, with one hole from behind the index array to the last page |
| KernelHeap.Heap.HeapPlace | lib/heap.c:24-71 | NULL exactly for an unaligned start or too few pages, else that heap |
| KernelHeap.Heap.TakePages | lib/heap.c:83-86 | pages are taken from the page mapper exactly if they lie below the last 4MB, none is mapped, and there are frames for them and their missing tables; they get the flags of the heap and nothing else is mapped; memory and mapping agree afterwards, also when only some could be mapped; what was refused once stays refused |
| KernelHeap.Heap.CanExtendIff | lib/heap.c:83-86 | that condition in numbers: as many free frames as pages and directory slots of the range without a table |
| KernelHeap.Heap.HeapExtend | lib/heap.c:79-111 | succeeds if and only if the page mapper can give the pages and the index has room; bytes and index change exactly as specified, and no payload does |
| KernelHeap.Heap.HeapAlloc | lib/heap.c:119-341 | an allocation over the page mapper, with all its branches and the recursion, which ends: bytes, index and pointer are as specified; NULL if and only if no listed hole has room and the page mapper cannot give the pages, the index is full or the request is aligned and not just under whole pages; a hole with room is used without asking the page mapper; at a NULL the heap can grow no further; no payload of a block in use changes, and frames, mapping and memory stay in agreement |
| KernelHeap.Heap.FindFit | lib/heap.c:128-159 | the loop over the index, reading sizes from memory, finds the entry the specification scans for, which FoundIff and FitsIff characterize |
| KernelHeap.Heap.ServeFrom | lib/heap.c:161-326 | serving a request from that entry, in memory |
| KernelHeap.Heap.SplitForPage | lib/heap.c:151-263 | the page split in memory; its discard branch is proved dead |
| KernelHeap.Heap.AbsorbSliver | lib/heap.c:208-233 | sliver absorption in memory, finding the previous block through its footer |
| KernelHeap.Heap.GiveHole | lib/heap.c:283-325 | the tail split or the whole block, in memory |
| KernelHeap.Heap.HeapFree | lib/heap.c:367-467 | a live pointer is freed in memory as specified and all other payloads are kept; a pointer at which a magic number is wrong is refused and nothing changes |
| KernelHeap.Heap.FreeLive | lib/heap.c:385-466 | freeing once both magic numbers have been checked |
| KernelHeap.Heap.CallerStore | lib/heap.c:291-325 | a caller's store into the range it was given keeps the heap valid and all other payloads |
| KernelHeap.Heap.MergeBack | lib/heap.c:385-427 | its first half; the magic numbers it checks are right |
| KernelHeap.Heap.MergeForward | lib/heap.c:431-457 | its second half |
| KernelHeap.KeysAgree | lib/heap.c:474 | comparing size fields in memory orders the index as block sizes do |
| LinkedList.List.constructor | lib/util/list.c:17-23 | an empty list with consistent links |
| LinkedList.List.Add | lib/util/list.c:29-49 | appends, keeping next, prev, first, last and size consistent |
| LinkedList.List.Set | lib/util/list.c:55-66 | replaces one element; refused exactly when out of range |
| LinkedList.List.Del | lib/util/list.c:71-104 | removes and returns one element; links stay consistent, and `last` is right afterwards if and only if the node was not the last of several |
| LinkedList.List.DelFirst | lib/util/list.c:77-85 | deleting index 0 gives the first element and leaves all links right, `last` too |
| LinkedList.List.Untouched | lib/util/list.c:29-237 | stores to other lists and their nodes leave a list as it was |
| LinkedList.List.Get | lib/util/list.c:110-146 | element i whichever end it walks from; for index 0xFFFFFFFF the last element, for others out of range NULL |
| LinkedList.List.OAdd | lib/util/list.c:195-237 | the relinking is the stable sorted insertion |
| LinkedList.List.Place | lib/util/list.c:211-214 | the first node with a greater key |
| LinkedList.List.LinkLast | lib/util/list.c:217-220 | linking behind all others |
| LinkedList.List.LinkBefore | lib/util/list.c:223-231 | linking in front of a node, first or not |
| SchedTheorems.StepInv | lib/time.c:83-158 | every step keeps both lists sorted, counts non-negative, and nobody waiting where permits are left |
| SchedTheorems.RunInv | lib/sem.c:29-53 | so does every run |
| SchedTheorems.StepPopulation | lib/time.c:83-158 | no step loses or duplicates a thread |
| SchedTheorems.RunPopulation | lib/sched.c:16-19 | nor does a run |
| SchedTheorems.RunMembership | lib/thr.c:280-296 | in every reachable state each thread is in exactly one place: current, ready, asleep, or in one wait list |
| SchedTheorems.BootHolds | lib/thr.c:54-72 | thr_init leaves the main thread current, the null thread ready and nobody asleep; that state satisfies the invariants |
| SchedTheorems.NewSemIff | lib/sem.c:18-23 | a new count is the argument modulo 2^32 as a signed int, so non-negative exactly for arguments below 2^31 |
| SchedTheorems.DispatchesNullIff | lib/sched.c:16-19 | NULL is dispatched exactly when the current thread blocks with an empty ready list; never by a tick |
| SchedTheorems.NullThreadSaves | lib/thr.c:54-72 | if the null thread never sleeps or blocks, no reschedule of any run finds the ready list empty |
| SchedTheorems.DispatchesHighest | lib/sched.c:16-19 | after each reschedule no ready thread has a higher priority than the current one |
| SchedTheorems.TickDispatches | lib/time.c:83-122 | a tick dispatches, of the ready threads, then the current one, then those whose sleep ends, in this order, the first of the highest priority |
| SchedTheorems.BehindEquals | lib/thr.c:352 | a thread made ready goes behind every thread of at least its priority |
| SchedTheorems.MovesUp | lib/util/list.c:195-237 | unless a thread of higher priority is made ready, the thread at index k moves up one place per reschedule, over any run |
| SchedTheorems.BecomesCurrent | lib/sched.c:16-19 | and is current at the (k+1)-th |
| SchedTheorems.TargetIs | lib/time.c:139-144 | ticks + no for m, ticks + 10 no for c, ticks + 100 no for d, ticks + 1000 no for s, modulo 2^32; any other letter leaves the stale value |
| SchedTheorems.TargetExactIff | lib/time.c:139-144 | with d the milliseconds the number and letter say, the target is ticks + d if and only if that is below 2^32 |
| SchedTheorems.TickWakesIff | lib/time.c:92-113 | a tick wakes a sleeper if and only if its target is reached |
| SchedTheorems.TickLeavesLater | lib/time.c:92-113 | after a tick all remaining targets are strictly later |
| SchedTheorems.StaysAsleep | lib/time.c:83-122 | over any run a sleeper stays asleep until its target |
| SchedTheorems.SleeperExact | lib/time.c:83-122 | after any run and one more tick, it is asleep if and only if its target is still ahead |
| SchedTheorems.SleepExact | lib/time.c:128-158 | a thread that asks for d milliseconds, by number and letter, is asleep after the n-th following tick if and only if n < d, whatever else runs |
| SchedTheorems.StepFifo | lib/sem.c:29-53 | one step keeps arrival order and conserves permits |
| SchedTheorems.SemaphoreFair | lib/sem.c:29-53 | over every run grants follow arrival order, and initial count plus releases is count plus grants |
| SchedTheorems.NewSemKeeps | lib/sem.c:18-23 | a new semaphore keeps the invariant if and only if its count is below 2^31, and moves no thread |
| KernelSched.Semaphore.constructor | lib/sem.c:18-23 | sem_new: the count as stored and an empty, well-linked wait list |
| KernelSched.Kernel.constructor | lib/thr.c:35-94 | the lists thr_init makes are well linked and apart; the main thread is current and the null thread alone is ready, with the invariants |
| KernelSched.Kernel.NewSemaphore | lib/sem.c:18-23 | a semaphore on a list of its own; invariants hold afterwards if and only if the count is below 2^31, and no thread moves |
| KernelSched.Kernel.WaitersUntouched | lib/sem.c:29-53 | work on one list leaves every wait list but that one as it was |
| KernelSched.Kernel.AddReady | lib/util/list.c:195-237 | olist_add on the linked ready list is the step on sequences, and disturbs no other list |
| KernelSched.Kernel.Reschedule | lib/sched.c:16-19 | deleting the head of the linked ready list dispatches the first thread, or NULL; all lists stay valid |
| KernelSched.Kernel.TimeIrq | lib/time.c:83-122 | the handler on the linked lists refines the tick step, and keeps every list valid with nodes of its own |
| KernelSched.Kernel.WakeSleepers | lib/time.c:92-113 | the wake loop over the linked sleep list is the recursive wake-up, and ends |
| KernelSched.Kernel.SyscallSleep | lib/time.c:128-158 | on the linked sleep and ready lists it refines the sleep step; the entry it adds has the target the letter says |
| KernelSched.Kernel.SemWait | lib/sem.c:29-40 | on the semaphore's linked wait list and the ready list it refines the wait step |
| KernelSched.Kernel.SemRelease | lib/sem.c:46-53 | moving the first waiter between linked lists, or counting up, refines the release step |
| FrameStack.FrameStack.Fill | lib/mem.c:96-102 | the loop pushes exactly the frames from the base up |
| FrameStack.FrameStack.Pop | lib/mem.c:316-324 | takes the top frame; 0 when empty |
| FrameStack.FrameStack.Push | lib/mem.c:372-379 | puts a frame on top, in a reserved word |
| FrameStack.StackSizes | lib/mem.c:79-127 | all the sums of mem_init: page counts rounded up, reserved pages that hold the frames, no wrap of the 8-bit page count, and ranges from behind the reserved pages exactly to 16M and the top of memory |
| FrameStack.MemoryFitsIff | lib/mem.c:79-127 | none of its unsigned subtractions underflows exactly for a kernel that ends below the last page of the first 16M and memory between 16M and one page, and 4G |
| FrameStack.FilledCovers | lib/mem.c:99-133 | the stacked frames are distinct, page-aligned, and exactly those of the range |
| Paging.DirWindowShows | lib/mem.c:244-248 | through the recursive slot, loads and stores in the last page are loads and stores of directory entries |
| Paging.TableWindowShows | lib/mem.c:288-307 | and those in the last 4MB are of page table entries |
| Paging.AddrV2PIsTranslate | lib/mem.c:288-307 | for mapped addresses addr_v2p computes what the processor translates to |
| Paging.MappedOffsets | lib/mem.c:305-306 | once a page is mapped to phys, addr_v2p(virt + off) is phys + off |
| Paging.SetPteIsPointUpdate | lib/mem.c:432-434 | writing one table entry changes the entry and the translation of its page and of no other |
| Paging.AddTableKeeps | lib/mem.c:416-424 | a new, cleared page table changes no entry and no translation |
| Paging.FreeEntryIff | lib/mem.c:509-515 | the mask as spelt selects the page's own entry if and only if the address is in the first 4MB of a 256MB stretch |
| Paging.FreeEntryWrong | lib/mem.c:510 | an address for which it selects another page's entry |
| Paging.FreeEntryHits | lib/mem.c:509-515 | which page's entry either mask selects |
| BootTables.InitialMap | lib/mem.c:148-220 | page n maps to itself below memstack1_base, and the following pages map to memstack2's, across all tables; every mapped page is writable and for the kernel only |
| BootTables.LateFlagsIff | lib/mem.c:198 | with the flags as spelt all of memstack2 is mapped if and only if no table is begun in its loop |
| PageMapper.LateFlagsWrong | lib/mem.c:198 | a kernel end and memory size that boot and leave pages of memstack2 unmapped |
| BootTables.RelocatedStack | lib/mem.c:239-242 | the relocated pointers translate to the physical words they denoted |
| BootTables.BuiltWired | lib/mem.c:216-220 | every directory entry with its flags: the self-reference, and tables in frames of their own |
| Frames.FramePlaces | lib/mem.c:316-379 | what the account means: each frame is on stack 1, stack 2, in one mapping or one table exactly as entered; below 16M on stack 1 only, from there on stack 2 only |
| Frames.Popped | lib/mem.c:349-364 | taking a frame off a stack keeps the account |
| Frames.TableAdded | lib/mem.c:407-424 | so does making it a page table |
| Frames.PageMapped | lib/mem.c:426-436 | so does mapping it |
| Frames.PageFreed | lib/mem.c:523-529 | so does giving it back |
| PageMapper.RoomToFree | lib/mem.c:372-379 | a frame that is not on its stack finds a free reserved word there |
| PageMapper.BootAccounts | lib/mem.c:57-220 | the account is right when mem_init has built its tables |
| PageMapper.Pager.MemInit | lib/mem.c:57-242 | for every kernel end and memory size at which no unsigned subtraction underflows and stack 1 has a frame for the directory and each table, the loops of mem_init leave the stacks, directory and tables described, and a right account |
| KernelBoot.MemInit | lib/mem.c:57-266 | all of mem_init: the first heap is valid, is one hole behind its index, and lies over exactly the mapped pages, each writable and for the kernel only; it panics if and only if fewer frames are left than 300 pages and their new tables take |
| KernelBoot.FirstHeap | lib/mem.c:256-264 | the 300 pages of the first heap and the heap on them; NULL exactly if there are fewer frames than that takes |
| KernelBoot.BootNeeds | lib/mem.c:256 | what it takes behind the boot tables: a frame for each page and one for each table begun |
| PageMapper.Pager.BuildTables | lib/mem.c:148-220 | the table loops, over any number of tables |
| PageMapper.Pager.PutEntry | lib/mem.c:157-186 | one round of either loop, with the change to a new table |
| PageMapper.Pager.ClearRest | lib/mem.c:205-220 | the clearing loops and the self-reference |
| PageMapper.Pager.Ppalloc | lib/mem.c:349-364 | takes from stack 2 first, then stack 1; 0 exactly when both are empty |
| PageMapper.Pager.Ppfree | lib/mem.c:372-379 | pushes on the stack the address belongs to |
| PageMapper.Pager.EnsureTable | lib/mem.c:407-424 | makes a missing page table, entered with exactly the flags asked for, without changing an entry or a translation; fails exactly when no frame is left |
| PageMapper.Pager.ZeroTable | lib/mem.c:423 | clearing through the window clears exactly that table |
| PageMapper.Pager.Pmap | lib/mem.c:388-437 | succeeds exactly under its four conditions; then virt translates to phys and its entry has exactly the flags asked for, as has that of a new table, every other entry is as before, and the account stays right unless the frame was in another place; on failure nothing has changed |
| PageMapper.Pager.SetEntry | lib/mem.c:426-436 | the entry phys + 1, + 2 if writable, + 4 if open to user code, is written exactly if the page was unmapped; every other entry is as before |
| PageMapper.Pager.PallocAtV | lib/mem.c:446-455 | succeeds exactly if the address is aligned, the page unmapped and there are frames for it and a missing table; then it is mapped to a free frame with the flags asked for; on failure the frame it popped, and nothing else, is lost |
| PageMapper.Pager.PsallocAtV | lib/mem.c:472-482 | succeeds if and only if the range is aligned and unmapped and there are frames for it and its missing tables; maps pages to free frames with the flags asked for up to the first failure, and changes no other entry; a failure means an unaligned or mapped page or no frames left, and exactly the one frame popped for it is lost |
| PageMapper.NeededIs | lib/mem.c:472-482 | the frames it takes: one a page and one for each directory slot of the range that has no table |
| PageMapper.StillRefused | lib/mem.c:472-482 | after a failure the same call would fail again |
| PageMapper.Pager.KpfreeAtV | lib/mem.c:501-532 | with either mask: clears exactly the entry of the page the mask selects and pushes its frame, for which a frame of the account always finds room; refused exactly for unaligned addresses and absent tables or entries |
| PageMapper.Pager.MapThenUnmap | lib/mem.c:446-532 | kpfree_at_v undoes palloc_at_v: every page translates as before and, unless a page table had to be made, account and stacks are the same frame for frame |
| NumberText.PrintParse | lib/c/printf.c:37-70 | parsing a printed numeral gives the number back, for every integer; it has digits of the right case only, a minus sign exactly for negative numbers, and no leading zero |
| NumberText.DigitsSuffice | lib/c/printf.c:42-53 | the digits array is long enough for every int |
| NumberText.DigitsInRangeIff | lib/c/printf.c:44-62 | every digit indexes the digit string if and only if the number is not the least int |
| NumberText.Int2Str | lib/c/printf.c:37-70 | the loops write exactly the numeral and a NUL, and nothing else in the buffer |
| NumberText.LoopDigits | lib/c/printf.c:50-53 | digit k is the k-th of the number |
| NumberText.WriteDigits | lib/c/printf.c:54-67 | no leading zeros, and "0" for zero |
| HumanText.HumanSums | lib/c/printf.c:87-160 | the parts sum to the input, less what the precision cuts off; nothing is cut from precision 4 on |
| HumanText.HumanIs | lib/c/printf.c:87-160 | the text is as many of the nonzero parts in G, M and k and the rest as the precision allows, with plus signs between them, and "0" for precision 0 |
| HumanText.HumanFits | lib/c/printf.c:87-187 | at most 19 characters, 20 bytes with the NUL, inside the 25-byte buffer |
| HumanText.UnterminatedIff | lib/c/printf.c:94-125 | the text has no terminating NUL if and only if G or M is the last part the precision allows |
| HumanText.Long2Str10h | lib/c/printf.c:87-160 | the blocks write exactly that text into the buffer |
| HumanText.PutPart | lib/c/printf.c:109-144 | one block: plus sign, quotient, letter over the NUL |

## Left out

- KernelHeap.Heap.HeapAlloc: does not model requests for which size + 20 wraps in 32 bits; every block then passes the size test and the stores of the split overlap the header, so no heap is left to describe.
- KernelHeap.Heap.HeapExtend: refuses to grow into the last 4MB of the address space, where the page tables are; the code does not check this.
- KernelHeap.Heap.HeapFree: a pointer that is not live but has right magic numbers, as one freed before may have, is outside its domain.
- KernelHeap.Heap.TakePages: the bytes of the heap and the words of the frames that back them are two memories; that they are mapped together is proved, that they are equal is not modelled.
- PageMapper.Pager.Pmap: virtual addresses in the last 4MB, which alias directory and tables, are excluded; a second mapping of a frame is made, but nothing is promised of the account after it.
- PageMapper.Pager.KpfreeAtV: with the mask as spelt, addresses whose entry would lie in the directory or past the end of the address space are excluded, and so is a selected table that is absent; freeing a frame the kernel itself occupies needs a free word on its stack, and nothing is promised of the account after it.
- FrameStack.FrameStack.Fill: the reserved area of a stack is an array of its own and not words of the modelled frames; RelocatedStack links the two.
- KernelSched.Kernel.SemRelease: does not model the count wrapping past the largest int.
- NumberText.Int2Str: the least int is outside its domain, by DigitsInRangeIff; the char and long printers are not modelled.
- The heap_t record and the index array are fields of the heap object and not bytes of its memory, and list nodes are objects and not heap blocks.
- Allocation failure inside list operations, and sleep entries that are never freed.
- list_free, oarray_get and the wrappers that only pass arguments on (kmalloc, kpalloc_at_v, olist_del, olist_get).
- The `state` field of a thread, which no decision reads; thread creation, user stacks, directory copies, set_page_table_entry_flags and thread identity.
- Caching of translations, cr3, register saving, interrupt controller and timer programming: each kernel entry is one atomic step.
- printf's format loop, string helpers, descriptor tables, devices, disk, ramdisk and file systems.
