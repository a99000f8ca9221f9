# Memory management of the kernel, verified

A Dafny 4.11 model of the memory management of the kernel, and of the small routines it stands on, with
proofs. It covers the buddy heap (`src/mm/mm_heap.c`), the four-level page tables and the free frames
(`src/mm/mm_page.c`, `src/mm/mm_frame.c`), the arena allocator (`src/mm/mm_allocator.c`), the paging of the
bootstrap (`src/mem/mem_page.c`, `src/mem/mem_frame.c`), the walk over the boot information
(`src/kernel/kernel_main.c`), the formatter (`src/containers/containers_string.c`) and the power-of-two
arithmetic (`src/mm/mm.c`, `src/util/util_math.c`). `dafny verify dfyconfig.toml` checks all of it.

## How it is built

Code that updates memory is a class whose methods run the loops and branches of the source; each method is
proved against a specification function or relation on values, and the theorems are lemmas about those.

- Words (`Words.dfy`): 64-bit masks, alignment and logarithms against number theory. `Lists.dfy`: lists threaded
  through memory, and bytes laid out in it.
- Heap: `Dyadic.dfy` (sizes, buddies), `Tiling.dfy` (the live blocks cover the heap), `Buddies.dfy` (what each
  operation does to blocks and lists), `FreeLists.dfy` (lists threaded through headers), `HeapFrames.dfy` (the
  frames and tables behind a chunk), `Heap.dfy` (the class over memory, growing through the class of the page
  tables), `HeapRuns.dfy` (whole runs).
- Paging: `PageWords.dfy` (entries and index fields), `PageTree.dfy` (the tree of tables, and the hardware walk of
  section 4.5 of the Intel SDM, Volume 3A), `PageSpec.dfy` (what a map and an unmap do), `Paging.dfy` (the class;
  every load and store goes through the walk itself), `PageRange.dfy` (consecutive pages), `PageRuns.dfy` (whole
  runs), `PageExact.dfy` (what a map and an unmap do to tables and frames, told without their steps), `PageRounds.dfy`
  (the self-test).
- Arena: `ArenaLayout.dfy` (records, guards and allocations inside heap blocks), `ArenaSpec.dfy` (what an allocation
  computes, in machine words), `Arena.dfy` (the class, over the class of the heap), `ArenaRuns.dfy` (the life of an
  allocator).
- Bootstrap: `BootSpec.dfy`, `PaLists.dfy`, `BootPaging.dfy`.
- `Multiboot.dfy`; `Decimals.dfy` and `Format.dfy`.

An assertion of the source that states an invariant is proved never to fire: it does not appear as an outcome. An
assertion that can stop the kernel is an outcome of the method, with its exact condition: `Halted`, `Stopped`,
`Panic`, `ok == false`. The debug assertions of the heap and of the arena allocator are switched by a field, as the
build does. Sums and differences of the source that can wrap are taken modulo 2^64.

Three invariants carry most of the weight.

- The headers of the heap lie on an aligned dyadic tiling with no two free buddies below the top class. Such a tiling
  is determined by its extent and its taken blocks (`Tiling.CanonicalIsUnique`), so frees commute, a free undoes an
  allocation, and a bulk free leaves what would be there without the allocator.
- The tables form a tree in which a zero entry, a page and a table are the only things an entry can be. The hardware
  walk finds exactly its leaves (`PageTree.WalkFindsLeaf`), so map and unmap are point updates of the translation.
  With no empty table the translation determines the tables (`PageRuns.TablesDetermined`).
- Everything an arena owns lies inside the heap block under its area, and heap blocks do not overlap.

## Where the code and its intent part

- An allocation that would fill an existing area to its last byte passes the test of
  `src/mm/mm_allocator.c:129` and then stops a debug kernel at line 146. `ArenaAllocator.Allocators.Allocate` states
  exactly when; `ArenaRuns.LastBytesFitExactly` shows that every area can be asked for such an allocation.
- The size check of `mm_heap_alloc` adds the header in 64 bits. Within 24 bytes of 2^64 the sum wraps and passes: a
  release kernel returns a block of one page, a debug kernel stops at line 322. `Heaps.Heap.Alloc` states that the
  block has room exactly if the sum does not wrap.
- `mm_allocate` adds size, alignment and skipped bytes in 64 bits. What it grants stays in its area exactly if size
  and alignment together stay below 2^64 (`ArenaAllocator.Allocators.Allocate`, `ArenaSpec.KeepsSound`);
  `ArenaSpec.WrapIsServed` is a request that even a debug kernel grants, without a byte behind it.
- In a release kernel `_expand_heap` goes on when frames run out, and lists a chunk whose last pages are not mapped.
  `HeapFrames.MapChunk` states which ones.
- `util_math_log_2_up` returns 1 for 0 and 1; the header promises the least exponent. It is that exactly from 2 up
  (`Words.Log2UpIsLeastExponent`). The heap asks for the logarithm of less only when its sum has wrapped.
- `util_math_log_2_down` never ends above 2^63 (`Words.Log2DownEnds`), and `mm_align_class` divides by zero for multiples
  of 2^63 (`Words.AlignClassEnds`).
- `mm_align_up` wraps within the last `align - 1` addresses (`Words.AlignUpWraps`).
- The entry constructor accepts physical addresses in the high half, which do not come back out
  (`PageWords.EntryRoundTripExact`).
- A map that fails for lack of frames leaves the tables it made behind, empty (`PageRuns.FailedMapStrands`).
- `_unmap` would free the root table if it became empty. It never does while the direct-access window hangs on it,
  since the window is set up whenever a table is scanned; so the window's own tables are never freed either.
- `_init_direct_access` strides by entries where it means bytes (`src/mm/mm_page.c:462`). The model has three distinct
  tables, as meant.
- `mem_page_bootstrap_2` rounds the kernel's page count down (`src/mem/mem_page.c:298`), so the last bytes of a kernel
  that does not end on a page boundary stay unmapped (`BootPaging.BootTables.KernelCovered`).
- The formatter's header promises that nothing behind the buffer is overwritten. Literals are written unchecked
  (`Format.LiteralsOverrun`); `Format.OverrunExactly` says for which formats they leave the buffer. Strings and
  numbers check an unsigned difference, which wraps once the buffer has been left, so they then follow. The kernel
  stops afterwards in every such case (`Format.EndsInside`). Of `%.Ns` the last character is never looked at.

## Model

| member | source | states |
|---|---|---|
| Words.MathIsPow2Exact | src/mm/mm.c:34-37 | `n & (n - 1) == 0` with `n > 0` holds exactly for the powers of two |
| Words.AlignUpIsLeast | src/mm/mm.c:74-82 | the mask gives the least multiple at or above `p`, exactly when the sum does not wrap |
| Words.AlignUpWraps | src/mm/mm.c:80 | the result is 0 exactly for 0 and for the last `align - 1` addresses, where the sum wraps |
| Words.AlignDownIsGreatest | src/mm/mm.c:84-92 | the mask gives the greatest multiple at or below `p` |
| Words.AlignClass | src/mm/mm.c:99-109 | the largest power of two that divides an even `p` in the domain where the doubling ends |
| Words.AlignClassEnds | src/mm/mm.c:101-104 | that domain: exactly the words that are no multiple of 2^63 |
| Words.MathLog2Down | src/util/util_math.c:4-26 | the floor of the logarithm for 1 to 2^63 |
| Words.Log2DownEnds | src/util/util_math.c:13-16 | the doubling reaches the argument exactly up to 2^63 |
| Words.MathLog2Up | src/util/util_math.c:28-46 | the loop computes the recursive specification for every word |
| Words.Log2UpIsCeiling | src/util/util_math.c:28-46 | from 2 up that is the ceiling of the logarithm |
| Words.Log2UpIsLeastExponent | src/util/util_math.c:30-32 | the promise of the header holds exactly from 2 up |
| Dyadic.SizeIsPow2 | src/mm/mm_heap.c:34-38 | a class is a power of two of pages |
| Dyadic.BuddyFacts | src/mm/mm_heap.c:97-104 | the buddy of an aligned block is aligned, its buddy is the block, and one of the two starts the pair |
| Dyadic.BuddyAddressIsBuddy | src/mm/mm_heap.c:76-107 | the address computed with wrapping subtraction and masks inside the 128 MiB chunk is the buddy's |
| Dyadic.ClassForIsLeast | src/mm/mm_heap.c:291-296 | the class of a request is the least whose blocks hold the sum with its header |
| Dyadic.ClassForBound | src/mm/mm_heap.c:288-297 | a sum has a class exactly when it passes the size check |
| Tiling.BlocksDisjoint | src/mm/mm_heap.c:352-366 | live blocks do not overlap |
| Tiling.BuddyIsLive | src/mm/mm_heap.c:109-111 | the buddy address of any live block below the top class holds a live header of no larger class |
| Tiling.SplitTiled | src/mm/mm_heap.c:238-249 | splitting keeps the tiling |
| Tiling.MergeTiled | src/mm/mm_heap.c:262-274 | merging a free pair keeps the tiling and the taken blocks |
| Tiling.GrowTiled | src/mm/mm_heap.c:183-208 | a chunk at the end keeps the tiling |
| Tiling.CanonicalIsUnique | src/mm/mm_heap.c:254-279 | extent and taken blocks determine all blocks of a tiling without free buddies |
| Tiling.BytesConserved | src/mm/mm_heap.c:175-180 | free and taken sizes add up to the extent |
| Buddies.InitialOk | src/mm/mm_heap.c:342-348 | the empty heap satisfies the invariant |
| Buddies.RefillOk | src/mm/mm_heap.c:211-252 | the split recursion keeps the blocks tiled and listed, leaves lower lists alone and changes no taken block |
| Buddies.CoalesceOk | src/mm/mm_heap.c:254-279 | coalescing ends in canonical form with the taken blocks unchanged |
| Buddies.AllocOk | src/mm/mm_heap.c:281-328 | an allocation keeps the invariant, takes one new block of the class asked for, and grows only as told |
| Buddies.FreeOk | src/mm/mm_heap.c:335-340 | a free keeps the invariant and gives back exactly that block |
| FreeLists.LinkedPop | src/mm/mm_heap.c:115-130 | removing the head leaves the rest of all lists threaded through the headers |
| FreeLists.LinkedPush | src/mm/mm_heap.c:167-173 | so does adding a head |
| FreeLists.LinkedUnlink | src/mm/mm_heap.c:140-156 | and unlinking a block in the middle, which keeps the order of the rest |
| Heaps.Heap.constructor | src/mm/mm_heap.c:342-348 | bootstrap |
| Heaps.Heap.ClientStore | src/mm/mm_heap.c:60-64 | whatever the owner of a taken block writes behind its header keeps the heap valid |
| Heaps.Heap.Dequeue | src/mm/mm_heap.c:115-130 | the head of the list, and the list without it |
| Heaps.Heap.DequeueBlock | src/mm/mm_heap.c:133-157 | the search finds the block, and the list loses exactly it |
| Heaps.Heap.Enqueue | src/mm/mm_heap.c:167-173 | the block becomes the head, its header written in full |
| Heaps.Heap.ExpandHeap | src/mm/mm_heap.c:183-208 | one more chunk, listed in the top class, each of its pages mapped; exactly when there are frames for the pages and for the tables they need |
| HeapFrames.ChunkPage | src/mm/mm_heap.c:193-201 | one page: the first free frame, taken and mapped, exactly if one is left for it and for its tables; otherwise no page is remapped |
| HeapFrames.MapChunk | src/mm/mm_heap.c:193-201 | the loop: page `j` to the `j`-th frame left after the tables before it, exactly with the frames needed; otherwise exactly how many pages got one, in a debug and a release kernel |
| HeapFrames.NextChunkFaults | src/mm/mm_page.c:277 | no page of the next chunk is mapped yet, so the map's own assertion holds |
| HeapFrames.HeapPagesGrow | src/mm/mm_heap.c:193-206 | after it the heap's pages are mapped exactly up to its new end |
| HeapFrames.TablesPassed | src/mm/mm_heap.c:193-201 | the tables a range adds are those entered between the page before it and its last, at each depth |
| HeapFrames.TablesUpTo | src/mm/mm_heap.c:193-201 | with no table empty, the tables on the way to the heap's pages are exactly those that lead to the page below its end |
| HeapFrames.ChunkNeeds | src/mm/mm_heap.c:193-201 | then a chunk needs 32768 frames for its pages, 64 for tables of 2 MiB, and one for each GiB and each 512 GiB it enters |
| Heaps.Heap.SplitFrom | src/mm/mm_heap.c:211-252 | the recursion refines the specification, ends, and its checks never fire; exactly when it fails for want of frames |
| Heaps.Heap.FindBuddy | src/mm/mm_heap.c:76-113 | the lookup hits a live header; its two checks never fire |
| Heaps.Heap.CoalescingBlock | src/mm/mm_heap.c:254-279 | the recursion over headers and lists refines the specification |
| Heaps.Heap.CheckOut | src/mm/mm_heap.c:56-65 | the block leaves the free ones |
| Heaps.Heap.CheckIn | src/mm/mm_heap.c:67-74 | the block returns to them, its header found below the payload |
| Heaps.Heap.RequestClass | src/mm/mm_heap.c:291-296 | the class computed is that of the specification, for every word |
| Heaps.Heap.Alloc | src/mm/mm_heap.c:281-328 | for every 64-bit length: exactly when it stops, in a debug and a release kernel; otherwise refines the specification, and has room for the request exactly if the sum does not wrap |
| Heaps.Heap.AllocMinimum | src/mm/mm_heap.c:330-333 | a block of one page |
| Heaps.Heap.Free | src/mm/mm_heap.c:335-340 | refines the specification for any taken block, lists and their order included |
| HeapRuns.ReachableOk | src/mm/mm_heap.c:281-348 | every reachable state is tiled, canonical and listed, and its bytes add up |
| HeapRuns.HistoryForgotten | src/mm/mm_heap.c:254-340 | whatever the histories, equal extent and taken blocks mean equal free blocks in every list |
| HeapRuns.FreeOrderIrrelevant | src/mm/mm_heap.c:335-340 | freeing blocks in any order leaves the same blocks |
| HeapRuns.FreeUndoesAlloc | src/mm/mm_heap.c:281-340 | freeing what was just allocated restores every block, but for a chunk the heap grew by |
| HeapRuns.AllFreedIsChunks | src/mm/mm_heap.c:380-392 | with everything freed, lists below the top are empty and the top list holds exactly the chunks |
| HeapRuns.GrowsOnlyWhenFull | src/mm/mm_heap.c:229-234 | the heap grows exactly when no aligned region of the size wanted is vacant |
| HeapRuns.AllocTakesUpperEnd | src/mm/mm_heap.c:301-312 | the block handed out is the upper end of the first block of the lowest non-empty list |
| HeapRuns.AllocLists | src/mm/mm_heap.c:211-252 | one lower half stays in each list between; no other list changes |
| HeapRuns.AllocFromGrowth | src/mm/mm_heap.c:229-234 | after growth the new chunk is cut instead |
| HeapRuns.ListsAfterFree | src/mm/mm_heap.c:254-340 | the exact lists after a free: the joint block is the head of its list, each list from the freed class up to there loses exactly the buddy absorbed, and no other list changes |
| HeapRuns.JoinsSomewhere | src/mm/mm_heap.c:260-274 | there always is such a class: the first whose buddy is not free |
| HeapRuns.AllocUndoesFree | src/mm/mm_heap.c:281-340 | freeing a block whose buddy is not free and allocating its class again gives the same block and the same heap, every list in its order |
| HeapRuns.StopsExactly | src/mm/mm_heap.c:286-322 | an allocation stops the kernel exactly if its 64-bit sum exceeds a chunk, or no region for it is vacant and no chunk can be backed, or, in a debug kernel, it is empty or its sum wraps |
| PageWords.EntryRoundTrip | src/mm/mm_page.c:91-135 | an entry gives back its address and flags, for every frame below the low half's end |
| PageWords.EntryRoundTripExact | src/mm/mm_page.c:122-134 | among the addresses the constructor accepts, exactly the low ones come back |
| PageWords.TabIndexIs | src/mm/mm_page.c:399-406 | shift and mask are division and remainder, at all four levels |
| PageWords.IdxIsPage | src/mem/mem_page.c:64-71 | two addresses have the same four indices exactly when they lie on the same page of the 48-bit space |
| PageWords.OffsetIsRemainder | src/mm/mm_page.c:408-418 | the page offset is the remainder by the page size |
| PageWords.DirectIdx | src/mm/mm_page.c:457-485 | the indices of the direct-access page |
| PageTree.WalkFindsLeaf | src/mm/mm_page.c:235-267 | the hardware walk finds what the tree of tables maps |
| PageTree.PutLeaf | src/mm/mm_page.c:272-279 | an entry that leads to no table remaps exactly the pages under it |
| PageTree.AddTable | src/mm/mm_page.c:256-262 | hanging a blank table on a zero entry remaps nothing |
| PageTree.DropTable | src/mm/mm_page.c:377-392 | nor does taking a blank table off its entry, whatever becomes of its frame |
| PageTree.MappedIsWritable | src/mm/mm_page.c:277 | by the access rights of section 4.6.1 of the Intel SDM, Volume 3A, every mapped page may be written |
| PageSpec.MapSeen | src/mm/mm_page.c:216-290 | after a map the processor finds exactly that page at its frame, and all others where they were; after a failed map all of them |
| PageSpec.UnmapSeen | src/mm/mm_page.c:293-397 | after an unmap it finds exactly that page, of either size, gone |
| PageSpec.BigPieces | src/mm/mm_page.c:363-370 | the 512 pieces of a 2 MiB page are its addresses |
| Paging.Mmu.constructor | src/mm/mm_page.c:452-486 | the window's tables are hung on without remapping anything |
| Paging.Mmu.Setup | src/mm/mm_page.c:488-495 | requires the window closed; the processor then finds the frame behind the window |
| Paging.Mmu.Reset | src/mm/mm_page.c:497-502 | requires the window open, and closes it |
| Paging.Mmu.FrameAlloc | src/mm/mm_frame.c:131-153 | the head of the free list, read through the window, with memory unchanged |
| Paging.Mmu.FrameFree | src/mm/mm_frame.c:155-164 | the frame becomes the head, its link written at its mapped address |
| Paging.Mmu.TabZero | src/mm/mm_page.c:137-140 | the frame behind the window is blank, and nothing else changes |
| Paging.Mmu.TableIsZero | src/mm/mm_page.c:142-157 | true exactly for a blank table |
| Paging.Mmu.LinkTable | src/mm/mm_page.c:251-267 | one level of the loop of a map |
| Paging.Mmu.ClearEntry | src/mm/mm_page.c:379-392 | one level of the way up of an unmap: freed exactly if empty and none of the window's tables |
| Paging.Mmu.BuildTables | src/mm/mm_page.c:233-268 | the loop succeeds exactly with the frames it needs, and adds exactly the missing tables |
| Paging.Mmu.MapPage | src/mm/mm_page.c:216-290 | the whole effect on tables, free list, data and translation, and exactly when it fails; the page may be written |
| Paging.Mmu.FindPage | src/mm/mm_page.c:307-345 | the way down finds the page's frame and its tables |
| Paging.Mmu.FreeData | src/mm/mm_page.c:347-375 | the frames of the page are freed, one or 512 |
| Paging.Mmu.WayUp | src/mm/mm_page.c:377-392 | the way up releases exactly the tables that hold nothing else, from the bottom |
| Paging.Mmu.Unmap | src/mm/mm_page.c:293-397 | returns the page's address; exactly that page is gone; with its frames freed, each frame an address of the page led to is in the free list, once, 1 or 512 of them behind those of the released tables and in front of the old list; otherwise only the released tables are |
| PageRuns.TablesDetermined | src/mm/mm_page.c:216-397 | with no empty table the translation alone determines which tables exist |
| PageRuns.MapKeepsNoEmpty | src/mm/mm_page.c:216-290 | a successful map leaves no table empty |
| PageRuns.UnmapKeepsNoEmpty | src/mm/mm_page.c:377-392 | nor does an unmap |
| PageRuns.RoundTripTables | src/mm/mm_page.c:697-718 | a map and an unmap restore the translation and every table in its old frame |
| PageRuns.RoundTripFrames | src/mm/mm_page.c:697-718 | and the free list, frame for frame |
| PageRuns.MapConserves | src/mm/mm_page.c:216-290 | a map loses no frame, even when it fails |
| PageRuns.UnmapConserves | src/mm/mm_page.c:293-397 | an unmap gains exactly the frames handed over |
| PageRuns.FailedMapStrands | src/mm/mm_page.c:238-242 | a failed map leaves an empty table exactly when it found a frame to take |
| PageRuns.RunConserves | src/mm/mm_frame.c:131-164 | at every point of every run, failed maps and empty lists included, no frame is lost |
| PageRuns.RunKeepsNoEmpty | src/mm/mm_page.c:216-397 | along every run whose maps succeed, or fail without a frame to take, no table is left empty |
| PageRuns.FreeCountReturns | src/mm/mm_page.c:700-715 | the self-test's claim: over every run that restores the translation and hands back as much as it took, the free count returns exactly if no table is left empty |
| PageRuns.RolesKept | src/mm/mm_frame.c:155-169 | along every run of disciplined callers, failed maps included, no managed frame that is free or a table is mapped |
| PageExact.MapExactly | src/mm/mm_page.c:233-287 | a map succeeds exactly if a frame is free, and one for each missing table; it takes that many from the front of the list, or all |
| PageExact.TablesMapped | src/mm/mm_page.c:251-267 | succeed or fail, the missing tables are made topmost first, as far as the frames go, each in the next free frame; no table moves |
| PageExact.ReleasedExactly | src/mm/mm_page.c:377-392 | an unmap releases exactly the tables under which there is nothing else, but none of the window's; no table moves |
| PageExact.FreedExactly | src/mm/mm_page.c:347-392 | the released tables' frames, topmost first, go in front of the data freed, and that in front of the old list |
| PageRounds.TestPaging | src/mm/mm_page.c:697-718 | the self-test, for any number of pages: it passes exactly if the frames last, and then the free count, the translation and the tables are what they were |
| ArenaLayout.Isolation | src/mm/mm_allocator.c:81-149 | no allocation, record, guard or heap header overlaps another, for all live allocators |
| ArenaLayout.SlopAligns | src/mm/mm_allocator.c:121-127 | the skipped bytes lead to the least multiple, for any positive alignment |
| ArenaLayout.AreaAdded | src/mm/mm_allocator.c:81-106 | a new area keeps the invariant |
| ArenaLayout.ParcelAdded | src/mm/mm_allocator.c:136-146 | so does a new allocation that lies behind the others in its area |
| ArenaLayout.ParcelMustFit | src/mm/mm_allocator.c:136-146 | and no other allocation does |
| ArenaLayout.AllocatorDropped | src/mm/mm_allocator.c:151-168 | and the end of an allocator |
| ArenaLayout.RecordsConserved | src/mm/mm_allocator.c:49-168 | live and recycled records together are all that were ever carved, sixteen to a block |
| ArenaSpec.NewPlaceExactly | src/mm/mm_allocator.c:81-106 | a new area is made exactly if the heap serves the whole sum; a wrapped sum fails the size check |
| ArenaSpec.FitsIn | src/mm/mm_allocator.c:121-148 | what fits an area is served at the least aligned address |
| ArenaSpec.TooFullExactly | src/mm/mm_allocator.c:121-129 | an area is passed over exactly if no aligned place for the allocation is left in it |
| ArenaSpec.SettleExactly | src/mm/mm_allocator.c:115-134 | for sums that do not wrap one new area at most is made, and it always has room |
| ArenaSpec.ServeExactly | src/mm/mm_allocator.c:108-149 | such a request stops the kernel exactly when a new area is needed that the heap cannot serve, or, in a debug kernel, when it fills an existing area to the last byte |
| ArenaSpec.KeepsSound | src/mm/mm_allocator.c:136-148 | whatever passed the tests, what is handed out keeps the arenas sound exactly if size and alignment do not wrap |
| ArenaSpec.WrapIsServed | src/mm/mm_allocator.c:121-148 | a wrapping request that even a debug kernel grants, leaving the area as it was |
| ArenaAllocator.Allocators.constructor | src/mm/mm_allocator.c:23-26 | bootstrap |
| ArenaAllocator.Allocators.New | src/mm/mm_allocator.c:49-79 | the first recycled record; if there is none, the last of the sixteen in a fresh block, the others recycled in order; an allocator without areas at a record no live one has; exactly when it stops |
| ArenaAllocator.Allocators.CarveSlots | src/mm/mm_allocator.c:57-68 | the carving loop recycles all sixteen records of the block, from the last to the first, and disturbs nothing |
| ArenaAllocator.Allocators.NewArea | src/mm/mm_allocator.c:81-106 | a fresh heap block with at least the room asked for, in front of the list; exactly when it stops, for every word |
| ArenaAllocator.Allocators.Settle | src/mm/mm_allocator.c:115-134 | the area served from is as specified for all words; with sums that do not wrap at most one area is new |
| ArenaAllocator.Allocators.Allocate | src/mm/mm_allocator.c:108-149 | for every size and alignment in 64 bits: stops, address, area and heap as specified; what is granted keeps the arenas sound exactly if the sum does not wrap, and is then aligned, at the least place, everything else unchanged |
| ArenaAllocator.Allocators.Bump | src/mm/mm_allocator.c:136-148 | the end of an allocation, with its debug assertions |
| ArenaAllocator.Allocators.FreeAll | src/mm/mm_allocator.c:151-168 | every guard is intact, the areas go back to the heap one by one from the newest, and the record becomes the first of the recycled ones |
| ArenaRuns.AsIfNeverTaken | src/mm/mm_allocator.c:151-168 | the heap's blocks become those of any heap of the same extent without that allocator's areas |
| ArenaRuns.LastBytesFitExactly | src/mm/mm_allocator.c:129-146 | every area can be asked for exactly the bytes it has left |
| ArenaRuns.FillUp | src/mm/mm_allocator.c:146 | asking for them stops a kernel exactly if it is a debug build |
| ArenaRuns.BlockOnlyWhenAllUsed | src/mm/mm_allocator.c:49-69 | a new allocator takes a heap block exactly when every record carved is in use |
| ArenaRuns.Renew | src/mm/mm_allocator.c:49-168 | freeing an allocator and making one gives the same record, and leaves the heap as the frees of its areas did |
| ArenaRuns.LivedExactly | src/mm/mm_allocator.c:185-290 | how a life ends, told by its moments: each request before the end is granted without a wrap, and the end is that none is left, or the next stops the kernel, or is granted with a wrap |
| ArenaRuns.Lifetime | src/mm/mm_allocator.c:185-290 | how the life of an allocator ends, told from the state of the heap for any requests; once it is over, the others, their allocations and the heap are as they were |
| BootSpec.IdentitySeen | src/mem/mem_page.c:178-199 | below 1 TiB less 2 MiB the processor finds every address at itself, everything else faults |
| BootSpec.IdentityNeeds | src/mem/mem_page.c:196-199 | how many frames are in use before each page, always within the pool |
| PageRange.NewTablesIsCard | src/mem/mem_page.c:214-235 | the tables counted page by page are those on the way to the pages and not there before, each once |
| BootSpec.RangeSeen | src/mem/mem_page.c:243-269 | after a range is mapped the processor finds each address of it in its frame, all others where they were |
| BootPaging.BootTables.constructor | src/mem/mem_page.c:194 | a cleared root |
| BootPaging.BootTables.FrameAlloc | src/mem/mem_frame.c:192-207 | the next frame of the pool, exactly while one is left |
| BootPaging.BootTables.TabZero | src/mem/mem_page.c:53-56 | a blank frame |
| BootPaging.BootTables.NextTable | src/mem/mem_page.c:138-158 | one level of both loops |
| BootPaging.BootTables.MapBootstrap | src/mem/mem_page.c:125-168 | exactly that 2 MiB page, exactly the missing tables, and exactly when it fails |
| BootPaging.BootTables.MapPage | src/mem/mem_page.c:204-241 | the same for a 4 KiB page |
| BootPaging.BootTables.Bootstrap1 | src/mem/mem_page.c:170-202 | never out of frames; exactly 1026 pool frames, 2 tables of level 3 and 1024 of level 2; the identity |
| BootPaging.BootTables.MapImpl | src/mem/mem_page.c:243-269 | page `i` of the range to page `i` of the ranges laid end to end, others alone; never past the last range; exactly when the pool runs out |
| BootPaging.BootTables.Bootstrap2 | src/mem/mem_page.c:280-320 | the kernel's whole pages and the frame buffer are mapped, nothing else; exactly when the pool runs out |
| BootPaging.BootTables.Stage2Bytes | src/mem/mem_page.c:280-320 | byte for byte: the kernel at itself, the frame buffer at its virtual place |
| BootPaging.BootTables.KernelCovered | src/mem/mem_page.c:298 | the whole kernel is mapped exactly if it ends on a page boundary |
| PaLists.FlattenAt | src/mem/mem_frame.c:416-427 | page `j` of range `k` is where the two running counts say |
| PaLists.CursorNext | src/mem/mem_page.c:254-268 | the two counters of the loop keep their meaning, zero-length ranges included |
| PaLists.PaList.constructor | src/mem/mem_frame.c:361-384 | a list of the given length |
| PaLists.PaList.SetRange | src/mem/mem_frame.c:392-399 | exactly that range is set |
| PaLists.PaList.NPage | src/mem/mem_frame.c:401-408 | the sum of the page counts, as a machine word |
| Multiboot.AtMostEleven | src/kernel/kernel_main.c:131-140 | whatever the bytes, and whether the walk ends well or panics, at most 11 tags are saved, all of known types |
| Multiboot.LayoutSaved | src/kernel/kernel_main.c:105-143 | what is laid out as a boot information is saved exactly if its tags are of the eleven known types and all different, and then in full; otherwise the walk panics at the first tag that is not, with those before it saved |
| Multiboot.OneTagSaved | src/kernel/kernel_main.c:42-82 | a single tag is saved exactly if its type is 1, 2, 4 to 10, 14 or 15 |
| Multiboot.ElevenSaved | src/kernel/kernel_main.c:131-140 | the bound of eleven is reached |
| Multiboot.PayloadSaved | src/kernel/kernel_main.c:83-88 | each slot says where its tag's payload stands and how long it is |
| Multiboot.BootInfo.ProcessTagHeader | src/kernel/kernel_main.c:91-102 | its alignment assertion holds and it reads inside the copy |
| Multiboot.BootInfo.SaveTag | src/kernel/kernel_main.c:42-89 | panics exactly for an unknown type or a filled slot, and then changes no slot; otherwise fills that slot |
| Multiboot.BootInfo.WalkTags | src/kernel/kernel_main.c:131-142 | the loop ends for any bytes, refines the specification, and has filled the slots the walk has, panic or not |
| Multiboot.BootInfo.Save | src/kernel/kernel_main.c:105-143 | panics exactly when the walk does; of what is laid out as a boot information it saves exactly those with known and different types, in full |
| Decimals.StrToUint | src/containers/containers_string.c:39-55 | the value of the longest run of digits, as a machine word; stops exactly if it is empty |
| Decimals.MarshalUint | src/containers/containers_string.c:123-155 | the decimal digits at the offset and nothing else; stops exactly when the unsigned check fails; inside the buffer exactly if it starts there |
| Decimals.PassesInside | src/containers/containers_string.c:63-138 | what passes the unsigned check stays in the buffer exactly if it starts in it |
| Decimals.PrintedParses | src/containers/containers_string.c:39-155 | a printed number is parsed back wherever it stands |
| Decimals.DecimalIsShortest | src/containers/containers_string.c:131-138 | no digits that stand for the number are fewer |
| Decimals.NoLeadingZero | src/containers/containers_string.c:131-152 | no leading zero |
| Decimals.PlaceValue | src/containers/containers_string.c:140-152 | place j from the right holds the digit of 10^j |
| Decimals.PlaceCount | src/containers/containers_string.c:131-137 | as many places as the number needs |
| Format.StrLen | src/containers/containers_string.c:20-27 | the place of the first NUL |
| Format.MarshalStr | src/containers/containers_string.c:57-68 | the string at the offset and nothing else; stops exactly when the unsigned check fails; inside the buffer exactly if it starts there |
| Format.MarshalCut | src/containers/containers_string.c:232-239 | the characters up to the N-th or the first NUL, and no fewer, at the offset and nothing else; stops exactly at the first that does not fit, those before it written |
| Format.Directive | src/containers/containers_string.c:211-242 | the directives with an argument refine the specification, stopped or not, wherever the next byte stands |
| Format.FormatV | src/containers/containers_string.c:194-249 | for any format: stops exactly when the specification does, and in either case has written its text from the offset on, wherever that ends, and nothing else |
| Format.EndsInside | src/containers/containers_string.c:246 | a format that does not stop the kernel has stayed in the buffer |
| Format.RunPieces | src/containers/containers_string.c:204-244 | a format made of any pieces does what the pieces do, at any place of any buffer |
| Format.RenderingIs | src/containers/containers_string.c:205-240 | each rendering told by itself: a string up to its NUL, a cut the longest prefix of at most N characters without one, a number the digits that stand for it |
| Format.OthersStop | src/containers/containers_string.c:219-242 | any other directive stops the kernel |
| Format.FormattedExactly | src/containers/containers_string.c:194-249 | a format made of any pieces goes through exactly if each string and number ends before the last byte and the text ends in the buffer, and has then written the concatenation of their renderings |
| Format.FormattingConcatenates | src/containers/containers_string.c:194-249 | given room, that is the concatenation of their renderings |
| Format.OverrunExactly | src/containers/containers_string.c:206-210 | a format made of any pieces writes behind the buffer exactly when a literal finds no byte left and no string or number ended there; the kernel then stops |
| Format.LiteralsOverrun | src/containers/containers_string.c:206-207 | such a format: two literals for a buffer of one byte are both written |

## Left out

- Heaps.Heap.ExpandHeap: when frames run out the model stops in a release kernel too, where the source goes on with an incomplete chunk; it also stops at the end of the 64-bit address space, where the source has no check.
- Heaps.Heap.SplitFrom: the opening it shares with the allocation is one method, `Fetch`.
- PaLists.PaList.constructor: the pool of 1024 bytes the lists are cut from, and its capacity assertions, are not modelled; the bootstrap makes one list of one range.
- Paging.Mmu.Setup: requires a frame below 2^47, since a higher one does not survive an entry; the source's constructor lets it through.
- Paging.Mmu.MapPage: requires the page to fault, as the source's assertions do, and a frame below 2^47, since higher ones do not survive an entry.
- Paging.Mmu.Unmap: with its frames freed, they must be data frames of the model's memory; the self-test and the kernel pass such frames.
- Memory is a map from addresses to headers, records or words, one per structure; casts and struct layout are not modelled. The allocators carved from one block lie 256 bytes apart, as the source's pointer arithmetic has it.
- The bootstrap's frame memory is reached at physical addresses; that the boot loader maps it so is taken for granted.
- TLB flushes, CR3 loads, boot stages and logging.
- `src/mem/mem_heap.c`: unfinished, and nothing calls it.
- `vadd_get_padd`: it reads entries after closing the window; the hardware walk is the specification instead.
- `_map_early`: reads a variable that may be unset; its successor `_map_bootstrap` is modelled.
- `mm_page_bootstrap`, `mm_frame_bootstrap` and the section tables of physical memory: boot glue.
- `str_buf_marshal_uint_in_size`, the hexadecimal printer and the bit helpers of the string file.
- `_heap_validate`: advances by scaled pointer arithmetic; its intent is the tiling invariant.
- `pa_range_overlaps`, `mm_copy` beyond its use on the boot information, `mm_fill_bytes` and `mm_compare`.
- Drivers, interrupts, the text interface and the rest of `kernal_main`.
