# Verified model of the kernel's memory subsystem

The project models how the kernel gets, divides and gives back memory, in three layers, and three smaller
algorithms that the kernel carries along:

- **The buddy heap** (`heap_buddy_system_evanw.c`). `BuddyTree` is the binary tree over the address range and
  `BuddyState` the abstract state (root bucket, tree, ordered free lists) with its invariant and the elementary
  steps. `BuddySpec` composes them into what `malloc` and `free` do (`Malloced`, `Release`). `SplitBits` and
  `BuddyBits` treat the packed "is split" flags, `FreeLists` the circular lists in word memory. `BuddyHeap.Heap` is
  the allocator itself: word memory, a byte array of flags, `bucket_limit`, `base_ptr`, `max_ptr` and a break that
  the environment may refuse to move. Every method is proved against the abstract state, and every word it reads or
  writes is shown to lie in the list heads or below `max_ptr`. `BuddyBreak` says how far the break has to come for
  that, and that it comes no further. `BuddyTheorems` states what callers get, for one call and for whole runs, and
  `BuddyExamples` the first calls in numbers.
- **Demand paging** (`paging.c`, `bitmap.c`, `paging_setup` in `kernel.c`). `Bitmap` is the frame bitmap, `PageWalk`
  the two-level walk (Intel SDM volume 3A, section 4.3, "32-Bit Paging"), `Paging` the page fault, whose reads and
  writes all go through the walk itself, and `PagingSetup` the initial tables.
- **Placement memory** (`placement_memory.c`, `memory_map.c`, `main`). `FreeAreas` is the meaning of a sorted
  sequence of areas. `AreaSlots` and `AreaCuts` are what insertion and the three kinds of allocation do to the slots of
  the array, whatever they hold, in 64-bit arithmetic, and what that means on a map in order. `PlacementMemory.FreeMap`
  is the array that is edited in place. `MemoryMap` enters the boot loader's regions, `Boot` is the way to placement
  memory and reserved frames, and `BootExamples` has one memory map in numbers and those on which it goes wrong.
- **Sorting, the circular list and `k_itoa`** (`sort.c`, `collections/linked_list.c`, `common.c`).

## How to read the heap

A block is `(b, k)`: bucket `b`, position `k` among the 2^b blocks of that bucket. `Quiet(a)` is the invariant
between calls: the free lists hold exactly the free leaves of the tree, no two buddies are both free, and each used
block has the bucket that its header leads to. `Heap.Valid()` ties `Quiet` to memory: all lists are closed rings in
both directions, headers are in place, list nodes and used blocks end at or below `max_ptr`, and flag by flag the
byte array says what the tree says. `Kept` says that no byte of a used block was written.

`refusals` counts refused breaks. When it does not grow, `Malloc` is exactly `Malloced`; when it does, `Malloc`
returns NULL and has at most grown the tree. If the environment grants the break as far as the blocks of `Malloced`
need it (`Reserved`), it does not grow; with every break granted, as by `brk` in `paging.c`, it never does. A run
(`Run`) therefore consists of the events `Mallocs`, `Grown` (a refused `malloc`) and `Frees`.

## How to read the pager

`FramesInv` says that the directory maps itself and that it and the page tables are distinct used frames. Every fault
keeps it, and it is all that `SetupPage` needs. `PagerInv` adds that every present entry points to a used frame. Every
fault below the recursive window keeps that too; a fault in the window keeps it if and only if it is `Harmless`, which
can be told from the memory and the bitmap before the fault.

## Where the code differs from its comments or from what one would expect

- `request + HEADER_SIZE` is 32-bit arithmetic: the last eight request values wrap, and `malloc` hands out a 16-byte
  block for almost 4 GB (`WrappedRequestGetsSmallestBlock`). `BlockHoldsRequest` says that a block has room for its
  header and request if and only if the sum does not wrap.
- `malloc` ignores the result of its first `update_max_ptr` (line 349) and goes on to write its first list node; the
  words it writes are mapped if and only if the environment did not refuse (`FirstExtension`).
- `setup_page` takes two frames even when the table exists already, and the first of them is then lost. A fault in the
  recursive window turns a frame with arbitrary contents into a page table (`ServesWindow`); `ServesInv` says exactly
  when the tables stay in order, and `WindowFaultBreaksOrder` is a case in which they do not.
- `allocate_frame_aligned` tests the page number, not the offset: an address inside page 0 is left unaligned, and an
  aligned address moves up one page (`AlignedExactly`). From an unaligned address, or with more than 1023 tables,
  `paging_setup` leaves a directory that does not map itself.
- The kernel marks the first 45 MB as used frames but places its tables wherever placement memory starts; the tables
  are a state that `setup_page` can work from if and only if they end below 45 MB (`PagingStartsExactly`); a single
  region from 64 MB on is a case in which they do not (`PlacementTooHigh`).
- `insert_area` overwrites an entry when the new area lies in a gap and touches no neighbour, and misses an area that
  covers its successor (`InsertLosesAnArea`). An area that ends with the last of the 2^64 addresses is lost, or its
  neighbour is (`LastAddressLosesAnArea`). `InsertInExactly` gives the exact condition.
- After either of the first two the map never gets back in order (`InOrderIffRoomy`), and `main` goes on. On an
  overwritten map the counted empty slot, whose inclusive end is 2^64 - 1, swells to all memory above 40 MB, and
  placement memory may lie where no region is (`OverwrittenPlacement`, `OverwrittenMapFails`). With overlapping areas
  bytes of placement memory may stay free (`CoveringMapFails`). `PlacementExactly` says when `main` keeps its promise.
- `allocate` returns 0 both for failure and for an area that starts at 0 (`ZeroForBoth`); `ZeroIsNoFailure` says when.
- `allocate_area_cover` of no bytes cuts an area in two, and from address 0 on erases the whole map (`CoverOfNothing`).
- The high words of the memory map are scaled by `sizeof(long)` instead of shifted; a region is the one described if and
  only if they are zero (`RegionExactly`).
- `set` and `get` compare the element index with `>`, so one word too many passes the guard (`GuardExactly`,
  `GuardMissesAWord`).
- `quicksort`'s left call may get the same range again; it ends because the pivot is then no longer the strict maximum.

## Model

| member | source | states |
|---|---|---|
| `BuddyHeap.Heap.Malloc` | heap_buddy_system_evanw.c:325-460 | keeps the whole invariant; without a refused break the new state and the pointer are exactly `Malloced`, with one the result is NULL and the tree has at most grown; the break moves only to where some block of the new state needs it (or to the first block's node), and a break granted as far as the blocks of `Malloced` need it is never refused; a request that is too large changes nothing; no byte of a used block changes |
| `BuddyHeap.Heap.Free` | heap_buddy_system_evanw.c:462-527 | keeps the whole invariant; NULL changes nothing; a live pointer's block is released with all possible merging, and no byte of another used block changes |
| `BuddyHeap.Heap.Search` | heap_buddy_system_evanw.c:358-459 | the bucket loop with its wrapping counter ends, and finds what `Fit` says after growing as far as `Prepare` says |
| `BuddyHeap.Heap.LowerAndPop` | heap_buddy_system_evanw.c:374-382 | growing to the bucket, then the back of its list or NULL exactly if it is empty; a refusal leaves a smaller growth |
| `BuddyHeap.Heap.GrowAndPop` | heap_buddy_system_evanw.c:393-405 | popping after growing a used root always succeeds and yields the old root's buddy; if growing is refused nothing changed |
| `BuddyHeap.Heap.CarveBlock` | heap_buddy_system_evanw.c:407-456 | the popped block is split down and handed out, or, if the break is refused, put back so that tree, lists and flags are as before |
| `BuddyHeap.Heap.PutBack` | heap_buddy_system_evanw.c:413-416 | pushing the popped block restores the very state before the pop |
| `BuddyHeap.Heap.SplitDown` | heap_buddy_system_evanw.c:443-448 | the splitting loop carries memory and flags to `HalveTo`, stays below the break it asked for, and leaves the block's address alone |
| `BuddyHeap.Heap.FlipTaken` | heap_buddy_system_evanw.c:431-434 | the flags match the state with the popped block taken; the root of the whole range has no flag to flip |
| `BuddyHeap.Heap.PopBlock` | heap_buddy_system_evanw.c:382-405 | takes the back of the abstract list, or NULL exactly if it is empty |
| `BuddyHeap.Heap.WriteHeader` | heap_buddy_system_evanw.c:450-456 | after the header is written the block is a used one and all lists and other blocks are intact |
| `BuddyHeap.Heap.InitHeap` | heap_buddy_system_evanw.c:343-352 | if that extension is granted the first call builds one smallest free block at the break |
| `BuddyHeap.Heap.FirstExtension` | heap_buddy_system_evanw.c:343-349 | the start of the first call, with whatever the environment answers: the first block's list node lies below the maximum, and its words are mapped, if and only if the extension whose result is ignored was not refused |
| `BuddyHeap.Heap.LowerBucketLimit` | heap_buddy_system_evanw.c:276-323 | success is growth down to the wanted bucket; failure is a smaller growth and still a well-formed heap; no used byte changes |
| `BuddyHeap.Heap.DoubleOnce` | heap_buddy_system_evanw.c:278-320 | one round doubles the range in both branches, or changes nothing when the break is refused |
| `BuddyHeap.Heap.LinkNewRoot` | heap_buddy_system_evanw.c:288-293 | a free root leaves its list and the doubled one is the only entry of the next list |
| `BuddyHeap.Heap.LinkRightChild` | heap_buddy_system_evanw.c:304-309 | a used root gets a free right buddy whose list node lies below the break |
| `BuddyHeap.Heap.MarkRootInUse` | heap_buddy_system_evanw.c:311-319 | the flag above the new root says that it is in use; the topmost root has none |
| `BuddyHeap.Heap.UpdateMaxPtr` | heap_buddy_system_evanw.c:159-170 | raises the maximum or leaves it; it fails only if the environment refuses, and then nothing changed |
| `BuddyHeap.Heap.ListInit` | heap_buddy_system_evanw.c:177-180 | an empty ring |
| `BuddyHeap.Heap.ListPush` | heap_buddy_system_evanw.c:186-192 | the four writes, each to a mapped word |
| `BuddyHeap.Heap.ListRemove` | heap_buddy_system_evanw.c:200-205 | the two writes, each to a mapped word |
| `BuddyHeap.Heap.ListPop` | heap_buddy_system_evanw.c:211-217 | NULL exactly for an empty list, otherwise the back entry, removed |
| `BuddyHeap.Heap.NodePtr` | heap_buddy_system_evanw.c:225-236 | node index and block address determine each other |
| `BuddyHeap.Heap.ParentIsSplit` | heap_buddy_system_evanw.c:240-243 | reads the parent's flag out of the packed bytes |
| `BuddyHeap.Heap.FlipParentIsSplit` | heap_buddy_system_evanw.c:248-251 | the byte-wise update of the parent's flag |
| `BuddyHeap.Heap.FlipFlag` | heap_buddy_system_evanw.c:248-251 | one flip carries the flags from one state to another that expects just that flag to differ |
| `BuddyHeap.Heap.BucketForRequest` | heap_buddy_system_evanw.c:258-269 | the loop computes the first bucket, from the smallest blocks up, that fits |
| `BuddyHeap.Heap.FlipAndTest` | heap_buddy_system_evanw.c:493-506 | after the flip the test stops exactly at the root or when the buddy is not a whole free block; the flags then fit the dropped, or the merged, block |
| `BuddyHeap.Heap.RemoveBuddy` | heap_buddy_system_evanw.c:515 | what is removed is a member of this bucket's list, namely the buddy |
| `BuddyHeap.Heap.DropBlock` | heap_buddy_system_evanw.c:526 | pushing the merged block ends in a well-formed heap |
| `BuddyHeap.Heap.ReadHeader` | heap_buddy_system_evanw.c:478-480 | the header of a live block is readable, holds the request and leads back to the block's own bucket |
| `BuddyHeap.Heap.LiveUnique` | heap_buddy_system_evanw.c:473-480 | a pointer belongs to one used block only |
| `BuddyBreak.HalveReserved` | heap_buddy_system_evanw.c:411-448 | the bytes that malloc asks for are enough for every list node of the split |
| `BuddyBreak.DoubleReserved` | heap_buddy_system_evanw.c:304-308 | after growing every list node lies below the maximum |
| `BuddyBreak.GrowthStep` | heap_buddy_system_evanw.c:278-309 | however often the tree grows, the break is where it was or where the node of the last new right half ends |
| `BuddyBreak.CarveAtEnd` | heap_buddy_system_evanw.c:408-448 | the bytes that malloc asks for before a split are no more than one of the resulting blocks needs |
| `BuddyBreak.StagedCarve` | heap_buddy_system_evanw.c:358-448 | after growing and carving the break is where it was, or where a block of the outcome needs it |
| `BuddyBreak.MallocedKeeps` | heap_buddy_system_evanw.c:325-457 | malloc leaves every free block alone that is smaller than what it hands out |
| `BuddyBreak.ShortGrowth` | heap_buddy_system_evanw.c:276-323 | a break too short for growing over a used root is too short for some block of the outcome of the whole call |
| `BuddyBreak.ShortCarve` | heap_buddy_system_evanw.c:407-416 | a break too short for carving is too short for some block of the outcome |
| `SplitBits.FlippedFlag` | heap_buddy_system_evanw.c:248-251 | flipping changes one flag of the packed array and no other |
| `BuddyBits.IndexSteps` | heap_buddy_system_evanw.c:103-111 | the index arithmetic for parent, children and buddy |
| `BuddyBits.IndexInjective` | heap_buddy_system_evanw.c:98-101 | different nodes have different flags |
| `BuddyBits.FlagsDetermined` | heap_buddy_system_evanw.c:113-126 | the tree determines every flag |
| `BuddyBits.ToggledDiffer` | heap_buddy_system_evanw.c:422-424 | a leaf that becomes free or stops being free changes its parent's flag and no other |
| `BuddyBits.DoubleFlags` | heap_buddy_system_evanw.c:282-319 | growing changes only the flag above the new root, and only if the old root is in use |
| `BuddyBits.RootFlag` | heap_buddy_system_evanw.c:283-288 | the flag that is tested says whether the root is in use |
| `BuddyBits.BuddyFlag` | heap_buddy_system_evanw.c:495-506 | after the flip the test in free says whether the buddy is a whole free block |
| `FreeLists.RingPush` | heap_buddy_system_evanw.c:182-192 | a ring with one more node at its back, in both directions |
| `FreeLists.RingRemove` | heap_buddy_system_evanw.c:194-205 | a ring without the node, in both directions |
| `FreeLists.PushLinks` | heap_buddy_system_evanw.c:186-192 | a push on one list leaves all others and every used block alone |
| `FreeLists.RemoveLinks` | heap_buddy_system_evanw.c:200-205 | a removal from one list leaves all others and every used block alone |
| `FreeLists.CommitLinks` | heap_buddy_system_evanw.c:455 | writing a header disturbs no list and no other block |
| `BuddyState.TakeInv` | heap_buddy_system_evanw.c:382-434 | popping keeps the invariant and all used blocks |
| `BuddyState.DropInv` | heap_buddy_system_evanw.c:526 | pushing a block whose buddy is not free keeps the invariant |
| `BuddyState.HalveInv` | heap_buddy_system_evanw.c:443-448 | a split keeps the invariant and all used blocks |
| `BuddyState.MergeInv` | heap_buddy_system_evanw.c:508-517 | a merge keeps the invariant and all used blocks |
| `BuddyState.WithoutAt` | heap_buddy_system_evanw.c:200-205 | removing a block from the middle of a free list keeps the others in their order |
| `BuddyState.DoubleInv` | heap_buddy_system_evanw.c:276-320 | growing keeps the invariant, and every used block with its bucket, position and request |
| `BuddySpec.BucketForIsTightest` | heap_buddy_system_evanw.c:253-269 | a bucket's blocks fit the request if and only if it is not beyond the chosen one |
| `BuddySpec.GrowToInv` | heap_buddy_system_evanw.c:276-323 | any amount of growing keeps the invariant and all used blocks |
| `BuddySpec.GrowToResumes` | heap_buddy_system_evanw.c:278 | growing that stopped half-way can be resumed with the same result |
| `BuddySpec.FitDouble` | heap_buddy_system_evanw.c:393-404 | growing over a used root frees exactly one block that the search then finds |
| `BuddySpec.CarveInv` | heap_buddy_system_evanw.c:418-456 | carving adds exactly one used block |
| `BuddySpec.ClimbInv` | heap_buddy_system_evanw.c:482-518 | the merging loop keeps the invariant and all used blocks |
| `BuddySpec.ReleaseInv` | heap_buddy_system_evanw.c:478-527 | releasing removes exactly one used block |
| `BuddySpec.MergeHalve` | heap_buddy_system_evanw.c:443-517 | a merge undoes a split |
| `BuddySpec.ReleaseUndoesCarve` | heap_buddy_system_evanw.c:418-527 | releasing the carved block restores the tree and every free list with its order |
| `BuddySpec.AllFree` | heap_buddy_system_evanw.c:482-526 | merging is complete: without used blocks there is one free block, at the base and as large as the range |
| `BuddySpec.ReleaseLast` | heap_buddy_system_evanw.c:482-526 | freeing the last used block leaves that one block |
| `BuddySpec.FullIsOccupied` | heap_buddy_system_evanw.c:366-405 | with the range at its maximum and nothing free that is large enough, every position of the bucket overlaps a block in use |
| `BuddySpec.BlocksTile` | heap_buddy_system_evanw.c:4-15 | every byte of the range lies in exactly one block |
| `BuddySpec.BlocksApart` | heap_buddy_system_evanw.c:4-15 | different blocks do not overlap |
| `BuddySpec.BlockInside` | heap_buddy_system_evanw.c:138-143 | every block lies inside the range of the root |
| `BuddyTheorems.MallocedInv` | heap_buddy_system_evanw.c:325-460 | malloc adds exactly one used block, in the bucket of its request, or none |
| `BuddyTheorems.MallocedFresh` | heap_buddy_system_evanw.c:325-457 | the new block overlaps no block in use |
| `BuddyTheorems.MallocedFails` | heap_buddy_system_evanw.c:334-459 | NULL if and only if the request is too large, or the range is at its maximum and every free block is too small |
| `BuddyTheorems.MallocedFailsWhenFull` | heap_buddy_system_evanw.c:334-459 | as the caller sees it: NULL if and only if the request is too large or every position of its bucket in the 2 GB overlaps a block in use |
| `BuddyTheorems.PrepareLeast` | heap_buddy_system_evanw.c:358-405 | the tree grows no further than it has to: no smaller growth has a block that fits |
| `BuddyTheorems.MallocedPlace` | heap_buddy_system_evanw.c:382-457 | the pointer lies at the start of the block that was put last on the free list of the smallest sufficient size |
| `BuddyTheorems.BlockHoldsRequest` | heap_buddy_system_evanw.c:334-358 | a block has room for header and request if and only if their 32-bit sum does not wrap |
| `BuddyTheorems.WrappedRequestGetsSmallestBlock` | heap_buddy_system_evanw.c:334-358 | a concrete request that wraps and gets 16 bytes |
| `BuddyExamples.SmallBlocks` | heap_buddy_system_evanw.c:258-269 | 8 bytes take a block of 16, 9 bytes one of 32 |
| `BuddyExamples.TwoCalls` | heap_buddy_system_evanw.c:325-460 | on a new heap two requests of 8 bytes return the start of the heap + 8 and + 24, and leave the break at + 32 |
| `BuddyExamples.LargerThenSmaller` | heap_buddy_system_evanw.c:325-460 | 9 bytes and then 8 return + 8 and + 40, with the break at + 56, behind the node of the free half |
| `BuddyTheorems.FreeUndoesMalloc` | heap_buddy_system_evanw.c:325-527 | malloc then free leaves what growth alone would have left: tree, lists and their order |
| `BuddyTheorems.RunInv` | heap_buddy_system_evanw.c:325-527 | in every state of every run the invariant holds and the used blocks are exactly the outstanding ones |
| `BuddyTheorems.OutstandingApart` | heap_buddy_system_evanw.c:325-527 | in every run different outstanding blocks are disjoint |
| `BuddyTheorems.OutstandingFits` | heap_buddy_system_evanw.c:325-527 | in every run an outstanding block lies inside the range and holds its request |
| `BuddyTheorems.AllFreedIsWhole` | heap_buddy_system_evanw.c:482-526 | in every run, when all is freed one free block is left, whatever the order of the frees |
| `BuddyTheorems.CallerMayWrite` | heap_buddy_system_evanw.c:450-456 | a caller that stays inside its requested bytes disturbs neither lists nor headers |
| `Bitmap.ResetBitmap` | bitmap.c:3-9 | every frame is free |
| `Bitmap.Set` | bitmap.c:11-29 | changes one frame's bit and no other, or refuses and changes nothing |
| `Bitmap.Get` | bitmap.c:31-43 | the frame's bit, or -1 behind the guard |
| `Bitmap.UseFramesInBytes` | bitmap.c:45-65 | marks exactly the frames of the first bytes, or refuses and changes nothing |
| `Bitmap.NextFreeFrameIndex` | bitmap.c:67-88 | the lowest free frame, or -1 exactly if there is none |
| `Bitmap.FreeFrom` | bitmap.c:67-88 | the lowest free frame: free, and everything before it used |
| `Bitmap.SetBit` | bitmap.c:20-26 | setting or clearing one bit of a word leaves the others |
| `Bitmap.GuardExactly` | bitmap.c:14-18 | the guard passes exactly the frames of the bitmap and those of one word more |
| `Bitmap.GuardMissesAWord` | bitmap.c:14-18 | a concrete frame outside the kernel's bitmap that passes |
| `PageWalk.WalkDirectory` | paging.c:69-119 | with a self-map 0xFFFFF000 leads to the directory entries |
| `PageWalk.WalkTable` | paging.c:63-176 | with a self-map 0xFFC00000 leads to the tables' entries |
| `PageWalk.InstalledWalk` | paging.c:78-212 | an empty table changes no translation below the window |
| `PageWalk.InstalledFrames` | paging.c:78-96 | which tables there are after a new one, and that they are distinct used frames |
| `PageWalk.InstalledInv` | paging.c:78-212 | a new table keeps every entry pointing to a used frame |
| `PageWalk.PointedWalk` | paging.c:156-163 | one entry changes the translation of one page |
| `PageWalk.PointedFrames` | paging.c:156-163 | the tables stay the same distinct used frames |
| `PageWalk.PointedInv` | paging.c:156-163 | pointing an entry at a marked frame keeps every entry pointing to a used frame |
| `PageWalk.SlotFrames` | paging.c:156-163 | in the window a directory slot is written: the fresh frame becomes one more table, distinct from the others |
| `PageWalk.SlotInv` | paging.c:156-163 | then every entry points to a used frame if and only if those of that frame do |
| `Paging.Pager.SetupPage` | paging.c:29-182 | from any directory that maps itself, for every page but the always mapped last one, one call is `Serves`: two frames, the lowest first, a table if there was none, one entry; less when frames run out |
| `Paging.Pager.PageFault` | paging.c:228-279 | the same for the handler; the tables stay distinct used frames after every fault, and in order if and only if the fault is harmless |
| `Paging.Pager.InitializePageTable` | paging.c:184-212 | the writes through the window fill the new frame and nothing else |
| `Paging.Pager.EnsureTable` | paging.c:78-96 | an existing table stays, a missing one is installed empty |
| `Paging.Pager.PointEntry` | paging.c:156-163 | the two writes through the window change one entry of the right table |
| `Paging.ServesWalk` | paging.c:29-182 | after a fault below the window the faulting page resolves to the fresh frame, and no other translation below the window changes |
| `Paging.ServesApart` | paging.c:29-182 | after a fault below the window with two free frames the second is the page and neither a table nor the directory; the first is the table if there was none; no other frame is taken |
| `Paging.ServesOneFrame` | paging.c:29-182 | with one free frame that is the table if there was none, and the only one taken |
| `Paging.FirstFault` | paging.c:29-212 | the words and the frames after one concrete fault: table in frame 2, page in frame 3, the unused entries 2, the last one the table itself |
| `Paging.ServesWindow` | paging.c:29-182 | after a fault in the window the frame has become a table: the pages of its slice are whatever it holds |
| `Paging.LastPageIsMapped` | paging.c:102-119 | no fault for want of a page is ever on the last page |
| `Paging.ServesFrames` | paging.c:29-182 | every fault, in the window or below, with any number of free frames, leaves directory and tables distinct used frames |
| `Paging.ServesInv` | paging.c:29-182 | the tables stay in order if and only if the fault is below the window or the frame it turns into a table names used frames only |
| `Paging.WindowFaultBreaksOrder` | paging.c:29-182 | a concrete fault in the window after which a mapped page lies in a free frame |
| `Paging.TakesFreeFrames` | paging.c:33-148 | a fault marks exactly the frames it takes, and they were free |
| `Paging.FaultRunInv` | paging.c:29-182 | in every state of every run of faults directory and tables are distinct used frames |
| `Paging.FaultRunOrder` | paging.c:29-182 | the tables are in order throughout a run if and only if every fault of it is harmless |
| `Paging.FramesTakenOnce` | paging.c:33-148 | over every run no frame is taken twice, and none that was used at the start, not even by the first fault |
| `PagingSetup.AlignedExactly` | kernel.c:172-199 | for every 64-bit address: the result is page-aligned if and only if the low word is 0 or not on page 0 |
| `PagingSetup.InitialTables.AllocateFrameAligned` | kernel.c:172-199 | returns that address and moves the pointer behind the bytes |
| `PagingSetup.InitialTables.PagingSetup` | kernel.c:201-328 | the four loops leave the directory and tables of `SetUp` if the address could be aligned and there are at most 1023 tables, and otherwise a directory that does not map itself; nothing else changes |
| `PagingSetup.SetUpWalk` | kernel.c:201-328 | identity for the first 4n MB except the last page of each 4 MB, which is its own table; a self-map; nothing else below the window |
| `PagingSetup.SetUpFrames` | kernel.c:201-328 | a state that setup_page can start from once the directory and tables are marked |
| `PagingSetup.SetUpInv` | kernel.c:201-328 | in order once the identity-mapped frames are marked too |
| `FreeAreas.CutCovers` | placement_memory.c:343-432 | cutting removes exactly the range from the set of free addresses |
| `FreeAreas.CutOrdered` | placement_memory.c:343-432 | cutting keeps the areas sorted and disjoint |
| `FreeAreas.CutLength` | placement_memory.c:406-424 | the count grows by at most one, and exactly if the range lies strictly inside an area |
| `FreeAreas.InsertExactly` | placement_memory.c:438-572 | insert_area adds exactly the new area and keeps the order if and only if it meets no other and touches one or comes last; areas that could be merged are then merged |
| `FreeAreas.InsertLosesAnArea` | placement_memory.c:562-568 | a concrete insertion that reports success and loses an area |
| `FreeAreas.InsertOverwrites` | placement_memory.c:562-568 | which area is overwritten, what all the others are, and that an empty slot is counted |
| `FreeAreas.InsertSeparated` | placement_memory.c:490-556 | after an insertion with room no two areas could still be merged |
| `FreeAreas.InsertRising` | placement_memory.c:438-572 | with or without room, on areas that may overlap: one is overwritten, or the result covers the union and is not in order unless it was before |
| `AreaSlots.InsertInOrder` | placement_memory.c:438-572 | on a map in order the 64-bit slot arithmetic is insertion into the sequence of areas |
| `AreaSlots.InsertInExactly` | placement_memory.c:438-572 | for every new area, wrapping or not: the map stays in order and covers it if and only if there is room and it ends before 2^64 |
| `AreaSlots.InsertCodes` | placement_memory.c:441-483 | on a map in order, which areas are refused and with which code: full, empty, start inside an area, start or end inside the first area above |
| `AreaSlots.RefusedNeighbour` | placement_memory.c:471-483 | [10, 20) keeps out [5, 15), [15, 25) and [10, 11), and nothing changes |
| `AreaSlots.LastAddressLosesAnArea` | placement_memory.c:510-528 | a concrete area up to the last address that is accepted and loses its neighbour |
| `AreaSlots.OverwrittenStays` | placement_memory.c:445-572 | once an area was overwritten every accepted insertion, into any slots, leaves the map overwritten |
| `AreaSlots.InsertInKeeps` | placement_memory.c:438-572 | an accepted insertion into rising areas overwrites one, or covers the union and never puts areas in order that were not |
| `AreaSlots.InOrderExactly` | placement_memory.c:438-572 | the map is in order after an accepted insertion if and only if it was before and there was room |
| `FreeAreas.StretchInOneArea` | placement_memory.c:490-531 | because areas are merged, a covered stretch lies in one area |
| `PlacementMemory.FreeMap.constructor` | placement_memory.c:6-16 | the cleared array |
| `PlacementMemory.FreeMap.MemoryAreasSize` | placement_memory.c:43-53 | the first empty slot, of any slots; on a map in order, the number of areas |
| `PlacementMemory.FreeMap.InsertArea` | placement_memory.c:438-572 | from any slots, code and slots are those of `InsertIn`, over all refusals, merges and the overwriting case |
| `PlacementMemory.FreeMap.Allocate` | placement_memory.c:164-212 | from any slots, result and slots are those of `AllocateIn` |
| `AreaCuts.AllocateInOrder` | placement_memory.c:164-212 | on a map in order allocate is first fit, cut from the front; 0 and no change otherwise |
| `AreaCuts.ZeroIsNoFailure` | placement_memory.c:164-212 | 0 is returned for an area if and only if the first area starts at 0 and is large enough |
| `AreaCuts.ZeroForBoth` | placement_memory.c:164-212 | a concrete map on which 0 means both |
| `PlacementMemory.FreeMap.AllocateArea` | placement_memory.c:214-341 | from any slots and for any range, code and slots are those of `TakeIn` |
| `AreaCuts.TakeInOrder` | placement_memory.c:214-341 | on a map in order: 0 if and only if the range lies in one area and a split has room, then exactly the range is gone; a negative code and no change otherwise |
| `AreaCuts.TakeCodes` | placement_memory.c:214-341 | on a map in order, the condition of each of the codes -1 to -5 and of 0 |
| `PlacementMemory.FreeMap.AllocateAreaCover` | placement_memory.c:343-432 | from any slots and for any range the loop ends, with the code and slots of `CoverIn` |
| `AreaCuts.CoverInOrder` | placement_memory.c:343-432 | on a map in order it leaves exactly the cut, or refuses a split of a full array and changes nothing; a size of 0 included |
| `AreaCuts.CoverLess` | placement_memory.c:364-429 | every round leaves fewer areas ahead that meet the range, or as many and fewer areas, whatever the slots hold |
| `AreaCuts.FromZero` | placement_memory.c:343-432 | from address 0 on no slots make it refuse, and nothing it leaves starts inside the range |
| `AreaCuts.FromZeroSwells` | placement_memory.c:392-398 | a counted empty slot becomes everything behind the range |
| `AreaCuts.FromZeroCuts` | placement_memory.c:343-432 | areas that overlap are each cut all the same |
| `AreaCuts.CoverOfNothing` | placement_memory.c:356-431 | a size of 0 changes nothing that is free, except from address 0 on, where it erases everything |
| `PlacementMemory.FreeMap.EditEntry` | placement_memory.c:378-428 | the four cases on any slots are those of `CoverEntry` |
| `AreaCuts.CoverEntryInOrder` | placement_memory.c:378-428 | on a map in order they replace an area by what the range leaves of it |
| `PlacementMemory.FreeMap.Erase` | placement_memory.c:383-390 | the loop that shifts left, from any position up to the count |
| `PlacementMemory.FreeMap.SplitAt` | placement_memory.c:414-427 | the loop that shifts right, and the gap filled |
| `AreaCuts.StepCut` | placement_memory.c:364-429 | one round of the loop is one step of the cut and keeps the order |
| `AreaCuts.OnlyHere` | placement_memory.c:237-250 | the first area that ends behind the start is the only one that can hold the range |
| `MemoryMap.RegionExactly` | memory_map.c:53-54 | the region is the described one if and only if both high words are zero |
| `MemoryMap.RegionAbove4GB` | memory_map.c:53-54 | three concrete regions at or above 4 GB, and what they are taken for |
| `MemoryMap.TwoRecords` | memory_map.c:18-21 | the walk over two records of 24 bytes visits both |
| `MemoryMap.EnterNext` | memory_map.c:51-61 | the next available region of an ascending map has room, and is merged or appended, unless the array is full |
| `MemoryMap.EnterCovers` | memory_map.c:11-61 | unless an area was overwritten the map covers exactly the regions |
| `MemoryMap.InOrderIffRoomy` | memory_map.c:11-61 | for every memory map: the map is in order if and only if every accepted region had room, and once it is not it never is again; it is then overwritten or has rising, overlapping areas |
| `MemoryMap.EnterSeparated` | memory_map.c:11-61 | a map in order is merged |
| `MemoryMap.AscendingEnters` | memory_map.c:11-61 | an ascending map has room for every region, and all are entered unless there are more than entries |
| `MemoryMap.ProcessMultibootMemoryMap` | memory_map.c:3-101 | for every memory map, code and slots are `Enter`, the fold of insert_area over the available records; -1 and nothing without the flag |
| `Boot.Start` | kernel.c:41-132 | for every memory map: the outcome is `Placement`; when it succeeds exactly the first 45 MB of frames are used, and the promise (5 MB of available memory above 40 MB, and exactly the rest stays free) is kept if and only if no area was overwritten and the 5 MB are free only once; if every region had room it is kept, and failure means that there is no such stretch |
| `Boot.PlacementExactly` | kernel.c:65-112 | for every memory map that is accepted: the promise is kept if and only if no area was overwritten and the 5 MB are free only once; with room for every region both hold, and 0 means that there is no such stretch |
| `Boot.SoundPlacement` | kernel.c:101-107 | on rising areas: the front of the first large enough area above 40 MB, and the other areas as they were |
| `Boot.OverwrittenPlacement` | kernel.c:101-107 | on any overwritten map main succeeds, and leaves addresses free that no region has |
| `BootExamples.OneRegion` | kernel.c:65-112 | 64 MB available from 0 on give placement memory at 41943040 and leave 19922944 bytes from 47185920 on |
| `BootExamples.StartOneRegion` | kernel.c:41-132 | on that map main succeeds with that address and 11520 used frames |
| `BootExamples.OtherHeaders` | kernel.c:62-66 | main gives up without the memory map flag, and does not look at the map under another magic number |
| `BootExamples.OverwrittenMapFails` | kernel.c:65-112 | three concrete regions below 40 MB after which main goes on with memory that is not available |
| `BootExamples.CoveringMapFails` | kernel.c:65-112 | three concrete regions after which main hands out bytes that stay free |
| `BootExamples.PlacementTooHigh` | kernel.c:101-135 | one concrete region whose placement memory lies above 45 MB, so that setup_page cannot start from the tables |
| `Boot.StartAsOffered` | memory_map.c:53-54 | with zero high words that is the memory the loader described |
| `Boot.PagingStartsExactly` | kernel.c:119-328 | setup_page can start if and only if the tables end below the reserved 45 MB, and in order if and only if the identity map does too |
| `Sorting.QuicksortInternal` | sort.c:59-104 | sorts the range, rearranges nothing else, and ends although the left call may get the same range |
| `Sorting.Quicksort` | sort.c:106-113 | a sorted permutation for every total comparator |
| `Sorting.Partition` | sort.c:71-92 | smaller elements first, the others after; everything smaller only if the pivot was the strict maximum |
| `Sorting.PivotBetween` | sort.c:94-99 | after the pivot is moved the range no longer starts with its strict maximum |
| `Sorting.Joined` | sort.c:97-103 | two sorted parts around the pivot are sorted together |
| `Sorting.Bubblesort` | sort.c:43-56 | a sorted permutation for every total comparator |
| `Sorting.IntComparatorTotal` | sort.c:115-140 | the comparator of integers is total |
| `Sorting.IntComparatorOrders` | sort.c:115-140 | it is negative exactly for x < y and positive exactly for x > y |
| `Sorting.SortedAscends` | sort.c:43-140 | for it, what both sorts promise is that the integers ascend |
| `Sorting.Swap` | sort.c:142-153 | exchanges two elements and no others |
| `LinkedList.List.AddToList` | collections/linked_list.c:3-39 | one closed cycle with the new payload last; -1, with the list unchanged, if and only if memory was refused |
| `LinkedList.List.LinkLast` | collections/linked_list.c:28-34 | the four writes keep one closed cycle with the new item last |
| `LinkedList.List.Length` | collections/linked_list.c:79-97 | the number of items |
| `LinkedList.List.IterateOverList` | collections/linked_list.c:99-118 | visits all items once, in insertion order |
| `LinkedList.List.DeleteList` | collections/linked_list.c:41-77 | frees every item exactly once and touches none afterwards |
| `Itoa.KItoa` | common.c:135-171 | the text is the number's only numeral, signed for 'd', modulo 2^32 otherwise, and takes at most 12 bytes with its end |
| `Itoa.NumeralUnique` | common.c:152-157 | a number has one numeral without superfluous zeros |
| `Itoa.SaysOnce` | common.c:135-171 | for each base text and number determine each other |
| `Itoa.Texts` | common.c:132-171 | literal texts in each base, the greatest 32-bit number and negative numbers among them |
| `Itoa.WriteDigits` | common.c:152-160 | the divide loop writes at most ten digits of the numeral, backwards |
| `Itoa.Reverse` | common.c:162-171 | reverses in place and touches nothing else |

## Left out

- PCI, port input and output, EEPROM and network set-up: device behaviour that the code does not show.
- Screen output, including every print inside a modelled function.
- Descriptor tables, interrupt stubs and assembly; CR0, CR2, CR3, the TLB and access rights. The faulting address is an argument, and of an entry only presence and frame address are modelled.
- `sbrk` with an increment, `shuffle` and the random numbers, the string functions, `factorial`, `multiboot.c`: `main` does not need them, and they would add easy members only.
- `completely_contains` and the dump functions of placement_memory.c: nothing in the modelled code uses them.
- BuddyHeap.Heap.Free: the block of a live pointer is a ghost argument; `LiveUnique` shows that there is only one. A pointer that `malloc` did not return, or one that was freed already, is outside the contract, as in the source.
- BuddyHeap.Heap.Malloc: memory is a map from addresses to words; partial and unaligned accesses to a list node or a header are not modelled, since the code makes none.
- BuddyHeap.Heap.InitHeap: the very first extension of the break is granted; what the source writes after a refusal, to words that are not mapped, is not followed.
- BuddyHeap.Heap.Brk: demand paging of the heap's pages is not joined to the heap; an address below the break counts as mapped.
- BuddyHeap.Heap.constructor: the 2 GB range ends below 2^32, so that no address wraps.
- Bitmap.Set: the caller owns the word that the guard lets through by mistake, or stays out of it.
- Paging.Pager.SetupPage: physical frames and the table window only; a write through a window address that is not mapped would be a second fault, and is shown not to happen.
- PagingSetup.InitialTables.PagingSetup: the tables end inside the 32-bit address space, and the count is not negative.
- PlacementMemory.FreeMap.Erase: the shifts read the entry behind the last one; the model gives the array of ten an eleventh slot for that.
- MemoryMap.ProcessMultibootMemoryMap: the walk stays in the table, and its addresses do not wrap.
- Boot.Start: the parts of `main` that deal with the screen, descriptor tables and PCI.
- LinkedList.List.IterateOverList: the callback is modelled by the sequence of items that it is given; it does not change the list.
- Sorting.Quicksort: element addresses are array indices, and counts of 2^31 and more, for which `last` would be negative, are not possible.
- Some C functions are cut into several methods so that each proof stays small; the pieces carry their own rows or are named for the step they do.
