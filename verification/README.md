# PeachOS kernel: verified model

A Dafny model of the state-keeping parts of the PeachOS 64-bit kernel and of two of its user programs, with proofs of what those parts promise. Each module follows one or two source files; the code is modelled as it stands, including the places where it departs from its own evident intent, and where it does the exact condition under which the promise holds is proved, mostly next to a concrete input for which it fails.

* `Paging` - four-level page tables: mapping, walking, lookup, teardown.
* `BlockTable`, `Heap` - the block heap: the flag table as values and the theorems about it, and the class whose loops are proved against it.
* `IntendedHeap` - the block heap as its reallocation code has it, in which every run keeps it whole.
* `HeapList`, `Freeing`, `MultiHeap` - several heaps behind one allocator, the defragmenting second pass over a paging heap, and the recursive free: as values, and the class.
* `Conservation` - whether freeing undoes allocating.
* `KHeap` - the layout of the first heap.
* `Vector`, `Graphics`, `Window` - the sorted vector, the compositor and the window mover.
* `Streamer`, `Fat16` - the sector cache and disk stream, and reading a file along its cluster chain.
* `Nvme` - the queue pair as interleaved host and controller steps, and the pages a read names.
* `Scheduler` - round robin with sleeping.
* `Calculator` - parsing, evaluating and printing.
* `Basics` - an optional value, minimum and maximum, products and quotients.

The pattern is the same throughout. A value-level specification (`MapPage`, `Malloc`, `Paint`, `Read`, `Do`, ...) says what an operation does; classes with the source's fields and loops are proved equal to it; the theorems are lemmas about the specification, over every input, every run or every reachable state.

`dafny verify dfyconfig.toml` checks everything.

## Where the code departs from its intent

* The last block of a multi-block allocation keeps HAS_NEXT (`PeachOS64Bit/src/memory/heap/heap.c:229`), so freeing it takes the neighbour along (`FreeExact`, `OpenFreeHandsOutTwice`, `MallocThenFreeExact`) and its length is counted with the neighbour's (`BlockCountExact`, `ReallocExact`, `SameSizeReleasesNeighbour`).
* Shrinking moves the counters twice (`PeachOS64Bit/src/memory/heap/heap.c:345-347`): `ReallocExact`, `ShrinkMiscounts`. Which runs do no harm all the same: `RunKeepsInvExactly`; without these two departures all: `IntendedHeap.RunsKeepWhole`.
* The scan for room to grow does not stop at the end of the table (`PeachOS64Bit/src/memory/heap/heap.c:166-178`), nor does the marking: `ReallocExact`, `BlockRangeFree`, `GrowthLeavesTable`.
* A heap's end address counts as inside it (`PeachOS64Bit/src/memory/heap/heap.c:119`): `LookupExact`, `TouchingHeapsAreConfused`.
* Freeing a defragmented allocation adds the block number to a pointer that already contains it (`PeachOS64Bit/src/memory/heap/multiheap.c:284`), so no defragmented allocation is put back unless a stale page happens to lead to its first block: `FreeRestoresExactly`, `FreeNeverRestores`, with the runs `FreedPairIsMiscounted` and `SecondPairIsLost`; without that every one is: `IntendedFreeRestores`.
* `paging_get` and the teardown test slot 0 of a table (`PeachOS64Bit/src/memory/paging/paging.c:53`, `PeachOS64Bit/src/memory/paging/paging.c:359`, `PeachOS64Bit/src/memory/paging/paging.c:374`): `GetExact`, `GetMissesMappedPage`, `TeardownIsComplete`, `TeardownLeaks`.
* A short read that crosses a sector end takes the buffer's zeros (`PeachOS64Bit/src/disk/streamer.c:284-287`); one sector too many is read; a failed read stays cached as zeros: `DeliveredExact`, `PartitionEndFailsOnce`, `CacheIsTransparent`.
* 0xFF7 is taken for the bad-cluster mark (`PeachOS64Bit/src/fs/fat/fat16.c:40`): `WalkFollowsChain`, `ReadSucceedsExactly`, `ChainThroughFF7`; the real mark, 0xFFF7, for a link: `DamagedChain`.
* After a polling timeout the driver takes the late completion for the next command's (`PeachOS64Bit/src/disk/drivers/nvme.c:467-482`): `TimeoutsShiftAnswers`, `LateCompletionIsTakenForNext`. For a buffer that is not page-aligned a two-page description does not hold 16 sectors (`PeachOS64Bit/src/disk/drivers/nvme.c:432-443`): `ReadsRightExactly`.
* The scheduler never goes back to the head before the tail has run (`PeachOS64Bit/src/task/task.c:327-342`): `BlockedExactly`.
* A window with a transparency key can leave a trail when it moves (`PeachOS64Bit/src/graphics/window.c:447-460`): `MoveKeepsSyncExactly`, `TransparentWindowLeavesTrail`.
* The flag table of the first heap can reach one byte into its pool (`PeachOS64Bit/src/memory/heap/kheap.c:96-108`): `TableBelowPoolExactly`, `TableCanReachPool`.
* The calculator does not bound an operand by its buffer (`PeachOS64Bit/programs/calculator/calculator.c:173-254`): the answer `overrun` of `CalculatorEquals`.

## Model

| member | source | states |
|---|---|---|
| `Paging.MapPageMaps` | PeachOS64Bit/src/memory/paging/paging.c:175-251 | One `paging_map`: the tables stay a separated tree with fresh, linked tables added only where missing; the leaf of the page is written and every page with other bits 12..47 keeps its entry |
| `Paging.MapPageGrants` | PeachOS64Bit/src/memory/paging/paging.c:175-251 | What the processor then finds at every address, over all four levels: the page at the physical page it was mapped to, readable if present was asked for, writable and open to the user exactly as asked; every other page as before |
| `Paging.RangeIsGranted` | PeachOS64Bit/src/memory/paging/paging.c:284-297 | The same for a range, page by page |
| `Paging.LeafDecides` | PeachOS64Bit/src/memory/paging/paging.c:175-251 | The links of the upper levels withhold no right, so the leaf entry alone decides what the processor grants |
| `Paging.RunRefinesFlatMap` | PeachOS64Bit/src/memory/paging/paging.c:175-251 | After any sequence of `paging_map` calls the four-level tree is a flat map: the processor finds each page where the last call for it put it, with the rights of that call, and every table once linked stays where it was |
| `Paging.SlotIsPageNumber` | PeachOS64Bit/src/memory/paging/paging.c:175-251 | Two addresses share all four table indexes exactly when bits 12..47 agree |
| `Paging.TranslateIsLookup` | PeachOS64Bit/src/memory/paging/paging.c:175-251 | The hardware walk (present bits at all levels) sees exactly the leaf entries marked present |
| `Paging.GetExact` | PeachOS64Bit/src/memory/paging/paging.c:340-396 | `paging_get` finds the leaf exactly when a page table covers the address and slot 0 of both middle tables is populated, because it tests slot 0 instead of the indexed entry |
| `Paging.PhysicalAddressExact` | PeachOS64Bit/src/memory/paging/paging.c:397-410 | On a mapped page `paging_get_physical_address` agrees with the processor exactly when the two tests of slot 0 let it see the page |
| `Paging.GetMissesMappedPage` | PeachOS64Bit/src/memory/paging/paging.c:340-396 | A concrete descriptor in which the processor translates a page and `paging_get` denies it |
| `Paging.PageTables.NextTable` | PeachOS64Bit/src/memory/paging/paging.c:175-251 | Links a zeroed table into an empty slot and leaves a taken slot alone; the whole new space is stated |
| `Paging.PageTables.Map` | PeachOS64Bit/src/memory/paging/paging.c:175-251 | The method equals the value-level `MapPage` on the whole space, including the frames left to allocate; the page is then granted as asked and no other page changes |
| `Paging.PageTables.MapRange` | PeachOS64Bit/src/memory/paging/paging.c:284-297 | Page virt+k leads to phys+k, present, writable and open to the user as the flags say, for every k below the count, nothing else moves; no table is allocated when the range is already covered |
| `Paging.PageTables.MapTo` | PeachOS64Bit/src/memory/paging/paging.c:299-338 | Succeeds exactly for aligned, ordered arguments and then maps and grants the whole range; otherwise changes nothing |
| `Paging.PageTables.FreeTable` | PeachOS64Bit/src/memory/paging/paging.c:51-87 | Frees exactly the tables reached through tables whose slot 0 is populated, each once |
| `Paging.PageTables.FreeChildren` | PeachOS64Bit/src/memory/paging/paging.c:51-113 | The loop over the 512 slots frees exactly what lies below them, each table once and never a leaf frame |
| `Paging.PageTables.Free` | PeachOS64Bit/src/memory/paging/paging.c:88-113 | Tearing down a descriptor frees each table page at most once, only table pages, and exactly the torn ones |
| `Paging.TornIffKeptUpwards` | PeachOS64Bit/src/memory/paging/paging.c:51-113 | A table is freed exactly when its own slot 0 is populated and its parent is freed |
| `Paging.TeardownIsComplete` | PeachOS64Bit/src/memory/paging/paging.c:51-113 | All tables are freed if and only if every table below the root has slot 0 populated |
| `Paging.TeardownLeaks` | PeachOS64Bit/src/memory/paging/paging.c:51-113 | The descriptor of `GetMissesMappedPage` again: of its four tables only the root is freed |
| `BlockTable.ParseIsUnique` | PeachOS64Bit/src/memory/heap/heap.c:213-238 | A flag table determines its live allocations: two readings into chains are equal |
| `BlockTable.MallocKeepsInv` | PeachOS64Bit/src/memory/heap/heap.c:128-163 | First fit: the lowest start with a free run, failure only when there is none; the blocks belong to no live allocation, counters and chains stay right, and the new chain is closed exactly when it has one block or ends the table |
| `BlockTable.FreeExact` | PeachOS64Bit/src/memory/heap/heap.c:262-285 | Freeing leaves exactly the other allocations with right counters if and only if the freed chain is closed |
| `BlockTable.OpenFreeHandsOutTwice` | PeachOS64Bit/src/memory/heap/heap.c:213-285 | A concrete run in which freeing two blocks lets a live block be handed out again, since the last block keeps HAS_NEXT |
| `BlockTable.BlockCountExact` | PeachOS64Bit/src/memory/heap/heap.c:179-206 | `heap_allocation_block_count` is right exactly when no other allocation follows an open one; it is never too small |
| `BlockTable.ReallocExact` | PeachOS64Bit/src/memory/heap/heap.c:299-391 | For every live allocation and whatever the bytes behind the table hold. A growing call that finds nothing taken up to an end behind the table marks bytes there and breaks the invariant. Else, counted right: same size, shrink (chain right, counters never), grow in place (invariant kept), move (kept exactly if the old chain is closed), failure (unchanged, no run exists); counted with a neighbour: a failing call changes nothing and every other call breaks the invariant |
| `BlockTable.StayingIsRealloc` | PeachOS64Bit/src/memory/heap/heap.c:351-391 | A call that does not leave the table depends on nothing behind it and changes nothing there |
| `BlockTable.ShrinkMiscounts` | PeachOS64Bit/src/memory/heap/heap.c:341-353 | By how much the counters are wrong after shrinking: by the blocks given back, and one more if the allocation was open |
| `BlockTable.SameSizeReleasesNeighbour` | PeachOS64Bit/src/memory/heap/heap.c:299-391 | Two blocks, then one behind them: reallocating the two to two blocks frees the one |
| `BlockTable.GrowthLeavesTable` | PeachOS64Bit/src/memory/heap/heap.c:351-391 | Two of four blocks grown to five with a byte behind the table that looks free: the byte is marked and five blocks count as used |
| `BlockTable.CallKeepsInvExactly` | PeachOS64Bit/src/memory/heap/heap.c:128-391 | A call on a live allocation, with any bytes behind the table, leaves disjoint in-range chains and true counters if and only if it is harmless: a condition on flags and counts that can be read off before the call |
| `BlockTable.RunKeepsInvExactly` | PeachOS64Bit/src/memory/heap/heap.c:128-391 | Over every run of calls on live allocations: the heap is whole after each call exactly if each call is harmless when it comes |
| `IntendedHeap.ReallocKeepsWhole` | PeachOS64Bit/src/memory/heap/heap.c:299-391 | With HAS_NEXT left off the last block and freed blocks counted once, every reallocation of a live allocation leaves the heap whole |
| `IntendedHeap.RunsKeepWhole` | PeachOS64Bit/src/memory/heap/heap.c:128-391 | In that form every run of calls keeps the heap whole and every allocation closed; no call is ruled out |
| `Heap.Heap.StartBlock` | PeachOS64Bit/src/memory/heap/heap.c:128-163 | The scan returns the lowest fitting start |
| `Heap.Heap.MarkBlocksTaken` | PeachOS64Bit/src/memory/heap/heap.c:213-238 | The flag loop writes the table that `MarkTaken` describes, with HAS_NEXT on the last of several blocks |
| `Heap.Heap.MallocBlocks` | PeachOS64Bit/src/memory/heap/heap.c:240-260 | Table, both counters and the address are those of the value-level `Malloc` |
| `Heap.Heap.MarkBlocksFree` | PeachOS64Bit/src/memory/heap/heap.c:262-285 | Clears the chain, moves both counters, and has the callback unmap exactly the pages walked over |
| `Heap.Heap.ClearBlocks` | PeachOS64Bit/src/memory/heap/heap.c:262-285 | The loop clears exactly the blocks of the walk and has the callback unmap exactly their pages |
| `Heap.Heap.AllocationBlockCount` | PeachOS64Bit/src/memory/heap/heap.c:179-206 | Counts the TAKEN blocks of the walk |
| `Heap.BlocksFor` | PeachOS64Bit/src/memory/heap/heap.c:87-97 | As few blocks as hold the bytes: at least `size` and less than one block more |
| `Heap.Heap.BlockRangeFree` | PeachOS64Bit/src/memory/heap/heap.c:166-178 | Answers whether all flags of the range are free, and says exactly when the loop reads a byte behind the table |
| `Heap.Heap.ZallocBlocks` | PeachOS64Bit/src/memory/heap/heap.c:423-433 | An allocation whose blocks hold 4096 zeros each, the rest of the pool untouched |
| `Heap.Heap.Realloc` | PeachOS64Bit/src/memory/heap/heap.c:299-391 | Table, bytes behind it, counters, result and block contents after every case of reallocation to as few blocks as hold `size` bytes |
| `Heap.Heap.GrowTo` | PeachOS64Bit/src/memory/heap/heap.c:351-391 | Growing in place, in the table or past its end, or else moving |
| `Heap.Heap.MoveTo` | PeachOS64Bit/src/memory/heap/heap.c:374-391 | Allocating, copying and freeing the old blocks |
| `Heap.Heap.Extend` | PeachOS64Bit/src/memory/heap/heap.c:356-368 | The loop that marks the extension, through the flags wherever they lie |
| `Heap.Heap.ShrinkTo` | PeachOS64Bit/src/memory/heap/heap.c:326-349 | Cuts the chain; both counters are moved twice |
| `Heap.ReallocKeepsContents` | PeachOS64Bit/src/memory/heap/heap.c:299-391 | Reallocation keeps the first min(old, new) blocks and leaves contents and flags of every other live allocation alone, if and only if the length is counted right or the call happens to spare the neighbours |
| `Heap.ReallocHoldsSize` | PeachOS64Bit/src/memory/heap/heap.c:299-391 | An answered reallocation leaves at the place it answers a chain of as few blocks as hold `size` bytes, unless the count or the scan went wrong or an open allocation moved |
| `HeapList.LookupExact` | PeachOS64Bit/src/memory/heap/multiheap.c:84-97 | The address lookup names the right heap exactly when no earlier heap ends at that address (the end address counts as inside) |
| `HeapList.TouchingHeapsAreConfused` | PeachOS64Bit/src/memory/heap/multiheap.c:84-97 | Two touching heaps: the first address of the second is looked up in the first |
| `HeapList.NextSingle` | PeachOS64Bit/src/memory/heap/multiheap.c:393-404 | Block-by-block allocation hands out the free blocks in ascending order, then fails |
| `HeapList.FreeListCounts` | PeachOS64Bit/src/memory/heap/multiheap.c:393-404 | The list of free blocks is as long as the table has free entries |
| `MultiHeap.MultiHeap.AllocPaging` | PeachOS64Bit/src/memory/heap/multiheap.c:336-368 | Takes the run from the paging heap of the first heap whose counter and paging heap both have room |
| `MultiHeap.MultiHeap.BackPages` | PeachOS64Bit/src/memory/heap/multiheap.c:393-404 | Backs page k of the run with the k-th free block, zeroed; every other translation stays and no table page is allocated; fails exactly when blocks run out |
| `MultiHeap.MultiHeap.SecondPass` | PeachOS64Bit/src/memory/heap/multiheap.c:370-407 | The whole defragmenting pass: the chosen heap, the run, the backing, or null, or the panic; the request is given a run of pages and as many zeroed blocks as hold its bytes, and the processor finds page k in block k, for the kernel to read and write and not for the user |
| `MultiHeap.MultiHeap.FirstPass` | PeachOS64Bit/src/memory/heap/multiheap.c:317-334 | Allocates in the first heap with a long enough run a run of as few blocks as hold the bytes, all of them free before, or changes nothing |
| `MultiHeap.MultiHeap.Palloc` | PeachOS64Bit/src/memory/heap/multiheap.c:468-482 | Defragments only when no heap has a long enough run; either way the request is given at least its size and less than a block more, as said of the passes |
| `MultiHeap.MultiHeap.Add` | PeachOS64Bit/src/memory/heap/multiheap.c:212-247 | Appends a heap, refused once the allocator is ready |
| `MultiHeap.MultiHeap.MaxEndAddress` | PeachOS64Bit/src/memory/heap/multiheap.c:68-82 | The highest end address of all heaps |
| `MultiHeap.MultiHeap.PremapPages` | PeachOS64Bit/src/memory/heap/multiheap.c:416-455 | Maps each page of one paging heap to itself without flags, so that none is present; every other translation stays and another heap's pages are not disturbed |
| `MultiHeap.MultiHeap.Ready` | PeachOS64Bit/src/memory/heap/multiheap.c:416-455 | Every heap that may be defragmented gets an empty paging heap above all memory; exactly the pages of those heaps are mapped, each to itself and not present, and every other translation stays; freeing ends from then on |
| `MultiHeap.MultiHeap.UnmapPages` | PeachOS64Bit/src/memory/heap/multiheap.c:412-415 | Nulls exactly the leaf entries of the pages given |
| `MultiHeap.MultiHeap.Free` | PeachOS64Bit/src/memory/heap/multiheap.c:269-300 | In an allocator that `multiheap_ready` has set up, for every pointer: the call ends, its heaps and nulled leaf entries are those of the recursion, and the allocator stays set up |
| `Freeing.FreeEnds` | PeachOS64Bit/src/memory/heap/multiheap.c:269-300 | Why it ends: an address above the memory leads to memory or to itself, and one that leads to itself is in no taken page, so the calls that `multiheap_free` makes of itself make none |
| `Freeing.FreeEndsAtDepthOne` | PeachOS64Bit/src/memory/heap/multiheap.c:269-300 | In such an allocator the result is the same at every depth of the recursion from one on |
| `Freeing.OwnPageNeverEnds` | PeachOS64Bit/src/memory/heap/multiheap.c:269-300 | Without that it need not end: a taken page that leads to itself is freed for ever, at every depth |
| `Freeing.PassSettles` | PeachOS64Bit/src/memory/heap/multiheap.c:370-407 | A second pass keeps the condition |
| `Freeing.FirstPassSettles` | PeachOS64Bit/src/memory/heap/multiheap.c:317-334 | So does a first pass |
| `Freeing.FreshSettles` | PeachOS64Bit/src/memory/heap/multiheap.c:416-455 | `multiheap_ready` brings it about where pages above the memory led nowhere or to themselves before |
| `MultiHeap.MultiHeap.FreeFrom` | PeachOS64Bit/src/memory/heap/multiheap.c:269-300 | The recursion, with its proof of termination: calls made from within are at level 0 and make none |
| `MultiHeap.MultiHeap.FreePages` | PeachOS64Bit/src/memory/heap/multiheap.c:279-289 | The virtual branch: the pages looked at from the shifted index on, then the run of the paging heap and its leaf entries |
| `MultiHeap.MultiHeap.FreeTargets` | PeachOS64Bit/src/memory/heap/multiheap.c:279-289 | Frees, in order, what every page the shifted index looks at leads to, whatever that is |
| `MultiHeap.SecondPassSucceeds` | PeachOS64Bit/src/memory/heap/multiheap.c:336-407 | With true counters the second pass succeeds exactly when some paging heap has a free run of n and its heap n free blocks, and then never reaches the panic |
| `MultiHeap.PanicIsReachable` | PeachOS64Bit/src/memory/heap/multiheap.c:393-399 | With the counters a free of an open chain leaves behind, the panic is reached |
| `MultiHeap.SinglesKeepInv` | PeachOS64Bit/src/memory/heap/multiheap.c:393-404 | The backing blocks become closed one-block allocations and the heap invariant is kept |
| `Conservation.MallocThenFreeExact` | PeachOS64Bit/src/memory/heap/heap.c:213-285 | Allocating and freeing restores table and counters exactly when one block was allocated or the run reaches the end |
| `Conservation.FreeRestoresExactly` | PeachOS64Bit/src/memory/heap/multiheap.c:269-300 | Freeing what a second pass has handed out, of any size and at any place, puts tables and counters of all heaps back and nulls exactly the leaf entries of its run, if and only if the run lies at block 0 of the paging heap and is one page or all pages long; for other runs provided that no page the shifted index comes to leads to the first backing block |
| `Conservation.SecondPassIsPartial` | PeachOS64Bit/src/memory/heap/multiheap.c:468-482 | A second pass comes after a first that found no run, so it is never for one page and never for all |
| `Conservation.FreeNeverRestores` | PeachOS64Bit/src/memory/heap/multiheap.c:269-300 | Hence no allocation that `multiheap_palloc` has defragmented is put back by `multiheap_free`, under the same proviso, which holds along every run of allocations and after frees is a condition on the page tables |
| `Conservation.PassKeepsDiscipline` | PeachOS64Bit/src/memory/heap/multiheap.c:370-407 | After every second pass again no page leads to a free block, and no page the shifted index comes to leads to the first block taken: the proviso of the theorems above |
| `Conservation.FirstPassKeepsDiscipline` | PeachOS64Bit/src/memory/heap/multiheap.c:317-334 | First passes keep it too |
| `Conservation.ReadyIsDisciplined` | PeachOS64Bit/src/memory/heap/multiheap.c:416-455 | It holds once `multiheap_ready` has set up empty paging heaps |
| `Conservation.FreedPairIsMiscounted` | PeachOS64Bit/src/memory/heap/multiheap.c:269-300 | A whole run from an empty allocator: a heap of four blocks, ready, four single blocks taken, two of them freed, two pages given out of the holes and freed; the paging heap then counts five free blocks of four |
| `Conservation.SecondPairIsLost` | PeachOS64Bit/src/memory/heap/multiheap.c:269-300 | The same with eight blocks and two pairs of pages: the second pair is freed, its pages can be given out again, and both of its blocks stay taken |
| `Conservation.MakeHoles` | PeachOS64Bit/src/memory/heap/multiheap.c:317-334 | The requests and frees that fragment the heap, on the allocator itself |
| `Conservation.IntendedFreeRestores` | PeachOS64Bit/src/memory/heap/multiheap.c:269-300 | Conservation in the intended form (page `i - starting_block` of the run, chains closed, half-open ranges, the entry asked for): for any run of any size at any place the recursion ends at depth one, tables and counters are put back, each backing block is returned once and exactly the leaf entries of the run are nulled |
| `KHeap.AllowableRegion` | PeachOS64Bit/src/memory/heap/kheap.c:41-56 | The first usable region above the minimum size, or none |
| `KHeap.LayOut` | PeachOS64Bit/src/memory/heap/kheap.c:79-119 | Where table and pool lie and how many entries there are, for every large enough region |
| `KHeap.EntriesBound` | PeachOS64Bit/src/memory/heap/kheap.c:79-119 | The final entry count exceeds the recomputed block count by at most one up to 2^36 - 2^24 bytes, with the general bound beyond |
| `KHeap.TableBelowPoolExactly` | PeachOS64Bit/src/memory/heap/kheap.c:79-119 | The flag table ends before the pool exactly unless its end is page-aligned and the pool one block larger; then it overlaps by one byte |
| `KHeap.TableCanReachPool` | PeachOS64Bit/src/memory/heap/kheap.c:79-119 | A page-aligned region for which that byte is shared |
| `KHeap.OtherPools` | PeachOS64Bit/src/memory/heap/kheap.c:130-165 | The loop over the other regions yields the pools of `PoolsOf` |
| `KHeap.OfferedIsAll` | PeachOS64Bit/src/memory/heap/kheap.c:133-160 | Every whole page of a usable region above the first pool address is in the pool made of it |
| `KHeap.PoolsHaveExactly` | PeachOS64Bit/src/memory/heap/kheap.c:130-165 | The pools have a page if and only if it lies above the first pool address in a usable region other than the one of the first heap |
| `KHeap.PoolsAreApart` | PeachOS64Bit/src/memory/heap/kheap.c:130-165 | Disjoint regions give disjoint pools |
| `KHeap.PoolsMissFirstHeap` | PeachOS64Bit/src/memory/heap/kheap.c:130-165 | No pool meets the region of the first heap, nor its flag table, nor its pool |
| `Vector.Vector.At` | PeachOS64Bit/src/lib/vector/vector.c:315-357 | Element or error, exactly by the bound |
| `Vector.Vector.Overwrite` | PeachOS64Bit/src/lib/vector/vector.c:166-190 | Replaces one element, or nothing and an error |
| `Vector.Vector.Exchange` | PeachOS64Bit/src/lib/vector/vector.c:275-297 | Swaps neighbours exactly when out of order |
| `Vector.Vector.Reorder` | PeachOS64Bit/src/lib/vector/vector.c:250-303 | Bubble sort in place: the result is sorted and a stable permutation |
| `Vector.StableSortIsUnique` | PeachOS64Bit/src/lib/vector/vector.c:250-303 | A sequence has only one stable sorted permutation, so `Reorder` is fully specified |
| `Vector.RaisedGoesLast` | PeachOS64Bit/src/lib/vector/vector.c:250-303 | Giving one element a key above all others moves it to the end and moves nothing else |
| `Graphics.Screen.PutPixel` | PeachOS64Bit/src/graphics/graphics.c:121-202 | Writes cell py * pitch + px of the framebuffer and no other |
| `Graphics.Screen.PasteRow` | PeachOS64Bit/src/graphics/graphics.c:121-202 | One row of the paste, transparency key included |
| `Graphics.Screen.Paste` | PeachOS64Bit/src/graphics/graphics.c:121-202 | Every framebuffer pixel after the clipped, keyed paste; in memory, row by row from the top, the cell of each pixel of the clipped part has the pixel or is left as it was for the transparent colour |
| `Graphics.PixelAt` | PeachOS64Bit/src/graphics/graphics.c:121-202 | The pixels of a graphic are stored row by row from the top: entry k is column k mod width of row k / width |
| `Graphics.LookAt` | PeachOS64Bit/src/graphics/graphics.c:121-202 | So are those of the framebuffer, with its pitch |
| `Graphics.Screen.RedrawOnly` | PeachOS64Bit/src/graphics/graphics.c:258-272 | Paints one graphic and nothing outside of it |
| `Graphics.Screen.Redraw` | PeachOS64Bit/src/graphics/graphics.c:541-550 | A full redraw gives every pixel what painting the tree in order gives |
| `Graphics.Screen.RedrawRegion` | PeachOS64Bit/src/graphics/graphics.c:288-358 | The clipped recursion changes exactly the region and there gives each pixel the ancestor-clipped painting |
| `Graphics.Screen.RedrawPart` | PeachOS64Bit/src/graphics/graphics.c:335-356 | The intersection with one child |
| `Graphics.ClippedIsPaint` | PeachOS64Bit/src/graphics/graphics.c:288-358 | If every graphic lies inside its parent, clipping to the ancestors makes no difference |
| `Graphics.RegionIsFullRedraw` | PeachOS64Bit/src/graphics/graphics.c:288-358 | Region redraw refines full redraw inside the root, for every contained tree and framebuffer |
| `Graphics.RegionAgreesExactly` | PeachOS64Bit/src/graphics/graphics.c:288-358 | At any pixel a region redraw gives what a full redraw gives, whatever was there, if and only if the graphic seen there lies on all that it should lie on at that point, or what is seen without those that stick out has its colour |
| `Graphics.StickingOutDiffers` | PeachOS64Bit/src/graphics/graphics.c:288-358 | A grandchild outside its parent is painted by a full redraw only |
| `Graphics.PaintFollowsOrder` | PeachOS64Bit/src/graphics/graphics.c:541-550 | A full redraw paints the graphics one by one in pre-order |
| `Graphics.HitIsPaintedLast` | PeachOS64Bit/src/graphics/graphics.c:458-533 | Top-first hit testing answers the last element in paint order that covers the point |
| `Graphics.HitFindsExactly` | PeachOS64Bit/src/graphics/graphics.c:458-533 | Top first or bottom first, the search answers a graphic that covers the point and is not in the ignored branch, and none only if there is none |
| `Graphics.ChildAt` | PeachOS64Bit/src/graphics/graphics.c:444-533 | The two search loops compute `Hit`, both directions, and answer nothing below an ignored ancestor |
| `Graphics.InIgnoredBranch` | PeachOS64Bit/src/graphics/graphics.c:444-456 | Whether the graphic or one above it is the ignored one |
| `Window.RecalculatedIsPlaced` | PeachOS64Bit/src/graphics/graphics.c:403-426 | Every descendant's absolute position is the sum of relative offsets along its ancestors |
| `Window.RecalculatedIsContained` | PeachOS64Bit/src/graphics/graphics.c:403-426 | Wherever a graphic is put, descendants that fit lie inside their parents |
| `Window.PlacedFits` | PeachOS64Bit/src/graphics/graphics.c:403-426 | Containment and placement by relative offsets mean that the offsets fit, wherever the graphic is put next |
| `Window.Recalculate` | PeachOS64Bit/src/graphics/graphics.c:403-426 | The recursion over the children computes `Recalculated` |
| `Window.StripsCoverVacated` | PeachOS64Bit/src/graphics/window.c:420-458 | The two strips, or the whole old rectangle, are exactly the old place without the new one, or all of it |
| `Window.ShowsDecides` | PeachOS64Bit/src/graphics/graphics.c:541-550 | Painting a window leaves a pixel as it was, whatever it was, exactly if nothing of the window shows there |
| `Window.MoveKeepsSyncExactly` | PeachOS64Bit/src/graphics/window.c:378-463 | A move keeps framebuffer and scene in sync over every backdrop if and only if, wherever the new place covers what the old window showed, the window shows something at its new place too |
| `Window.TrailOnSomeBackdrop` | PeachOS64Bit/src/graphics/window.c:378-463 | Where that fails there is a backdrop over which the framebuffer goes wrong at that pixel |
| `Window.MoveKeepsSync` | PeachOS64Bit/src/graphics/window.c:378-463 | An opaque window meets the condition, so its moves keep the screen in sync |
| `Window.TransparentWindowLeavesTrail` | PeachOS64Bit/src/graphics/window.c:378-463 | A window with a transparency key for which it does not |
| `Window.RaisedWindowIsHit` | PeachOS64Bit/src/graphics/window.c:234-251 | Inside the raised window's rectangle hit testing answers the window or something in it |
| `Window.Desktop.RedrawAll` | PeachOS64Bit/src/graphics/graphics.c:552-556 | A full redraw brings the framebuffer in sync with the scene |
| `Window.Desktop.SetZIndex` | PeachOS64Bit/src/graphics/graphics.c:637-644 | The children become the stable sort of the children with the new index |
| `Window.Desktop.BringToTop` | PeachOS64Bit/src/graphics/window.c:234-251 | The window becomes the last child, one above the former last, the others keep their order |
| `Window.Desktop.RedrawStrips` | PeachOS64Bit/src/graphics/window.c:420-458 | Exactly the strips are repainted from the scene |
| `Window.Desktop.Place` | PeachOS64Bit/src/graphics/window.c:405-418 | The scene with the window at its new place, recalculated and raised |
| `Window.Desktop.PositionSet` | PeachOS64Bit/src/graphics/window.c:378-463 | The whole move: position as asked or pulled back so that the window ends a pixel inside the screen, raised scene, every framebuffer pixel, the desktop's invariant, and, under the exact condition above, framebuffer and scene still in sync |
| `Streamer.PathSpellsSector` | PeachOS64Bit/src/disk/streamer.c:161-197 | The indexes of a position are below the bucket sizes and spell its sector number |
| `Streamer.SectorSpellsPath` | PeachOS64Bit/src/disk/streamer.c:161-197 | Every in-range path is the path of exactly the sector it spells |
| `Streamer.SameSlotSameSector` | PeachOS64Bit/src/disk/streamer.c:161-197 | Two positions reach the same slot exactly when they lie in the same sector |
| `Streamer.ReadDelivers` | PeachOS64Bit/src/disk/streamer.c:247-316 | When a read succeeds, what it delivers and that it advances by the requested length, whatever the cache holds |
| `Streamer.DeliveredExact` | PeachOS64Bit/src/disk/streamer.c:280-287 | On a given disk a read is right exactly when it is of a sector or more, stays in one sector, or the bytes it misses are zero |
| `Streamer.ByteIsOnDevice` | PeachOS64Bit/src/disk/disk.c:252-272 | A byte of the disk is the byte of the sector that the device gives, and zero where device or partition give none |
| `Streamer.ReadsRightExactly` | PeachOS64Bit/src/disk/streamer.c:280-287 | A read is right on every disk exactly when it is of a sector or more or stays in one |
| `Streamer.TouchesOneMore` | PeachOS64Bit/src/disk/streamer.c:260-312 | A read comes to the sectors its bytes lie in and to exactly one more: it succeeds if and only if each of these is cached or can be read, and then they are all cached |
| `Streamer.PartitionEndFailsOnce` | PeachOS64Bit/src/disk/streamer.c:280-314 | A read up to the end of a partition delivers all its bytes and fails, the first time only |
| `Streamer.CacheIsTransparent` | PeachOS64Bit/src/disk/streamer.c:247-316 | Whatever the cache holds, a history of seeks and reads by any number of streams shows what it would without a cache if and only if no read comes back to a sector that an earlier one failed at |
| `Streamer.ReadableIsNeverStale` | PeachOS64Bit/src/disk/streamer.c:247-316 | Where every sector asked for can be read, that is always so |
| `Streamer.LeaveRing` | PeachOS64Bit/src/disk/streamer.c:141-159 | Dropping a ring entry keeps every bucket's count equal to its occurrences in the ring |
| `Streamer.EnterRing` | PeachOS64Bit/src/disk/streamer.c:141-159 | So does adding one |
| `Streamer.Cache.Level1Get` | PeachOS64Bit/src/disk/streamer.c:49-83 | Growing the first level and linking a bucket keeps every cached sector |
| `Streamer.Cache.Level2Get` | PeachOS64Bit/src/disk/streamer.c:85-107 | Fails exactly out of range, keeps every cached sector |
| `Streamer.Cache.Level3Get` | PeachOS64Bit/src/disk/streamer.c:109-130 | Fails exactly out of range, keeps every cached sector |
| `Streamer.Cache.RoundRobinAdd` | PeachOS64Bit/src/disk/streamer.c:141-159 | One ring entry is replaced, counts stay right, no sector is lost since `kfree` does nothing |
| `Streamer.Cache.Find` | PeachOS64Bit/src/disk/streamer.c:161-219 | Never out of range; finds the slot or fills exactly that one with zeros |
| `Streamer.Cache.SetSlot` | PeachOS64Bit/src/disk/streamer.c:197-207 | Changes one slot; the bucket's sector count equals its filled slots |
| `Streamer.CachedDisk.ReadBlock` | PeachOS64Bit/src/disk/disk.c:252-272 | The bounds of a partition and the device's answer |
| `Streamer.CachedDisk.Sector` | PeachOS64Bit/src/disk/streamer.c:289-305 | Exactly the sectors asked for are cached, each with what the device gave; a failed read leaves zeros behind |
| `Streamer.Stream.ReadPart` | PeachOS64Bit/src/disk/streamer.c:280-314 | One iteration: bytes, new position, what is left |
| `Streamer.Stream.ReadBytes` | PeachOS64Bit/src/disk/streamer.c:247-316 | The read loop equals the value-level `Read`: status, bytes, position and cache |
| `Fat16.EntryIsOnDisk` | PeachOS64Bit/src/fs/fat/fat16.c:405-432 | An allocation table entry is the little-endian pair of bytes two bytes per cluster behind the reserved sectors |
| `Fat16.WalkFollowsChain` | PeachOS64Bit/src/fs/fat/fat16.c:436-468 | The walk follows a chain exactly until it meets 0xFF7, the number the code takes for the bad-cluster mark; past the end it reports the range error |
| `Fat16.ChainThroughFF7` | PeachOS64Bit/src/fs/fat/fat16.c:436-468 | A disk with a chain of two clusters in range, the second of them 0xFF7, which the code refuses to read |
| `Fat16.DamagedChain` | PeachOS64Bit/src/fs/fat/fat16.c:435-467 | Behind a free or reserved entry every walk is an input/output error, but the bad-cluster mark 0xFFF7 is followed as a link |
| `Fat16.FileReadIsSlice` | PeachOS64Bit/src/fs/fat/fat16.c:469-520 | Every read of every chain: where the chain has the clusters and 0xFF7 is on no step to them, the slice of the concatenated clusters in any cluster order, right exactly for whole requests or if the missed bytes are zero; else which of the two errors |
| `Fat16.ClustersTile` | PeachOS64Bit/src/fs/fat/fat16.c:395-398 | Clusters lie side by side, cluster 2 right behind the root directory: the contents of consecutive clusters are a stretch of the disk |
| `Fat16.ConsecutiveRead` | PeachOS64Bit/src/fs/fat/fat16.c:469-520 | A whole read of a file in consecutive clusters delivers the bytes of the disk that lie as far behind its first cluster as asked |
| `Fat16.ReadSucceedsExactly` | PeachOS64Bit/src/fs/fat/fat16.c:469-520 | A read succeeds exactly when the chain is long enough and 0xFF7 is met on no step up to the last cluster needed |
| `Fat16.ReadsConcatenate` | PeachOS64Bit/src/fs/fat/fat16.c:469-520 | Adjacent reads make up the one larger read if and only if the bytes that are lost by the one and not by the other are zero on the disk |
| `Fat16.ItemsAreSlice` | PeachOS64Bit/src/fs/fat/fat16.c:743-764 | Reading items one after the other gives one slice if and only if the bytes that the items lose are zero on the disk |
| `Fat16.ItemsWhenReadable` | PeachOS64Bit/src/fs/fat/fat16.c:743-764 | Where every sector needed can be read, result and bytes are those of the disk, whatever the cache holds |
| `Fat16.FileSystem.GetFatEntry` | PeachOS64Bit/src/fs/fat/fat16.c:405-432 | The entry as the streamer gives it, or the error, and what the cache holds then |
| `Fat16.FileSystem.GetClusterForOffset` | PeachOS64Bit/src/fs/fat/fat16.c:436-468 | The loop equals the walk, on readable and unreadable disks; an entry that cannot be read passes for an end mark |
| `Fat16.FileSystem.ReadInternal` | PeachOS64Bit/src/fs/fat/fat16.c:469-520 | Result, bytes put in place and cache after the read loop, also when it fails half-way |
| `Fat16.File.ReadItems` | PeachOS64Bit/src/fs/fat/fat16.c:743-764 | Result, bytes, cache and new position; on an error the position stays |
| `Nvme.StepKeepsInv` | PeachOS64Bit/src/disk/drivers/nvme.c:417-496 | Every host and controller step keeps the ring invariant: registers are counters modulo the size, tags are laps |
| `Nvme.TagShowsFresh` | PeachOS64Bit/src/disk/drivers/nvme.c:467-482 | The phase tag at the head matches exactly when an untaken completion waits there, and it is the next one |
| `Nvme.RunsKeepInv` | PeachOS64Bit/src/disk/drivers/nvme.c:417-496 | Over any interleaving with fewer than n - 1 timeouts the completion ring is a queue: in order, none lost, none twice |
| `Nvme.KthCompletionAnswersKthCommand` | PeachOS64Bit/src/disk/drivers/nvme.c:417-496 | For any size from 2 on and any interleaving without a timeout, the k-th completion taken answers the k-th command |
| `Nvme.TimeoutsShiftAnswers` | PeachOS64Bit/src/disk/drivers/nvme.c:467-482 | After timeouts the completion taken is that of the command as many earlier, so right exactly if there was none |
| `Nvme.LateCompletionIsTakenForNext` | PeachOS64Bit/src/disk/drivers/nvme.c:467-495 | A run in which a late completion is taken for the next command |
| `Nvme.NeverStuck` | PeachOS64Bit/src/disk/drivers/nvme.c:467-482 | A polling host can take a completion or the controller has a step that brings one nearer |
| `Nvme.QueuePair.SubmitCommand` | PeachOS64Bit/src/disk/drivers/nvme.c:457-465 | Writes the tail slot and moves the tail: the `Submit` step |
| `Nvme.QueuePair.TakeCompletion` | PeachOS64Bit/src/disk/drivers/nvme.c:484-495 | Takes the head entry, moves head and phase: the `Consume` step |
| `Nvme.QueuePair.SubmitAndPoll` | PeachOS64Bit/src/disk/drivers/nvme.c:445-495 | Every call is a run of the state machine; after it the queues and the answer are those of `Exchange`, whatever the state before: the completion at the head at the first look that shows one, or a timeout |
| `Nvme.GivesUpExactly` | PeachOS64Bit/src/disk/drivers/nvme.c:467-477 | The host gives up if and only if it has tried every move and none of the looks, before, between and after them, shows a completion |
| `Nvme.AnsweredExactly` | PeachOS64Bit/src/disk/drivers/nvme.c:467-477 | It is answered if and only if the controller, left alone with the moves, posts one completion more than the host has taken |
| `Nvme.PatientExchange` | PeachOS64Bit/src/disk/drivers/nvme.c:445-495 | With nothing timed out before, a command is answered if and only if the controller fetches it and later completes it while the host polls |
| `Nvme.ReadsRightExactly` | PeachOS64Bit/src/disk/drivers/nvme.c:424-443 | A read is right for every disk and memory exactly if the buffer is page-aligned or lies in two pages |
| `Nvme.AlignedReadsRight` | PeachOS64Bit/src/disk/drivers/nvme.c:535-559 | Then sector lba+k is at byte offset 512k for every k and nothing else changes |
| `Nvme.UnalignedLeavesGap` | PeachOS64Bit/src/disk/drivers/nvme.c:424-443 | Otherwise some byte of the buffer is never filled, or the buffer is read as a list of pages |
| `Nvme.ShortReadsRightAnywhere` | PeachOS64Bit/src/disk/drivers/nvme.c:417-496 | Reads of up to eight sectors, such as the sector cache makes, are right at any address |
| `Nvme.Driver.Perform` | PeachOS64Bit/src/disk/drivers/nvme.c:417-496 | The command goes out and the completion taken, whichever it is, decides; a timeout is an error, and the first happens exactly if the controller does not fetch and complete the command while the host polls |
| `Nvme.Driver.ReadSectors` | PeachOS64Bit/src/disk/drivers/nvme.c:535-559 | Issues the commands of `Commands` up to the first that fails. With nothing timed out before, it succeeds if and only if the controller completes every command in time and with a good status; then it has performed exactly these, in order, and the sectors are in the buffer exactly if it is page-aligned or lies in two pages |
| `Scheduler.ScanReads` | PeachOS64Bit/src/task/task.c:324-352 | The search costs one clock reading per entry looked at; all passed over were asleep at theirs, the one found was not |
| `Scheduler.NextTaskExact` | PeachOS64Bit/src/task/task.c:134-152 | Nobody is dispatched before the wake time, nobody awake is passed over, and the head follows only the tail |
| `Scheduler.BlockedExactly` | PeachOS64Bit/src/task/task.c:324-352 | The search is empty although somebody is awake exactly when all after the current one sleep, it is not the tail, and one up to it is awake |
| `Scheduler.EndsExactly` | PeachOS64Bit/src/task/task.c:134-152 | The retry loop of `task_next` can end exactly when some reading finds a task awake that the search comes to |
| `Scheduler.BoundedBypass` | PeachOS64Bit/src/task/task.c:134-152 | Along any run of dispatches and sleeps, between two dispatches of a task that does not go to sleep at most n - 1 others are dispatched |
| `Scheduler.RunsAgain` | PeachOS64Bit/src/task/task.c:134-152 | In any run with n dispatches or more such a task runs again within n of its own |
| `Scheduler.StepIsFair` | PeachOS64Bit/src/task/task.c:134-152 | A task that is awake stays so through every step but its own sleep, and no dispatch passes it over |
| `Scheduler.DispatchedIsAwake` | PeachOS64Bit/src/task/task.c:134-152 | A task that has been dispatched is awake, so the bound applies to it |
| `Scheduler.Kernel.TaskNew` | PeachOS64Bit/src/task/task.c:53-90 | The first one becomes head, tail and current; others are appended at the tail, keeping list and current entry |
| `Scheduler.Kernel.TaskAsleep` | PeachOS64Bit/src/task/task.c:249-252 | Compares the wake time with a fresh clock reading |
| `Scheduler.Kernel.TaskSleep` | PeachOS64Bit/src/task/task.c:254-257 | Sets the wake time from a fresh clock reading: the `Sleep` step of a run |
| `Scheduler.Kernel.GetNextNonSleepingTask` | PeachOS64Bit/src/task/task.c:324-352 | The pointer walk equals `Scan` over the list, readings included; it fails exactly on an empty list |
| `Scheduler.Kernel.TaskNext` | PeachOS64Bit/src/task/task.c:134-152 | Panics exactly without a task; else the retry loop ends and the switch is the `Next` step of a run |
| `Calculator.AtoiC` | PeachOS64Bit/programs/stdlib/src/stdlib.c:52-70 | The buffer loop computes `Atoi` of the terminated string |
| `Calculator.AtoiOfDigits` | PeachOS64Bit/programs/stdlib/src/stdlib.c:52-96 | Reading printed digits gives the number back |
| `Calculator.ItoaC` | PeachOS64Bit/programs/stdlib/src/stdlib.c:71-96 | The 12-byte buffer is enough for every int, terminated, and holds the printed number |
| `Calculator.CalculatorEquals` | PeachOS64Bit/programs/calculator/calculator.c:173-254 | The state machine over the characters computes the left-associative fold, unless an operand has so many characters that it leaves its buffer, which is said exactly |
| `Calculator.OperatorsCalculate` | PeachOS64Bit/programs/calculator/calculator.c:143-171 | A last operator and operand add to, subtract from, multiply or divide the value of all before them; division drops the fraction and gives zero for a zero divisor |
| `Calculator.PrintedEvaluatesToItself` | PeachOS64Bit/programs/calculator/calculator.c:173-254 | Evaluating a printed result gives it back, negatives included; without overflow exactly for all but the least int |

## Left out

- MultiHeap.MultiHeap.Free: requires what `Freeing.FreshSettles` shows of `multiheap_ready` and what every call keeps; for arbitrary page tables the C function need not end (`OwnPageNeverEnds`). The panic of a second pass ends the run.
- Conservation.FreeRestoresExactly: assumes of the lookups that they find the heap (`LookupExact` and `GetExact` say when they do) and, for a run that is not at block 0, that no page the shifted index comes to leads to the first backing block (`PassKeepsDiscipline` and `FirstPassKeepsDiscipline` keep that along runs of allocations).
- Conservation.FreeNeverRestores: the second of these assumptions; frees do not keep it, since they leave stale pages behind.
- BlockTable.RunKeepsInvExactly: for calls that name live allocations; a call with a stale pointer is not part of a run. Memory goes on behind the table at least as far as the request asks for.
- Heap.Heap.Realloc: the same memory behind the table is a parameter, apart from the table and the pool.
- Window.Desktop.PositionSet: a window as large as the screen that is moved to stick out makes the clamped position wrap below zero, which is not modelled.
- Scheduler.Kernel.TaskNext: requires a clock reading at which some task that the search comes to is awake; `EndsExactly` shows that the loop of the code does not end otherwise.
- Streamer.CacheIsTransparent: the device gives the same answer each time it is asked.
- Nvme.Driver.ReadSectors: what a command transfers is in memory when its completion is posted; once something has timed out, `SubmitAndPoll` says what each call takes and `TimeoutsShiftAnswers` whose answer it is, and nothing is said of the buffer.
- The heaps of the multiheap are values in a sequence: the linked list nodes, their allocation in the starting heap and aliasing between them are not modelled. Graphics trees are values too, written back into the desktop's field.
- `multiheap_add` with its empty table, `multiheap_realloc` and the starting heap.
- 32-bit and 64-bit wrap-around of addresses, coordinates, disk positions (below 2^31) and ring positions; the heap counters do wrap.
- Failing allocations inside `paging_map` and in the cache: fresh zeroed memory is assumed. The loading of CR3, the TLB, the cache-disable and write-through bits.
- One current paging descriptor, fixed over a run.
- The order of windows in the window list, title bars, focus and events; graphics flags; images and fonts.
- Tasks are not added or removed during a run of the scheduler, nor removed from the list at all; switching page tables and registers.
- The bring-up of the NVMe controller, its administration queue and writes, which use the same steps; memory barriers and doorbell registers beyond their values.
- FAT directories, 8.3 names, `fat16_seek`, and the high half of the first cluster number, which the code truncates.
- The text field and buttons of the calculator; signed overflow, which is undefined in C.
