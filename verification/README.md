# A model of the fesos kernel's memory stack

fesos is an x86_64 kernel. This project models, in Dafny, the part of it that decides who owns which memory, and
proves what that part promises. It also models four smaller pieces that other code leans on.

The memory stack has four layers, each resting on the next.

- **Intrusive AVL tree** (`AvlTree`, `AvlInsert`, `AvlPath`, `AvlRemove`, `AvlBalance`, `AvlLevel`, `AvlTwoChild`,
  `AvlPair`, `AvlShape`, `AvlStale`, `AvlStalePair` on values; `AvlNodes`, `AvlWalks`, `AvlErase` on linked nodes).
  Trees as values carry the cached depth and the cached payload value of every node, so a stale cache is visible. The
  linked nodes refine them: one predicate ties child links, parent links, depths and caches to a value, and every
  pointer routine is proved against the value routine.
- **Virtual memory allocator** (`Regions`, `VmaTree`, `VmaFree`, `VmaLevel`, `VmaCache` on values; `VmaSpace`, `Vma`
  in place). Regions tile an address window; the largest free one is split, neighbours are coalesced on free, and a
  pool of nodes refills itself by calling back into the allocator.
- **Virtual memory manager** (`PageEntry`, `PageTree`, `TablePath`, `Vmm`, `PageWord`, `PageWalk`). Four-level page
  tables (Intel SDM volume 3A, section 4.5), written in place in the frames of physical memory, refine a map from page
  number to entry, and the processor's own walk over them sees exactly that map.
- **Physical frame allocator** (`Bitmap`, `Pmm`, `PmmRuns`). An aligned first-fit scan over a bitmap.

`Ownership`, `Books` and `KernelHeap` put the layers together: a ledger says which frame belongs to whom, and the
allocation, demand-fault and free routines are proved to be steps of it. `Ownership.RunKeeps` is the result over every
run. `KernelBoot` starts such a run: start-up, then one page allocated, touched and freed, or freed untouched.

The smaller pieces are the small-block allocator (`Buckets`, `PageLists`, `KmallocState`, `KmallocRefile`, `Kmalloc`),
the AHCI scatter/gather builder (`Prdt`), the boot loader's ELF segment loop over its page tables (`ElfLoader`,
`BootTables`), and number printing, memory fill and path splitting (`Numerals`, `MemSet`, `PathSplit`). `Arith` and
`Seqs` hold the arithmetic and the facts about sequences they share.

## Where the code falls short of its comments

The model does what the code does. Where a promise fails, there is a statement of exactly when it holds.

- The address comparator narrows a 64-bit difference to `int`; it orders a window if and only if the window spans at
  most 2^31 bytes (`Regions.CompAddrOrders`). The kernel's windows span 2^34, so a split can put the rest in the wrong
  place: `VmaTree.SplitTilesWhen` says exactly when it does not, and `KernelBoot.ThreeGigabytes` is a request of three
  gigabytes in the new heap where it does.
- Nothing compares a request with the region found (`Regions.CarveTiles`, `VmaTree.OversizedSplitBreaks`).
- The cached maximum is exact through splits, not through every exact fit and free. When it is:
  `VmaCache.ExactFitCache`, `VmaCache.ReleaseCache`. Where it is not: `VmaCache.StaleCacheMisses`,
  `VmaCache.MergedCacheMisses`.
- A pool refill in the middle of a heap split carves its page out of the region being split
  (`VmaTree.RefillBreaksTiling`). It happens exactly when at most five nodes are left.
- Removing a root with one child follows a null parent; removing a node with two children works only in some shapes
  (`AvlTwoChild.TwoChildOutcome`); removal can leave an AVL tree out of balance (`AvlLevel.RemovalBalance`,
  `AvlBalance.RemovalUnbalances`).
- So freeing a region can fail for no reason its caller could know: `VmaFree.ReleasedWhen` says exactly when it goes
  through, `VmaFree.FreeFaults` is a heap of three regions where it does not.
- A free of frames whose count wraps the 64-bit end frame frees nothing and reports nothing
  (`Pmm.FrameAllocator.FreeFrames`).
- Freeing a region with a page that was never touched gives back frame 0 (`KernelHeap.Kernel.Free`,
  `KernelBoot.FreeUntouched`).
- Freeing a block of a full page files the page on the wrong list or follows a null pointer (`Kmalloc.BlockHeap.Free`,
  `Kmalloc.FillThenFree`, `Kmalloc.FillThenFreeBeside`). The rounding of large requests, described as overflow-proof,
  wraps for the last 4095 sizes (`Kmalloc.RoundedFits`).
- A loadable segment whose address is not page aligned is loaded lower than it should be (`ElfLoader.ImageHolds`), and
  its last bytes may end on a page that is never bound (`ElfLoader.TailLeftOut`).

## Model

| member | source | states |
|---|---|---|
| `AvlTree.BalanceKeeps` | kernel/x86_64/common/ds/avl.c:180-271 | with exact cached depths no rotation follows a null child, whatever the balance; the order of entries and exact depths survive |
| `AvlTree.SettleKeeps` | kernel/x86_64/common/ds/avl.c:168-215 | one step of update and rebalance keeps the order and, if the children's cached values are exact, makes the node's exact |
| `AvlInsert.InsertInOrder` | kernel/x86_64/common/ds/avl.c:342-369 | insertion gives the old in-order sequence with the new entry at its sorted place |
| `AvlInsert.InsertThere` | kernel/x86_64/common/ds/avl.c:342-369 | whatever the comparator answers, insertion adds the entry where the comparisons on its way lead and moves no other |
| `AvlInsert.SettleBalances` | kernel/x86_64/common/ds/avl.c:180-215 | one rebalancing step restores the AVL condition if and only if the tall child is not an even one whose inner child leans outward |
| `AvlInsert.InsertBalanced` | kernel/x86_64/common/ds/avl.c:342-369 | insertion keeps every balance factor in -1..1 and raises the height by at most one |
| `AvlInsert.InsertRepairsPath` | kernel/x86_64/common/ds/avl.c:342-369 | insertion recomputes its whole path, so cached values that are stale only along the path end exact everywhere |
| `AvlInsert.StoreIsOnPath` | kernel/x86_64/common/ds/avl.c:342-369 | a store to the entry just before the place where an insertion leads leaves nothing stale off the insertion path |
| `AvlNodes.RotateRightAt` | kernel/x86_64/common/ds/avl.c:225-247 | the pointer rotation carries out the value rotation: child links, parent links, depths and cached values, over the same nodes |
| `AvlNodes.RotateLeftAt` | kernel/x86_64/common/ds/avl.c:249-271 | the mirror image |
| `AvlNodes.CheckAndBalanceAt` | kernel/x86_64/common/ds/avl.c:180-215 | the in-place rebalancing of linked nodes refines the one on values, parents consistent |
| `AvlNodes.InsertRecAt` | kernel/x86_64/common/ds/avl.c:342-369 | the recursive in-place insertion refines insertion on values: exactly one node more, every link and parent consistent |
| `AvlWalks.Successor` | kernel/x86_64/common/ds/avl.c:152-155 | the pointer walk, climbing parents where needed, ends at exactly the next node in order, null after the last |
| `AvlWalks.Predecessor` | kernel/x86_64/common/ds/avl.c:162-165 | the same for the node before, null before the first |
| `AvlErase.NextUndoesPrev` | kernel/x86_64/common/ds/avl.c:296-340 | a node comes right after another exactly when that one comes right before it: the two walks undo each other |
| `AvlWalks.First` | kernel/x86_64/common/ds/avl.c:128-133 | the leftmost descent ends at the first node in order |
| `AvlWalks.Last` | kernel/x86_64/common/ds/avl.c:140-145 | the rightmost descent ends at the last node in order |
| `AvlWalks.GetNode` | kernel/x86_64/common/ds/avl.c:371-377 | the recursive search over linked nodes finds the node that the search on values finds, for every comparator |
| `AvlWalks.BubbleAt` | kernel/x86_64/common/ds/avl.c:273-294 | the climb over parent links to the root refines the climb on values |
| `AvlPath.BubbleInOrder` | kernel/x86_64/common/ds/avl.c:273-294 | climbing to the root from any position, whatever the balance, reorders nothing |
| `AvlPath.HangInOrder` | kernel/x86_64/common/ds/avl.c:273-294 | hanging a subtree at a position and climbing gives the entries before it, its own and those after it |
| `AvlRemove.RemoveInOrder` | kernel/x86_64/common/ds/avl.c:56-108 | every removal the code carries out takes out exactly the node given; the others keep their order and all cached depths are true heights |
| `AvlErase.DetachAt` | kernel/x86_64/common/ds/avl.c:63-103 | removal of a node with at most one child in place: it fails exactly for a root with one child, otherwise links, parents and depths are those of the value removal |
| `AvlErase.ReplaceAt` | kernel/x86_64/common/ds/avl.c:72-91 | removal of a node with two children in place: null dereference, lost parent link or success exactly as on values; in the lost-link case the parent still points at the removed node |
| `AvlErase.RemoveAt` | kernel/x86_64/common/ds/avl.c:56-108 | the whole removal in place refines the value removal, status by status, and drops exactly one node |
| `AvlBalance.DetachBalance` | kernel/x86_64/common/ds/avl.c:180-294 | removing a node with at most one child from an AVL tree leaves an AVL tree if and only if the tree around it absorbs the loss of a level, told by the heights and leans of the siblings before the call |
| `AvlLevel.TwoChildBalance` | kernel/x86_64/common/ds/avl.c:72-91 | the same for a node with two children: the level is lost where its successor stood, and the tree stays AVL if and only if the tree around that place absorbs it |
| `AvlLevel.RemovalBalance` | kernel/x86_64/common/ds/avl.c:56-108 | for every removal from an AVL tree that goes through: the exact condition, on the tree before the call, for it to leave an AVL tree |
| `AvlBalance.RemovalUnbalances` | kernel/x86_64/common/ds/avl.c:190-213 | a concrete AVL tree of eight entries from which removing a leaf leaves a node out of balance |
| `AvlTwoChild.TwoChildOutcome` | kernel/x86_64/common/ds/avl.c:72-91 | the exact outcome of removing a two-child node of an AVL tree, told by the leans of the tree before the call: null dereference, lost link or removal |
| `AvlTwoChild.RemovedWhen` | kernel/x86_64/common/ds/avl.c:56-108 | any node comes out of an AVL tree if and only if it meets a condition on the shape around it before the call |
| `AvlPair.MinsLostHeight` | kernel/x86_64/common/ds/avl.c:72-91 | how many levels a subtree loses when its first two nodes go, told by the leans down its left spine |
| `AvlPair.RemovedAfter` | kernel/x86_64/common/ds/avl.c:56-108 | after its successor a node comes out of an AVL tree if and only if a condition holds of the tree before both removals |
| `AvlPair.PreviousNext` | kernel/x86_64/common/ds/avl.c:56-108 | once a node with a left child has come out, the one before it comes out too |
| `AvlStale.NextCache` | kernel/x86_64/common/ds/avl.c:56-108 | one node's cached value being stale, removing the next node leaves every cached value exact if and only if it happened to be right or the climb or a turn computes it anew |
| `AvlStalePair.PairCache` | kernel/x86_64/common/ds/avl.c:56-108 | the same for removing the next two nodes |
| `Regions.CompAddrOrders` | kernel/x86_64/memory/vma.c:361-367 | the comparator orders every pair of addresses of a window correctly if and only if the window spans at most 2^31 bytes |
| `Regions.CacheIsMaxFree` | kernel/x86_64/memory/vma.c:348-358 | an exact cache is the largest free size in the subtree of every node |
| `Regions.WorstFitFinds` | kernel/x86_64/memory/vma.c:381-391 | with an exact cache the tree search finds a free region of the greatest size, and none only if nothing is free |
| `Regions.WorstFitFirst` | kernel/x86_64/memory/vma.c:381-391 | of several free regions of the greatest size it finds the first one, nodes before their subtrees and left before right |
| `Regions.CoverFinds` | kernel/x86_64/memory/vma.c:370-378 | in a tiled tree the covering search finds the region an address of the window lies in, and nothing for any other address |
| `Regions.CoverUnique` | kernel/x86_64/memory/vma.c:370-378 | only one region of a tiling covers an address |
| `Regions.AddrFinds` | kernel/x86_64/memory/vma.c:361-367 | among starts the comparator orders rightly, the search by start address finds the region exactly when there is one |
| `Regions.CarveTiles` | kernel/x86_64/memory/vma.c:149-162 | after a split the regions tile the window if and only if the request is positive and smaller than the region, since nothing compares the two |
| `Regions.CarveCoalesced` | kernel/x86_64/memory/vma.c:149-162 | a split leaves no two adjacent free regions |
| `Regions.ExactFitKeeps` | kernel/x86_64/memory/vma.c:144-148 | an exact fit keeps the tiling and the coalescing |
| `Regions.ReleaseKeeps` | kernel/x86_64/memory/vma.c:230-288 | all four coalescing cases keep the tiling and leave no two adjacent free regions |
| `Regions.AllocateThenFree` | kernel/x86_64/memory/vma.c:126-289 | freeing what was just allocated gives the region list back, up to the stale flags of the free region |
| `VmaTree.SplitRegions` | kernel/x86_64/memory/vma.c:149-162 | where the comparator sends the rest the right way at every node it meets, the list after a split has, at the region's place, the allocation with its start and the size, kind and flags asked for, then the rest, free; every other region is unchanged |
| `VmaTree.SplitRecorded` | kernel/x86_64/memory/vma.c:149-162 | wherever the rest ends up, after any split the region is recorded with exactly the size, kind and flags asked for, the others are as they were, and what is left over is free |
| `VmaTree.SplitPlace` | kernel/x86_64/memory/vma.c:149-162 | the rest of a split goes right behind the allocation if and only if the comparator sends it the right way at every node it meets |
| `VmaTree.SplitTilesWhen` | kernel/x86_64/memory/vma.c:149-162 | after a split of part of a region the tree tiles the window if and only if that holds of the tree before the call |
| `VmaTree.SplitKeepsCache` | kernel/x86_64/memory/vma.c:149-162 | such a split keeps the cached maximum exact at every node, although the node is changed before the insertion |
| `VmaTree.SplitKeepsBalance` | kernel/x86_64/memory/vma.c:149-162 | a split keeps the tree AVL |
| `VmaTree.OversizedSplitBreaks` | kernel/x86_64/memory/vma.c:150-154 | a request at least as large as the region it is split from never leaves a tiling, wherever the rest ends up |
| `VmaTree.RefillBreaksTiling` | kernel/x86_64/memory/vma.c:135-162 | a refill during a heap split takes its page from the node the split still holds: the result never tiles the window |
| `VmaTree.SlabRecorded` | kernel/x86_64/memory/vma.c:295-312 | the page a refill takes is recorded as 4096 bytes of ordinary memory, writeable and not executable |
| `VmaTree.TilesSum` | kernel/x86_64/memory/vma.c:126-289 | the sizes of a tiling add up to the window, so every step that keeps the tiling keeps the total |
| `VmaCache.ExactFitCache` | kernel/x86_64/memory/vma.c:144-148 | an exact fit leaves the cache exact if and only if something at least as large is free below the node |
| `VmaCache.MarkFreeCache` | kernel/x86_64/memory/vma.c:285-288 | marking a region free leaves the cache exact if and only if something at least as large is already free below it |
| `VmaCache.StaleCacheMisses` | kernel/x86_64/memory/vma.c:144-148 | a concrete AVL tree where an exact fit makes the next search find nothing although a region is free |
| `VmaCache.MergeNextCache` | kernel/x86_64/memory/vma.c:249-283 | a free that takes over one neighbour leaves the cached maximum exact if and only if the merged region is no larger than what its node's subtree offered, or the removal computes that node anew |
| `VmaCache.MergeBothCache` | kernel/x86_64/memory/vma.c:231-247 | the same for a free that takes over both neighbours |
| `VmaCache.ReleaseCache` | kernel/x86_64/memory/vma.c:225-289 | in all four cases together: the exact condition, on the tree before the call, for the cached maximum to stay exact |
| `VmaCache.MergedCacheMisses` | kernel/x86_64/memory/vma.c:267-283 | a concrete AVL tree of four regions where freeing one leaves 8 KiB free that the next search does not find |
| `VmaFree.EraseAt` | kernel/x86_64/memory/vma.c:240-274 | removing a region's node takes out exactly the entry at its position |
| `VmaFree.ReleasedWhen` | kernel/x86_64/memory/vma.c:225-289 | a free of a region of an AVL tree goes through if and only if the shape of the tree before the call allows the removals its free neighbours ask for |
| `VmaFree.FreeFaults` | kernel/x86_64/memory/vma.c:267-283 | a concrete AVL tree of three regions where freeing one follows a null pointer |
| `VmaLevel.EraseBalance` | kernel/x86_64/memory/vma.c:240-274 | taking a region's node out of an AVL tree leaves one if and only if the tree before the call absorbs the loss of a level at its place |
| `VmaLevel.ReleaseBalance` | kernel/x86_64/memory/vma.c:225-289 | when a free leaves an AVL tree: with at most one neighbour taken over exactly when the tree before the call absorbs that removal; with both, if it absorbs the first and the tree between absorbs the second, and only then where the first is absorbed |
| `VmaFree.ReleasedRegions` | kernel/x86_64/memory/vma.c:230-288 | the entries the coalescing code keeps describe exactly the coalesced region list |
| `VmaSpace.Space.SplitOff` | kernel/x86_64/memory/vma.c:149-162 | the split of a linked node in place gives the split tree, with exactly the new node added; the region is recorded with the size, kind and flags asked for and no other changes |
| `VmaSpace.Space.Coalesce` | kernel/x86_64/memory/vma.c:225-289 | the four cases in place: the status is that of the value removal in both directions, and on success the tree is that of the value removal and the nodes returned are exactly those that left it |
| `Vma.Allocator.constructor` | kernel/x86_64/memory/vma.c:62-99 | after start-up the heap window is one slab page and the rest free, the MMIO window free, the caches exact and the nodes of one page accounted for |
| `Vma.Allocator.AllocNode` | kernel/x86_64/memory/vma.c:314-330 | a node comes out exactly when the pool has one and a refill, if due, can be served; tree nodes, pool and the node taken account for every slab page; the refill nests at most once |
| `Vma.Allocator.Replenish` | kernel/x86_64/memory/vma.c:295-312 | a refill adds a page of nodes exactly when the heap has a free region and a node is left to split it with |
| `Vma.Allocator.Allocate` | kernel/x86_64/memory/vma.c:126-190 | which tree results, null and fault conditions both ways; without a refill in its tree the region found is recorded with exactly the size, kind and flags asked for and no other changes; conservation of nodes; the pool is back at five or more, and a fault means the heap has nothing free |
| `Vma.FirstDevice` | kernel/x86_64/memory/vma.c:110-162 | from start-up: the first device mapped is recorded as device memory at the start of its window, the rest of the window free, the heap untouched |
| `Vma.Allocator.Release` | kernel/x86_64/memory/vma.c:225-289 | succeeds exactly when the removals on values do, on an AVL tree exactly when the shape before the call allows it, and then stays AVL under the condition of VmaLevel.ReleaseBalance; the region is coalesced, the other tree untouched, the nodes left over at the front of the pool, every node accounted for |
| `Bitmap.SetIn` | kernel/x86_64/memory/pmm.c:128-130 | sets its bit and no other |
| `Bitmap.ClearIn` | kernel/x86_64/memory/pmm.c:132-134 | the mask clears its bit and no other |
| `Bitmap.FullWord` | kernel/x86_64/memory/pmm.c:54-60 | a 64-bit word of the bitmap is all ones exactly when each of its bytes is |
| `Pmm.FirstFitIsLowest` | kernel/x86_64/memory/pmm.c:46-104 | the plain scan finds the lowest aligned base of a free run in range, and nothing exactly when there is none |
| `Pmm.FitAligned` | kernel/x86_64/memory/pmm.c:38-106 | for an alignment of whole frames the run found starts at the lowest address with that alignment at which a free run starts, and none is found exactly when there is none |
| `Pmm.FullWordSkip` | kernel/x86_64/memory/pmm.c:54-72 | skipping a full word, rounded up to the alignment, loses no candidate |
| `Pmm.FrameAllocator.AllocateFrames` | kernel/x86_64/memory/pmm.c:38-106 | the scan with skip and early return refines the plain scan for every count, alignment and bitmap; the address has the alignment asked for; the run is marked, zeroed and counted, nothing else changes |
| `Pmm.FrameAllocator.FreeFrames` | kernel/x86_64/memory/pmm.c:108-126 | clears exactly the run, or stops at the first frame that was free already, or reports a run out of range, each in exactly the stated cases; a count that wraps the 64-bit sum into range frees nothing; the counter stays |
| `PmmRuns.StepKeeps` | kernel/x86_64/memory/pmm.c:38-126 | each call keeps the run invariant, and what it hands out was not reserved |
| `PmmRuns.RunKeeps` | kernel/x86_64/memory/pmm.c:38-126 | over every run outstanding allocations are disjoint and marked used, reserved frames never handed out, and set bits plus frames freed equal initial set bits plus counter growth |
| `PmmRuns.AllocateRun` | kernel/x86_64/memory/pmm.c:38-106 | a call of the allocator is an allocation step of such a run, and the frames it hands out are zeroed and no others |
| `PmmRuns.FreeRun` | kernel/x86_64/memory/pmm.c:108-126 | in every state of such a run, giving back an outstanding run is a free step and never panics |
| `PageWord.RawFields` | kernel/x86_64/include/memory/vmm.h:30-61 | an entry whose fields fit their widths is one 64-bit word, and shifting and masking at a field's place reads exactly that field |
| `PageWord.RawInjective` | kernel/x86_64/include/memory/vmm.h:57-61 | the raw word determines every field |
| `PageWord.LeafWord` | kernel/x86_64/memory/vmm.c:80-88 | the word stored for a 4 KiB page, as a sum: the four low flags land unchanged on bits 1 to 4, the global flag on bit 8, no-execute on bit 63, the frame on bits 12 up |
| `PageWord.TableWord` | kernel/x86_64/memory/vmm.c:263-266 | the word that links a table in: the three lowest bits and the frame, nothing else |
| `Vmm.Indices` | kernel/x86_64/memory/vmm.c:35-37 | the shifts and masks of an address are the four indices of its page |
| `PageTree.PageSplit` | kernel/x86_64/memory/vmm.c:35-70 | splitting a page number into indices is injective |
| `PageTree.LinkedKeeps` | kernel/x86_64/memory/vmm.c:256-271 | linking a fresh zeroed frame in as a table keeps the tables an unshared tree whose entries withhold no right, and changes no translation |
| `PageWalk.WalkSees` | kernel/x86_64/memory/vmm.c:256-271 | the processor's walk over memory from the PML4, each level taking rights away, finds exactly the frame and the rights of the translation, and faults exactly where it has none |
| `PageTree.WithLeafKeeps` | kernel/x86_64/memory/vmm.c:80-88 | a store to one leaf changes that page's translation and no other, and no table |
| `Vmm.PageTables.Walk` | kernel/x86_64/memory/vmm.c:256-271 | the next table, created if missing in a frame that was free, its entry withholding no right; succeeds if and only if it was there or a frame is left; every translation and all memory outside tables as before; nothing at all changes if the table was there |
| `Vmm.PageTables.Map` | kernel/x86_64/memory/vmm.c:31-95 | page by page the translation gains the consecutive bindings and never overwrites one; on -EEXIST at page k exactly the first k were added; it runs out of frames at page k exactly when the tables missing up to there outnumber the frames left; three free frames a page suffice |
| `Vmm.MapGoesThrough` | kernel/x86_64/memory/vmm.c:31-95 | such a call gets to the end if and only if none of its pages is bound and the tables missing on the way to them do not outnumber the frames left |
| `PageWalk.MapGrants` | kernel/x86_64/memory/vmm.c:31-95 | after such a call the processor reaches each page's frame with exactly the rights asked for, and every other page as before |
| `PageWalk.MapReaches` | kernel/x86_64/memory/vmm.c:31-95 | byte for byte: virtual address plus x is physical address plus x, with exactly the rights asked for |
| `TablePath.NeedsMissing` | kernel/x86_64/memory/vmm.c:35-70 | counting level by level the tables missing on the way to a page gives the number of those tables not there |
| `Vmm.MapAfterAdds` | kernel/x86_64/memory/vmm.c:34-94 | what those steps add up to: exactly the n consecutive bindings, every earlier one unchanged |
| `Vmm.PageTables.Unmap` | kernel/x86_64/memory/vmm.c:103-132 | wipes its pages one by one; gets to the end if and only if the missing tables do not outnumber the frames left; where the tables exist no frame changes hands |
| `Vmm.UnmapAfterRemoves` | kernel/x86_64/memory/vmm.c:106-130 | what that adds up to: exactly the pages of the call are gone |
| `PageWalk.UnmapFaults` | kernel/x86_64/memory/vmm.c:103-132 | an access to any byte unmapped faults |
| `Vmm.UnmapUndoesMap` | kernel/x86_64/memory/vmm.c:31-132 | unmapping what was just mapped restores the translation |
| `Vmm.PageTables.GetPhysical` | kernel/x86_64/memory/vmm.c:139-158 | the bound frame plus the offset, frame 0 where nothing is bound; tables may be created, yet no translation changes; succeeds if and only if the missing tables do not outnumber the frames left |
| `PageWalk.TranslateAgrees` | kernel/x86_64/memory/vmm.c:139-158 | the answer is where the processor goes, and frame 0 where it faults |
| `Ownership.AllocateKeeps` | kernel/x86_64/memory/vma.c:126-162 | a heap allocation keeps one owner per used frame |
| `Ownership.TouchKeeps` | kernel/x86_64/memory/vma.c:55-57 | a demand fault keeps one owner per used frame, with the tables it needed |
| `Ownership.FreeKeeps` | kernel/x86_64/memory/vma.c:213-222 | freeing a fully touched region keeps one owner per used frame |
| `Ownership.RunKeeps` | kernel/x86_64/memory/vma.c:36-293 | over every run of allocations, faults and frees: no two heap pages share a frame, no heap frame is a table, a frame is in use exactly if reserved, a table or behind a heap page, and the window stays tiled |
| `Ownership.FreeReturns` | kernel/x86_64/memory/vma.c:213-222 | a free returns exactly as many frames as the region has pages |
| `Ownership.FreeIsUntouched` | kernel/x86_64/memory/vma.c:36-60 | pages of a free region are not mapped, so an allocation starts untouched |
| `KernelHeap.Kernel.Allocate` | kernel/x86_64/memory/vma.c:110-162 | an allocation of ordinary memory is an allocation step of the ledger, from the largest free region; it faults exactly when the pool is empty and the fit not exact; what the next call needs: pool, balance, and the cache with its exact condition |
| `KernelHeap.HandedOutCache` | kernel/x86_64/memory/vma.c:144-162 | a split keeps the cached maximum exact, an exact fit if and only if something as large is free below; both keep the tree AVL |
| `KernelHeap.Back` | kernel/x86_64/memory/vma.c:55-57 | a fault is backed if and only if the frames left cover the page and every table missing on the way to it; then the page is bound to a fresh zeroed frame, and to nothing new if it was mapped |
| `KernelHeap.FourSuffice` | kernel/x86_64/memory/vma.c:55-57 | four frames left back any fault |
| `KernelHeap.Kernel.DemandPage` | kernel/x86_64/memory/vma.c:36-60 | rejects exactly the addresses outside allocated ordinary memory; any other is served if and only if the frames left cover the page and the tables missing on the way to it; an untouched page is bound to a fresh zeroed frame with its region's flags, a fault step of the ledger |
| `KernelHeap.ServedGrants` | kernel/x86_64/memory/vma.c:55-57 | the processor then lets the page be used exactly as its region's flags say, and sees every other page as before |
| `KernelHeap.FreePage` | kernel/x86_64/memory/vma.c:216-217 | gives back the frame behind a page that was touched, and nothing else changes; for any other page frame 0, if and only if its lookup has frames for the tables it makes |
| `KernelHeap.FreeFramesOf` | kernel/x86_64/memory/vma.c:215-218 | gives back exactly the frames behind the pages, or stops at the first page never touched, all before it given back and frame 0 with them, or at its lookup, in exactly the stated cases |
| `KernelHeap.ZeroUnsound` | kernel/x86_64/memory/vma.c:215-218 | once frame 0 was given back no ledger is sound over the frames, as the boot loader owns it for good |
| `KernelHeap.Kernel.Free` | kernel/x86_64/memory/vma.c:192-293 | every outcome in both directions: no region; a stop at the first page never touched, with frame 0 lost and no ledger sound, if and only if there is such a page; otherwise success exactly when the removals from the tree go through, and then a free step of the ledger; on an AVL tree both foretold from the shape before the call |
| `KernelBoot.InitSound` | kernel/x86_64/memory/vma.c:62-99 | the state after start-up satisfies what every run assumes of its first state |
| `KernelBoot.Init` | kernel/x86_64/memory/vma.c:62-99 | start-up over page tables with nothing in the heap window, up to that state, if and only if the frames left cover the slab page and the tables it is missing |
| `KernelBoot.AllocateFirst` | kernel/x86_64/memory/vma.c:110-162 | from that state: the first page handed out, not yet mapped |
| `KernelBoot.TouchFirst` | kernel/x86_64/memory/vma.c:36-60 | the first access to it is served if and only if a frame is left, and one more where its page table is missing; then the processor lets the kernel write to the page, and nothing be run from it |
| `KernelBoot.FreeFirst` | kernel/x86_64/memory/vma.c:192-293 | freeing it goes through, leaves an AVL tree and gives the region list of start-up back, up to the stale flags |
| `KernelBoot.FreeUntouched` | kernel/x86_64/memory/vma.c:192-222 | freeing it before any access gives frame 0 back, and no ledger is sound any more, unless its page table is missing and no frame is left for one |
| `KernelBoot.ThreeGigabytes` | kernel/x86_64/memory/vma.c:149-162 | a request for three gigabytes in the heap of start-up, which has them, leaves a tree that does not tile the window, whatever its shape |
| `Buckets.BucketFits` | kernel/x86_64/memory/kmalloc.c:301-323 | the bucket is the smallest whose blocks hold the request, and whole pages above 1024 bytes |
| `KmallocState.SlotInside` | kernel/x86_64/memory/kmalloc.c:91-97 | a block lies behind its page's descriptor and inside the page; it is never page aligned and rounding down recovers the descriptor |
| `KmallocState.PageUsedUp` | kernel/x86_64/memory/kmalloc.c:330-335 | the first block comes right behind the descriptor, at the block size for larger blocks, and behind the last no other block fits |
| `KmallocState.BlockCounts` | kernel/x86_64/memory/kmalloc.c:17-25 | the seven block sizes from 16 to 1024, and the blocks a page holds of each: 254, 127, 63, 31, 15, 7 and 3 |
| `KmallocState.Partition` | kernel/x86_64/memory/kmalloc.c:61-64 | free chain and blocks in use partition the page, and blocks_in_use counts the latter |
| `KmallocState.BlocksApart` | kernel/x86_64/memory/kmalloc.c:32-81 | no two blocks in use overlap |
| `KmallocState.TookKeeps` | kernel/x86_64/memory/kmalloc.c:61-64 | handing out a block that does not fill the page keeps every list and chain well formed |
| `KmallocState.MovedKeeps` | kernel/x86_64/memory/kmalloc.c:67-77 | moving a page that became full to its bucket's full list restores the invariant |
| `KmallocState.AddedKeeps` | kernel/x86_64/memory/kmalloc.c:325-349 | a new page with its blocks chained up joins its bucket's free list, all else sound |
| `KmallocState.PutKeeps` | kernel/x86_64/memory/kmalloc.c:101-105 | returning a block to a page that was not full keeps every list and chain well formed |
| `KmallocState.CulledKeeps` | kernel/x86_64/memory/kmalloc.c:126-137 | taking a page out of the middle of its list keeps the rest linked both ways |
| `KmallocState.MisfiledBreaks` | kernel/x86_64/memory/kmalloc.c:108-124 | after a block of a full page is freed no lists make the state sound |
| `KmallocState.MisfiledWhen` | kernel/x86_64/memory/kmalloc.c:108-124 | refiling a full page follows a null pointer exactly when it has no neighbour on its list and the bucket's list of pages with room is not empty |
| `KmallocState.LastFullWhen` | kernel/x86_64/memory/kmalloc.c:108-124 | in a sound state that is exactly when no other page of its bucket is full and some page of the bucket has room |
| `KmallocRefile.MisfiledLists` | kernel/x86_64/memory/kmalloc.c:108-124 | otherwise the page, which has room now, heads the list of full pages of the smallest bucket, its own list is the old one without it, and no other page changes its list |
| `Kmalloc.RoundedFits` | kernel/x86_64/memory/kmalloc.c:40-44 | rounding up to pages holds the request if and only if it is at most 2^64 - 4096 bytes; above that it is 0 |
| `Kmalloc.BlockHeap.Malloc` | kernel/x86_64/memory/kmalloc.c:32-81 | null, whole pages or a block in exactly the stated cases; the block was not in use, is of the smallest bucket that holds the request, lies inside its page and is the only one that changes hands; it is the first of the first page with room, and a page joins exactly when none has |
| `Kmalloc.BlockHeap.Free` | kernel/x86_64/memory/kmalloc.c:87-142 | exactly the block given leaves use and heads its page's free chain, and an emptied page leaves the lists, if and only if its page was not full; of a full page, a null dereference if and only if it is the only full one of its bucket and another has room, otherwise the page heads the list of full pages of the smallest bucket, which no lists make sound |
| `Kmalloc.FirstCalls` | kernel/x86_64/memory/kmalloc.c:32-142 | from start-up: two blocks never overlap, and freeing both leaves none in use |
| `Kmalloc.Recycle` | kernel/x86_64/memory/kmalloc.c:32-142 | from start-up: a page serves, is given back and serves again |
| `Kmalloc.FillPage` | kernel/x86_64/memory/kmalloc.c:32-81 | as many requests of one size as a page has blocks are served from one page |
| `Kmalloc.SmallBlocks` | kernel/x86_64/memory/kmalloc.c:32-81 | of 16 bytes those are 254, and the next one asks for a second page |
| `Kmalloc.FillThenFree` | kernel/x86_64/memory/kmalloc.c:32-142 | three blocks of 1024 bytes fill a page; freeing one leaves the page, with two in use, at the head of the full list of 16-byte pages and on no list of its own |
| `Kmalloc.FillThenFreeBeside` | kernel/x86_64/memory/kmalloc.c:32-142 | with a fourth block on a second page, freeing one of the first three follows a null pointer |
| `Prdt.EntryRead` | kernel/x86_64/drivers/storage/ahci.c:658-662 | an entry reads back as written if and only if the chunk is at most 4 MiB |
| `Prdt.Build` | kernel/x86_64/drivers/storage/ahci.c:637-692 | over the page tables: the entries in order cover exactly the buffer's physical bytes once each; no two consecutive ones could be merged; even buffers and sizes give even addresses and lengths; at most one entry a page; no translation changes |
| `Prdt.TotalCovered` | kernel/x86_64/drivers/storage/ahci.c:643-680 | the lengths add up to the bytes covered |
| `Prdt.TransferFits` | kernel/x86_64/drivers/storage/ahci.c:598-598 | at most 128 sectors of at most 4096 bytes fit 248 entries and the 22-bit byte count |
| `Prdt.AddressRoundTrip` | kernel/x86_64/drivers/storage/ahci.c:705-733 | the drive, told by the opcode how wide the address is, reads back the sector address if and only if it fits 48 bits, or 28 in the legacy command |
| `Prdt.CountRoundTrip` | kernel/x86_64/drivers/storage/ahci.c:707-724 | and the sector count if and only if it is not 0 and at most 65536, or 256 in the legacy command |
| `Prdt.CommandRoundTrip` | kernel/x86_64/drivers/storage/ahci.c:694-733 | the drive decodes a transfer in the direction asked for, which is also the one the controller is told, and exactly the transfer asked for if and only if address and count fit |
| `BootTables.Boot.Walk` | bootloader/efi.c:461-485 | the next table, created if missing in a page of the firmware that is marked and counted, its entry withholding no right; halts exactly when it is missing and the firmware has none; no translation changes |
| `BootTables.Boot.MapFrame` | bootloader/efi.c:487-523 | binds one page, taking one frame for every table that was missing; halts exactly when the firmware has fewer |
| `PageWalk.BootGrants` | bootloader/efi.c:487-523 | the processor then reaches the frame with exactly the rights asked for, and every other page as before |
| `ElfLoader.LoadSegment` | bootloader/efi.c:229-256 | every page of the segment gets a fresh frame with its contents and rights; the frames taken, marked and counted are one a page and one for every missing table; halts exactly when the firmware has fewer; no other page is bound and no binding of another page changes |
| `ElfLoader.Load` | bootloader/efi.c:223-257 | after all headers every page of a loadable segment holds the contents and rights of the last segment that has it, with exactly those frames taken; no other page is bound; halts exactly when the firmware has fewer |
| `ElfLoader.BoundExactly` | bootloader/efi.c:223-257 | the pages bound anew are exactly those of the loadable segments |
| `ElfLoader.AloneLoaded` | bootloader/efi.c:223-257 | a segment that shares no page with a later one is there in full |
| `ElfLoader.Rights` | bootloader/efi.c:247-251 | the rights of a page are those of its segment: writable with PF_W, executable with PF_X, never the user's |
| `ElfLoader.FirstPageCosts` | bootloader/efi.c:487-523 | with nothing below the PML4 the first page costs four frames |
| `ElfLoader.ImageHolds` | bootloader/efi.c:229-251 | what a load finds at each address of the segment, also when its address is not page aligned |
| `ElfLoader.TailLeftOut` | bootloader/efi.c:229-251 | the bytes of an unaligned segment that reach into one more page are on a page that loading it does not bind |
| `ElfLoader.ImageRight` | bootloader/efi.c:229-251 | for a page-aligned segment byte k is file byte k below p_filesz and zero up to p_memsz |
| `ElfLoader.UnalignedWrong` | bootloader/efi.c:229-251 | otherwise the first byte is wrong unless the contents happen to repeat |
| `Numerals.NumeralRoundTrip` | kernel/x86_64/common/stdstr.c:13-103 | reading the digits in base ten or sixteen gives the number back, with no leading zero |
| `Numerals.NumeralDigits` | kernel/x86_64/common/stdstr.c:13-103 | decimal numerals consist of 0 to 9, hexadecimal ones of those and A to F |
| `Numerals.DigitsLength` | kernel/x86_64/common/stdstr.c:28-37 | a number has at most k digits exactly when it is below that power of the base |
| `Numerals.EnoughBytes` | kernel/x86_64/common/stdstr.c:13-103 | 21 bytes hold every 64-bit number in decimal, 19 in hexadecimal |
| `Numerals.Reverse` | kernel/x86_64/common/stdstr.c:112-128 | reverses exactly the range, in place |
| `Numerals.StrLen` | kernel/x86_64/common/stdstr.c:130-134 | the position of the first terminator |
| `Numerals.Ultoa` | kernel/x86_64/common/stdstr.c:13-43 | leaves the terminated numeral; too small exactly when it does not fit with its terminator; nothing past the size given is touched |
| `Numerals.Ultox` | kernel/x86_64/common/stdstr.c:52-103 | the same in hexadecimal behind the prefix |
| `MemSet.PatternBytes` | kernel/x86_64/common/stdstr.c:209-212 | every byte of the word written is the pattern |
| `MemSet.Memset` | kernel/x86_64/common/stdstr.c:199-229 | the three loops together set exactly the bytes asked for, whatever the alignment and size |
| `PathSplit.Walk` | kernel/x86_64/kernel/vfs.c:331-371 | the names looked up are exactly the non-empty parts of the path, in order; the wrapped comparison holds for every non-empty name |

## Left out

- AvlErase.RemoveAt: says nothing about the nodes once a null pointer was followed, where the code has no next step.
- AvlErase.ReplaceAt: in the lost-link case it says what the links are and goes no further; the code would keep using the broken tree.
- AvlTwoChild.TwoChildOutcome: for AVL trees; what removal does to any other tree is AvlErase.RemoveAt against AvlRemove.Remove.
- AvlTwoChild.RemovedWhen: for AVL trees, like everything said about when a removal goes through; that a tree stays AVL is AvlLevel.RemovalBalance.
- VmaLevel.ReleaseBalance: with both neighbours taken over, the condition for the second removal is on the tree the first one leaves, and where the first is not absorbed nothing is told of the balance after both.
- VmaCache.ReleaseCache: for AVL trees and frees that go through.
- Vma.Allocator.Allocate: says nothing about the state after a fault, where the code goes on through a null pointer; when a refill takes its page out of the region being split, the tree is stated and what it lists is left to VmaTree.RefillBreaksTiling.
- Vma.Allocator.Release: covers the trees and the pool; the frames and translations behind a region are the subject of KernelHeap.Kernel.Free.
- Vmm.PageTables.Map: 4 KiB pages only, and says nothing about the state once no frame is left for a table, where the code goes on with frame 0.
- Vmm.PageTables.Walk: assumes, like every routine on the tables, that entries that are not present are zero, as the frames it makes tables of are.
- KernelHeap.Kernel.Allocate: page-sized requests for ordinary memory that fit the largest free region, with an exact cache, at least six pool nodes and a split the comparator does not send astray; the other cases are in Vma, VmaTree and VmaCache.
- KernelHeap.Kernel.DemandPage: region flags without the huge-page bit; a page that is mapped already keeps its translation and the frame taken for it is bound to nothing.
- KernelHeap.FreeFramesOf: follows the code up to the loss of frame 0 and no further, where nothing it relies on holds any more.
- KernelHeap.Kernel.Free: regions of ordinary memory only, and up to the loss of frame 0. MMIO regions are merely unmapped and unmanaged ones left alone, which adds nothing harder.
- Kmalloc.BlockHeap.Malloc: the page the virtual memory allocator returns is a parameter, page aligned and not yet one of the heap's; it is zeroed on arrival because its frame is.
- BootTables.Boot.MapFrame: 4 KiB pages only; the firmware's pages are a given sequence of distinct frames that hold no table.
- ElfLoader.Load: headers whose file range lies in the file and whose addresses do not wrap; where segments share a page only the last one's contents are told.
- KernelBoot.FreeFirst: the three calls are stated one after the other through the state between them, not as one method.
- Numerals.Reverse: not for the empty range at index 0, where the end index wraps below zero and the loop leaves the buffer.
- Huge pages, `vmm_get_pte` and `vmm_pin_pages`.
- `kmap_mmio`, the DMA allocators and file-backed memory.
- `memcpy`, `volatile_memset`, string comparison and copy: the first reads through an uninitialised pointer, the others add only easy members.
- The VFS node cache, reference counts and mounts; the lookup of a name in a directory is taken to succeed.
- The boot stack, the direct map, file reading and graphics in the boot loader.
- AHCI register handshakes and timeouts, PCI, serial output, logging, panic, timers, interrupt tables and assembly: hardware I/O with no algorithm.
- TLB invalidation, volatile accesses, memory fences and concurrency: each routine runs to its end.
- The low-memory warning of the frame allocator, and debug output.
