# Verified model of the guest memory system

This project models, in Dafny 4.11, the guest memory allocator of the emulator and four smaller pieces of the same
repository, and proves what they keep over all inputs, all runs and all interleavings.

The allocator has three layers.

- **Page heaps.** A heap has a page table, a map of its free blocks and a counter of its free pages. The table is the
  truth; map and counter are kept up to date by splitting and merging. `BaseHeap` is a class with the same fields and
  loops. Its invariant says that the map is the one decomposition of the free pages into maximal runs. That the
  reserved pages are partitioned into regions is a property of its own, because one operation can break it; every
  operation says when it keeps it. The counter is tracked as its distance from the truth in 32-bit arithmetic, which
  every operation keeps but the release of a region that is not whole.
- **Views of physical memory.** Three heaps show one parent heap of physical pages. Every allocation is reserved in
  the parent, pinned at the translated address and undone if the pin fails. `PhysicalHeap` is a class over two
  `BaseHeap` objects. `Coupling`, `PhysicalSteps` and `PhysicalRuns` say what its operations do together, and
  `PhysicalMethods` that the methods of the class perform the operations of the runs. `Layout` has the emulator's own
  heaps, with which runs start in `EmulatorRuns`.
- **Write watches.** Host pages can be watched; the host's access to a watched page is lowered, and a write fires
  callbacks and restores the access. `WatchWords` has the packed bits, `WatchRange` the arithmetic of the range that is
  let go, `WatchLaws` the relation of guest and host accesses.

The smaller pieces are the format in which heaps are saved (`SaveRestore`), the translation of addresses
(`AddressMap`), the handshake that pauses the audio worker (`AudioPause`), the loop over configuration callbacks that
may change the list they are in (`ConfigCallbacks`), the generator of the opcode decoder (`DecoderTable`) and the
rewriter of sectioned configuration texts (`TomlUpdate`).

`Bits` and `Arithmetic` hold machine arithmetic: numbers are unbounded, so every wrap-around, saturation and mask is
written out, and masks are recursions over binary digits. `Geometry` says where a heap lies. `PageTable`, `FreeIndex`
and `FreeSearch` are the pure descriptions that the classes are proved against.

`dafny verify dfyconfig.toml` checks everything. All lemmas carry `{:induction false}`: proofs by induction are written
out, and no lemma relies on hypotheses that Dafny would add by itself.

## Where the code is narrower than its comments

The model follows the code. Where a promise fails for some inputs, the item names the member that says exactly when it
holds and the member that shows such an input.

- `AllocFixed` reserves and commits in one call without looking for overlap. A partition into regions survives exactly
  when a reservation swallows whole regions only (`BaseHeap.AllocFixed`, `PinKeepsRegions`; input: `CommitCutsRegion`).
- `Release` does not look whether the pages of the region are still taken. Index and counter stay right exactly if they
  all are (`BaseHeap.Release`, `ReleasedPages`; input: `CutRegionReleasedTwice`).
- `AllocRange` grants a request of no pages, which a size next to 2^32 makes, and splits the free block around the
  page it settles on. The index stays faithful exactly unless that page and the one before it are both free
  (`BaseHeap.AllocRange`, `SearchUnique`); from then on it hides the windows across the cut (`SplitHides`). Input:
  `CreateKernelStack` with a size in `EmptyStackSize`.
- `Alloc`, `AllocRange` and `AllocFixed` grant less than the bytes asked for exactly if rounding or aligning the size
  leaves the word (`PagesCover`, `AllocCovers`, `FixedCovers`, which name the sizes).
- An alignment within one page of 2^32 is rounded to zero. `AllocRange` then fails or, upwards, divides by it exactly
  when it meets a large enough block, and a pin in a view always does: outcome `Trap` (`FindUnstrided`, `PinOutcome`;
  inputs: `LargestAlignmentTraps`, `LargestAlignmentTrapsPin`).
- The upper bound test of `AllocFixed` lets through a range that ends on the page after the table. The outcome
  `Overrun` stands for this (`FixedOutcome`; input: `FixedRequestOverruns`, and `FirstAllocationOverruns` for a search
  in fresh heaps).
- `AllocRange` does not round the size up to the alignment while `AllocFixed` does. View and parent agree about a size
  exactly when it is a multiple of the alignment (`SizesAgree`), and only then does an allocation keep the coupling
  (`AllocationCouples`; input: `UnevenAllocationUncouples`).
- A fixed size next to the end of the word aligns to zero and then counts as one page of either heap (`FixedCouples`;
  input: `WrappingFixedUncouples`).
- A failed pin at page 0 of the parent is not undone, because that page is never released (`RollbackRestores`; input:
  `FirstPageLeaks`).
- `PhysicalHeap.Release` through a view that does not own the region frees the parent region all the same
  (`ReleaseCouples`; input: `ForeignReleaseUncouples` with `ForeignRelease`).
- `PhysicalHeap.Protect` drops watches only for the write flag, and drops them before the change can fail. The dropped
  range is the byte range while whole guest pages change (`ProtectWatches`, `FailedProtectWatches`; inputs:
  `WriteCombineLeavesWatches`, `PartOfPageLeavesWatches`, `FailedChangeDropsWatches`).
- `Restore` does not correct the counter of free pages (`RestoredCounter`; input: `RestoreLeavesCounter`) and ignores
  write-combining (`RestoredAccessExact`, which names the protections).
- `Memory::Reset` and `Memory::Restore` replace the table of the parent and leave the three views alone
  (`ClearedParentKeepsCoupled`, `ReplacedParentKeepsCoupled`; input: `ResetUncouples`).
- `Release` of a free page 0 in a heap that is not at address 0 passes the region test with a region of no pages, so
  its loop runs outside the table: outcome `Overrun` (`ReleaseOutcome`; input: `FreePageZeroOverruns`).
- `EnableAccessCallbacks` converts a host page that starts before the heap without saturation: outcome `Overrun`
  (`EnableOutcome`; input: `EnableOverruns`).
- The high bound of `Alloc` on the 64 KB virtual heap is rounded up to the alignment. The thread stacks stay clear
  except for bottom-up searches with two alignments (`AllocKeepsClearOfStacks`; inputs: `ResultAbove`).
- Translating back undoes translating except for the addresses that `BackAndForth` names.
- `update_toml` rewrites a section's own header if it reads as a line for one of the keys, as `[a = b]` does for the
  key `[a`, and makes a header that is none for an empty name. Then, and only then, a second update changes the text
  again (`UpdateIsIdempotent`; inputs: `SecondUpdateChanges` with `SomeHeaderSetsKey`, `NamelessUpdateChanges`). The
  lines of such a section join the one before it and may set its keys (`UpdatesTakeEffect`; input:
  `LostLinesUnsettle`).

## Assumptions

- Calls into the host are atomic. A host commit or protection succeeds or fails as a boolean parameter says, and a
  success sets the access of exactly the host pages named. Host calls whose result the code ignores always succeed.
- Every operation runs under the global lock from start to end. In `PhysicalHeap.Release`, `Decommit` and `Protect` the
  code hands the lock to the call that fires the watches; the model treats the whole operation as one step.
- Callbacks are functions of the notice. They do not call back into the heaps.
- Page numbers and counts fit the 20-bit fields of a page entry, as they do for all eight heaps.
- `PhysicalHeap.GetPhysicalAddress` asserts that its address belongs to the view, and so do the operations that call it
  with an address they did not clip.
- A class method may be called on heaps whose `Valid` holds. Where an operation loses it, its contract says exactly
  when.
- The theorem over all runs is for host pages of 4 KB and for careful callers: sizes that parent and view round alike,
  fixed ranges that are free, releases through the owning view, changes of protection that are for whole guest pages,
  that succeed if they set the write flag, and that do not make pages writable by write-combining alone, watches
  dropped without unprotecting only where the guest may not write, and tables given to the parent that have every
  region again that backs a view. `AllocationCouples`, `FixedCouples`, `ReleaseCouples`, `ProtectWatches`,
  `FailedProtectWatches`, `FiredWatches` and `ReplacedParentKeepsCoupled` say how far each of these demands is needed.

## Model

| member | source | states |
|---|---|---|
| `Arithmetic.RoundUpBounds` | src/xenia/base/math.h:68-74 | Rounding up stays within one unit of the value unless the addition leaves the 32-bit word; zero becomes one unit |
| `Arithmetic.AlignPow2` | src/xenia/base/math.h:61-65 | The mask form of `align` is the next multiple of a power of two unless the addition leaves the word |
| `Arithmetic.AlignKeepsPages` | src/xenia/base/math.h:61-65 | Whatever the alignment, also one that is no power of two, a result stays a multiple of the page size and leaves room for one alignment |
| `Arithmetic.PageCountZero` | src/xenia/memory.cc:55-57 | A size yields no pages exactly when rounding it up leaves the word, as `AllocRange` allows; size zero yields one page |
| `Arithmetic.PagesCover` | src/xenia/memory.cc:55-57 | The pages counted for a size hold that many bytes exactly unless rounding it up leaves the word |
| `FreeIndex.IndexUnique` | src/xenia/memory.h:235-237 | There is exactly one map of maximal free runs for a page table: being a faithful index is the same as being the rebuilt one |
| `FreeIndex.RemoveKeepsIndex` | src/xenia/memory.cc:971-1001 | Carving a free range out of the block that covers it gives the index of the table in which the range is taken |
| `FreeIndex.InsertKeepsIndex` | src/xenia/memory.cc:1003-1026 | Inserting a taken range with coalescing gives the index of the table in which the range is free |
| `FreeIndex.InsertUndoesRemove` | src/xenia/memory.cc:1302-1306 | Removing a range and inserting it again is the identity on the index |
| `FreeIndex.InsertUndoesSplit` | src/xenia/memory.cc:1302-1306 | The same for an empty range, whose removal may have split a block |
| `FreeIndex.ScanRuns` | src/xenia/memory.cc:951-969 | One scan of the page table, run by run, computes exactly the maximal free runs |
| `FreeSearch.QuickModIsMod` | src/xenia/memory.cc:1162-1169 | The power-of-two shortcut of the modulus is the modulus for every divisor |
| `FreeSearch.HighestInBlock` | src/xenia/memory.cc:1216-1243 | In one block the code finds an aligned start whose window fits, and none of these is higher; it finds none exactly when there is none |
| `FreeSearch.FindTopDown` | src/xenia/memory.cc:1202-1243 | The walk down the index settles on the last candidate below the rounded bound, and on nothing exactly when there is none, also for no pages |
| `FreeSearch.LowestInBlock` | src/xenia/memory.cc:1257-1280 | In one block the code finds an aligned start whose window fits, and none of these is lower; it finds none exactly when there is none |
| `FreeSearch.FindBottomUp` | src/xenia/memory.cc:1244-1281 | The walk up the index settles on the first candidate, and on nothing exactly when there is none, also for no pages |
| `FreeSearch.BestWindow` | src/xenia/memory.cc:1202-1281 | For at least one page, what a search settles on is the best of all aligned all-free windows of the page table: no window is missed because only blocks are visited |
| `FreeSearch.SearchUnique` | src/xenia/memory.cc:1202-1281 | Page table and bounds fix the answer of a search, also of one for no pages, so the page it settles on is known before the call |
| `FreeSearch.EmptySearch` | src/xenia/memory.cc:1202-1281 | Page by page, an upward search for no pages settles on the lower bound and a downward one on the upper bound if that page is free, and splits a block exactly if the page before the bound is free as well |
| `PageTable.RegionsDisjoint` | src/xenia/memory.cc:1128-1145 | Regions partition the reserved pages: two regions that share a page are the same |
| `PageTable.PinKeepsRegions` | src/xenia/memory.cc:1082-1145 | A reservation keeps the partition exactly when it swallows whole regions only |
| `PageTable.RecommitKeepsRegions` | src/xenia/memory.cc:1128-1145 | Committing reserved pages keeps the partition |
| `PageTable.ClearKeepsRegions` | src/xenia/memory.cc:1429-1440 | Clearing one whole region keeps the partition |
| `PageTable.DecommitKeeps` | src/xenia/memory.cc:1372-1378 | Dropping commit bits keeps the partition, the free pages and their number |
| `PageTable.ProtectKeeps` | src/xenia/memory.cc:1588-1593 | Changing protections keeps the partition, the free pages and their number |
| `BaseHeaps.BaseHeap.constructor` | src/xenia/memory.cc:792-810 | A new heap is all free, one block, and its count of free pages is exact |
| `BaseHeaps.BaseHeap.Reset` | src/xenia/memory.cc:1028-1038 | A reset re-establishes table, index and count whatever they were |
| `BaseHeaps.BaseHeap.RebuildFreeBlocks` | src/xenia/memory.cc:951-969 | The index equals the maximal-run decomposition of the table afterwards |
| `BaseHeaps.BaseHeap.RemoveFreeBlock` | src/xenia/memory.cc:971-1001 | The block below the range is carved, and nothing else changes |
| `BaseHeaps.BaseHeap.InsertFreeBlock` | src/xenia/memory.cc:1003-1026 | The range is merged with the blocks on either side, and nothing else changes |
| `BaseHeaps.BaseHeap.TakePages` | src/xenia/memory.cc:1318-1328 | The page loop of a range allocation writes exactly the range and keeps the distance of the counter from the number of free pages, in 32-bit arithmetic |
| `BaseHeaps.BaseHeap.PinPages` | src/xenia/memory.cc:1128-1145 | The page loop of a fixed allocation does the same over mixed pages and reports whether one was unreserved |
| `BaseHeaps.BaseHeap.AllocFixed` | src/xenia/memory.cc:1062-1160 | Outcome for every request and every heap, partitioned or not: failure without effect, the new table and host accesses, index and counter kept, and a partition kept exactly when a reservation swallows whole regions only |
| `BaseHeaps.BaseHeap.AllocRange` | src/xenia/memory.cc:1171-1332 | Outcome for every request and every heap: the best aligned free window of the range is taken or, exactly when there is none, it is no pages at page 0, or the host refuses, nothing at all changes; a partition and the counter are kept, and the index is faithful afterwards exactly unless no pages were granted between two free pages |
| `BaseHeaps.BaseHeap.Alloc` | src/xenia/memory.cc:1040-1060 | The same for the whole heap less the thread stacks, for every size and alignment; the heap stays valid |
| `BaseHeaps.AllocCovers` | src/xenia/memory.cc:1044-1044 | The region that `Alloc` makes holds the bytes asked for exactly if rounding the size up stays in the word; otherwise it is one page |
| `BaseHeaps.FixedCovers` | src/xenia/memory.cc:1065-1068 | The range of `AllocFixed` holds them exactly if aligning the size stays in the word; an alignment that rounds to zero leaves one page |
| `BaseHeaps.BaseHeap.Decommit` | src/xenia/memory.cc:1352-1381 | Exactly the pages of the clamped range lose their commit bit; the heap stays valid |
| `BaseHeaps.BaseHeap.Release` | src/xenia/memory.cc:1383-1443 | Outcome for every address and every heap: the pages of the region are freed, counted and put into the index, or nothing changes; index and counter stay right exactly if all these pages were taken, as they are on a partitioned heap, and the counter is wrong by the number of those that were free |
| `BaseHeaps.BaseHeap.AccessFor` | src/xenia/memory.cc:1553-1567 | The access computed for a host page is at least what each of its guest pages needs and is needed by one of them |
| `BaseHeaps.BaseHeap.ProtectByHostPage` | src/xenia/memory.cc:1522-1584 | Every touched host page gets the most permissive access of the guest pages that overlap it, new value inside the range and old value outside; other host pages keep theirs |
| `BaseHeaps.BaseHeap.CheckProtect` | src/xenia/memory.cc:1447-1497 | The validation accepts exactly ranges inside the heap whose pages belong to one region and are committed |
| `BaseHeaps.BaseHeap.Protect` | src/xenia/memory.cc:1445-1596 | Protections change exactly on the range, host accesses follow and the old protection is reported; a failure before the table change leaves table and host untouched |
| `BaseHeaps.OverlapRange` | src/xenia/memory.cc:1529-1551 | The page numbers the code computes for a host page are exactly the guest pages that share a byte with it |
| `BaseHeaps.FoundBlock` | src/xenia/memory.cc:1287-1288 | The block that removal finds is the one the search used, and putting the range back restores the index |
| `BaseHeaps.RegionsSafe` | src/xenia/memory.cc:1383-1432 | On a partitioned table whatever a release gives back is a run of taken pages |
| `BaseHeaps.ReleasedPages` | src/xenia/memory.cc:1440-1440 | Merging the pages of a release into the index gives the index of the new table exactly if all of them were taken |
| `BaseHeaps.ReleasedRegion` | src/xenia/memory.cc:1383-1440 | A region start frees a whole region, and merging it into the index gives the index of the new table |
| `HeapLaws.AllocKeepsClearOfStacks` | src/xenia/memory.cc:1040-1060 | On the 64 KB virtual heap, for every size, table and power-of-two alignment, no region meets the thread stacks at 0x70000000 exactly when the search runs from the top or the alignment is neither 512 MB nor 1 GB; in particular for all alignments up to 0x10000000 |
| `HeapLaws.ResultAbove` | src/xenia/memory.cc:1223-1276 | Bottom-up searches with those two alignments do place regions on the stacks, for example |
| `BaseHeaps.AllocRequest` | src/xenia/memory.cc:1044-1045 | `Alloc` rounds its request up first: bounds and stride of the search stay the same, the number of pages is never zero, and an alignment that rounds to zero becomes one page |
| `FreeIndex.RemoveNothing` | src/xenia/memory.cc:971-1001 | Claiming no pages leaves the index faithful exactly unless the page and the one before it are both free; then a block is split |
| `FreeIndex.SplitHides` | src/xenia/memory.cc:1202-1281 | Once a block is split, the index hides exactly the free windows that reach across the cut |
| `BaseHeaps.FindUnstrided` | src/xenia/memory.cc:1171-1281 | The search with a stride of zero fails, or divides by it upwards exactly when it meets a block that is large enough |
| `HeapLaws.LargestAlignmentTraps` | src/xenia/memory.cc:1178-1272 | An upward search of the empty 64 KB heap for one page with alignment 0xFFFFFFFF divides by zero |
| `HeapLaws.LargestAlignmentTrapsPin` | src/xenia/memory.cc:1784-1799 | In a view every request with that alignment divides by zero once the parent has its pages |
| `HeapLaws.CreateKernelStack` | src/xenia/kernel/xboxkrnl/xboxkrnl_memory.cc:767-779 | A kernel stack of no pages is granted when the first stack page is free, takes nothing, and leaves the heap valid exactly unless the page before is free too |
| `HeapLaws.EmptyStackSize` | src/xenia/kernel/xboxkrnl/xboxkrnl_memory.cc:767-779 | Stack sizes above 0xFFFF0000, up to 0xFFFFF000, ask for no pages |
| `HeapLaws.EmptyStackSearch` | src/xenia/kernel/xboxkrnl/xboxkrnl_memory.cc:767-779 | The search for such a stack settles on the first stack page at 0x70000000 if that is free |
| `HeapLaws.FirstAllocationOverruns` | src/xenia/memory.cc:1070-1072 | When the host offset is 4 KB and the whole parent is free, as it is before the emulator reserves its own pages, an 8 KB allocation aligned to 8 KB in the last physical view is placed at the end of the view, passes every check and ends one page outside the table |
| `HeapLaws.FixedRequestOverruns` | src/xenia/memory.cc:1066-1076 | At any time a fixed request for two pages of 64 KB at 0x7EFF0000 passes the range check and ends one page outside the table |
| `PhysicalHeaps.RollbackRestores` | src/xenia/memory.cc:1808-1822 | Releasing a region just taken from free pages restores the table, except at page 0 of a heap at address 0 |
| `PhysicalHeaps.FixedRollback` | src/xenia/memory.cc:1853-1868 | The same after a fixed allocation of free pages |
| `PhysicalHeaps.FixedSafe` | src/xenia/memory.cc:1853-1868 | Undoing the part of the parent keeps its index and counter right exactly if the part was a reservation or the region at its start could be released before |
| `PhysicalHeaps.FixedPartition` | src/xenia/memory.cc:1834-1868 | After a fixed allocation in the parent, rolled back or not, the parent is partitioned exactly if the allocation swallowed whole regions only |
| `PhysicalHeaps.FiredExactly` | src/xenia/memory.cc:2189-2203 | Firing watches on exactly a range is the same whether or not the call stops early because nothing is watched |
| `PhysicalHeaps.OneBitTest` | src/xenia/memory.cc:2267-2268 | Masking a block with one bit tests that page |
| `PhysicalHeaps.PhysicalHeap.constructor` | src/xenia/memory.cc:1743-1773 | A new view has nothing allocated and nothing watched |
| `PhysicalHeaps.PhysicalHeap.NeedsUnprotect` | src/xenia/memory.cc:2264-2276 | A page is unprotected exactly if it is watched and the guest may write to it |
| `PhysicalHeaps.PhysicalHeap.UnprotectRuns` | src/xenia/memory.cc:2261-2300 | The host calls, one for each run of pages, open exactly the pages that one call for each page would |
| `PhysicalHeaps.PhysicalHeap.RunCallbacks` | src/xenia/memory.cc:2214-2230 | Every callback is called once, in order, and their answers are intersected with saturation |
| `PhysicalHeaps.PhysicalHeap.FirePages` | src/xenia/memory.cc:2201-2314 | Callbacks, range, unprotection and unwatching together give the fired state |
| `PhysicalHeaps.PhysicalHeap.TriggerCallbacks` | src/xenia/memory.cc:2139-2315 | The whole operation for every range: nothing outside the heap or where nothing is watched, else the fired state and one notice for each callback |
| `PhysicalHeaps.PhysicalHeap.EnablePages` | src/xenia/memory.cc:2044-2138 | Exactly the pages the guest may write to and that are not watched yet become watched and read-only, batched by runs |
| `PhysicalHeaps.PhysicalHeap.EnableAccessCallbacks` | src/xenia/memory.cc:1992-2040 | The same for a physical range clipped to the view, and when the conversion of page numbers leaves the table |
| `PhysicalHeaps.PhysicalHeap.Pin` | src/xenia/memory.cc:1798-1824 | A parent region is pinned at its translated address, or rejected as misaligned or unpinnable and released again; an alignment of zero divides by zero |
| `PhysicalHeaps.PhysicalHeap.Alloc` | src/xenia/memory.cc:1775-1825 | The parent search result, the pin, and a failure that leaves page tables, indexes and counts of both heaps as they were unless the region is at parent page 0 |
| `PhysicalHeaps.PhysicalHeap.AllocRange` | src/xenia/memory.cc:1873-1923 | The same between any two addresses, clipped as the code clips them |
| `PhysicalHeaps.PhysicalHeap.AllocFixed` | src/xenia/memory.cc:1827-1871 | The same at a fixed address, on every parent, also for a range that cuts through regions; on a range that was free a failure undoes everything, and the parent stays valid exactly unless part of a region that could not be released was committed and is undone |
| `PhysicalHeaps.PhysicalHeap.Decommit` | src/xenia/memory.cc:1932-1945 | Both heaps lose the commit bits and the watches on exactly the range fire |
| `PhysicalHeaps.PhysicalHeap.Release` | src/xenia/memory.cc:1947-1971 | What the parent refuses changes nothing; otherwise the region watches fire and the view releases too, with both outcomes; each heap stays valid exactly if the pages it gives back were taken |
| `PhysicalHeaps.PhysicalHeap.Protect` | src/xenia/memory.cc:1973-1990 | Watches are dropped when the write flag is set, even if the change then fails; tables, host accesses, the reported protection and the result for every request |
| `WatchWords.BlockInRangeBit` | src/xenia/memory.cc:2176-2183 | The masks of the watch test keep exactly the bits of the pages in the range |
| `WatchWords.KeepMaskBit` | src/xenia/memory.cc:2302-2311 | The masks of the unwatch loop clear exactly the bits of the pages in the range |
| `WatchWords.AnyWatched` | src/xenia/memory.cc:2174-2189 | The block-wise test says whether some page in the range is watched |
| `WatchWords.ClearWatches` | src/xenia/memory.cc:2302-2312 | The block-wise loop unwatches exactly the pages in the range, seen page by page |
| `WatchWords.SetWatch` | src/xenia/memory.cc:2112-2112 | Setting one bit watches exactly one page |
| `WatchRange.NoticeIsPages` | src/xenia/memory.cc:2205-2213 | The notice covers exactly the bytes of the requested host pages inside the heap, for every host offset and heap end |
| `WatchRange.UnwatchContainsRequest` | src/xenia/memory.cc:2232-2258 | The unwatched range contains every requested page and stays inside the heap, whatever the callbacks answer |
| `WatchRange.UnwatchInHull` | src/xenia/memory.cc:2237-2245 | The unwatched range stays inside the aligned hull of the request, 4 MB in the code, for every hull size of at least a host page |
| `WatchRange.ExtraPagesAgreed` | src/xenia/memory.h:490-495 | If each callback answers with whole pages around the notice, every page unwatched in excess lies in the answer of every callback |
| `WatchLaws.GuestRange` | src/xenia/memory.h:301-311 | A host page belongs to some guest pages exactly when it is among their host pages, host offset included |
| `WatchLaws.OpenStep` | src/xenia/memory.cc:2264-2293 | One pass of the unprotect loop keeps the run-batched state equal to a per-page one |
| `WatchLaws.CloseStep` | src/xenia/memory.cc:2086-2128 | One pass of the watch loop does the same while it sets bits |
| `WatchLaws.TriggerKeepsExact` | src/xenia/memory.cc:2261-2314 | Firing watches on any range keeps every host access equal to the guest access, lowered exactly when watched |
| `WatchLaws.EnableKeepsExact` | src/xenia/memory.cc:2044-2138 | Enabling watches on any range does |
| `WatchLaws.AllocateKeepsExact` | src/xenia/memory.cc:1318-1328 | Allocating free pages does |
| `WatchLaws.ClearKeepsExact` | src/xenia/memory.cc:1960-1970 | Freeing pages does exactly when none of them is watched any more |
| `WatchLaws.DecommitKeepsExact` | src/xenia/memory.cc:1932-1945 | Decommitting does |
| `WatchLaws.DropKeepsExact` | src/xenia/memory.cc:1979-1981 | Dropping watches without unprotecting does exactly when no dropped watch is on a page the guest may write to |
| `WatchLaws.ProtectKeepsExact` | src/xenia/memory.cc:1973-1990 | A change of protection does exactly when the new access is not writable or no watch is left on a changed page |
| `WatchLaws.WatchedWritesTrap` | src/xenia/memory.cc:2044-2138 | No committed page that is watched is writable on the host |
| `WatchLaws.RetriedWriteSucceeds` | src/xenia/memory.cc:2261-2300 | After the watches around a page fired, the page is writable on the host if the guest may write to it |
| `Coupling.PinTargetIsFree` | src/xenia/memory.cc:1796-1797 | A view range whose parent pages are all free is free itself: pinning never meets a reserved page |
| `Coupling.ViewsDisjoint` | src/xenia/memory.cc:1775-1930 | Two views never own the same parent page |
| `Coupling.PinKeepsCoupled` | src/xenia/memory.cc:1775-1825 | Reserving in the parent and pinning in a view keeps each region of each view backed by its own parent region of equal size |
| `Coupling.ReleaseKeepsCoupled` | src/xenia/memory.cc:1947-1971 | Releasing a region of a view with the region behind it does |
| `Coupling.ParentReleaseKeepsCoupled` | src/xenia/memory.cc:1383-1443 | Releasing a parent region directly does exactly when it backs no region of any view |
| `Coupling.ReplacedParentKeepsCoupled` | src/xenia/memory.cc:755-761 | Giving the parent another partitioned table, as a restore does, keeps the coupling exactly when every parent region that backs a view is there again |
| `Coupling.ClearedParentKeepsCoupled` | src/xenia/memory.cc:396-402 | Resetting the parent keeps it exactly when no view has anything reserved |
| `Coupling.ReflagKeepsCoupled` | src/xenia/memory.cc:1932-1990 | Changes of flags do |
| `PhysicalSteps.PinnedPage` | src/xenia/memory.cc:1798-1812 | An address that passes the alignment test is pinned at the view page that covers its parent page first |
| `PhysicalSteps.SizesAgree` | src/xenia/memory.cc:1783-1794 | Without wrap-around parent and view round an allocation to the same size exactly when the rounded size is a multiple of the alignment |
| `PhysicalSteps.PinCouples` | src/xenia/memory.cc:1775-1825 | A pin on free parent pages keeps the coupling exactly when both sides have the same size |
| `PhysicalSteps.AllocationCouples` | src/xenia/memory.cc:1775-1923 | An allocation keeps the coupling when it fails and, when it succeeds, exactly if parent and view round the size alike |
| `PhysicalSteps.FixedCouples` | src/xenia/memory.cc:1827-1871 | A fixed allocation of free parent pages keeps it unless the aligned size is zero and the page sizes differ |
| `PhysicalSteps.ReleaseCouples` | src/xenia/memory.cc:1947-1971 | A release the parent accepts keeps it exactly when the view accepts it as well or no view uses the parent region |
| `PhysicalSteps.DecommitCouples` | src/xenia/memory.cc:1932-1945 | A decommit keeps it |
| `PhysicalSteps.ProtectCouples` | src/xenia/memory.cc:1973-1990 | A change of protection keeps it, also when the view refuses after the parent changed |
| `PhysicalSteps.AllocationExact` | src/xenia/memory.cc:1775-1923 | In a coupled machine an allocation of agreed size keeps host accesses exact |
| `PhysicalSteps.FixedExact` | src/xenia/memory.cc:1827-1871 | So does a fixed allocation of free pages |
| `PhysicalSteps.ReleaseCovers` | src/xenia/memory.cc:1964-1968 | The watches a release fires include every host page of the region |
| `PhysicalSteps.ReleaseExact` | src/xenia/memory.cc:1947-1971 | In a coupled machine a release that both sides accept keeps host accesses exact, wherever in the first page the address points |
| `PhysicalSteps.FiredWatches` | src/xenia/memory.cc:636-648 | Firing watches keeps host accesses exact if it unprotects, otherwise exactly when no dropped watch is on a page the guest may write to |
| `PhysicalSteps.DecommitWatches` | src/xenia/memory.cc:1932-1945 | A decommit keeps host accesses exact for every range |
| `PhysicalSteps.DroppedInside` | src/xenia/memory.cc:1979-1981 | The watches a change of protection drops lie on host pages of the changed guest pages only |
| `PhysicalSteps.ProtectWatches` | src/xenia/memory.cc:1973-1990 | After a successful change of protection host accesses are exact exactly when the new access is not writable or no watch is left on a changed page |
| `PhysicalSteps.WholeProtectWatches` | src/xenia/memory.cc:1973-1990 | On whole guest pages they are, unless write-combining makes a page writable without the write flag |
| `PhysicalSteps.FailedProtectWatches` | src/xenia/memory.cc:1979-1988 | After a failed change they are exactly when no dropped watch was on a page the guest may write to |
| `PhysicalRuns.StepKeepsSound` | src/xenia/memory.cc:1775-1990 | Every operation of a view or the parent that a careful caller makes, resets and restores of the parent included, keeps coupling and exactness of all views |
| `PhysicalRuns.RunsStaySound` | src/xenia/memory.cc:1743-2315 | Along every run from fresh heaps all views stay coupled with the parent and all host accesses stay exact |
| `PhysicalRuns.NoSharedMemory` | src/xenia/memory.cc:1775-1930 | In every such state two views never hold the same byte of physical memory |
| `PhysicalRuns.FaultedWriteSucceeds` | src/xenia/memory.cc:600-626 | In every such state a write to a watched page faults, and once the fault was handled a write that the guest may make succeeds, whatever the callbacks answer |
| `EmulatorRuns.EmulatorIsInitial` | src/xenia/memory.cc:234-243 | The emulator's own three views over their parent, with either host offset of the last one, start such runs |
| `PhysicalMethods.Alloc` | src/xenia/memory.cc:1775-1825 | The method performs the operation of the runs that allocates anywhere |
| `PhysicalMethods.AllocRange` | src/xenia/memory.cc:1873-1923 | The method performs the operation that allocates between two addresses |
| `PhysicalMethods.AllocFixed` | src/xenia/memory.cc:1827-1871 | The method performs the operation that allocates at a fixed address |
| `PhysicalMethods.Release` | src/xenia/memory.cc:1947-1971 | The method performs the operation that releases |
| `PhysicalMethods.Decommit` | src/xenia/memory.cc:1932-1945 | The method performs the operation that decommits |
| `PhysicalMethods.Protect` | src/xenia/memory.cc:1973-1990 | The method performs the operation that changes a protection |
| `PhysicalMethods.EnableAccessCallbacks` | src/xenia/memory.cc:1992-2040 | The method performs the operation that enables watches |
| `PhysicalMethods.TriggerCallbacks` | src/xenia/memory.cc:2139-2315 | The method performs the operation that fires watches, with or without unprotecting |
| `PhysicalMethods.AllocParent` | src/xenia/memory.cc:1171-1332 | A successful allocation in the parent performs the operation that takes its pages |
| `PhysicalMethods.ReleaseParent` | src/xenia/memory.cc:1383-1443 | A release in the parent performs the operation that releases there |
| `PhysicalMethods.ResetParent` | src/xenia/memory.cc:396-402 | Resetting memory replaces the parent's table by one of free pages and leaves the views alone |
| `PhysicalMethods.RestoreParent` | src/xenia/memory.cc:755-761 | Restoring memory replaces it by the table in the stream |
| `CouplingExamples.CommitCutsRegion` | src/xenia/memory.cc:1090-1101 | A reservation with commit of the middle page of a region of three pages goes through and the table is partitioned no longer |
| `CouplingExamples.CutRegionReleasedTwice` | src/xenia/memory.cc:1429-1440 | Once that middle page is released, releasing the first page of the old region gives it back again |
| `CouplingExamples.FirstPageLeaks` | src/xenia/memory.cc:1853-1868 | An allocation of the first 64 KB of the 64 KB view that the host refuses to the view leaves the parent pages of address 0 taken |
| `CouplingExamples.FreePageZeroOverruns` | src/xenia/memory.cc:1387-1432 | A release of a free page 0 in a heap that is not at address 0 passes the test for a region start |
| `CouplingExamples.UnevenAllocationUncouples` | src/xenia/memory.cc:1783-1812 | In the 64 KB view an allocation of 64 KB aligned to 128 KB succeeds, takes 64 KB in the parent and 128 KB in the view, and uncouples the two |
| `CouplingExamples.WrappingFixedUncouples` | src/xenia/memory.cc:1062-1067 | So does a fixed allocation of 0xFFFF0000 bytes aligned to 128 KB, whose aligned size is zero |
| `CouplingExamples.ForeignReleaseUncouples` | src/xenia/memory.cc:1947-1971 | A release through a view that does not own the region frees the region of the parent and uncouples the view that does |
| `CouplingExamples.ForeignRelease` | src/xenia/memory.cc:1947-1951 | Page 0x100 of the 64 KB view and address 0xC1000000 are such a region and such an address |
| `CouplingExamples.ResetUncouples` | src/xenia/memory.cc:396-402 | Resetting the parent while a view owns a region uncouples the two |
| `CouplingExamples.RestoreLeavesCounter` | src/xenia/memory.cc:905-949 | Restoring a fresh heap of one page from a stream in which the page is reserved leaves a counter that is wrong |
| `WatchExamples.WriteCombineLeavesWatches` | src/xenia/memory.cc:1977-1981 | On every page of every view a change of a watched page to write-combined without the write flag succeeds, leaves the watches and opens the page |
| `WatchExamples.PartOfPageLeavesWatches` | src/xenia/memory.cc:1977-1989 | Where guest pages have several host pages, making the first byte of a watched page writable opens the page and leaves watches on the rest |
| `WatchExamples.HostPagesOfMiddleView` | src/xenia/memory.cc:235-237 | A page of the 64 KB view has 16 host pages |
| `WatchExamples.FailedChangeDropsWatches` | src/xenia/memory.cc:1979-1988 | A change to a writable protection that the host refuses has dropped the watches of the page, which stays closed |
| `WatchExamples.EnableOverruns` | src/xenia/memory.cc:2056-2108 | With host pages of 16 KB, enabling watches at the first byte of the last view converts a host page that starts before the heap |
| `SaveRestore.UnpackPack` | src/xenia/memory.h:83-100 | The bit fields of a page entry read back from the bytes of its word |
| `SaveRestore.Save` | src/xenia/memory.cc:877-903 | The stream is the word of every page, followed by the bytes of the committed ones |
| `SaveRestore.Restore` | src/xenia/memory.cc:905-949 | Table, committed bytes, host accesses and stream position are what the records say; the index is rebuilt, and the counter left alone, which is right exactly for as many free records as free pages |
| `SaveRestore.RestoreUndoesSave` | src/xenia/memory.cc:877-949 | Restoring what was saved gives back every entry and the bytes of every committed page, whatever follows in the stream and whatever was there before |
| `SaveRestore.RestoredCounter` | src/xenia/memory.cc:905-949 | A counter that was exact is exact after a restore exactly when the stream has as many records of free pages as the heap had free pages |
| `SaveRestore.RestoredHostAccess` | src/xenia/memory.cc:918-940 | The host access of every host page after a restore |
| `SaveRestore.RestoredAccessExact` | src/xenia/memory.cc:918-925 | A restore gives a page the access of its protection exactly unless it is write-combined without the write flag |
| `AddressMap.LookupFindsTheHeap` | src/xenia/memory.cc:404-464 | Both lookups, by the top four bits and by comparing, agree and find the heap whose range holds the address, or none exactly when there is none |
| `AddressMap.TranslationsCommute` | src/xenia/memory.h:369-409 | Every address in a view of physical memory and its physical address name the same byte of the backing file, for every granularity from 4 KB up |
| `AddressMap.OneByte` | src/xenia/memory.cc:306-364 | The views of the backing file do not overlap |
| `AddressMap.SharedByte` | src/xenia/memory.cc:2317-2325 | Two addresses in views of physical memory share a byte exactly when their physical addresses are equal |
| `AddressMap.BackAndForth` | src/xenia/memory.cc:508-520 | Translating back undoes translating exactly unless the granularity exceeds 4 KB and the address lies in the 4 KB after the last view (with the lookup) or anywhere after it (without) |
| `AudioPause.StepKeepsSafe` | src/xenia/apu/audio_system.cc:100-145 | Every step of worker, controller and drivers keeps the invariant of the handshake |
| `AudioPause.RunsAreSafe` | src/xenia/apu/audio_system.cc:100-145 | It holds in every reachable state, whatever the interleaving |
| `AudioPause.NoCallbackWhilePaused` | src/xenia/apu/audio_system.cc:356-378 | From the return of `Pause` to the next setting of the resume event the worker is parked and no callback starts |
| `AudioPause.TokensAreNotLost` | src/xenia/apu/audio_system.cc:367-376 | Setting the resume event always finds one parked worker and an event that is not set; tokens and completed waits differ by nothing else |
| `AudioPause.NobodyIsStranded` | src/xenia/apu/audio_system.cc:117-123 | A controller at the fence always has an alarm, an answering worker or the answer ahead; a parked worker has a token or a controller who owes one |
| `ConfigCallbacks.Registry.AddCallback` | src/xenia/emulator.cc:1367-1380 | A callback is added at the end unless it is there |
| `ConfigCallbacks.Registry.RemoveCallback` | src/xenia/emulator.cc:1382-1400 | A callback is removed and the position of a running loop follows |
| `ConfigCallbacks.Registry.PostGameConfigLoad` | src/xenia/emulator.cc:1536-1546 | The loop ends for every finite script of additions and removals, with every registered callback invoked once since it was added; the trace is a sequence of invocations, the k-th followed by exactly the effects of what the script says at k on the list at that moment |
| `ConfigCallbacks.InvokedExactlyOnce` | src/xenia/emulator.cc:1539-1546 | A callback registered throughout the loop is invoked exactly once |
| `ConfigCallbacks.InvokedInOrder` | src/xenia/emulator.cc:1539-1546 | Callbacks registered throughout the loop are invoked in their order |
| `ConfigCallbacks.InvokedWhileRegistered` | src/xenia/emulator.cc:1382-1400 | Whoever is invoked is registered at that moment and was not invoked since it was added last |
| `DecoderTable.OpcodeExtended` | tools/ppc-table-gen.py:61-73 | The loops compute the parts of a word side by side |
| `DecoderTable.GatherBit` | tools/ppc-table-gen.py:61-73 | Every bit of an extended opcode is the word bit it stands for |
| `DecoderTable.ExtendedAgrees` | tools/ppc-table-gen.py:61-73 | Extended opcodes are equal exactly when the words agree on all bits of the form |
| `DecoderTable.BuildSubtables` | tools/ppc-table-gen.py:427-430 | The rows are grouped by primary opcode in table order |
| `DecoderTable.BuildGroups` | tools/ppc-table-gen.py:444-456 | The rows of one primary opcode are grouped by form and sorted; a form without parts is an error |
| `DecoderTable.GenerateLookup` | tools/ppc-table-gen.py:427-481 | The emitted tree has one case for each primary opcode in the table; generation fails exactly when a shared primary opcode has a row without parts |
| `DecoderTable.DecodeIsFirstMatch` | tools/ppc-table-gen.py:432-481 | For every word the nested switches give the first row, in the order of emission, that the word is an instance of |
| `DecoderTable.DecodesToOwnRow` | tools/ppc-table-gen.py:432-481 | Every instance of every row decodes to that row exactly when no word is an instance of two rows; a word decodes to nothing exactly when it is an instance of none |
| `TomlUpdate.SplitSections` | tools/codered_rdr_bootstrap_guard_v9.py:176-190 | The loop splits a text into its sections |
| `TomlUpdate.SplitFlat` | tools/codered_rdr_bootstrap_guard_v9.py:176-190 | Splitting undoes writing sections of that shape one after another |
| `TomlUpdate.FormattedKey` | tools/codered_rdr_bootstrap_guard_v9.py:193-199 | A formatted line of a key without `=`, surrounding space, line break or leading `#`, be it empty or begin with a bracket, reads back that key and is no header |
| `TomlUpdate.UpdateLines` | tools/codered_rdr_bootstrap_guard_v9.py:208-224 | The loops rewrite the lines of known keys and add the missing ones |
| `TomlUpdate.UpdateToml` | tools/codered_rdr_bootstrap_guard_v9.py:202-231 | The text written is the updated sections, one blank line between two of them, trimmed |
| `TomlUpdate.UpdateReadsBack` | tools/codered_rdr_bootstrap_guard_v9.py:202-231 | Reading an updated text gives back its sections; one whose header is lost is part of the section before it |
| `TomlUpdate.SectionReadsBack` | tools/codered_rdr_bootstrap_guard_v9.py:202-231 | A section that keeps its header is read back with its own non-blank lines and, behind them, those of the sections after it that lost theirs |
| `TomlUpdate.UpdateIsIdempotent` | tools/codered_rdr_bootstrap_guard_v9.py:202-231 | For names and values that fit on lines and keys that read back, updating a text twice is updating it once exactly when every section updated has a name and none of their headers reads as a line that sets one of the keys of its section |
| `TomlUpdate.SecondUpdateChanges` | tools/codered_rdr_bootstrap_guard_v9.py:202-231 | For every text an update of a section whose header reads as setting the key changes the text again the second time |
| `TomlUpdate.SomeHeaderSetsKey` | tools/codered_rdr_bootstrap_guard_v9.py:202-231 | The section `a = b` and the key `[a` are such a section and key |
| `TomlUpdate.NamelessUpdateChanges` | tools/codered_rdr_bootstrap_guard_v9.py:202-231 | For every text so does an update of the section without a name |
| `TomlUpdate.SectionLost` | tools/codered_rdr_bootstrap_guard_v9.py:202-231 | A section without a name, or whose header reads as such a line, is not there when the updated text is read again |
| `TomlUpdate.UpdatesTakeEffect` | tools/codered_rdr_bootstrap_guard_v9.py:202-231 | Afterwards every key has a line in its section and each of its lines there has the formatted value, exactly when the section keeps its header and no line read behind its own sets a key differently |
| `TomlUpdate.LostLinesUnsettle` | tools/codered_rdr_bootstrap_guard_v9.py:202-231 | In the empty text the lines of the section without a name are read behind those of another and set its key to another value |
| `TomlUpdate.OtherLinesSurvive` | tools/codered_rdr_bootstrap_guard_v9.py:202-231 | All other non-blank lines of a section that keeps its header survive in their order, but for space at their end, followed by those of the sections that lost theirs; if all headers are kept there are none and the section stays at its place |

## Left out

- `Memory` itself, MMIO ranges, exception delivery, file mappings, `DumpMap`, `CrashDump`, logging, scribbling and
  `protect_on_release`: plumbing around the modelled operations.
- `BaseHeap::Dispose`: it skips the page after each region, which matters to host unmapping only.
- `QueryRegionInfo`, `QueryBaseAndSize`, `QueryProtect` and `QueryRangeAccess`: reads of single entries, easy members.
- `AllocSystemHeap`, `SystemHeapAlloc`, `SearchAligned`, `Zero`, `Fill`, `Copy`: thin or easy.
- Data providers: the source does not implement them.
- Protection masks are four flags and allocation types three constructors; other bit patterns are not modelled.
- Committing pages that a view has already reserved stays outside the theorem over all runs, because no callbacks fire
  there.
- SaveRestore.Restore: the accesses of host pages larger than a guest page are not described, because the host rounds
  unaligned ranges in its own way; the temporary protections around the copying of a page have no effect in the end and
  are not modelled. `ByteStream` and `Memory::Save` over all heaps are not part of this model.
- SaveRestore.RestoredHostAccess: likewise only for host pages no larger than a guest page.
- AudioPause.RunsAreSafe: worker and controller are a system of steps on values rather than methods, because the
  property is about their interleaving; each step is one access to shared state, as in the source.
- The pool of audio drivers, the decoder behind `xma_decoder_` and `Shutdown`; `worker_running_` stays set. The
  worker's memory accesses are sequentially consistent.
- `generate_lookup` also sorts rows by primary opcode, which a switch does not depend on, and orders groups by the text
  of their expressions, which the model takes as a rank. Text formatting, XML and disassembly are left out.
- TomlUpdate.UpdateToml: a value that is neither a flag nor an integer is given by the text that Python's `str` makes
  of it; `str` itself is not part of this model.
- TomlUpdate.UpdateIsIdempotent and the laws beside it are for keys without `=`, surrounding space, line breaks or a
  leading `#`, which no line can hold, and for names and values without line breaks.
- User interface, the rest of the emulator, session servers, guest scripts and the build script: no property of their
  own beyond bookkeeping.
