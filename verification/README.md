# ViOS kernel models

A Dafny model of the algorithms in the 64-bit ViOS kernel (`ViOS64Bit/src`), kept as one
module per component, with the properties that the kernel's other parts rely on.

| file | component |
|---|---|
| `common.dfy` | error codes, optional values, the bound of an `int` |
| `heap.dfy`, `heap_runs.dfy`, `heap_as_written.dfy`, `heap_object.dfy` | the block heap: table of flag bytes, steps and runs with complete chains and as written, the heap object |
| `paging.dfy`, `paging_object.dfy` | four-level page tables as a tree, the mapping and lookup functions |
| `mapped_ranges.dfy`, `multiheap.dfy`, `kheap.dfy` | what stands behind the pages of a paging heap; several heaps with defragmentation by paging; sizing of the first heap |
| `vector.dfy`, `zorder.dfy` | the growable vector with its bubble sort; z order of siblings |
| `compositing.dfy`, `graphics.dfy`, `hit.dfy` | the rectangle tree, painting and dirty-rectangle redraw, window moves, hit testing |
| `streamer.dfy` | byte access to sectors |
| `fat_table.dfy`, `fat_layout.dfy`, `fat_content.dfy`, `fat_volume.dfy`, `fat_chains.dfy`, `fat_files.dfy`, `fat_store.dfy`, `dir_item.dfy`, `directory.dfy` | FAT16: chains in the table, places on the disk, scattered content, the volume object, cluster operations, reading and writing, open files, directory entries, names |

The kernel changes its state in place, so the objects here are classes with the same
fields; each method is tied by its contract to a function or predicate on values (`View`,
`Now`, `Contents`, `view`), and the properties are proved about those. `dafny verify
dfyconfig.toml` checks everything.

## How the model reads the code

Where the code and its evident intent differ, the code as written is here as a function or
a method, with a theorem that says exactly when it meets the intent; where other
components build on the intent there is a repaired form beside it.

- `heap_mark_blocks_taken` (heap.c:186-211) sets HAS_NEXT on the last block of every chain
  of two or more blocks, since it tests the block just marked and not the next one. The
  marking is right exactly for one block (`AsWrittenIff`). A chain marked this way runs
  into whatever follows it (`AsWrittenLengthIff`), so freeing it gives table and counters
  back exactly when it has one block or ends with the heap (`FreeUndoesAsWrittenIff`); a
  run keeps its table well formed exactly when it allocates no new chain of two or more
  blocks (`RunAsWrittenIff`). The module `HeapAsWritten` and the methods of `Heap` named
  AsWritten follow the source here. The module `HeapRuns` and `Heap.MallocBlocks` mark
  complete chains. The multiheap works on heaps with chains of any marking; its second
  pass marks the new range as the source does, or complete, by a parameter.
- A shrinking `heap_realloc` adjusts the counters twice (heap.c:310, 318-320), and a free
  that runs into a free block counts it. For the code as written the drift of the counters
  over any run is the sum of both (`RunDrifts`, `CountsExactAsWrittenIff`); with complete
  chains only the first remains (`RunCorrect`, `CountsExactIff`). What an overstated
  counter does to the second pass of the multiheap is in `AllocSecondPass` and
  `SinglesFailIff`.
- The in-place growth does not check its range against the table (heap.c:326-328).
  `IsBlockRangeFreeAsWritten` says when the reads stay in the table; `IsBlockRangeFree`,
  which the reallocs use, has a bound added.
- `paging_get` tests slot 0 of a table instead of the slot being walked (paging.c:332,
  347). Kept, with the exact condition (`LookupIff`), and followed into `multiheap_free`,
  where blocks of pages it misses leak (`OwnAnswers`, `DataBackIff`).
- The loop of `multiheap_free` adds a block index of the heap to the address of the range
  (multiheap.c:253-257), and it visits as many pages as the range's chain has taken
  blocks, those of the chain behind it included. A page it visits may still point to
  itself, as `multiheap_ready` left it; then a free block of the paging heap is freed once
  more. `FreeVirtualAsWritten` does all that; it frees what stands behind the range exactly
  when the range starts at block 0. `FreeVirtual` uses the index relative to the range.
- So freeing what a second pass returned does not always undo it. `AllocThenFreeAsWritten`
  has the exact conditions for the code as it is, marking, index and lookup: for the paging
  heap with its counters, and for the data heap. `AllocThenFree` is about complete chains
  and the index relative to the range; what remains then is the lookup.
- Ownership lookup counts the end address of a heap as inside (heap.c:90-93): it misses
  the owner exactly when an earlier heap ends at the address (`HeapOwnerIff`,
  `PagingOwnerIff`). Freeing assumes gaps between heaps (`Located`).
- `multiheap_add` passes an empty table (multiheap.c:224-231), so no non-empty region is
  accepted (`AddIff`, `AddRegions`).
- The sector stream: the second half of the test at streamer.c:88 can never hold, so a
  write that starts a sector without filling it puts stack bytes behind it
  (`WriteAsWritten`, `AsIsSplicesIff`). FAT16 is modelled over the write that the head of
  the file describes. A transfer that ends on a sector boundary also touches the next
  sector, so one that ends at the very end of the disk fails after doing its work; kept in
  `Read` and `Write`, and a volume must therefore have a sector behind its last cluster.
- FAT16's bad mark is 0xFFF7; the code has 0xFF7 (fat16.c:13), so a link to cluster 4087
  is refused and the bad mark is followed as a link. Kept: `LinkIff` says for which
  entries the code reads what FAT16 means, `WalkIff` and `ReadableIff` what becomes of
  files. Of the table only the links that a file reaches are assumed to stay on the
  volume, which those of whole chains do; entries that carry the bad mark belong to no
  file, and any other entry in use belongs to one (`Partition`).
- An offset at the end of the allocated chain cannot be reached (fat16.c:390-396), so a
  file that ends on a cluster boundary cannot be appended to. Kept (`ReadableIff`, and the
  success condition of `FatWrite`).
- `fat16_find_free_cluster` takes reserved, table and root sectors for data (fat16.c:978).
  Kept: the scan can end behind the last cluster of the volume or before it. It reaches the
  last one exactly under the condition of `ScanReachesIff`; a free cluster behind its end
  is never found (`ScanCompleteIff`, `ScanMissesLast`), so free space is counted up to
  `Usable`. An entry behind the last cluster that reads 0 is given out as a cluster when
  no other is free (`AllocateCluster`); a write to a file requires enough free clusters,
  or that there is no such entry (`Room`, `Sealed`).
- An unsigned number is tested for being negative at fat16.c:1185. Kept: `WriteFile` says
  what an empty file on a full volume becomes.
- `fat16_truncate` never writes the entry back to the disk; `TruncateThenReopen` says what
  the file is when it is opened again, and `TruncateThenRead` that its old bytes are still
  read as far as clusters were kept. Beyond the allocation its walk leaves the chain
  (`CutPointIff`).
- The panic of the kernel in the second pass is a result of its own; `AllocSecondPass` says
  when it is reached.

## Model

| member | source | states |
|---|---|---|
| `BlockTable.ChainShape` | ViOS64Bit/src/memory/heap/heap.c:162-175 | in a well-formed table a chain is FIRST, then continuations, HAS_NEXT on all blocks but the last |
| `BlockTable.AllocsDisjoint` | ViOS64Bit/src/memory/heap/heap.c:186-211 | live allocations are pairwise disjoint and inside the heap |
| `BlockTable.TakenIsOwned` | ViOS64Bit/src/memory/heap/heap.c:186-211 | every taken block lies in a live allocation |
| `BlockTable.WellFormedIffParseable` | ViOS64Bit/src/memory/heap/heap.c:186-211 | the local conditions on neighbouring entries hold exactly when the table reads as a list of free blocks and complete chains |
| `BlockTable.MarkTakenAllocs` | ViOS64Bit/src/memory/heap/heap.c:186-211 | a complete chain put over a free run adds exactly one live allocation and keeps the table well formed |
| `BlockTable.MarkFreeAllocs` | ViOS64Bit/src/memory/heap/heap.c:235-258 | freeing from a live start removes exactly that allocation and keeps the table well formed |
| `BlockTable.FreeUndoesAlloc` | ViOS64Bit/src/memory/heap/heap.c:366-369 | freeing a fresh allocation gives the table back unchanged |
| `BlockTable.AsWrittenIff` | ViOS64Bit/src/memory/heap/heap.c:186-211 | the marking as written (HAS_NEXT on the last block too) is a complete chain, and keeps the table well formed, exactly for one block |
| `BlockTable.AsWrittenLengthIff` | ViOS64Bit/src/memory/heap/heap.c:186-211 | a chain marked as written ends at its last block exactly when it has one block or ends with the heap; else it runs into what follows |
| `BlockTable.FreeAsWrittenIff` | ViOS64Bit/src/memory/heap/heap.c:235-258 | the table alone (not the counters) comes back when a chain marked as written is freed exactly when it has one block, ends at the end of the heap or is followed by a free block |
| `BlockTable.OneBlockFits` | ViOS64Bit/src/memory/heap/heap.c:101-136 | a single block can be found exactly when fewer entries are taken than there are |
| `BlockTable.AllTakenCount` | ViOS64Bit/src/memory/heap/heap.c:376-389 | the taken entries counted by heap_total_used are all entries exactly when every one is taken |
| `HeapRuns.ReallocCorrect` | ViOS64Bit/src/memory/heap/heap.c:272-364 | with complete chains, realloc on all paths: failure leaves the state and means that no free run exists; success replaces the allocation by one of the new length that starts with the old bytes, all others keeping place and bytes; a size that wraps to no block frees all of them and returns the old address |
| `HeapRuns.StepCorrect` | ViOS64Bit/src/memory/heap/heap.c:213-258 | with complete chains, malloc, free and realloc keep the table well formed; malloc adds the first fit, free removes one allocation |
| `HeapRuns.StepCounts` | ViOS64Bit/src/memory/heap/heap.c:308-321 | with complete chains, one operation shifts the counters off by exactly the blocks that a realloc shrank away |
| `HeapRuns.RunCorrect` | ViOS64Bit/src/memory/heap/heap.c:213-364 | over any run with complete chains (the repaired marking) the table stays well formed and the counters are off by the sum of all shrinks; the code as written is HeapAsWritten.RunDrifts |
| `HeapRuns.CountsExactIff` | ViOS64Bit/src/memory/heap/heap.c:308-321 | with complete chains, used_blocks and free_blocks are exact after a run exactly when the blocks shrunk away add up to 0 modulo 2^64; the condition for the code as written is HeapAsWritten.CountsExactAsWrittenIff |
| `HeapRuns.SinglesUsed` | ViOS64Bit/src/memory/heap/heap.c:101-136 | `k` attempts to allocate single blocks take exactly as many blocks as were free, up to `k` |
| `HeapRuns.SinglesFailIff` | ViOS64Bit/src/memory/heap/multiheap.c:366-372 | some of `n` single-block allocations fails exactly when `n` exceeds the entries that are really free |
| `HeapRuns.ShrinkOverstatesFree` | ViOS64Bit/src/memory/heap/heap.c:308-321 | a concrete run (allocate two blocks, shrink to one) after which free_blocks is 2 and one entry is free |
| `HeapAsWritten.CountedChain` | ViOS64Bit/src/memory/heap/heap.c:152-179 | on any table of legal bytes a chain is taken blocks up to its last one, and the block count misses exactly that one where it is free |
| `HeapAsWritten.RelocatedChain` | ViOS64Bit/src/memory/heap/heap.c:347-362 | a new chain in another place leaves the old one to be freed as it was |
| `HeapAsWritten.StepDrifts` | ViOS64Bit/src/memory/heap/heap.c:213-364 | any operation as written, on any table of legal bytes, drifts the counters by exactly what it counts in excess: the free block in which a freed chain ends, and all that a shrink frees |
| `HeapAsWritten.RunDrifts` | ViOS64Bit/src/memory/heap/heap.c:213-364 | over any run of the code as written the counters are off by the sum of these excesses |
| `HeapAsWritten.CountsExactAsWrittenIff` | ViOS64Bit/src/memory/heap/heap.c:213-364 | from a fresh heap, for any run of the code as written, used_blocks and free_blocks are each exact exactly when the excesses add up to 0 modulo 2^64 |
| `HeapAsWritten.FreeUndoesAsWrittenIff` | ViOS64Bit/src/memory/heap/heap.c:186-258 | as written, freeing a fresh allocation gives table and counters back exactly when it has one block or ends with the heap |
| `HeapAsWritten.FreeOverstatesFree` | ViOS64Bit/src/memory/heap/heap.c:186-258 | a concrete run (two of three free blocks allocated and freed) after which all is free, free_blocks is 4 and used_blocks 2^64 - 1; in between the table is not well formed |
| `HeapAsWritten.FreeUndoesCountedIff` | ViOS64Bit/src/memory/heap/heap.c:186-258 | the same condition with further blocks, already free, freed in between: table and counters come back exactly when it holds and there were none |
| `HeapAsWritten.CountBehind` | ViOS64Bit/src/memory/heap/heap.c:152-211 | as written, the block count of a fresh chain is its own length exactly when it has one block, ends with the heap or is followed by a free block; else the chain behind it is counted with it |
| `HeapAsWritten.NeighbourFreed` | ViOS64Bit/src/memory/heap/heap.c:152-258 | two blocks allocated before a live one: three are counted, and the free takes the live one with it |
| `HeapAsWritten.StepAsWrittenIff` | ViOS64Bit/src/memory/heap/heap.c:186-211 | on a well-formed table an operation as written does what the complete marking does, and keeps the table well formed, exactly when it allocates no new chain of two or more blocks |
| `HeapAsWritten.RunAsWrittenIff` | ViOS64Bit/src/memory/heap/heap.c:186-364 | a run as written keeps the table well formed throughout exactly when no operation allocates a new chain of two or more blocks, and is then the run with complete chains |
| `BlockHeap.Heap.constructor` | ViOS64Bit/src/memory/heap/heap.c:29-58 | a new heap is all free, with exact counters |
| `BlockHeap.Heap.GetStartBlock` | ViOS64Bit/src/memory/heap/heap.c:101-136 | the least start of a free run of `n` blocks; failure exactly for n = 0 or when there is no such run |
| `BlockHeap.Heap.MarkBlocksTaken` | ViOS64Bit/src/memory/heap/heap.c:186-211 | the repaired marking: writes a complete chain |
| `BlockHeap.Heap.MarkBlocksTakenAsWritten` | ViOS64Bit/src/memory/heap/heap.c:186-211 | what the loop writes as it stands |
| `BlockHeap.Heap.MallocBlocks` | ViOS64Bit/src/memory/heap/heap.c:213-233 | with the repaired marking: first fit, marked and counted; NULL and nothing else when there is none |
| `BlockHeap.Heap.MallocBlocksAsWritten` | ViOS64Bit/src/memory/heap/heap.c:213-233 | with the marking as it is: first fit, marked and counted, on any table of legal bytes |
| `BlockHeap.Heap.Malloc` | ViOS64Bit/src/memory/heap/heap.c:265-270 | the same for a size rounded up to blocks; the last 4095 sizes wrap to none (repaired marking) |
| `BlockHeap.Heap.MallocAsWritten` | ViOS64Bit/src/memory/heap/heap.c:265-270 | the same with the marking as it is |
| `BlockHeap.Heap.MarkBlocksFree` | ViOS64Bit/src/memory/heap/heap.c:235-258 | frees from a block to the end of its chain and adjusts the counters by its length |
| `BlockHeap.Heap.Free` | ViOS64Bit/src/memory/heap/heap.c:366-369 | the chain of the block is freed and counted, on any table of legal bytes; a well-formed table and a live start leave a well-formed table |
| `BlockHeap.Heap.AllocationBlockCount` | ViOS64Bit/src/memory/heap/heap.c:152-179 | the taken blocks to the end of the chain, on any table of legal bytes |
| `BlockHeap.Heap.IsBlockRangeFree` | ViOS64Bit/src/memory/heap/heap.c:139-151 | with a bound added: true exactly when the range is inside the table and free |
| `BlockHeap.Heap.IsBlockRangeFreeAsWritten` | ViOS64Bit/src/memory/heap/heap.c:139-151 | as written: the reads stay in the table exactly when the range does or some block from its start on is taken, and then the answer is right |
| `BlockHeap.Heap.Zalloc` | ViOS64Bit/src/memory/heap/heap.c:396-405 | malloc, with exactly `size` bytes zeroed |
| `BlockHeap.Heap.ZallocAsWritten` | ViOS64Bit/src/memory/heap/heap.c:396-405 | the same with the marking as it is |
| `BlockHeap.Heap.Shrink` | ViOS64Bit/src/memory/heap/heap.c:298-322 | the in-place shrink on any table of legal bytes: what follows is freed, the chain ended, the counters adjusted twice |
| `BlockHeap.Heap.Extend` | ViOS64Bit/src/memory/heap/heap.c:324-345 | the in-place growth on any table of legal bytes: the extension linked to the old end, the counters adjusted once |
| `BlockHeap.Heap.Move` | ViOS64Bit/src/memory/heap/heap.c:347-364 | the move with the repaired marking: new chain, bytes copied, old chain freed; NULL and nothing changed when nothing fits |
| `BlockHeap.Heap.MoveAsWritten` | ViOS64Bit/src/memory/heap/heap.c:347-364 | the move with the marking as it is |
| `BlockHeap.Heap.ReallocInPlace` | ViOS64Bit/src/memory/heap/heap.c:298-345 | the paths that keep the address: taken exactly when the size does not grow or the blocks behind are free |
| `BlockHeap.Heap.Realloc` | ViOS64Bit/src/memory/heap/heap.c:272-364 | with the repaired marking, takes the path that the step function names, in table, bytes, counters and returned address |
| `BlockHeap.Heap.ReallocAsWritten` | ViOS64Bit/src/memory/heap/heap.c:272-364 | the same with the marking as it is, for any pointer to the start of a taken block |
| `BlockHeap.Heap.TotalUsed` | ViOS64Bit/src/memory/heap/heap.c:376-389 | 4096 times the number of taken entries, on any table of legal bytes |
| `PageTable.WalkIsLeaf` | ViOS64Bit/src/memory/paging/paging.c:165-222 | below permissive intermediate entries the processor's walk gives exactly the frame and the rights of the leaf |
| `PageTable.GrowTree` | ViOS64Bit/src/memory/paging/paging.c:168-207 | adding a fresh zeroed table keeps the tables a tree without sharing |
| `PageTable.GrowLeaf` | ViOS64Bit/src/memory/paging/paging.c:168-207 | adding a fresh zeroed table changes no leaf of any page |
| `PageTable.ShiftsArePath` | ViOS64Bit/src/memory/paging/paging.c:160-163 | the four shifts and masks of a 48-bit address are the base-512 digits of its page number |
| `PageTable.PathInjective` | ViOS64Bit/src/memory/paging/paging.c:160-163 | different pages have different index paths |
| `Paging.PageTables.PageTableFor` | ViOS64Bit/src/memory/paging/paging.c:165-210 | the page table of a page, allocating exactly the missing tables and changing no translation |
| `Paging.PageTables.Map` | ViOS64Bit/src/memory/paging/paging.c:148-224 | the page then translates to the new frame with exactly the given rights, every other 48-bit page as before |
| `Paging.PageTables.MapRange` | ViOS64Bit/src/memory/paging/paging.c:257-270 | the pages of the range map to successive frames, all others stay, at most three tables a page are used |
| `Paging.PageTables.MapTo` | ViOS64Bit/src/memory/paging/paging.c:272-311 | -EINVARG exactly for unaligned or reversed arguments, with nothing changed; otherwise the whole range is mapped |
| `Paging.PageTables.TranslateIsLeaf` | ViOS64Bit/src/memory/paging/paging.c:148-224 | in every valid state the translation of each page is that of its leaf |
| `Paging.LookupIff` | ViOS64Bit/src/memory/paging/paging.c:313-369 | paging_get finds a leaf exactly when the tables exist and slot 0 of the PDPT and of the page directory on the way is populated, and then it is the walk's leaf |
| `Paging.LookupLeaf` | ViOS64Bit/src/memory/paging/paging.c:313-369 | the same in terms of missing tables |
| `Paging.PhysicalIff` | ViOS64Bit/src/memory/paging/paging.c:370-383 | for a byte of a range mapped by paging_map_to the physical address is phys plus the displacement exactly when slot 0 of the visited tables is populated, else NULL |
| `Paging.GetMissesMappedPage` | ViOS64Bit/src/memory/paging/paging.c:332-347 | a concrete tree in which a mapped page translates and paging_get answers NULL |
| `MultiHeap.Multi.MaxEndAddress` | ViOS64Bit/src/memory/heap/multiheap.c:400 | the largest end of the data heaps |
| `MultiHeap.Multi.NewPagingHeap` | ViOS64Bit/src/memory/heap/multiheap.c:408-421 | an empty heap of the same size behind max_end_addr whose pages all have their tables and point to themselves; no other page changes its target |
| `MultiHeap.Multi.PrepareOne` | ViOS64Bit/src/memory/heap/multiheap.c:406-422 | one more node is prepared, at most three tables a block are used |
| `MultiHeap.Multi.Ready` | ViOS64Bit/src/memory/heap/multiheap.c:389-428 | every heap that allows paging gets an empty paging heap, newly allocated, whose whole range is mapped not present, so that no table will be missing later; the data heaps, whatever their chains, are as before and lie below max_end_data_addr; every page points to itself |
| `MultiHeap.Multi.TryPaging` | ViOS64Bit/src/memory/heap/multiheap.c:316-336 | allocates in the paging heap, marked as written or with the repaired marking, exactly when the node allows paging, has enough free blocks and a fitting run |
| `MultiHeap.Multi.AllocPaging` | ViOS64Bit/src/memory/heap/multiheap.c:309-341 | the first eligible heap is chosen; NULL exactly when none is; for both markings |
| `MultiHeap.Multi.BackOne` | ViOS64Bit/src/memory/heap/multiheap.c:368-375 | one block, free before, is taken and mapped behind one page; the panic exactly when no entry is free; on any table of legal bytes |
| `MultiHeap.Multi.BackRange` | ViOS64Bit/src/memory/heap/multiheap.c:366-376 | one distinct, previously free block behind each page of the range, no table allocated; the panic exactly when fewer blocks are free than the range has pages; on any table of legal bytes |
| `MultiHeap.Multi.AllocSecondPass` | ViOS64Bit/src/memory/heap/multiheap.c:343-380 | over heaps with chains of any marking, the range marked as written or complete: NULL exactly when no heap is eligible; the panic exactly when the first eligible heap has fewer free entries than asked for; else a contiguous range whose pages map to pairwise distinct, previously free blocks of the first eligible heap, all other pages and heaps as before; pages go on standing for distinct single blocks, and complete chains stay so for one block or the repaired marking |
| `MultiHeap.Multi.SecondPassBacked` | ViOS64Bit/src/memory/heap/multiheap.c:366-376 | with either marking, the pages of the new range are taken and point, one by one, to the blocks of the pass; no other page changes its target, none changes whether the lookup finds it |
| `MappedRanges.PassedOk` | ViOS64Bit/src/memory/heap/multiheap.c:366-376 | a second pass keeps every page as it should be: taken pages stand for distinct single blocks, free ones for nothing or for themselves |
| `MultiHeap.Multi.ReadyThenAlloc` | ViOS64Bit/src/memory/heap/multiheap.c:343-428 | from heaps just added, with chains of any marking, through multiheap_ready, to a backed range: the first second pass of n blocks succeeds exactly when a heap that allows paging has n blocks and counts n free ones, however scattered; the range starts at that heap's first virtual page |
| `MultiHeap.Multi.HeapFor` | ViOS64Bit/src/memory/heap/multiheap.c:57-70 | the first data heap that contains the address |
| `MultiHeap.Multi.PagingHeapFor` | ViOS64Bit/src/memory/heap/multiheap.c:95-114 | the first paging heap that contains the address |
| `MultiHeap.Multi.HeapOwnerIff` | ViOS64Bit/src/memory/heap/heap.c:90-93 | for heaps that do not overlap, the lookup of a block's address misses its heap exactly when a heap earlier in the list ends at that address |
| `MultiHeap.Multi.PagingOwnerIff` | ViOS64Bit/src/memory/heap/heap.c:90-93 | the same for the paging heaps |
| `MultiHeap.Multi.PagingOwner` | ViOS64Bit/src/memory/heap/heap.c:90-93 | with gaps between the heaps the paging heap found for the address of a block is its owner |
| `MultiHeap.Multi.LookupAnswers` | ViOS64Bit/src/memory/heap/multiheap.c:257 | what paging_get_physical_address gives for a page: its target where slot 0 is populated on the way, else NULL |
| `MultiHeap.Multi.FreePhysical` | ViOS64Bit/src/memory/heap/multiheap.c:242-272 | multiheap_free of what the lookup gave for a page: nothing for NULL, the chain of a block in the heap that owns it, and for a page that still points to itself that free block of the paging heap, which is counted and unmapped |
| `MultiHeap.Multi.ReturnBlocks` | ViOS64Bit/src/memory/heap/multiheap.c:255-262 | the loop from any first index, on any tables: frees exactly the blocks behind the pages it visits that the lookup finds; each free page that answers with its own address costs the paging heap's counters one and is unmapped |
| `MultiHeap.Multi.UnmapRange` | ViOS64Bit/src/memory/heap/multiheap.c:385-388 | every page of the range is absent again, no other page changes |
| `MultiHeap.Multi.ReleaseRange` | ViOS64Bit/src/memory/heap/multiheap.c:266 | heap_free in the paging heap, on any table of legal bytes: each page of the blocks that are freed is unmapped, including those of a chain that the range runs into |
| `MultiHeap.Multi.FreeVirtual` | ViOS64Bit/src/memory/heap/multiheap.c:250-267 | with the index relative to the range (repaired): what the lookup finds behind the counted pages is freed, the chain is freed and its pages unmapped; for a complete chain that is the range alone |
| `MultiHeap.Multi.FreeVirtualAsWritten` | ViOS64Bit/src/memory/heap/multiheap.c:250-267 | as written, for chains of any marking: the loop runs from the block number of the range and frees what stands behind the pages that far behind it, which is what stands behind the range exactly when it starts at block 0; then the chain is freed with all that it runs into |
| `MappedRanges.IndexIff` | ViOS64Bit/src/memory/heap/multiheap.c:253-262 | freeing what stands behind the visited pages is freeing what stands behind the range exactly when the range starts at block 0 |
| `MappedRanges.IndexExample` | ViOS64Bit/src/memory/heap/multiheap.c:253-262 | three backed pages, the range of the second freed: the block behind the third is freed instead |
| `MappedRanges.FreedBackIff` | ViOS64Bit/src/memory/heap/multiheap.c:257-376 | freeing blocks of single-block allocations after a second pass restores the table of the data heap exactly when they are the blocks of the pass |
| `MappedRanges.OwnAnswers` | ViOS64Bit/src/memory/heap/multiheap.c:257-261 | visiting just the pages of a fresh range restores the data heap exactly when all of them are found |
| `MappedRanges.DataBackIff` | ViOS64Bit/src/memory/heap/multiheap.c:250-380 | after a second pass the loop as written restores the data heap exactly when the range starts at block 0, all its pages are found and none of those counted behind it |
| `MappedRanges.SelfsIff` | ViOS64Bit/src/memory/heap/multiheap.c:253-262 | the visited pages that answer with their own address are those that were free and found before the pass; from block 0 on there are none |
| `MappedRanges.WrittenBackIff` | ViOS64Bit/src/memory/heap/multiheap.c:242-380 | pass and free as written: the exact conditions under which the data heap, and the paging heap with its counters, come back |
| `MultiHeap.Multi.Undo` | ViOS64Bit/src/memory/heap/multiheap.c:242-380 | complete chains, index relative to the range: freeing the range of a second pass gives the paging heap back, counters included, and the data heap exactly when slot 0 is populated on the way to each page of the range |
| `MultiHeap.Multi.AllocThenFree` | ViOS64Bit/src/memory/heap/multiheap.c:242-380 | complete chains, index relative to the range (both repaired): after second pass and free the pages are absent again, the paging heap and its counters as before, the data heap as before exactly when, before the pass, slot 0 was populated in the tables that paging_get visits for each page of the range; all other heaps and pages unchanged |
| `MultiHeap.Multi.AllocThenFreeAsWritten` | ViOS64Bit/src/memory/heap/multiheap.c:242-380 | the code as it is: after second pass and free the paging heap with its counters is as before exactly when the range has one block or ends with the heap and no visited free page answers with its own address; the data heap exactly when the range starts at block 0, its pages are found and none of those counted behind it, which with all pages found is when it has one block, ends with the heap or is followed by a free block |
| `KernelHeap.Sizing` | ViOS64Bit/src/memory/heap/kheap.c:60-92 | the computed bounds and entry count always pass the checks of heap_create |
| `KernelHeap.TableFitsIff` | ViOS64Bit/src/memory/heap/kheap.c:60-98 | for a page-aligned region of k blocks the entry table ends at or below the data exactly when k is not 4097q+1, else it runs over by one entry |
| `KernelHeap.MinimalRegion` | ViOS64Bit/src/memory/heap/kheap.c:14-29 | the first usable region larger than the minimum |
| `KernelHeap.AddIff` | ViOS64Bit/src/memory/heap/multiheap.c:222-240 | a page-aligned region handed to multiheap_add is accepted exactly when it is empty |
| `KernelHeap.AddRegions` | ViOS64Bit/src/memory/heap/kheap.c:105-138 | with tables of the right size the number of heaps added is that of the eligible regions; with the table of zero entries that is passed none is added |
| `VectorSort.Vector.Resize` | ViOS64Bit/src/lib/vector/vector.c:72-101 | contents kept when it succeeds, memory lost when krealloc fails |
| `VectorSort.Vector.Push` | ViOS64Bit/src/lib/vector/vector.c:111-134 | appends and returns the index |
| `VectorSort.Vector.At` | ViOS64Bit/src/lib/vector/vector.c:251-293 | the element, or -EINVARG and zeroes, exactly by bounds and size |
| `VectorSort.Vector.Overwrite` | ViOS64Bit/src/lib/vector/vector.c:136-160 | replaces one element, exactly by bounds and size |
| `VectorSort.Vector.Pop` | ViOS64Bit/src/lib/vector/vector.c:165-177 | drops the last element, -EIO when empty |
| `VectorSort.Vector.PopElement` | ViOS64Bit/src/lib/vector/vector.c:303-373 | removes exactly the first equal element |
| `VectorSort.Vector.CompareSwap` | ViOS64Bit/src/lib/vector/vector.c:213-232 | two neighbours swapped exactly when the function says so |
| `VectorSort.Vector.Pass` | ViOS64Bit/src/lib/vector/vector.c:211-233 | one pass moves a largest element of the rest to its place and keeps ties in order |
| `VectorSort.Vector.Reorder` | ViOS64Bit/src/lib/vector/vector.c:186-239 | for every function a rearrangement; for a strict weak order a stable sort; unchanged without scratch memory |
| `VectorSort.StableSortUnique` | ViOS64Bit/src/lib/vector/vector.c:186-239 | there is only one stable sort, so the result is determined |
| `ZOrder.AboveIsStrictWeak` | ViOS64Bit/src/graphics/graphics.c:607-612 | the comparison of z indices is a strict weak order |
| `ZOrder.OnlyOneMoves` | ViOS64Bit/src/graphics/graphics.c:613-620 | among siblings in z order, sorting after one got a new index moves only that one |
| `ZOrder.Siblings.SetZIndex` | ViOS64Bit/src/graphics/graphics.c:613-620 | siblings end in z order with ties in their previous order, and the others keep their order |
| `Compositing.ColorIsTop` | ViOS64Bit/src/graphics/graphics.c:247-259 | painting bottom-up shows exactly the topmost opaque pixel of the tree |
| `Compositing.NothingOutside` | ViOS64Bit/src/graphics/graphics.c:298-330 | a contained tree shows nothing outside its rectangle |
| `Compositing.PlacedOk` | ViOS64Bit/src/graphics/graphics.c:376-399 | moving keeps a tree contained, aligned and of the same sizes |
| `Compositing.MovePoint` | ViOS64Bit/src/graphics/window.c:501-507 | at every point, old rectangle from the root and then the window gives what a full redraw of the new tree gives |
| `Compositing.HitIsLastPainted` | ViOS64Bit/src/graphics/graphics.c:434-509 | the reverse descent finds exactly the last element painted over the point, the ignored subtree left out |
| `Graphics.GraphicsInfo.Recalculate` | ViOS64Bit/src/graphics/graphics.c:376-399 | the whole subtree follows: absolute positions are the placed tree |
| `Graphics.GraphicsInfo.MoveTo` | ViOS64Bit/src/graphics/window.c:488-498 | relative and absolute position set, the subtree follows |
| `Graphics.Screen.Paste` | ViOS64Bit/src/graphics/graphics.c:94-175 | exactly the clipped rectangle gets the source pixels that are not transparent, nothing else changes |
| `Graphics.Screen.PasteLine` | ViOS64Bit/src/graphics/graphics.c:152-173 | one line of it |
| `Graphics.Screen.RedrawOnly` | ViOS64Bit/src/graphics/graphics.c:231-245 | each visible point gets the element's own pixel where it has one |
| `Graphics.Screen.Redraw` | ViOS64Bit/src/graphics/graphics.c:517-526 | each visible point gets the colour of the tree over what was there |
| `Graphics.Screen.RedrawRegion` | ViOS64Bit/src/graphics/graphics.c:261-331 | in a contained tree every visible point of the region gets what a full redraw gives it, no other point changes |
| `Graphics.Screen.RedrawChildren` | ViOS64Bit/src/graphics/graphics.c:298-330 | the children painted inside a rectangle, in order |
| `Graphics.Screen.RedrawOverlap` | ViOS64Bit/src/graphics/graphics.c:308-329 | a child painted in what it shares with the rectangle |
| `Graphics.RedrawAll` | ViOS64Bit/src/graphics/graphics.c:528-532 | over an opaque screen the frame shows exactly the tree |
| `Graphics.MovedContained` | ViOS64Bit/src/graphics/window.c:472-498 | a window moved inside the screen leaves a contained tree |
| `Graphics.MoveRoot` | ViOS64Bit/src/graphics/window.c:488-498 | the window's tree is the placed one, every other sibling as before |
| `Graphics.RepaintMoved` | ViOS64Bit/src/graphics/window.c:501-507 | if the frame showed the old tree, the two repaints leave it showing the new one |
| `Graphics.WindowPositionSet` | ViOS64Bit/src/graphics/window.c:461-515 | the window stands at the clamped position and the frame shows the new tree, also when only the old rectangle and the window were painted |
| `HitTest.IsInIgnoredBranch` | ViOS64Bit/src/graphics/graphics.c:420-432 | true exactly when the element is the ignored one or has it among its ancestors |
| `HitTest.ChildAtPosition` | ViOS64Bit/src/graphics/graphics.c:434-509 | the element named by the reverse descent, without top_first by the reverse descent of the tree with all siblings in the opposite order; none in an ignored branch |
| `HitTest.AtScreenPosition` | ViOS64Bit/src/graphics/graphics.c:511-514 | the last element painted over the point, the ignored subtree left out; without top_first the last that would be, were siblings painted in the opposite order |
| `Streamer.Disk.ReadBlock` | ViOS64Bit/src/disk/disk.c:162-175 | one sector, -EIO behind the end |
| `Streamer.Disk.WriteBlock` | ViOS64Bit/src/disk/disk.c:177-205 | exactly one sector changes, -EIO behind the end |
| `Streamer.DiskStream.Seek` | ViOS64Bit/src/disk/streamer.c:41-44 | sets the position |
| `Streamer.DiskStream.ReadPiece` | ViOS64Bit/src/disk/streamer.c:58-69 | the bytes of one sector |
| `Streamer.DiskStream.Read` | ViOS64Bit/src/disk/streamer.c:46-77 | exactly the bytes from the position on, position advanced; success exactly when the transfer ends before the last byte of the disk |
| `Streamer.DiskStream.WritePiece` | ViOS64Bit/src/disk/streamer.c:88-115 | one sector rewritten, read first or filled from the stack buffer |
| `Streamer.DiskStream.Write` | ViOS64Bit/src/disk/streamer.c:79-122 | as intended: exactly the range is replaced |
| `Streamer.DiskStream.WriteAsWritten` | ViOS64Bit/src/disk/streamer.c:79-122 | what the code as it stands leaves on the disk, for any content of the uninitialised buffer |
| `Streamer.AsIsSplicesIff` | ViOS64Bit/src/disk/streamer.c:87-95 | the write as it stands replaces exactly the range, whatever the buffer held, exactly when 0 < offset and offset + total < 512 |
| `Streamer.ClobberExample` | ViOS64Bit/src/disk/streamer.c:87-95 | one byte written to the start of a zeroed sector: the other 511 become what the stack held |
| `Streamer.WriteSeekRead` | ViOS64Bit/src/disk/streamer.c:41-122 | write, seek back, read is the identity |
| `FatTable.LinkIff` | ViOS64Bit/src/fs/fat/fat16.c:391-405 | the code reads a table entry as FAT16 does except for three values: it follows 1 and the bad mark 0xFFF7 as clusters, and refuses 0xFF7 |
| `FatTable.WalkIff` | ViOS64Bit/src/fs/fat/fat16.c:382-411 | on a whole chain, whatever the rest of the table holds, the walk stays on the volume and gives the cluster exactly when the chain is long enough and 4087 is not met; else -EIO or -EOUTOFRANGE |
| `FatTable.FreedIsReachable` | ViOS64Bit/src/fs/fat/fat16.c:1022-1047 | on any table, cyclic or not, freeing zeroes exactly the entries reachable from the start |
| `FatTable.FreedChain` | ViOS64Bit/src/fs/fat/fat16.c:1022-1047 | on a whole chain that is exactly the chain |
| `FatTable.ChainInside` | ViOS64Bit/src/fs/fat/fat16.c:1031-1043 | from any cluster of a whole chain on, no link that the freeing follows leaves the volume |
| `FatTable.AppendLinks` | ViOS64Bit/src/fs/fat/fat16.c:994-1017 | a free cluster at the end keeps the chain whole, no other entry changes |
| `FatTable.CutLinks` | ViOS64Bit/src/fs/fat/fat16.c:1250-1267 | the first n clusters stay a whole chain, the others become free, nothing else changes |
| `FatTable.CutPointIff` | ViOS64Bit/src/fs/fat/fat16.c:1251-1258 | the walk of a truncation ends on a cluster of the file exactly when the file has that many |
| `FatTable.OthersKept` | ViOS64Bit/src/fs/fat/fat16.c:994-1047 | entries that one file gains or loses keep the table the disjoint union of the chains |
| `FatTable.StepSound` | ViOS64Bit/src/fs/fat/fat16.c:994-1267 | one operation keeps the table sound |
| `FatTable.RunSound` | ViOS64Bit/src/fs/fat/fat16.c:994-1267 | over any run of create, append and cut the entries in use, those with the bad mark apart, are exactly the disjoint union of the files' chains |
| `FatLayout.EntryWritten` | ViOS64Bit/src/fs/fat/fat16.c:930-965 | writing one entry of one table copy changes nothing else on the volume |
| `FatLayout.ClusterWritten` | ViOS64Bit/src/fs/fat/fat16.c:343-346 | writing inside a cluster changes nothing else on the volume |
| `FatLayout.RootWritten` | ViOS64Bit/src/fs/fat/fat16.c:1052-1063 | writing inside the root directory changes nothing else on the volume |
| `FatContent.ContentWritten` | ViOS64Bit/src/fs/fat/fat16.c:1084-1103 | a piece written to one cluster of a chain is written into the content at the cluster's place |
| `FatContent.ContentPiece` | ViOS64Bit/src/fs/fat/fat16.c:431-445 | a piece read from one cluster is the piece of the content |
| `FatContent.ContentCut` | ViOS64Bit/src/fs/fat/fat16.c:1250-1267 | cutting the chain cuts the content |
| `FatVolume.FatDisk.GetFatEntry` | ViOS64Bit/src/fs/fat/fat16.c:352-377 | the little-endian word where the entry stands |
| `FatVolume.FatDisk.SetFatEntry` | ViOS64Bit/src/fs/fat/fat16.c:930-965 | the entry changes in every copy, the copies stay equal, nothing else changes |
| `FatVolume.FatDisk.WritePiece` | ViOS64Bit/src/fs/fat/fat16.c:1084-1103 | a piece of one cluster |
| `FatVolume.FatDisk.ReadPiece` | ViOS64Bit/src/fs/fat/fat16.c:431-448 | a piece of one cluster |
| `FatVolume.FatDisk.WriteRoot` | ViOS64Bit/src/fs/fat/fat16.c:1052-1063 | a piece of the root directory |
| `FatVolume.FatDisk.ReadRoot` | ViOS64Bit/src/fs/fat/fat16.c:606-608 | a piece of the root directory |
| `FatChains.FindFreeCluster` | ViOS64Bit/src/fs/fat/fat16.c:970-989 | the least entry that reads 0 in the scanned range; it is a cluster of the volume exactly when one is free below the end of the scan |
| `FatChains.ScanCompleteIff` | ViOS64Bit/src/fs/fat/fat16.c:976-981 | the scan finds a free cluster, for every table, exactly when it reaches the last cluster of the volume |
| `FatChains.ScanReachesIff` | ViOS64Bit/src/fs/fat/fat16.c:976-981 | on a volume filled with clusters it does so exactly when reserved sectors, tables and root directory take the room of two clusters |
| `FatChains.ScanMissesLast` | ViOS64Bit/src/fs/fat/fat16.c:976-981 | a concrete volume of 64-sector clusters whose last cluster is never looked at |
| `FatChains.AllocateCluster` | ViOS64Bit/src/fs/fat/fat16.c:994-1017 | the least free cluster ends the chain and follows its last one; where none is free, -ENOMEM and nothing changed exactly when no surplus entry of the scan reads 0, else the chain is linked to that number, which is no cluster |
| `FatChains.FreeClusterChain` | ViOS64Bit/src/fs/fat/fat16.c:1022-1047 | ends wherever the links that it follows stay on the volume, cycles included, and leaves the freed table |
| `FatChains.GetClusterForOffset` | ViOS64Bit/src/fs/fat/fat16.c:382-411 | where the walk for the offset ends |
| `FatFiles.GrewMore` | ViOS64Bit/src/fs/fat/fat16.c:1105-1117 | growth takes the first free cluster and touches nothing outside of the chain |
| `FatFiles.NextCluster` | ViOS64Bit/src/fs/fat/fat16.c:1105-1117 | the next cluster, appended at the end of the chain |
| `FatFiles.WriteInternal` | ViOS64Bit/src/fs/fat/fat16.c:1068-1124 | the content becomes the old content of the same clusters with the range replaced, the chain growing by the first free clusters as needed; all of it or what fits, then -ENOMEM; nothing when the offset cannot be reached |
| `FatFiles.ReadInternal` | ViOS64Bit/src/fs/fat/fat16.c:412-461 | exactly the range of the content, an error exactly when the walk to its last byte fails |
| `FatFiles.FailsOn` | ViOS64Bit/src/fs/fat/fat16.c:382-411 | a walk that fails keeps failing in the same way farther on |
| `FatStore.FatWrite` | ViOS64Bit/src/fs/fat/fat16.c:1160-1214 | refused for directories and read-only files; otherwise success exactly when the position can be reached and the free clusters suffice, the file's bytes then being overwritten from the position on, every other file's chain and bytes unchanged, position and size updated and the longer file's entry on the disk; where the clusters run out the file has taken all free ones and holds what fits; where the position cannot be reached nothing has changed |
| `FatStore.WriteFile` | ViOS64Bit/src/fs/fat/fat16.c:1179-1205 | the same without the item count; an empty file on a full volume is left with 0xFFFFFFFD as its first cluster |
| `FatStore.AllocateFirst` | ViOS64Bit/src/fs/fat/fat16.c:1182-1191 | the first cluster of an empty file; on a full volume the error number is stored as a cluster |
| `FatStore.ExtendFile` | ViOS64Bit/src/fs/fat/fat16.c:1129-1155 | a longer size goes to the entry and to the disk, a shorter one nowhere |
| `FatStore.FatRead` | ViOS64Bit/src/fs/fat/fat16.c:851-886 | the whole items left before the end of the file, an error exactly when the last of their bytes cannot be reached, also where the entry is longer than the chain |
| `FatStore.ItemsFit` | ViOS64Bit/src/fs/fat/fat16.c:859-866 | the items read never pass the end of the file, and, where the product does not wrap, are all of them exactly when they fit |
| `FatStore.FatSeek` | ViOS64Bit/src/fs/fat/fat16.c:888-922 | sets or adds to the position, by the mode; errors by kind, offset and mode |
| `FatStore.SeekOpen` | ViOS64Bit/src/fs/fat/fat16.c:888-922 | after a seek that succeeds the position lies in the file exactly when it was counted from the start or the sum does not pass the end |
| `FatStore.PositionFits` | ViOS64Bit/src/fs/fat/fat16.c:856 | sizes and positions of open files on the volume are below 2^31, so the `int` offsets of the code do not overflow |
| `FatStore.WriteThenRead` | ViOS64Bit/src/fs/fat/fat16.c:851-1214 | a write succeeds exactly when its position can be reached and the free clusters suffice; reading any range of the file afterwards then gives that range of the overwritten bytes, as far as its last byte can be reached |
| `FatStore.ReadableIff` | ViOS64Bit/src/fs/fat/fat16.c:389-396 | a position can be reached exactly when it is less than the allocated size and 4087 is not met on the way |
| `FatStore.Truncate` | ViOS64Bit/src/fs/fat/fat16.c:1219-1275 | within the allocation exactly the first ceil(size/cluster) clusters stay and the rest is freed; only the descriptor's entry gets the new size |
| `FatStore.CutBytes` | ViOS64Bit/src/fs/fat/fat16.c:1247-1270 | the file keeps the first bytes of its old content |
| `FatStore.TruncateThenReopen` | ViOS64Bit/src/fs/fat/fat16.c:743-1275 | opened again after a truncation the file has its old entry: the descriptor's exactly when size and first cluster did not change; a sound file exactly when the old size fits the clusters kept, and then with its old bytes; where all clusters were freed the entry names a free cluster that belongs to no file |
| `FatStore.TruncateThenRead` | ViOS64Bit/src/fs/fat/fat16.c:743-1275 | a range of the old file read after truncation and reopening: it succeeds exactly when the kept clusters reach that far, and gives the old bytes |
| `FatStore.NeededFits` | ViOS64Bit/src/fs/fat/fat16.c:1248 | the rounded-up count is the least number of clusters that holds the size |
| `FatStore.WriteKnown` | ViOS64Bit/src/fs/fat/fat16.c:1160-1214 | the same success condition; a file that holds some bytes holds them overwritten after a write that succeeds, and after one that runs out of clusters holds what the whole write would have left up to the old size |
| `FatStore.CutShortBytes` | ViOS64Bit/src/fs/fat/fat16.c:1083-1120 | a write that ran out of clusters leaves in the old size the bytes that the whole write would have left |
| `FatStore.BytesOverwritten` | ViOS64Bit/src/fs/fat/fat16.c:1194-1205 | a write into the content overwrites the bytes of the file, whatever the chain gained |
| `FatStore.GrewKeeps` | ViOS64Bit/src/fs/fat/fat16.c:1105-1117 | growing one file keeps the union disjoint and the bytes of every other file |
| `DirItem.EncodeDecode` | ViOS64Bit/src/fs/fat/fat16.c:64-77 | the 32 bytes of an entry give the entry back |
| `DirItem.DecodeEncode` | ViOS64Bit/src/fs/fat/fat16.c:64-77 | and every 32 bytes are the bytes of the entry they read as |
| `Directory.Istrncmp` | ViOS64Bit/src/string/string.c:78-92 | 0 exactly for strings equal but for letter case |
| `Directory.ToProperString` | ViOS64Bit/src/fs/fat/fat16.c:293-307 | the characters before the first 0 or space |
| `Directory.FullName` | ViOS64Bit/src/fs/fat/fat16.c:309-320 | base, and dot and extension where there is one |
| `Directory.EncodeName` | ViOS64Bit/src/fs/fat/fat16.c:694-723 | the padded upper-case entry of a name |
| `Directory.NameComesBackIff` | ViOS64Bit/src/fs/fat/fat16.c:293-320 | the decoder gives the encoded name back, up to case and not taken for deleted, exactly for representable names |
| `Directory.RootDirectory.Find` | ViOS64Bit/src/fs/fat/fat16.c:558-628 | the first live entry before the end mark with that name in any case, read again from the disk; -1 exactly when there is none |
| `Directory.RootDirectory.Create` | ViOS64Bit/src/fs/fat/fat16.c:661-741 | the first free slot gets the entry, in memory and on the disk; -ENOMEM and nothing changed when none is free |
| `Directory.CreateFindIff` | ViOS64Bit/src/fs/fat/fat16.c:558-741 | a file created under an absent name is found again in its slot, in any letter case, exactly when the name is representable |

## Left out

- BlockHeap.Heap.MarkBlocksTaken: is the repaired marking; the code as written is BlockHeap.Heap.MarkBlocksTakenAsWritten.
- BlockHeap.Heap.MallocBlocks: marks with the repaired loop, as do Malloc, Zalloc, Move and Realloc; the code as written is BlockHeap.Heap.MallocBlocksAsWritten and the other methods named AsWritten.
- BlockHeap.Heap.IsBlockRangeFree: has a bound added; the code as written is BlockHeap.Heap.IsBlockRangeFreeAsWritten.
- BlockHeap.Heap.ReallocAsWritten: the extension range is checked against the table; a pointer to a block that is no longer taken is excluded, since the code may then write in front of the table.
- HeapRuns.RunCorrect: is about complete chains, as are HeapRuns.StepCounts and HeapRuns.CountsExactIff; the code as written is HeapAsWritten.RunDrifts and HeapAsWritten.CountsExactAsWrittenIff.
- MultiHeap.Multi.FreePhysical: assumes gaps between the data heaps (without them see MultiHeap.Multi.HeapOwnerIff), and that the page stands for an allocation of one block, for itself or for nothing, as multiheap_ready and the second pass leave it.
- MultiHeap.Multi.FreeVirtual: takes the block index relative to the range; as written see MultiHeap.Multi.FreeVirtualAsWritten.
- MultiHeap.Multi.Undo: is about a complete chain and the index relative to the range; as written see MultiHeap.Multi.UndoAsWritten.
- MultiHeap.Multi.AllocThenFree: is about a complete chain and the index relative to the range; as written see MultiHeap.Multi.AllocThenFreeAsWritten.
- MultiHeap.Multi.AllocThenFreeAsWritten: starts where every page of the paging heaps stands for a single block, for itself or for nothing, as multiheap_ready and every second pass leave it; a free that has taken a block of a neighbour with it may end that.
- MultiHeap.Multi.FreeVirtualAsWritten: the pages that the loop visits lie in the paging heap of the range; MultiHeap.Multi.AllocThenFreeAsWritten says when they do, and what is freed beyond it is not modelled.
- MultiHeap.Multi.Ready: the tables and bookkeeping taken from the starting heap are not charged to it; page tables come from a separate pool that is large enough, so `kzalloc` does not fail.
- Paging.PageTables.MapRange: the count is not truncated to a C `int`.
- VectorSort.Vector.Reorder: the comparison function is a pure function; whether scratch memory is granted is a parameter, as for Resize, Push and PopElement.
- Graphics.WindowPositionSet: a window as large as the screen that would leave it (the clamped position then wraps) is excluded by a precondition.
- Graphics.Screen.Paste: source offsets beyond the element, where an unsigned difference wraps, are excluded; sums of coordinates and sizes do not overflow 32 bits in any of the graphics operations.
- Graphics.Screen.RedrawRegion: contained trees only; without containment it paints less than graphics_redraw does.
- HitTest.ChildAtPosition: no other element has the address of the ignored one.
- Streamer.DiskStream.Write: is the repaired write; the code as written is Streamer.DiskStream.WriteAsWritten. Byte positions do not overflow an `int`.
- FatLayout.ClusterWritten: the disk has less than 2^31 bytes and a sector behind the last cluster of the volume, and ends before the place that a cluster 0xFFF0 would have.
- FatStore.FatWrite: fewer than 2^31 bytes at once; a full volume is covered where no surplus entry of the scan reads as free (else see FatChains.AllocateCluster).
- FatStore.WriteFile: on a full volume the position of the error number taken for a cluster is below 2^31; the write to it fails behind the end of the disk.
- FatStore.FatRead: an empty chain whose entry has a size is excluded, since its first cluster 0 is then taken for a place on the disk; an item size of 0 (a division by zero) is excluded, and so are buffers smaller than the product of the unwrapped sizes.
- FatStore.Truncate: sizes within the allocation; beyond it the code writes table entries that belong to no file (FatTable.CutPointIff).
- FatChains.FreeClusterChain: a link that it follows to a cluster that does not exist is excluded; the read would then leave the table. So is such a link for FatChains.GetClusterForOffset.
- FatChains.AllocateCluster: the clean-up after a failed link is unreachable, since transfers inside the disk succeed.
- Directory.RootDirectory.Create: only the root directory, as in the code; subdirectories and paths are not modelled.
- The framebuffer is a two-dimensional array: the row-major addressing of pixels_per_scanline is not modelled; pixel buffers are sequences.
- Redrawing and hit testing read the children as a sequence, without the copying through vector_at.
- TLB invalidation, loading of CR3, sign extension of addresses and the other bits of the page table entries.
- Port I/O and the disk driver: a disk is an array of sectors, transfers inside it succeed.
- multiheap_alloc's first pass and multiheap_realloc: one call each to the heap operations modelled here.
- Debug logging, fonts, images, terminals, mouse and window events, processes, system calls, drivers and boot code.
