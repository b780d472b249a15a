# Memory management and scheduling of a small AArch64 kernel, in Dafny

The kernel hands physical memory from memblock, its boot allocator, to a buddy
allocator; kmalloc takes slab objects and page blocks from it; page tables and
the memory of forked processes come from kmalloc.  A counter scheduler and a
queue of prioritised tasklets share the processor.  This project models those
pieces in the form the C code has (arrays and fields updated in place, loops,
intrusive lists, free pointers kept inside free memory) and proves what each
operation does and what holds over every run.

How the pieces fit together:

- `Bits` defines `&`, `|`, `^` and shifts on natural numbers bit by bit and
  reduces each use the kernel makes of them to arithmetic.
- `Tiling` is the buddy system seen from outside: every frame belongs to one
  naturally aligned tile, and no two free buddies stay apart.  Its theorems
  speak of all states that keep this invariant and of all runs.
- `ListHead` is the intrusive circular list; `Buddy.Zone` is `mem_map`, the free
  areas and the operations on them, each proved to be a step of `Tiling`.
  Tags are promised for block heads only: frames inside a block may carry stale
  tags, and the proofs live with that.
- `Memblock` and `MemblockSearch` are the region arrays, the iterator over free
  intervals and the first-fit search.  `Boot` hands the free frames over.
- `Slab` and `Kmem.Heap` are the slab pages, kmalloc and kfree over one physical
  memory of 8-byte words.  `live` is the set of spans in somebody's hands; every
  call states exactly how it changes, and what it leaves unread and unwritten.
- `PageTable.AddressSpace` is the four-level table in that memory, proved to be a
  flat map (`Leaf`).  `Fork` builds and copies process images and proves their
  isolation under every interleaving of stores.
- `Sched.Scheduler` and `Tasklets.TaskletQueue` stand alone.

What the code demands, where it does so silently, is a `requires`:

- the number of frames is a multiple of 512, because the buddy lookup reads the
  neighbour's tags without a bound, and fresh `mem_map` memory carries neither
  `PG_buddy` nor `PG_RESERVED`;
- the tagging loop of page_frame_init visits the frame at the end of a region
  too, so each reserved region must end before the end of memory: for a region
  that ends exactly there the C loop writes past mem_map;
- a process image is a whole number of pages, larger than none, below the
  peripherals, and a fork finds a free slot.

Where the code does not do what one would expect, the model keeps what it does:

- The iterator never reports exhaustion: it leaves its cursor and its two
  out-parameters alone (`NextMemRange`).  The search then clamps and rejects the
  stale interval again, which changes nothing, so no number of turns ends it
  (`Spinning`).  `Endless` is that outcome; it occurs if and only if something is
  free and nothing fits, as in `FragmentedMemory`.
- When nothing is free at all the first call already yields nothing, and the
  search goes on with two local variables nobody set (`NothingYielded`,
  `ReservedAltogether`).  That outcome is `Unset`, and nothing is promised of it.
- memblock_double_array is a loop without an end: `Spins`, or `Full` of
  `PhysAllocRange`, if and only if the pieces do not fit the array, as in
  `FullArray`.
- Address 0 reads as failure: `PhysAllocRange` reserves nothing when the lowest
  place that fits is 0.
- kmalloc's shift loop drops bits.  The block covers the request if and only if
  the size is not strictly between 4096 * 2^j and 4097 * 2^j for any j
  (`OrderCovers`); 8193 is such a size, page multiples that get a block never
  are.
- Every process maps the peripheral range to the same physical range.  Stores
  through it stay private exactly when no memory of the other process lies there
  (`WindowExactly`); whether the heap reaches it depends on the memory size the
  firmware reports.
- find_empty_task counts the new task as running before anybody starts it; its
  comment does not say so, the model does.
- Allocation failures that the kernel ignores (it goes on with a pointer made
  from NULL) are results here: `None`, `false` or `null`, each with the condition
  under which it occurs and with nothing lost when it does.
- free_one_page on a page without `PG_USED` spins; here it returns false and
  changes nothing.

## Model

| member | source | states |
|---|---|---|
| Bits.XorBit | src/mm.c:31-34 | `x ^ (1 << k)` adds or subtracts 2^k, by bit k of x |
| Bits.AndNeighbour | src/mm.c:131 | `&` of two numbers that differ only in bit k, over zeros, is the lower one, in either order |
| Bits.AlignUpLeast | library/kernel.h:44 | ALIGN gives the least multiple of a power of two that is not below x |
| Bits.OrLow | include/mm.h:179 | setting low bits of an aligned value is addition |
| Bits.AndField | include/mm.h:98 | masking with a run of ones keeps exactly that bit field |
| Bits.OrKeeps | include/mm.h:51-64 | a union keeps every bit of each of its parts |
| Bits.Unpack | src/memblock.c:48-49 | both 32-bit cursors come back out of the packed word |
| Tiling.BuddyBits | src/mm.c:31-34 | the kernel's `^` finds the buddy, an involution, and `&` the lower head of the pair |
| Tiling.BuddyFacts | src/mm.c:31-34 | the buddy of the buddy is the block itself, and the pair is one aligned block of the next order |
| Tiling.BuddyIsHead | src/mm.c:55-67 | the frame at the buddy's number is inside memory and heads a tile that is no larger, so its tags mean something although inner tags are stale |
| Tiling.PaintTiled | src/mm.c:105-152 | turning an aligned run of whole tiles into one tile leaves a tiling |
| Tiling.TakeInv | src/mm.c:70-75 | taking a block keeps tiling and coalescing |
| Tiling.GiveInv | src/mm.c:138-151 | listing a block whose buddy is not a free block of its order keeps them |
| Tiling.MergeInv | src/mm.c:111-136 | joining two buddies keeps them |
| Tiling.CutInv | src/mm.c:229-247 | halving a block keeps them |
| Tiling.RunInsideBlock | src/mm.c:105-152 | complete coalescing: every aligned run of 2^k free frames lies inside one free block |
| Tiling.RunIffBlock | src/mm.c:251-285 | a free block of order at least k exists if and only if some aligned run of 2^k frames is free |
| Tiling.Canonical | src/mm.c:105-152 | two states with the same free frames have the same free blocks |
| Tiling.AllocThenFree | src/mm.c:206-248 | allocating a block and freeing it restores the whole state, whatever was cut and merged |
| Tiling.FreeingRunEffect | src/mm.c:321-331 | after any n frees the free frames are the old ones and those of the freed blocks, the rest keeps its tile |
| Tiling.FreesCommute | src/mm.c:105-152 | freeing the same blocks in any two orders ends in the same state |
| Tiling.ReservedForEver | src/mm.c:251-331 | over any run of allocations and frees reserved frames keep their tile |
| Tiling.NeverAllocated | src/mm.c:315-318 | over any run no allocated block contains a reserved frame |
| ListHead.InsertRing | library/list.h:61-67 | the four pointer writes put the node between its neighbours in the ring |
| ListHead.RemoveRing | library/list.h:79-90 | unlinking takes out one node of the ring and no other |
| ListHead.InsertThreaded | library/list.h:61-67 | all other lists of the arena keep their rings, and no node is on two lists |
| ListHead.RemoveThreaded | library/list.h:79-90 | the same for unlinking |
| ListHead.ListArena.constructor | src/mm.c:188-195 | every list head starts as an empty ring |
| ListHead.ListArena.InitListHead | library/list.h:50-54 | both pointers of the node lead to itself, nothing else is written |
| ListHead.ListArena.InitNode | library/list.h:50-54 | initialising a node that no list holds disturbs no list |
| ListHead.ListArena.ListEmpty | library/list.h:56-59 | true if and only if the list has no node |
| ListHead.ListArena.ListFirst | src/mm.c:198-203 | the first node of a non-empty list |
| ListHead.ListArena.ListNext | src/slab.c:106 | following `next` from position k reaches position k + 1, or the head at the end |
| ListHead.ListArena.ListInsert | library/list.h:61-67 | the node sits between the two given neighbours, all lists otherwise as before |
| ListHead.ListArena.ListAdd | library/list.h:69-72 | the node becomes the first of its list |
| ListHead.ListArena.ListAddTail | library/list.h:74-77 | the node becomes the last of its list |
| ListHead.ListArena.ListDel | library/list.h:85-90 | exactly this node leaves, and is on no list afterwards |
| Buddy.SumUpdate | src/mm.c:73-74 | moving one counter moves the sum of all counters by the same amount |
| Buddy.TakeFacts | src/mm.c:70-75 | when a free block leaves its list, tiling, tags, lists and counters stay in step |
| Buddy.GiveFacts | src/mm.c:78-102 | when a block is tagged and appended, tiling, tags, lists and counters stay in step |
| Buddy.GiveListed | src/mm.c:78-83 | appending a new free block keeps every list exactly the free blocks of its order |
| Buddy.CountsAreExact | src/mm.c:70-83 | the sum of nr_free[o] * 2^o is the number of free frames, and managed_pages is the number of free blocks |
| Buddy.CountBelow | src/mm.c:70-83 | the same, order by order and block by block along each list |
| Buddy.PlaceKept | src/mm.c:70-83 | two blocks that stay on a list through a call keep their order |
| Buddy.FirstInFirstOut | src/mm.c:198-203 | over any run of calls blocks of one order leave in the order they were listed: a block listed before the one handed out has left earlier |
| Buddy.Zone.constructor | src/mm.c:188-195 | the state before page_frame_init: empty areas, every frame a block of its own that nobody gave yet |
| Buddy.Zone.DelPageFromFreeArea | src/mm.c:70-75 | exactly this block leaves its list and the counters; every tag stays |
| Buddy.Zone.AddToFreeArea | src/mm.c:78-102 | the block is tagged with its order and appended to its list, counters in step |
| Buddy.Zone.FindBuddyPagePfn | src/mm.c:55-67 | the tags at the buddy's number say PG_buddy and this order if and only if a free block of this order starts there |
| Buddy.Zone.MergeOnce | src/mm.c:117-135 | one turn: the free buddy leaves its list and the two blocks are one |
| Buddy.Zone.MergeUp | src/mm.c:111-136 | the loop ends with a block whose buddy cannot be merged; only free frames were swallowed, one block off each list passed, and the lists otherwise keep their order |
| Buddy.Zone.MergeAndList | src/mm.c:105-152 | __free_one_page keeps the invariant, frees exactly the given frames and takes nothing; the swallowed buddies leave their lists, the block that is left goes to the end of its own, and everything else listed keeps its place |
| Buddy.Zone.FreeOnePage | src/mm.c:321-331 | a used block is given back exactly, and its frames end up in the last block of their list; anything else changes nothing, tags and lists included |
| Buddy.Zone.Expand | src/mm.c:206-248 | what is left is the lower block of the wanted order, everything above it is free, each upper half last on its list; the rest is as before |
| Buddy.Zone.ExpandOnce | src/mm.c:229-247 | one turn: the upper half is tagged and goes to the end of its list |
| Buddy.Zone.RmqueueSmallest | src/mm.c:251-285 | fails if and only if no aligned run of 2^order frames is free, and then changes nothing; otherwise takes the oldest block of the smallest order that has one, hands out its first 2^order frames, and all other blocks keep their places on the lists |
| Buddy.Zone.TakeFrom | src/mm.c:271-282 | the body of the search is one allocation step of the tiling, and of the lists: the first block leaves, the upper halves are last |
| Buddy.Zone.CutFrom | src/mm.c:271-274 | the block leaves its list and is cut down; no tag of a frame in use changes |
| Memblock.TotalIsMeasure | src/memblock.c:158-233 | total_size is the number of addresses covered |
| Memblock.CanonUnique | src/memblock.c:136-153 | a canonical region list is determined by the set it covers |
| Memblock.FillCovers | src/memblock.c:184-207 | the insertion pass adds exactly the addresses of the new range |
| Memblock.FillSorted | src/memblock.c:184-207 | it keeps the list sorted, disjoint and non-empty |
| Memblock.PiecesBound | src/memblock.c:175-182 | a range falls into at most cnt + 1 pieces, so the unconditional path never overruns the array |
| Memblock.NoPieces | src/memblock.c:216-217 | no new piece means nothing changed |
| Memblock.MergeCanon | src/memblock.c:136-153 | merging leaves no two regions touching and keeps the total |
| Memblock.MergeCovers | src/memblock.c:136-153 | merging changes no covered address |
| Memblock.AddedCanon | src/memblock.c:158-233 | insertion followed by merging is set union in canonical form |
| Memblock.MemblockType.Memmove | library/kernel.h:52-61 | overlapping records arrive as they were, all others are untouched |
| Memblock.MemblockType.InsertRegion | src/memblock.c:116-126 | the region sits at its index, everything after it moved up by one |
| Memblock.MemblockType.MergeRegions | src/memblock.c:136-153 | the in-place loop computes the merged list, inside the array |
| Memblock.MemblockType.CountPieces | src/memblock.c:184-211 | the counting pass yields the number of pieces |
| Memblock.MemblockType.InsertPieces | src/memblock.c:184-211 | the inserting pass ends although the array grows under it, adds that many pieces, and never writes past max |
| Memblock.MemblockType.AddRange | src/memblock.c:158-233 | the covered set becomes the union with [base, base + size), canonical again, total exact; it spins if and only if the counted pieces do not fit |
| Memblock.FullArray | src/memblock.c:217-225 | 32 separate regions and one more range are a case in which it spins |
| MemblockSearch.YieldsExact | src/memblock.c:44-94 | from any cursor the iterator yields, in ascending canonical form, exactly the free addresses from there on |
| MemblockSearch.YieldsAreTheFreeIntervals | src/memblock.c:44-94 | a whole walk yields the maximal intervals of memory minus reserved, each once, and no other list is that |
| MemblockSearch.YieldsNext | src/memblock.c:44-94 | call after call takes the free intervals off one by one, the cursor strictly forward |
| MemblockSearch.NextMemRange | src/memblock.c:44-94 | one call yields the next interval and moves the packed cursor; at exhaustion cursor and out-parameters keep their values |
| MemblockSearch.Candidate | src/memblock.c:107-111 | clamp, ALIGN and the size check accept an interval if and only if an aligned place fits in it, and then find the lowest |
| MemblockSearch.FitsIffYield | src/memblock.c:99-114 | an address fits if and only if it fits inside one yielded interval |
| MemblockSearch.ExhaustedTurn | src/memblock.c:105-113 | after exhaustion a turn of the search maps its whole state to itself |
| MemblockSearch.Spinning | src/memblock.c:105-113 | a search that has rejected every interval is not ended by any number of turns |
| MemblockSearch.NothingYielded | src/memblock.c:102-113 | when nothing is yielded, every turn looks at what the two locals held before the loop |
| MemblockSearch.SearchGaps | src/memblock.c:102-113 | the first turn that passes the test has the lowest fitting address; otherwise no turn ever passes, or nothing is yielded |
| MemblockSearch.FragmentedMemory | src/memblock.c:99-114 | memory with room in total but not in one piece, where the search does not end |
| MemblockSearch.ReservedAltogether | src/memblock.c:99-114 | memory without a free byte, where the first call yields nothing |
| MemblockSearch.BootMemory.constructor | src/memblock.c:269-282 | all of memory, nothing reserved |
| MemblockSearch.BootMemory.FindInRange | src/memblock.c:99-114 | returns c if and only if c is the lowest aligned address in [start, end) whose bytes are all unreserved memory; runs for ever if and only if something is free and nothing fits; reads unset locals if and only if nothing is free |
| MemblockSearch.BootMemory.Reserve | src/memblock.c:239-242 | the reserved set grows by exactly the rounded range, or the call spins and nothing changes |
| MemblockSearch.BootMemory.PhysAllocRange | src/memblock.c:246-257 | ends as the search does and reserves exactly the block found, unless it is at 0; spins in memblock_double_array if and only if the lowest place is not 0 and cannot be recorded; all blocks handed out by any run are reserved and pairwise disjoint |
| Boot.ReservedIsTagged | src/mm.c:167-172 | a frame that holds a reserved byte is tagged |
| Boot.TaggedIsReserved | src/mm.c:167-172 | a tagged frame holds a reserved byte or lies at the page-aligned end of a region |
| Boot.TaggedExactly | src/mm.c:167-172 | a frame is tagged if and only if it holds a reserved byte or starts at the end of a region |
| Boot.TagReserved | src/mm.c:167-172 | afterwards exactly the visited frames carry PG_RESERVED |
| Boot.FreeTheRest | src/mm.c:174-180 | every other frame is freed, one page at a time from the lowest up, so that every free list ascends; the invariant holds |
| Boot.PageFrameInit | src/mm.c:155-185 | the buddy system starts with exactly the untagged frames free, coalesced and listed in ascending order, and the tagged ones reserved |
| Boot.AscendingStep | src/mm.c:174-180 | freeing a frame above all free ones keeps every list ascending, whatever merges |
| Boot.LowestFirst | src/mm.c:251-285 | with ascending lists an allocation takes the lowest block of the smallest order that has one |
| Boot.BootHandOff | src/mm.c:155-318 | over any run after boot no allocated block contains a byte that memblock had reserved |
| Boot.KmallocHandOff | src/mm.c:155-378 | whatever page and slab calls were made since boot, no span in use contains a byte that memblock had reserved |
| Slab.LinearMap | include/mm.h:179-180 | phys_to_virt adds the base, twice is once, and virt_to_phys inverts it |
| Slab.SlotBounds | src/slab.c:84-97 | slots lie inside their page, and the page number is recovered from the address |
| Slab.SlotsFillPage | src/slab.c:85 | the slots fill the page: every word of it lies in exactly one |
| Slab.SlotsApart | src/slab.c:84-97 | slots of one page do not overlap |
| Slab.WalkEnds | src/slab.c:84-97 | following the free pointers visits the chain and reaches NULL |
| Slab.PopChain | src/slab.c:107-111 | the second slot's pointer, read from the first slot, heads a proper chain without the first |
| Slab.PushChain | src/slab.c:155-157 | writing the old head into a slot that is not on the chain and pointing freelist at it gives a proper chain |
| Kmem.LiveApart | src/mm.c:348-378 | any two live spans, slots or blocks, are equal or disjoint |
| Kmem.BlockAllocated | src/mm.c:315-318 | a page allocation adds one span that was not live, and no other changes |
| Kmem.BlockFreed | src/mm.c:321-331 | a page free takes away exactly its span |
| Kmem.SlotTaken | src/slab.c:107-111 | taking a slot makes exactly that slot live; free and live slots partition the page |
| Kmem.SlotGiven | src/slab.c:155-157 | giving it back undoes exactly that |
| Kmem.NewSlab | src/slab.c:58-98 | a used page becomes a slab with all slots free, without touching other pages |
| Kmem.NextSlot | src/slab.c:84-121 | with no room in the cache, two allocations in a row take one page and its first two slots |
| Kmem.FreedIsNext | src/slab.c:100-158 | a freed object is the next one handed out by its page, and then the free list is what it was |
| Kmem.TakenAndFreed | src/slab.c:100-158 | an object freed after its allocation leaves the free list as it was |
| Kmem.OwnerWrites | src/slab.c:51-55 | writes by owners never hit a free pointer |
| Kmem.OrderIsLeast | src/mm.c:354-357 | the shift loop finds the least k with size >> k at most a page |
| Kmem.OrderCovers | src/mm.c:354-357 | the block covers the request if and only if the size is not cut short by the shifts |
| Kmem.CutShortExample | src/mm.c:354-357 | 8193 bytes get two pages |
| Kmem.PageMultipleCovered | src/mm.c:354-357 | page multiples that get a block are always covered |
| Kmem.Heap.constructor | src/slab.c:161-164 | no slab and no live span at the start |
| Kmem.Heap.LiveDisjoint | src/mm.c:348-378 | in every valid state live spans never overlap |
| Kmem.Heap.Store | src/slab.c:51-55 | an owner's write changes one word and keeps every invariant of the allocators |
| Kmem.Heap.LiveFrame | src/mm.c:348-378 | every frame of a live span belongs to a block in use |
| Kmem.Heap.AllocPages | src/mm.c:315-318 | one new span of 2^order pages, the oldest block of the smallest order; none if and only if no such run is free, and then tiles and lists are as before |
| Kmem.Heap.ThreadSlots | src/slab.c:84-95 | the loop threads all slots of the page into one chain that ends in NULL |
| Kmem.Heap.AllocateSlab | src/slab.c:58-98 | a new slab page at the front of its cache's list with all slots free, one page allocation and nothing else; no live span touched; failing if and only if no frame is free |
| Kmem.Heap.PopSlot | src/slab.c:107-111 | hands out the first free slot of the page, which was not live and now is |
| Kmem.Heap.ScanPartial | src/slab.c:105-112 | the loop over the partial list finds the first slab with a free slot, or every slab of the cache is full |
| Kmem.Heap.GetFromCache | src/slab.c:100-121 | if some slab of the cache has room, the first free slot of the first such slab, the buddy system and the lists untouched; otherwise slot 0 of a new slab; none if and only if every slab is full and no frame is free |
| Kmem.Heap.CacheIndex | src/slab.c:129-132 | the smallest cache that holds the size, and none above 2048 |
| Kmem.Heap.ShiftOrder | src/mm.c:350-357 | the loop computes that order |
| Kmem.Heap.PageBlock | src/mm.c:352-358 | the page branch takes the oldest block of the smallest order that covers that one, or fails if and only if there is none |
| Kmem.Heap.Kmalloc | src/mm.c:348-363 | a span disjoint from all live ones, of the smallest cache or block; up to 2048 bytes from the first slab with room, a page only when all are full; covers the request exactly when the shifts did not cut it; fails if and only if memory of that kind has run out; no word in anybody's hands changes; at most one step of the buddy system |
| Kmem.Heap.Kfree | src/mm.c:365-378 | from the pointer alone gives back exactly the span kmalloc made, whatever happened in between: a slot becomes the first free one of its page and the buddy system stays, a block is freed and joins the end of its list |
| Kmem.Heap.FreeObject | src/slab.c:141-158 | exactly this slot leaves the live set and becomes the first free one of its page |
| PageTable.IndexIsDigit | src/mm.c:432 | the shifted and masked index is a base-512 digit of the page number |
| PageTable.DigitsDetermine | src/mm.c:432 | the four indices determine the page of a 48-bit address |
| PageTable.IndicesSpell | src/mm.c:432 | the four indices, from the root down, spell bits 47 to 12 of the address |
| PageTable.TablePointerIs | src/mm.c:442-443 | a table entry gives back the address of its table |
| PageTable.LeafAddress | src/mm.c:435-436 | the attribute bits of a page entry leave its address field alone |
| PageTable.LeafBits | src/mm.c:435-436 | whatever the address and the flag: a page descriptor with access flag, memory attribute 1 and no execution by the kernel, holding every bit of the flag |
| PageTable.UserEntry | include/mm.h:51-64 | a user page's entry is its address plus 0x20000000000447 |
| PageTable.LeafWritten | src/mm.c:434-438 | writing one last-level entry changes the flat map at one page and nowhere else |
| PageTable.TableAdded | src/mm.c:440-444 | hanging a fresh zeroed table into the tree changes no leaf entry |
| PageTable.MappedTranslates | src/mm.c:473-474 | a mapped address translates to its physical page plus the offset |
| PageTable.RoundedUp | src/mm.c:455-462 | the pages of a range are exactly those that hold a byte of it |
| PageTable.RangeTranslates | src/mm.c:455-462 | after map_pages every address of those pages translates to pa plus its distance from va |
| PageTable.AddressSpace.constructor | src/mm.c:411-418 | an empty tree maps nothing |
| PageTable.AddressSpace.Descend | src/mm.c:440-447 | one level down: the next table, created when missing and no other; the flat map is unchanged |
| PageTable.AddressSpace.Walk | src/mm.c:426-449 | exactly one page's entry is set, valid and holding the flag, for any address, whose bits above 47 the masks drop, and every other page keeps its own; no table is added but those on the way; tables stay distinct; it fails only if a table is missing and no frame is free |
| PageTable.AddressSpace.SimulateWalk | src/mm.c:464-484 | reads back the flat map: entry address plus offset, 0 when a table on the way is missing |
| PageTable.AddressSpace.MapPages | src/mm.c:455-462 | every page of the rounded-up range maps to consecutive frames, all other entries are unchanged, for any size; every new table is on the way to one of these pages |
| PageTable.ZeroPage | src/mm.c:416 | exactly this page is zero afterwards |
| PageTable.CreateEmptyPageTable | src/mm.c:411-418 | a zeroed page nobody held, or none if and only if no frame is free |
| Fork.UserTranslates | src/syscall.c:132-133 | every stack and program address translates into the process's own memory at the same offset |
| Fork.PeripheralTranslates | src/syscall.c:134 | peripheral pages map to themselves in every process |
| Fork.UserDescriptor | src/syscall.c:132-134 | behind every stack, program and peripheral address stands a valid descriptor that lets the user in |
| Fork.CopyWords | src/syscall.c:124 | a copy of the words, everybody else's memory untouched |
| Fork.CloneSpan | src/syscall.c:122-129 | a fresh span with the same contents |
| Fork.FramesApart | src/syscall.c:118-137 | user addresses of parent and child never translate into one frame |
| Fork.WriteStaysPrivate | src/syscall.c:118-137 | a write through one mapping changes no byte the other reads, and keeps both images intact |
| Fork.IsolatedRun | src/syscall.c:118-137 | under any interleaving of stores both images stay whole, and each process's memory agrees with the memory it would have alone |
| Fork.Isolation | src/syscall.c:118-137 | after any interleaving of stores each process reads at each of its addresses what it would read had the other done nothing |
| Fork.WindowExactly | src/syscall.c:134 | stores through the peripheral window stay private if and only if no stack or program byte of the other process lies in it, its tables being outside |
| Fork.CopiesAreSame | src/syscall.c:122-129 | copied images read the same byte at every user address |
| Fork.MapImage | src/syscall.c:132-134 | the three mappings do not disturb one another, and every other page keeps its entry |
| Fork.ForkSpace | src/syscall.c:118-137 | after fork parent and child are whole images in separate memory that read the same everywhere, the child maps nothing else and takes no memory but its tables, stack and program; it fails only when an allocation does, and the parent is intact either way |
| Fork.MapExec | src/exec.c:27-29 | the mappings of exec, in its order, with the same result |
| Fork.Exec | src/exec.c:13-29 | a program in memory becomes a whole process image with a fresh stack and root table, mapping nothing else and taking no memory but its tables and stack; everybody else's memory is intact |
| Sched.ChoiceUnique | src/sched.c:113-118 | highest counter, highest slot on ties, names one task |
| Sched.RefillIsFull | src/sched.c:121-123 | at a refill no counter is left to carry over, so every running task gets exactly its priority |
| Sched.RunningUpdate | src/sched.c:78-79 | changing one slot changes the number of running slots accordingly |
| Sched.ChoiceHasShare | src/sched.c:106-127 | after schedule the chosen task runs with a counter of at least 1, all counters within their priority |
| Sched.Scheduler.constructor | src/sched.c:18-38 | only slot 0 runs, with priority 1 and counter 1 |
| Sched.Scheduler.Schedule | src/sched.c:106-127 | ends after at most one refill with the highest counter, highest slot on ties; slot 0 when nothing runs |
| Sched.Scheduler.DoTimer | src/exception.c:206-211 | charges one tick and reschedules when the share is used up, keeping the invariant; nothing but counters changes |
| Sched.Scheduler.FindEmptyTask | src/sched.c:72-81 | the lowest stopped slot above 0, already counted; none if and only if all run |
| Sched.Scheduler.PrivilegeTaskCreate | src/sched.c:84-103 | exactly that slot starts with a full share; spins if and only if the pool is full |
| Sched.Scheduler.ForkTask | src/syscall.c:102-107 | the child slot is a copy of the current task with a full share |
| Sched.Scheduler.Exit | src/syscall.c:146-155 | the current task is stopped with its status, the running count drops by one and the next choice is another task; every other slot keeps its state, priority and status |
| Sched.Scheduler.Kill | src/syscall.c:172-193 | the named task is stopped with status 1, the running count drops by one and no other slot changes; refused exactly for the current one, bad numbers and stopped slots |
| Sched.TickSpends | src/exception.c:206-211 | each tick spends one of the remaining counters, and the last one refills |
| Sched.WholeShare | src/exception.c:206-211 | a task that is chosen stays current until its counter is spent |
| Sched.EpochEnds | src/exception.c:206-211 | when the remaining counters are spent each running task has been current for exactly its counter |
| Sched.EpochFairness | src/sched.c:106-127 | over k epochs after that each running task is current for exactly k times its priority |
| Sched.WaitingBound | src/sched.c:106-127 | no running task waits longer than the remaining counters plus one epoch less its own priority |
| Tasklets.BestIsBest | src/interrupt.c:55-62 | the scan selects the highest priority above the entry priority, first queued among equals, or nothing if none is above |
| Tasklets.DrainWorks | src/interrupt.c:40-80 | a drain under any stack of handlers runs what is above its priority, best first, and leaves the rest in order |
| Tasklets.HandleWorks | src/interrupt.c:75 | so does a handler with any interrupts inside it |
| Tasklets.DrainCount | src/interrupt.c:40-80 | a drain consumes exactly one return for each handler it calls, unless the events run out |
| Tasklets.HandleCount | src/interrupt.c:75 | a handler ends with its own return, after one for each handler that interrupted it |
| Tasklets.DrainIsMachine | src/interrupt.c:40-80 | entering do_tasklet again from inside a handler is the same as choosing on one stack, event by event |
| Tasklets.HandleIsMachine | src/interrupt.c:75 | the same for a handler |
| Tasklets.DrainTheorem | src/interrupt.c:40-80 | do_tasklet runs each tasklet above its entry priority exactly once, each chosen as the best then queued, with handler priorities strictly increasing under nesting; unless the events run out it takes exactly one return for each handler; it is the machine without recursion |
| Tasklets.TaskletQueue.constructor | src/interrupt.c:16-24 | an empty queue whose tail is the head field |
| Tasklets.TaskletQueue.TaskletAdd | src/interrupt.c:27-32 | the tasklet becomes the last, tail points at its next field |
| Tasklets.TaskletQueue.Select | src/interrupt.c:50-62 | the slot that holds the best tasklet, cur_tl_priority raised to its priority, or nothing changed |
| Tasklets.TaskletQueue.Unlink | src/interrupt.c:69-73 | exactly that node leaves; tail moves when it was the last |
| Tasklets.TaskletQueue.DoTasklet | src/interrupt.c:40-80 | the loop over pointers to pointers does what the drain describes and restores cur_tl_priority |
| Tasklets.TaskletQueue.RunHandler | src/interrupt.c:75 | a handler with nested interrupts leaves the queue, the log and the remaining events in the described state |

## Left out

- Buddy.Zone.FreeOnePage: freeing a frame tagged `PG_USED` that does not head a live block of that order (a double free, or the inside of a block) is outside its precondition, because the C code then corrupts its lists; a frame with another tag is covered.
- Kmem.Heap.Kmalloc: sizes from 2049 to 4095, for which the code indexes past its caches, are outside its precondition.
- Kmem.Heap.Kfree: takes pointers kmalloc returned and that were not freed since; the code does not detect others.
- MemblockSearch.NextMemRange: the branch without a second region list (src/memblock.c:57-65) has no caller in this kernel.
- Boot.PageFrameInit: a reserved region that ends exactly at the end of memory is outside its precondition, because the C loop then writes past mem_map.
- Boot.TagReserved: the same.
- MemblockSearch.BootMemory.PhysAllocRange: nothing is promised of the address when the search reads unset locals (`Unset`).
- Memblock.MemblockType.Memmove: moves whole region records, where the C loop moves bytes.
- PageTable.AddressSpace.MapPages: ranges inside the 48-bit address space; a range that wraps around its end is not modelled.
- Fork.CopyWords: memory is an array of 8-byte words, so copying and zeroing go word by word; bytes are read out of words.
- Fork.Exec: the branch that reuses the page tables of a task that has some, and program sizes that are no page multiple.
- Sched.Scheduler.ForkTask: needs a free slot, as sys_fork does not look at what find_empty_task reports.
- Sched.Scheduler.Schedule: the context switch is "current := next"; registers, pending signals and the stopped-task check after the switch are not modelled.
- Tasklets.TaskletQueue.DoTasklet: tasklets arrive only while a handler runs and never while still queued; interrupts between two statements of the loop itself are not modelled.
- struct page is held as parallel arrays (flags, private or slab_cache, freelist, list links); the union's overlay of private and slab_cache is kept, its memory layout is not.
- The memory of struct page itself, taken from memblock before page_frame_init tags frames, appears only through the reserved regions.
- sys_fork's kernel stack, trapframe and page-table base register; system-call results other than the child's slot and its address space.
- TLB and cache maintenance, locking, and preemption inside the allocators: each call is atomic.
- setup_page_table and the kernel's own attribute registers: a fixed table.
- Signals, exec, FAT32, tmpfs, vfs, cpio, the device tree, drivers, the shell and printf.
