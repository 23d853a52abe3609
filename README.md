# Multi-threaded memory allocator — Dafny model

This project models the core of a fixed-arena memory allocator. The arena is a
single buffer of `size` bytes. Every block in it is an 8-byte header word that
holds the block's size, followed by the payload. The allocator keeps two
singly linked lists of payload addresses: the **free list** and the
**allocated list**. Requests are served by one of three placement policies:
FIRST_FIT, BEST_FIT and WORST_FIT. A large enough block is split. After a block
is freed, one pass from the head of the free list merges every pair of
consecutive free blocks that touch, so a freed block can be absorbed into the
free block before it as well as absorb the ones after it. When the last
allocated block is freed, the arena returns to its initial state. Compaction
moves no block: it reports the allocated blocks, links another node for
offset 8 into the free list and overwrites the first header word. The
statistics only report.

The model has five modules:

- `BlockList` (`list.c`): the sorted linked list used for both lists.
  - A list is a `seq<int>` of payload offsets; offset 0 is the buffer start.
  - A node carries only its address, so a node is identified by that address.
  - `InsertBlock`, `FindBlock`, `DeleteBlock`, `FreeBlock` and `Destroy` are
    methods whose loops mirror the C.
  - `InsertBlock` is proved to return `Inserted`. `DeleteBlock` and
    `FreeBlock` are proved to return `RemoveFirst`.
  - `FindBlock`'s contract states its result directly: NULL exactly when the
    address is absent, otherwise the first index holding it. `FirstIndex` is
    the same search as a function, used by `RemoveFirst`.
  - `Destroy` leaves the list empty.
  - Header words are a map from byte offset to value. An offset that was
    never written reads as 0, as after `memset`.
- `ArenaSpec` (`myalloc.c`): the arena as a value, `Layout(freeList,
  allocList, mem)`, and the state change of each operation as a function:
  - `InitFree`: initialisation;
  - `Split`: the `allocator` helper;
  - `Released`, `CoalesceFrom` and `Deallocated`: deallocation;
  - `Compacted`: the compaction filter.

  The lemmas prove that the lists stay ordered, which nodes move where,
  which header words change, that coalescing leaves no mergeable neighbours
  and keeps the total free header sum, and that freeing the last block
  resets the arena.
- `Placement` (`myalloc.c`): the three search loops of `allocate`.
  - `FirstFitFrom`, `BestFitFrom` and `WorstFitFrom` are the reference
    definitions.
  - Each has a scanning method with loop invariants.
  - Lemmas characterise each choice, including when it is NULL and that it
    is the lowest, smallest or largest fitting block.
- `MyAlloc` (`myalloc.c`): the allocator object, a class `Arena`.
  - Its fields are the two lists and the header words; `size` and the policy
    are constants.
  - Every public function of the allocator is a method. Its postcondition
    gives the new state in terms of the `ArenaSpec` functions.
- `Scenarios`: concrete runs of the arena.
  - One exhibits the BEST_FIT behaviour described below.
  - One is a FIRST_FIT run in which a header grows past its block. A later
    split then writes a header inside another block's header, and the free
    list ends up holding one address twice.

### Where the code and its description disagree

In every case below, the model follows the code.

- **List order.** The list node's field is named `size` (`list.h:9`), and the
  comparisons on it read as if the lists were kept in block-size order.
  `List_insertBlock` (`list.c:22`, `list.c:30`) compares the `size` field of
  the nodes, which is a `void *` payload address. Both lists are therefore
  kept in **address order**.
  - `InsertedSortedPlace` pins down the tie rule. An address equal to the
    head goes right after the head. Otherwise it goes before the first entry
    that is not smaller.
  - Because of this order, FIRST_FIT picks the fitting block with the lowest
    address (`FirstFitLowestAddress`). It does not pick the smallest block.
  - Coalescing compares list neighbours, and these are the address
    neighbours. After a deallocation no two consecutive free blocks are
    mergeable (`CoalesceLeavesNoMergeable`).
- **Coalescing adds only the next header.** Merging adds the next block's
  header value to the current header (`myalloc.c:164`). It does not add
  header + 8. The sum of the free headers is therefore unchanged by
  coalescing (`CoalesceKeepsFreeSum`).
- **Compaction moves nothing.** `compact_allocation` moves no block.
  - It reports every allocated payload as both its "before" and its "after"
    address.
  - The address test `memory < current->size` always holds, which
    `CompactedAll` shows.
  - It pushes another node for offset 8 onto the free list.
  - It overwrites the first header word with the 8 bytes that start at the
    `int` field `size`. That value is the parameter `word0`.
- **The split test and the unsplit header.**
  - `allocator` splits only when the block's header is at least the request
    plus 8 (`myalloc.c:63`).
  - When it does not split, the header becomes the request plus the old
    header (`myalloc.c:71`, `myalloc.c:77`), not the old header. The header
    then describes more bytes than the block has.
  - Such a header can reach past the end of the buffer. In
    `BestFitMissesFittingBlock`, offset 26 of a 100-byte arena gets header
    144.
  - Such a header can also reach into the next block's header.
    `CarvedHeaderOverlapsLiveHeader` shows this in a 200-byte FIRST_FIT
    arena. The block at 36 gets header 35, although the header of the
    allocated block at 64 starts 20 bytes after its payload.
  - A later 19-byte split of that block writes its carved header at offset
    55. In the source those 8 bytes cover seven bytes of the header at 56.
  - The model keeps header words as separate cells, so that header keeps its
    value here (see "Left out").
  - In the same run, a 20-byte split carves a block at 64 while 64 is still
    on the free list, so the free list holds 64 twice
    (`SplitDuplicatesFreeAddress`).
- **BEST_FIT and WORST_FIT read the payload word.** After taking a candidate,
  the fragment size is computed from the word at the payload address
  (`myalloc.c:111`, `myalloc.c:127`), not from the header. The model takes
  that word as the parameter `peek`.
  - BEST_FIT starts its fragment at the arena size. WORST_FIT starts at 0.
  - When the payload word equals the header, BEST_FIT picks a fitting
    block with the smallest header and WORST_FIT one with the largest
    (`BestFitSmallestIfPeekReadsHeaders`, `WorstFitLargestIfPeekReadsHeaders`).
  - BEST_FIT returns NULL exactly when no free header lies between the
    request and the request plus the arena size (`BestFitChoice`). It can
    return NULL while a fitting block exists. `BestFitMissesFittingBlock`
    shows this for a 100-byte arena:
    1. allocate 10;
    2. allocate 70, which takes the whole remainder and gets header 144;
    3. free the 70-byte block;
    4. allocate 10 with BEST_FIT. The result is NULL, while FIRST_FIT would
       return offset 26.

## Model

| member | source | states |
|---|---|---|
| BlockList.GetSize | list.c:108-111 | the word read at an offset, 0 where never written (as after the `memset` at myalloc.c:27); `ReadAfterWrite` states its meaning |
| BlockList.ReadAfterWrite | list.c:108-111 | reading a header word returns the last value written there, and other words are unaffected |
| BlockList.InsertedAfter | list.c:29-33 | inserting past the head yields one more entry and exactly the old entries plus the new address (multiset) |
| BlockList.Inserted | list.c:18-35 | the list after insertion has one more entry and holds the old entries plus the new address (multiset) |
| BlockList.InsertAtPlace | list.c:22-33 | insertion splices the address in at one position: at the head iff the list is empty or the address is below the head; otherwise after every entry below it, before the first later entry not below it |
| BlockList.InsertedSortedPlace | list.c:22-33 | on a sorted list the new address lands after the head when equal to the head, otherwise before the first entry not smaller than it |
| BlockList.InsertedSorted | list.c:18-35 | insertion keeps a sorted list sorted |
| BlockList.InsertedAfterSorted | list.c:29-33 | inserting into a sorted tail keeps it sorted, and its new first entry is the address when the tail is empty or starts at or above it, else the old first entry |
| BlockList.InsertBlock | list.c:18-35 | the node-by-node walk returns exactly the specified insertion |
| BlockList.FindBlock | list.c:40-50 | NULL iff the address is not in the list; otherwise the index of its first occurrence |
| BlockList.FirstIndex | list.c:40-50 | the index found holds the address and no earlier entry does |
| BlockList.RemoveFirst | list.c:55-69 | unlinking removes one entry: length drops by one and the multiset loses exactly that address |
| BlockList.RemoveFirstSorted | list.c:55-69 | unlinking keeps a sorted list sorted |
| BlockList.RemoveFirstAnyOccurrence | list.c:55-69 | in a sorted list, unlinking any node holding the address gives the same list as unlinking the first |
| BlockList.DeleteBlock | list.c:55-69 | the head case and the predecessor walk together remove exactly the first occurrence |
| BlockList.FreeBlock | list.c:74-89 | freeing a node unlinks it exactly as deleting does |
| BlockList.Destroy | list.c:94-103 | destroying leaves the list empty |
| ArenaSpec.OrderedAboveStart | myalloc.c:185 | in an ordered list every address lies above the buffer start |
| ArenaSpec.InsertedOrdered | myalloc.c:30 | inserting an address of at least 8 keeps a list ordered |
| ArenaSpec.RemoveFirstOrdered | myalloc.c:74 | unlinking keeps a list ordered |
| ArenaSpec.CarveOrdered | myalloc.c:67-74 | inserting the split remainder and unlinking the chosen block keeps the free list ordered |
| ArenaSpec.Carve | myalloc.c:67-74 | the free list after a split keeps its length, loses the chosen address and gains the carved one (multiset) |
| ArenaSpec.InitFree | myalloc.c:25-34 | the free list gains offset 8, the buffer's words are zero except the first header, which is size - 8, and the allocated list is untouched |
| ArenaSpec.Initial | myalloc.c:36-46 | a new arena has the free list [8], no allocated block, and first header size - 8 |
| ArenaSpec.InitialState | myalloc.c:36-46 | a new arena is well formed: both lists are address-sorted and start at or above offset 8 |
| ArenaSpec.SplitWellFormed | myalloc.c:59-79 | taking a free block for a request keeps both lists ordered |
| ArenaSpec.Split | myalloc.c:59-79 | the chosen block joins the allocated list and leaves the free list; when its header is at least the request plus 8, the carved node at p + req + 8 joins the free list |
| ArenaSpec.SplitWords | myalloc.c:63-77 | when the header is at least request + 8, the block's header becomes the request and request + 8 + carved header equals the old header; otherwise the header becomes request + old header and it is the only word written; in both cases every other header word keeps its value |
| ArenaSpec.SplitWrites | myalloc.c:63-77 | when split, the block's header becomes the request and the remainder's header is the rest, so request + 8 + remainder equals the old header; otherwise the header becomes request + old header and no other word changes, not even the word at p + req; with a split no word other than the two headers changes |
| ArenaSpec.Merged | myalloc.c:161-166 | one merge leaves the allocated list alone and drops exactly the next free node |
| ArenaSpec.MergedShape | myalloc.c:161-166 | one merge removes the next node, keeps the list sorted, grows the current header by the next header and changes no other header |
| ArenaSpec.CoalesceFrom | myalloc.c:157-169 | the merge pass leaves the allocated list alone and only drops free-list entries: the free list's length and multiset can only shrink |
| ArenaSpec.MergedKeepsNoMergeable | myalloc.c:158-169 | a merge keeps every earlier pair of consecutive free blocks unmergeable |
| ArenaSpec.MergedKeepsSum | myalloc.c:161-166 | a merge keeps the sum of the free headers |
| ArenaSpec.MergedDistinct | myalloc.c:161-166 | a merge keeps the free addresses distinct |
| ArenaSpec.CoalesceLeavesNoMergeable | myalloc.c:158-169 | after the walk, no free block ends exactly where the next free block's header begins |
| ArenaSpec.CoalesceWellFormed | myalloc.c:158-169 | the walk keeps both lists ordered |
| ArenaSpec.CoalesceKeepsFreeSum | myalloc.c:158-169 | the walk keeps the sum of the free headers when the free addresses are distinct |
| ArenaSpec.Released | myalloc.c:147-156 | the block leaves the allocated list; while other blocks stay allocated it joins the free list (multiset) and no header changes; otherwise the arena becomes the initial one; the free list is non-empty afterwards |
| ArenaSpec.Deallocated | myalloc.c:139-171 | deallocation removes exactly the freed address from the allocated list, and the free list afterwards holds only entries of the released free list |
| ArenaSpec.InsertedDistinct | list.c:18-35 | linking an address that is not yet in a list without repeats keeps the list without repeats |
| ArenaSpec.InsertedSum | myalloc.c:149 | linking a block into the free list adds exactly its header to the sum of the free headers |
| ArenaSpec.DeallocatedFreeSum | myalloc.c:139-171 | while other blocks stay allocated and no free address repeats, deallocation adds exactly the freed block's header to the sum of the free headers |
| ArenaSpec.DeallocatedWellFormed | myalloc.c:139-171 | deallocation keeps both lists ordered and leaves no mergeable neighbours |
| ArenaSpec.DeallocateLastResets | myalloc.c:151-156 | freeing the only allocated block returns the arena to its initial state |
| ArenaSpec.Compacted | myalloc.c:180-192 | the reported addresses are at most as many as the allocated blocks |
| ArenaSpec.CompactedAll | myalloc.c:182-192 | every allocated block lies above the buffer start, so all of them are reported, in list order |
| ArenaSpec.SumHeaders | myalloc.c:201-214 | the header sum of a list is non-negative and at least every single header in it |
| ArenaSpec.MinHeader | myalloc.c:228-247 | the running minimum never exceeds its start value |
| ArenaSpec.MaxHeader | myalloc.c:224-247 | the running maximum is at least its start value |
| ArenaSpec.MinHeaderIsMinimum | myalloc.c:228-247 | the smallest-free statistic is at most every free header and the start value, and equals one of them |
| ArenaSpec.MaxHeaderIsMaximum | myalloc.c:224-247 | the largest-free statistic is at least every free header and the start value, and equals one of them |
| ArenaSpec.SumHeadersAppend | myalloc.c:207-211 | the header sum of two lists joined is the sum of their sums |
| Placement.FirstFitFrom | myalloc.c:90-102 | a first-fit choice from position i on is an index at or after i whose header is at least the request |
| Placement.WorstFitFrom | myalloc.c:103-118 | a worst-fit choice from position i on is the choice carried in, or an index at or after i whose header is at least the request |
| Placement.BestFitFrom | myalloc.c:119-134 | a best-fit choice from position i on is the choice carried in, or an index at or after i whose header is at least the request |
| Placement.FirstFitScan | myalloc.c:90-102 | the FIRST_FIT loop returns the reference first-fit choice |
| Placement.FirstFitChoice | myalloc.c:90-102 | FIRST_FIT is NULL iff every free header is below the request; otherwise its block fits and every earlier block does not |
| Placement.FirstFitLowestAddress | myalloc.c:90-102 | on an address-ordered free list, FIRST_FIT's block has the lowest address among the fitting blocks |
| Placement.WorstFitScan | myalloc.c:103-118 | the WORST_FIT loop returns the reference worst-fit choice |
| Placement.WorstFitChoice | myalloc.c:103-118 | WORST_FIT is NULL iff every free header is below the request; otherwise its block fits |
| Placement.WorstFitLargestIfPeekReadsHeaders | myalloc.c:103-118 | when the payload word equals the header, WORST_FIT's block has the largest header of all fitting blocks |
| Placement.BestFitScan | myalloc.c:119-134 | the BEST_FIT loop returns the reference best-fit choice |
| Placement.BestFitChoice | myalloc.c:119-134 | BEST_FIT's block fits; it is NULL iff no free header lies between the request and the request plus the arena size |
| Placement.BestFitSmallestIfPeekReadsHeaders | myalloc.c:119-134 | when the payload word equals the header, BEST_FIT's block has the smallest header of all fitting blocks |
| Placement.PickScan | myalloc.c:88-134 | the policy dispatch returns the chosen policy's reference choice |
| Placement.Pick | myalloc.c:88-134 | whatever the policy, a chosen block is a free-list index whose header is at least the request |
| MyAlloc.Allocation | myalloc.c:81-137 | NULL leaves the arena unchanged; otherwise the returned payload is a free block whose header is at least the request, and the arena is that block split for the request |
| MyAlloc.AllocationNull | myalloc.c:81-137 | FIRST_FIT and WORST_FIT return NULL iff no free header reaches the request; BEST_FIT iff none lies between request and request + arena size |
| MyAlloc.AllocationWellFormed | myalloc.c:81-137 | serving a request keeps both lists ordered under every policy |
| MyAlloc.SplitBlock | myalloc.c:59-79 | the helper's updates of the lists and header words produce exactly the specified split |
| MyAlloc.CoalesceWalk | myalloc.c:157-169 | the merging loop produces exactly the specified coalesced state |
| MyAlloc.Arena.constructor | myalloc.c:36-46 | a new allocator keeps its size and policy and is in the initial state |
| MyAlloc.Arena.InitFreeMemory | myalloc.c:25-34 | the arena becomes its initialised form, keeping the allocated list |
| MyAlloc.Arena.DestroyAllocator | myalloc.c:48-56 | both lists are emptied |
| MyAlloc.Arena.Allocator | myalloc.c:59-79 | returns the chosen payload and leaves the arena split for the request, still well formed |
| MyAlloc.Arena.Allocate | myalloc.c:81-137 | the result and new state are those of the allocation function, and the arena stays well formed |
| MyAlloc.Arena.Release | myalloc.c:146-156 | the block moves from the allocated to the free list, with reinitialisation when no block remains allocated |
| MyAlloc.Arena.Coalesce | myalloc.c:157-169 | the free list and headers become the coalesced state |
| MyAlloc.Arena.Deallocate | myalloc.c:139-171 | the new state is the specified deallocation, and the arena stays well formed |
| MyAlloc.Arena.ReportAllocated | myalloc.c:180-192 | the reporting loop writes exactly the allocated payloads above the buffer start, in list order, to both arrays, and leaves the rest of both arrays untouched |
| MyAlloc.Arena.CompactAllocation | myalloc.c:173-199 | every allocated block is reported with equal before and after addresses, the count equals the number of allocated blocks, the rest of both arrays is untouched, offset 8 joins the free list and the first header word is overwritten |
| MyAlloc.Arena.AddStartBlock | myalloc.c:193-196 | offset 8 is linked into the free list by the sorted insertion, the first header word becomes `word0`, the allocated list is unchanged and the arena stays well formed |
| MyAlloc.Arena.AvailableMemory | myalloc.c:201-214 | the result is the sum of the free headers |
| MyAlloc.Arena.GetStatistics | myalloc.c:216-250 | the statistics are the allocated header sum and count, the free header sum and count, and the largest and smallest free header |
| Scenarios.BestFitMissesFittingBlock | myalloc.c:119-134 | in a 100-byte arena, after allocating 10 and 70 and freeing the 70, BEST_FIT returns NULL for 10 bytes while FIRST_FIT returns offset 26 |
| Scenarios.GrownRun | myalloc.c:59-79 | in a 200-byte FIRST_FIT arena, allocating 20, 20 and 20, freeing 36, allocating 15 and freeing 36 leaves the block at 36 free with header 35, next to the allocated block at 64 |
| Scenarios.CarvedHeaderOverlapsLiveHeader | myalloc.c:63-68 | after that run, a 19-byte request splits the block at 36 and writes the carved header at offset 55, within 8 bytes before the header of the allocated block at 64, which the model keeps at 20 |
| Scenarios.SplitDuplicatesFreeAddress | myalloc.c:63-75 | after that run, freeing 64 merges it with the block at 92, and a 20-byte request then carves a block at 64 while 64 is free: the free list becomes [64, 64] |

## Left out

- The mutex (`myalloc.c:12`, `myalloc.c:43`, and its lock and unlock calls) is not modelled. Every operation is one atomic step.
- `malloc`, `free` and `memset` of the buffer and of list nodes are not modelled. The buffer is a map from byte offset to header word, not a sequence of bytes; the lines below say what that loses. Releasing it is not modelled.
- BlockList.ReadAfterWrite: "other words are unaffected" holds for the model's separate word cells only. In the source a header is 8 bytes of one byte buffer, so a write also changes any header that starts less than 8 bytes before or after it. Writes at offsets past the end of the buffer are kept in the model, while the source writes outside its buffer.
- ArenaSpec.SplitWords: writes never overlap in the model. Once a header is larger than its block, the carved header at p + req can fall inside a following header. The source overwrites part of that header; the model leaves it intact (`Scenarios.CarvedHeaderOverlapsLiveHeader`). A carved header past the buffer end is kept.
- ArenaSpec.SplitWrites: "no other word changes" is stated of the model's cells, for the reason given for `ArenaSpec.SplitWords`. In the source, headers that overlap the bytes written also change.
- ArenaSpec.MergedShape: "no other header changes" is stated of the model's cells. In the source, a header overlapping the 8 bytes of the grown header would change too. A merged header past the buffer end is kept.
- `List_createBlock` (`list.c:7-13`) is not a separate member. A node is its address, so node identity and aliasing of nodes are not modelled.
- Payload bytes written by callers are not modelled. The word BEST_FIT and WORST_FIT read at a payload address is the parameter `peek`.
- `List_getSizeInt` (`list.c:116-119`) truncates to `int`, and the `size_t` arithmetic can wrap. Neither is modelled: header values are unbounded naturals and a negative remainder cannot arise.
- MyAlloc.Arena.constructor requires `size >= 8`. The source asserts only `size > 0`, and for smaller sizes `size - 8` wraps as `size_t`.
- MyAlloc.Arena.Deallocate requires the address to be on the allocated list. For any other address the source dereferences NULL.
- MyAlloc.Arena.Release requires the address to be on the allocated list, for the same reason.
- MyAlloc.SplitBlock does both header writes before the list updates, while the source interleaves them. The two touch disjoint state, so the resulting arena is the same.
- MyAlloc.Arena.Allocator requires its block to be on the free list, which every caller in the source guarantees.
- MyAlloc.Arena.CompactAllocation requires both arrays to hold at least one entry per allocated block, which the source leaves to its caller. The 8 bytes copied from the `int` field `size` are the parameter `word0`.
- MyAlloc.Arena.DestroyAllocator does not model releasing the buffer, and it leaves the header words as they were.
- ArenaSpec.CoalesceKeepsFreeSum requires distinct free addresses. Two operations can put an address on the free list twice. Compaction adds a second node for offset 8 when 8 is already free. A split can carve a block at an address that is still free (`Scenarios.SplitDuplicatesFreeAddress`). The sum is not claimed in either case.
