/**
 * The allocator of myalloc.c: one arena with a fixed size and placement
 * policy, a free list and an allocated list of payload offsets, and the
 * header words of its buffer.  Each operation is a method whose loops
 * mirror the source's and whose postcondition ties the new state to the
 * state-change functions of ArenaSpec, where the properties are proved.
 */
module MyAlloc {
  import opened Wrappers
  import opened BlockList
  import opened ArenaSpec
  import opened Placement

  /** The source's `struct Stats`. */
  datatype Stats = Stats(
    allocatedSize: int,
    allocatedChunks: int,
    freeSize: int,
    freeChunks: int,
    largestFreeChunkSize: int,
    smallestFreeChunkSize: int)

  /** `allocate` as a state change: the arena after serving a request of
      `req` bytes, and the payload handed out (None for NULL).  `peek` gives
      the word at each payload offset and `size` is the arena size. */
  function Allocation(L: Layout, policy: Policy, req: int, peek: int -> int, size: int): (r: (Layout, Option<int>))
    requires req > 0
    ensures r.1.None? ==> r.0 == L
    ensures r.1.Some? ==> r.1.value in L.freeList && Hdr(L.mem, r.1.value) >= req && r.0 == Split(L, r.1.value, req)
  {
    var k := Pick(policy, L.freeList, L.mem, req, peek, size);
    if k.None? then (L, None)
    else (Split(L, L.freeList[k.value], req), Some(L.freeList[k.value]))
  }

  /** FIRST_FIT and WORST_FIT return NULL exactly when no free block's header
      is at least the request; BEST_FIT returns NULL exactly when no free
      block's header lies between the request and the request plus the arena
      size.  A NULL result leaves the lists and headers as they were. */
  lemma AllocationNull(L: Layout, policy: Policy, req: int, peek: int -> int, size: int)
    requires req > 0
    ensures policy != BestFit ==>
      (Allocation(L, policy, req, peek, size).1.None? <==> forall j :: 0 <= j < |L.freeList| ==> Hdr(L.mem, L.freeList[j]) < req)
    ensures policy == BestFit ==>
      (Allocation(L, policy, req, peek, size).1.None? <==>
        forall j :: 0 <= j < |L.freeList| ==> !(req <= Hdr(L.mem, L.freeList[j]) <= req + size))
  {
    match policy
    case FirstFit => FirstFitChoice(L.freeList, L.mem, req);
    case BestFit => BestFitChoice(L.freeList, L.mem, req, peek, size);
    case WorstFit => WorstFitChoice(L.freeList, L.mem, req, peek);
  }

  /** Serving a request keeps both lists ordered, whatever the policy. */
  lemma AllocationWellFormed(L: Layout, policy: Policy, req: int, peek: int -> int, size: int)
    requires WellFormed(L) && req > 0
    ensures WellFormed(Allocation(L, policy, req, peek, size).0)
  {
    var r := Allocation(L, policy, req, peek, size);
    if r.1.Some? {
      SplitWellFormed(L, r.1.value, req);
    }
  }

  /** The body of `allocator` on the arena's lists and words: the header S
      of the block at p decides whether a block is carved off after the
      request; the node for p moves to the allocated list and p's header
      becomes the request plus the remainder (0 after a split, S without).
      The header writes and the list updates touch disjoint state, so they
      are done as two groups rather than interleaved as in the source. */
  method SplitBlock(L: Layout, p: int, req: int) returns (r: Layout)
    requires p in L.freeList && req > 0
    ensures r == Split(L, p, req)
  {
    var s := Hdr(L.mem, p);
    // The header words: the carved block's header, then p's.
    var words: Words := L.mem;
    var remainder: nat := 0;
    if s >= req + HEADER_SIZE {
      var header := s - req - HEADER_SIZE;
      words := words[p + req := header];
    } else {
      remainder := s;
    }
    words := words[p - HEADER_SIZE := req + remainder];
    assert words == SplitWords(L.mem, p, req);
    // The lists: the carved node joins the free list, p's node moves over.
    var free := L.freeList;
    if s >= req + HEADER_SIZE {
      free := InsertBlock(free, CarvedAt(p, req));
      assert p in multiset(free);
    }
    free := DeleteBlock(free, p);
    var alloc := InsertBlock(L.allocList, p);
    if s >= req + HEADER_SIZE {
      SplitCarvedIs(L, p, req, free, alloc, words);
    } else {
      SplitWholeIs(L, p, req, free, alloc, words);
    }
    r := Layout(free, alloc, words);
  }

  /** The merge loop of `deallocate` on the arena's lists and words: walking
      from the head, while the current block ends where its successor's
      header begins, the successor's header value is added to the current
      header and the successor's node is unlinked; otherwise the walk moves
      on.  The walk starts at the head node, so the free list must not be
      empty. */
  method CoalesceWalk(L: Layout) returns (r: Layout)
    requires L.freeList != []
    ensures r == CoalesceFrom(L, 0)
  {
    var free: seq<int>, words: Words := L.freeList, L.mem;
    var current := 0;
    while current + 1 < |free|
      invariant CoalesceFrom(Layout(free, L.allocList, words), current) == CoalesceFrom(L, 0)
      decreases |free| - current
    {
      ghost var S := Layout(free, L.allocList, words);
      CoalesceStep(S, current);
      var here, next := free[current], free[current + 1];
      var currentSize := Hdr(words, here) + HEADER_SIZE;
      if here + currentSize == next {
        words := words[here - HEADER_SIZE := Hdr(words, here) + Hdr(words, next)];
        free := FreeBlock(free, next);
        MergedIs(S, current, free, words);
      } else {
        current := current + 1;
      }
    }
    assert CoalesceFrom(Layout(free, L.allocList, words), current) == Layout(free, L.allocList, words);
    r := Layout(free, L.allocList, words);
  }

  class Arena {
    /** The arena size in bytes and the placement policy, fixed at
        `initialize_allocator`. */
    const size: int
    const policy: Policy
    /** The free list and the allocated list, as payload offsets. */
    var freeList: seq<int>
    var allocList: seq<int>
    /** The buffer's header words. */
    var mem: Words

    function State(): Layout
      reads this
    {
      Layout(freeList, allocList, mem)
    }

    ghost predicate Valid()
      reads this
    {
      size >= HEADER_SIZE && WellFormed(State())
    }

    /** `initialize_allocator`: an empty allocated list, and the whole buffer
        one free block at offset 8. */
    constructor (size: int, policy: Policy)
      requires size >= HEADER_SIZE
      ensures this.size == size && this.policy == policy
      ensures State() == Initial(size)
      ensures Valid()
    {
      this.size := size;
      this.policy := policy;
      freeList := [];
      allocList := [];
      mem := map[];
      new;
      InitFreeMemory();
      InitialState(size);
    }

    /** `init_free_memory`: zero the buffer, link a node for offset 8 into the
        free list and store `size - 8` in the first header. */
    method InitFreeMemory()
      requires size >= HEADER_SIZE
      modifies this
      ensures State() == InitFree(old(State()), size)
    {
      mem := map[];
      freeList := InsertBlock(freeList, HEADER_SIZE);
      mem := mem[0 := size - HEADER_SIZE];
    }

    /** `destroy_allocator`: both lists are destroyed. */
    method DestroyAllocator()
      modifies this
      ensures freeList == [] && allocList == []
      ensures mem == old(mem)
    {
      allocList := Destroy(allocList);
      freeList := Destroy(freeList);
    }

    /** `allocator`: serve a request of `req` bytes from the free block at
        payload p, splitting it when its header leaves room for another
        header. */
    method Allocator(req: int, p: int) returns (r: int)
      requires Valid() && req > 0 && p in freeList
      modifies this
      ensures r == p
      ensures State() == Split(old(State()), p, req)
      ensures Valid()
    {
      SplitWellFormed(State(), p, req);
      var next := SplitBlock(State(), p, req);
      freeList, allocList, mem := next.freeList, next.allocList, next.mem;
      r := p;
    }

    /** `allocate`: pick a block by the arena's policy and hand it out, or
        return None (NULL).  `peek` gives the word at each payload offset,
        which BEST_FIT and WORST_FIT read. */
    method Allocate(req: int, peek: int -> int) returns (ptr: Option<int>)
      requires Valid() && req > 0
      modifies this
      ensures (State(), ptr) == Allocation(old(State()), policy, req, peek, size)
      ensures Valid()
    {
      var k := PickScan(policy, freeList, mem, req, peek, size);
      if k.Some? {
        var p := Allocator(req, freeList[k.value]);
        ptr := Some(p);
      } else {
        ptr := None;
      }
    }

    /** `deallocate` of the payload p, which must be allocated. */
    method Deallocate(p: int)
      requires Valid() && p in allocList
      modifies this
      ensures State() == Deallocated(old(State()), size, p)
      ensures Valid()
    {
      DeallocatedWellFormed(State(), size, p);
      Release(p);
      Coalesce();
    }

    /** The first half of `deallocate`: the node for p moves from the
        allocated list to the free list, and the arena is re-initialised when
        nothing is left allocated. */
    method Release(p: int)
      requires size >= HEADER_SIZE && p in allocList
      modifies this
      ensures State() == Released(old(State()), size, p)
    {
      var found := FindBlock(allocList, p);
      assert found == Some(FirstIndex(allocList, p));
      var alloc := DeleteBlock(allocList, p);
      var free := InsertBlock(freeList, p);
      allocList, freeList := alloc, free;
      if allocList == [] {
        freeList := Destroy(freeList);
        InitFreeMemory();
      }
    }

    /** The merge pass of `deallocate`: walking from the head, while the
        current block ends where its successor's header begins, the
        successor's header value is added to the current header and the
        successor's node is unlinked; otherwise the walk moves on.  The walk
        starts at the head node, so the free list must not be empty. */
    method Coalesce()
      requires freeList != []
      modifies this
      ensures State() == CoalesceFrom(old(State()), 0)
    {
      var next := CoalesceWalk(State());
      freeList, mem := next.freeList, next.mem;
    }

    /** The reporting loop of `compact_allocation`: every allocated payload
        above the buffer start, in list order, is written to both arrays. */
    method ReportAllocated(before: array<int>, after: array<int>) returns (count: int)
      requires before.Length >= |allocList| && after.Length >= |allocList|
      modifies before, after
      ensures count == |Compacted(allocList)|
      ensures before[..count] == Compacted(allocList) && after[..count] == before[..count]
      ensures before[count..] == old(before[count..]) && after[count..] == old(after[count..])
    {
      count := 0;
      var current := 0;
      while current < |allocList|
        invariant current <= |allocList|
        invariant count == |Compacted(allocList[..current])|
        invariant before[..count] == Compacted(allocList[..current]) && after[..count] == before[..count]
        invariant before[count..] == old(before[count..]) && after[count..] == old(after[count..])
      {
        assert allocList[..current + 1][..current] == allocList[..current];
        if 0 < allocList[current] {
          before[count] := allocList[current];
          after[count] := allocList[current];
          count := count + 1;
        }
        current := current + 1;
      }
      assert allocList[..current] == allocList;
    }

    /** `compact_allocation`: report every allocated payload, in list order,
        as both its old and its new position, then link a node for offset 8
        into the free list and store `word0` in the first header (the source
        copies 8 bytes from its 4-byte size field there). */
    method CompactAllocation(before: array<int>, after: array<int>, word0: nat) returns (count: int)
      requires Valid()
      requires before.Length >= |allocList| && after.Length >= |allocList|
      modifies this, before, after
      ensures allocList == old(allocList)
      ensures count == |Compacted(allocList)| == |allocList|
      ensures before[..count] == Compacted(allocList) == allocList
      ensures after[..count] == allocList
      ensures before[count..] == old(before[count..]) && after[count..] == old(after[count..])
      ensures freeList == Inserted(old(freeList), HEADER_SIZE)
      ensures mem == old(mem)[0 := word0]
      ensures Valid()
    {
      OrderedAboveStart(allocList);
      CompactedAll(allocList);
      count := ReportAllocated(before, after);
      AddStartBlock(word0);
    }

    /** The end of `compact_allocation`: link a node for offset 8 into the
        free list and store `word0` in the first header. */
    method AddStartBlock(word0: nat)
      requires Valid()
      modifies this
      ensures allocList == old(allocList)
      ensures freeList == Inserted(old(freeList), HEADER_SIZE)
      ensures mem == old(mem)[0 := word0]
      ensures Valid()
    {
      InsertedOrdered(freeList, HEADER_SIZE);
      freeList := InsertBlock(freeList, HEADER_SIZE);
      mem := mem[0 := word0];
    }

    /** `available_memory`: the sum of the free blocks' headers. */
    method AvailableMemory() returns (n: int)
      ensures n == SumHeaders(mem, freeList)
    {
      n := 0;
      var current := 0;
      while current < |freeList|
        invariant current <= |freeList|
        invariant n == SumHeaders(mem, freeList[..current])
      {
        assert freeList[..current + 1][..current] == freeList[..current];
        n := n + GetSize(mem, freeList[current] - HEADER_SIZE);
        current := current + 1;
      }
      assert freeList[..current] == freeList;
    }

    /** `get_statistics`: sums and counts of both lists, and the smallest and
        largest free header, starting from the arena size and from 0. */
    method GetStatistics() returns (st: Stats)
      ensures st == Stats(SumHeaders(mem, allocList), |allocList|, SumHeaders(mem, freeList), |freeList|,
                          MaxHeader(mem, freeList, 0), MinHeader(mem, freeList, size))
    {
      var allocatedSize, allocatedChunks := 0, 0;
      var freeSize, freeChunks := 0, 0;
      var largest, smallest := 0, size;
      var current := 0;
      while current < |allocList|
        invariant current <= |allocList| && allocatedChunks == current
        invariant allocatedSize == SumHeaders(mem, allocList[..current])
      {
        assert allocList[..current + 1][..current] == allocList[..current];
        allocatedSize := allocatedSize + GetSize(mem, allocList[current] - HEADER_SIZE);
        allocatedChunks := allocatedChunks + 1;
        current := current + 1;
      }
      assert allocList[..current] == allocList;
      current := 0;
      while current < |freeList|
        invariant current <= |freeList| && freeChunks == current
        invariant freeSize == SumHeaders(mem, freeList[..current])
        invariant smallest == MinHeader(mem, freeList[..current], size)
        invariant largest == MaxHeader(mem, freeList[..current], 0)
      {
        assert freeList[..current + 1][..current] == freeList[..current];
        var chunk := GetSize(mem, freeList[current] - HEADER_SIZE);
        freeSize := freeSize + chunk;
        smallest := if smallest < chunk then smallest else chunk;
        largest := if largest > chunk then largest else chunk;
        freeChunks := freeChunks + 1;
        current := current + 1;
      }
      assert freeList[..current] == freeList;
      st := Stats(allocatedSize, allocatedChunks, freeSize, freeChunks, largest, smallest);
    }
  }
}
