/**
 * The arena's state as a value, and the state changes the operations of
 * myalloc.c make, as functions.  The class in myalloc.dfy is proved against
 * these; the lemmas here state what the changes promise.
 *
 * Offsets are relative to the start of the arena buffer: a block's payload
 * at offset p has its 8-byte header word at offset p - 8, and the first
 * payload is at offset 8.
 */
module ArenaSpec {
  import opened Wrappers
  import opened BlockList

  const HEADER_SIZE: int := 8

  /** The header of the block whose payload is at offset p. */
  function Hdr(mem: Words, p: int): nat
  {
    GetSize(mem, p - HEADER_SIZE)
  }

  /** The free list, the allocated list and the buffer's header words. */
  datatype Layout = Layout(freeList: seq<int>, allocList: seq<int>, mem: Words)

  /** Every payload lies at or past the first payload offset. */
  predicate AboveStart(s: seq<int>)
  {
    forall i :: 0 <= i < |s| ==> s[i] >= HEADER_SIZE
  }

  /** A list as the arena keeps it: address-sorted, and (so) no payload
      before offset 8. */
  predicate Ordered(s: seq<int>)
  {
    Sorted(s) && (s == [] || s[0] >= HEADER_SIZE)
  }

  lemma OrderedAboveStart(s: seq<int>)
    requires Ordered(s)
    ensures AboveStart(s)
  {
    forall i | 0 <= i < |s| ensures s[i] >= HEADER_SIZE {
      assert s[0] <= s[i];
    }
  }

  /** The payloads `compact_allocation` reports from a list: those past the
      start of the buffer, in list order. */
  function Compacted(s: seq<int>): (r: seq<int>)
    ensures |r| <= |s|
  {
    if s == [] then []
    else Compacted(s[..|s| - 1]) + (if s[|s| - 1] > 0 then [s[|s| - 1]] else [])
  }

  /** When every payload lies at or past offset 8, every one is reported. */
  lemma {:induction false} CompactedAll(s: seq<int>)
    requires AboveStart(s)
    ensures Compacted(s) == s
  {
    if s != [] {
      var t := s[..|s| - 1];
      assert AboveStart(t);
      CompactedAll(t);
    }
  }

  /** What every arena operation keeps: both lists ordered. */
  predicate WellFormed(L: Layout)
  {
    Ordered(L.freeList) && Ordered(L.allocList)
  }

  predicate Distinct(s: seq<int>)
  {
    forall i, j :: 0 <= i < j < |s| ==> s[i] != s[j]
  }

  lemma InsertedOrdered(s: seq<int>, a: int)
    requires Ordered(s) && a >= HEADER_SIZE
    ensures Ordered(Inserted(s, a))
  {
    InsertedSorted(s, a);
  }

  lemma RemoveFirstOrdered(s: seq<int>, a: int)
    requires Ordered(s) && a in s
    ensures Ordered(RemoveFirst(s, a))
  {
    RemoveFirstSorted(s, a);
    var r := RemoveFirst(s, a);
    if r != [] {
      assert r[0] == s[0] || r[0] == s[1];
      assert s[0] <= r[0];
    }
  }

  /** The free list after a split: a node for the carved block q is linked
      in, then the node for p is unlinked. */
  function Carve(s: seq<int>, p: int, q: int): (r: seq<int>)
    requires p in s
    ensures |r| == |s|
    ensures multiset(r) == multiset(s) - multiset{p} + multiset{q}
  {
    assert p in multiset(Inserted(s, q));
    RemoveFirst(Inserted(s, q), p)
  }

  lemma CarveOrdered(s: seq<int>, p: int, q: int)
    requires Ordered(s) && p in s && q >= HEADER_SIZE
    ensures Ordered(Carve(s, p, q))
  {
    InsertedOrdered(s, q);
    assert p in multiset(Inserted(s, q));
    RemoveFirstOrdered(Inserted(s, q), p);
  }

  // ----------------------------------------------------------------------
  // Initialisation

  /** `init_free_memory`: zero the buffer, store `size - 8` in the first
      header and link a node for the payload at offset 8 into the free list. */
  function InitFree(L: Layout, size: int): (r: Layout)
    requires size >= HEADER_SIZE
    ensures r.allocList == L.allocList
    ensures multiset(r.freeList) == multiset(L.freeList) + multiset{HEADER_SIZE}
    ensures Hdr(r.mem, HEADER_SIZE) == size - HEADER_SIZE
    ensures forall off :: off != 0 ==> GetSize(r.mem, off) == 0
  {
    Layout(Inserted(L.freeList, HEADER_SIZE), L.allocList, map[0 := size - HEADER_SIZE])
  }

  /** The arena right after `initialize_allocator`. */
  function Initial(size: int): (r: Layout)
    requires size >= HEADER_SIZE
    ensures r.freeList == [HEADER_SIZE] && r.allocList == []
    ensures Hdr(r.mem, HEADER_SIZE) == size - HEADER_SIZE
  {
    InitFree(Layout([], [], map[]), size)
  }

  /** The arena right after initialisation is well formed. */
  lemma InitialState(size: int)
    requires size >= HEADER_SIZE
    ensures WellFormed(Initial(size))
  {
  }

  // ----------------------------------------------------------------------
  // Splitting (`allocator`)

  /** The payload of the block carved off after a request of `req` bytes at p. */
  function CarvedAt(p: int, req: int): int
  {
    p + req + HEADER_SIZE
  }

  /** `allocator`: hand out the free block at payload p for a request of
      `req` bytes.  When its header S is at least req + 8, a free block is
      carved at p + req + 8 with header S - req - 8 and p's header becomes
      req; otherwise no block is carved and p's header becomes req + S.
      Either way the node moves from the free list to the allocated list,
      and with a split a node for the carved block joins the free list. */
  function Split(L: Layout, p: int, req: int): (r: Layout)
    requires p in L.freeList && req > 0
    ensures multiset(r.allocList) == multiset(L.allocList) + multiset{p}
    ensures Hdr(L.mem, p) >= req + HEADER_SIZE ==>
      multiset(r.freeList) == multiset(L.freeList) - multiset{p} + multiset{CarvedAt(p, req)}
    ensures Hdr(L.mem, p) < req + HEADER_SIZE ==>
      multiset(r.freeList) == multiset(L.freeList) - multiset{p}
  {
    if Hdr(L.mem, p) >= req + HEADER_SIZE then
      Layout(Carve(L.freeList, p, CarvedAt(p, req)), Inserted(L.allocList, p), SplitWords(L.mem, p, req))
    else
      Layout(RemoveFirst(L.freeList, p), Inserted(L.allocList, p), SplitWords(L.mem, p, req))
  }

  /** The header words after the split of the block at p.  With a split,
      p's header becomes req and the carved block's header takes the rest of
      the old one: req + 8 + new header == S.  Without, p's header becomes
      req + S and no other word is written. */
  function SplitWords(mem: Words, p: int, req: int): (r: Words)
    requires req > 0
    ensures Hdr(mem, p) >= req + HEADER_SIZE ==>
      && Hdr(r, p) == req
      && req + HEADER_SIZE + Hdr(r, CarvedAt(p, req)) == Hdr(mem, p)
    ensures Hdr(mem, p) < req + HEADER_SIZE ==> Hdr(r, p) == req + Hdr(mem, p)
    ensures forall off :: off != p - HEADER_SIZE && off != p + req ==> GetSize(r, off) == GetSize(mem, off)
    ensures Hdr(mem, p) < req + HEADER_SIZE ==>
      forall off :: off != p - HEADER_SIZE ==> GetSize(r, off) == GetSize(mem, off)
  {
    var s := Hdr(mem, p);
    if s >= req + HEADER_SIZE then mem[p + req := s - req - HEADER_SIZE][p - HEADER_SIZE := req]
    else mem[p - HEADER_SIZE := req + s]
  }

  /** The state the source's split branch builds is `Split`'s. */
  lemma SplitCarvedIs(L: Layout, p: int, req: int, free: seq<int>, alloc: seq<int>, words: Words)
    requires p in L.freeList && req > 0 && Hdr(L.mem, p) >= req + HEADER_SIZE
    requires free == Carve(L.freeList, p, CarvedAt(p, req)) && alloc == Inserted(L.allocList, p)
    requires words == SplitWords(L.mem, p, req)
    ensures Layout(free, alloc, words) == Split(L, p, req)
  {
  }

  /** The state the source's no-split branch builds is `Split`'s. */
  lemma SplitWholeIs(L: Layout, p: int, req: int, free: seq<int>, alloc: seq<int>, words: Words)
    requires p in L.freeList && req > 0 && Hdr(L.mem, p) < req + HEADER_SIZE
    requires free == RemoveFirst(L.freeList, p) && alloc == Inserted(L.allocList, p)
    requires words == SplitWords(L.mem, p, req)
    ensures Layout(free, alloc, words) == Split(L, p, req)
  {
  }

  /** Splitting keeps both lists ordered. */
  lemma SplitWellFormed(L: Layout, p: int, req: int)
    requires WellFormed(L) && p in L.freeList && req > 0
    ensures WellFormed(Split(L, p, req))
  {
    assert p >= HEADER_SIZE;
    InsertedOrdered(L.allocList, p);
    if Hdr(L.mem, p) >= req + HEADER_SIZE {
      CarveOrdered(L.freeList, p, CarvedAt(p, req));
    } else {
      RemoveFirstOrdered(L.freeList, p);
    }
  }

  /** What `allocator` does to the headers.  With a split, p's header becomes
      req and the carved block's header takes the rest of the old one:
      req + 8 + new header == S.  Without, p's header becomes req + S and
      that is the only word written.  No other word changes. */
  lemma SplitWrites(L: Layout, p: int, req: int)
    requires p in L.freeList && req > 0
    ensures Hdr(L.mem, p) >= req + HEADER_SIZE ==>
      && Hdr(Split(L, p, req).mem, p) == req
      && req + HEADER_SIZE + Hdr(Split(L, p, req).mem, CarvedAt(p, req)) == Hdr(L.mem, p)
    ensures Hdr(L.mem, p) < req + HEADER_SIZE ==>
      Hdr(Split(L, p, req).mem, p) == req + Hdr(L.mem, p)
    ensures forall off :: off != p - HEADER_SIZE && off != p + req ==>
      GetSize(Split(L, p, req).mem, off) == GetSize(L.mem, off)
    ensures Hdr(L.mem, p) < req + HEADER_SIZE ==>
      forall off :: off != p - HEADER_SIZE ==> GetSize(Split(L, p, req).mem, off) == GetSize(L.mem, off)
  {
  }

  // ----------------------------------------------------------------------
  // Coalescing (the merge pass of `deallocate`)

  /** The block at p ends exactly where q's header begins. */
  predicate Mergeable(mem: Words, p: int, q: int)
  {
    p + Hdr(mem, p) + HEADER_SIZE == q
  }

  /** One merge: the successor's header value (not its 8 header bytes) is
      added to the header of the entry at position i, and the successor's
      node is unlinked. */
  function Merged(L: Layout, i: nat): (r: Layout)
    requires i + 1 < |L.freeList|
    ensures r.allocList == L.allocList
    ensures |r.freeList| == |L.freeList| - 1
    ensures multiset(r.freeList) == multiset(L.freeList) - multiset{L.freeList[i + 1]}
  {
    var p, q := L.freeList[i], L.freeList[i + 1];
    Layout(RemoveFirst(L.freeList, q), L.allocList, L.mem[p - HEADER_SIZE := Hdr(L.mem, p) + Hdr(L.mem, q)])
  }

  /** The merge pass from list position i on: when the entry at i and its
      successor are mergeable they are merged and position i is examined
      again; otherwise the pass moves on. */
  function CoalesceFrom(L: Layout, i: nat): (r: Layout)
    ensures r.allocList == L.allocList
    ensures |r.freeList| <= |L.freeList|
    ensures multiset(r.freeList) <= multiset(L.freeList)
    decreases |L.freeList| - i
  {
    if i + 1 >= |L.freeList| then L
    else if Mergeable(L.mem, L.freeList[i], L.freeList[i + 1]) then CoalesceFrom(Merged(L, i), i)
    else CoalesceFrom(L, i + 1)
  }

  /** One step of the pass at position i, as the source's loop takes it:
      a merge stays at i, otherwise the pass moves to i + 1. */
  lemma CoalesceStep(L: Layout, i: nat)
    requires i + 1 < |L.freeList|
    ensures Mergeable(L.mem, L.freeList[i], L.freeList[i + 1]) ==>
      CoalesceFrom(L, i) == CoalesceFrom(Merged(L, i), i)
    ensures !Mergeable(L.mem, L.freeList[i], L.freeList[i + 1]) ==>
      CoalesceFrom(L, i) == CoalesceFrom(L, i + 1)
  {
  }

  /** The state the source's merge step builds is `Merged`'s. */
  lemma MergedIs(L: Layout, i: nat, free: seq<int>, words: Words)
    requires i + 1 < |L.freeList|
    requires free == RemoveFirst(L.freeList, L.freeList[i + 1])
    requires words == L.mem[L.freeList[i] - HEADER_SIZE := Hdr(L.mem, L.freeList[i]) + Hdr(L.mem, L.freeList[i + 1])]
    ensures Layout(free, L.allocList, words) == Merged(L, i)
  {
  }

  /** No two list neighbours before position n are mergeable. */
  predicate NoMergeableBefore(L: Layout, n: int)
  {
    forall j :: 0 <= j < n && j + 1 < |L.freeList| ==> !Mergeable(L.mem, L.freeList[j], L.freeList[j + 1])
  }

  /** In a sorted list the successor's node is the first node holding its
      address, so a merge removes exactly position i + 1; the list stays
      sorted; the entry's header grows by the successor's and no other
      header changes. */
  lemma MergedShape(L: Layout, i: nat)
    requires Sorted(L.freeList) && i + 1 < |L.freeList|
    ensures Merged(L, i).freeList == L.freeList[..i + 1] + L.freeList[i + 2..]
    ensures Sorted(Merged(L, i).freeList)
    ensures Hdr(Merged(L, i).mem, L.freeList[i]) == Hdr(L.mem, L.freeList[i]) + Hdr(L.mem, L.freeList[i + 1])
    ensures forall x :: x != L.freeList[i] ==> Hdr(Merged(L, i).mem, x) == Hdr(L.mem, x)
  {
    RemoveFirstAnyOccurrence(L.freeList, L.freeList[i + 1], i + 1);
    RemoveFirstSorted(L.freeList, L.freeList[i + 1]);
  }

  /** A merge at position i keeps the neighbours before i unmergeable. */
  lemma MergedKeepsNoMergeable(L: Layout, i: nat)
    requires Sorted(L.freeList) && i + 1 < |L.freeList| && NoMergeableBefore(L, i)
    ensures NoMergeableBefore(Merged(L, i), i)
  {
    MergedShape(L, i);
    var L' := Merged(L, i);
    forall j | 0 <= j < i && j + 1 < |L'.freeList|
      ensures !Mergeable(L'.mem, L'.freeList[j], L'.freeList[j + 1])
    {
      var a, b := L.freeList[j], L.freeList[j + 1];
      assert L'.freeList[j] == a && L'.freeList[j + 1] == b;
      if a == L.freeList[i] {
        assert b <= L.freeList[i];
      } else {
        assert Hdr(L'.mem, a) == Hdr(L.mem, a);
      }
    }
  }

  /** After the pass, no two neighbours in the free list are mergeable. */
  lemma {:induction false} CoalesceLeavesNoMergeable(L: Layout, i: nat)
    requires Sorted(L.freeList) && NoMergeableBefore(L, i)
    ensures NoMergeableBefore(CoalesceFrom(L, i), |CoalesceFrom(L, i).freeList|)
    decreases |L.freeList| - i
  {
    if i + 1 < |L.freeList| {
      if Mergeable(L.mem, L.freeList[i], L.freeList[i + 1]) {
        MergedShape(L, i);
        MergedKeepsNoMergeable(L, i);
        CoalesceLeavesNoMergeable(Merged(L, i), i);
      } else {
        CoalesceLeavesNoMergeable(L, i + 1);
      }
    }
  }

  /** The pass keeps the free list sorted and above the buffer start. */
  lemma {:induction false} CoalesceWellFormed(L: Layout, i: nat)
    requires WellFormed(L)
    ensures WellFormed(CoalesceFrom(L, i))
    decreases |L.freeList| - i
  {
    if i + 1 < |L.freeList| {
      if Mergeable(L.mem, L.freeList[i], L.freeList[i + 1]) {
        RemoveFirstOrdered(L.freeList, L.freeList[i + 1]);
        CoalesceWellFormed(Merged(L, i), i);
      } else {
        CoalesceWellFormed(L, i + 1);
      }
    }
  }

  // ----------------------------------------------------------------------
  // Sums and extremes of headers (`available_memory`, `get_statistics`)

  /** The sum of the headers of the blocks in s. */
  function SumHeaders(mem: Words, s: seq<int>): (r: int)
    ensures r >= 0
    ensures forall j :: 0 <= j < |s| ==> Hdr(mem, s[j]) <= r
  {
    if s == [] then 0
    else
      var t := s[..|s| - 1];
      assert forall j :: 0 <= j < |t| ==> t[j] == s[j];
      SumHeaders(mem, t) + Hdr(mem, s[|s| - 1])
  }

  /** The smaller of `lo` and every header of the blocks in s. */
  function MinHeader(mem: Words, s: seq<int>, lo: int): (r: int)
    ensures r <= lo
  {
    if s == [] then lo
    else
      var m := MinHeader(mem, s[..|s| - 1], lo);
      var h := Hdr(mem, s[|s| - 1]);
      if m < h then m else h
  }

  /** The larger of `hi` and every header of the blocks in s. */
  function MaxHeader(mem: Words, s: seq<int>, hi: int): (r: int)
    ensures r >= hi
  {
    if s == [] then hi
    else
      var m := MaxHeader(mem, s[..|s| - 1], hi);
      var h := Hdr(mem, s[|s| - 1]);
      if m > h then m else h
  }

  /** MinHeader is a lower bound of `lo` and of every header, and is one of them. */
  lemma {:induction false} MinHeaderIsMinimum(mem: Words, s: seq<int>, lo: int)
    ensures MinHeader(mem, s, lo) <= lo
    ensures forall j :: 0 <= j < |s| ==> MinHeader(mem, s, lo) <= Hdr(mem, s[j])
    ensures MinHeader(mem, s, lo) == lo || exists j :: 0 <= j < |s| && MinHeader(mem, s, lo) == Hdr(mem, s[j])
  {
    if s != [] {
      var t := s[..|s| - 1];
      MinHeaderIsMinimum(mem, t, lo);
      forall j | 0 <= j < |s| - 1 ensures s[j] == t[j] { }
    }
  }

  /** MaxHeader is an upper bound of `hi` and of every header, and is one of them. */
  lemma {:induction false} MaxHeaderIsMaximum(mem: Words, s: seq<int>, hi: int)
    ensures MaxHeader(mem, s, hi) >= hi
    ensures forall j :: 0 <= j < |s| ==> MaxHeader(mem, s, hi) >= Hdr(mem, s[j])
    ensures MaxHeader(mem, s, hi) == hi || exists j :: 0 <= j < |s| && MaxHeader(mem, s, hi) == Hdr(mem, s[j])
  {
    if s != [] {
      var t := s[..|s| - 1];
      MaxHeaderIsMaximum(mem, t, hi);
      forall j | 0 <= j < |s| - 1 ensures s[j] == t[j] { }
    }
  }

  lemma {:induction false} SumHeadersAppend(mem: Words, a: seq<int>, b: seq<int>)
    ensures SumHeaders(mem, a + b) == SumHeaders(mem, a) + SumHeaders(mem, b)
    decreases |b|
  {
    if b == [] {
      assert a + b == a;
    } else {
      var b' := b[..|b| - 1];
      assert (a + b)[..|a + b| - 1] == a + b';
      SumHeadersAppend(mem, a, b');
    }
  }

  lemma {:induction false} SumHeadersSameHeaders(mem: Words, mem': Words, s: seq<int>)
    requires forall j :: 0 <= j < |s| ==> Hdr(mem, s[j]) == Hdr(mem', s[j])
    ensures SumHeaders(mem, s) == SumHeaders(mem', s)
    decreases |s|
  {
    if s != [] {
      SumHeadersSameHeaders(mem, mem', s[..|s| - 1]);
    }
  }

  /** Header sums over front + [p] + back and front + [p, q] + back agree
      when p's header grew by q's and front and back kept theirs. */
  lemma SumHeadersAbsorb(mem: Words, mem': Words, front: seq<int>, p: int, q: int, back: seq<int>)
    requires forall j :: 0 <= j < |front| ==> Hdr(mem, front[j]) == Hdr(mem', front[j])
    requires forall j :: 0 <= j < |back| ==> Hdr(mem, back[j]) == Hdr(mem', back[j])
    requires Hdr(mem', p) == Hdr(mem, p) + Hdr(mem, q)
    ensures SumHeaders(mem', front + [p] + back) == SumHeaders(mem, front + [p] + [q] + back)
  {
    SumHeadersSameHeaders(mem, mem', front);
    SumHeadersSameHeaders(mem, mem', back);
    SumHeadersAppend(mem, front + [p] + [q], back);
    SumHeadersAppend(mem, front + [p], [q]);
    SumHeadersAppend(mem, front, [p]);
    SumHeadersAppend(mem', front + [p], back);
    SumHeadersAppend(mem', front, [p]);
  }

  /** With the list cut as front + [p, q] + back, the merge's header sum is
      the old one: p's header absorbs q's value and front and back keep
      theirs. */
  lemma MergedKeepsSum(L: Layout, i: nat)
    requires Sorted(L.freeList) && Distinct(L.freeList) && i + 1 < |L.freeList|
    ensures SumHeaders(Merged(L, i).mem, Merged(L, i).freeList) == SumHeaders(L.mem, L.freeList)
  {
    var s := L.freeList;
    var p, q := s[i], s[i + 1];
    var mem' := Merged(L, i).mem;
    var front, back := s[..i], s[i + 2..];
    assert s == front + [p] + [q] + back;
    assert Merged(L, i).freeList == front + [p] + back by { MergedShape(L, i); }
    assert Hdr(mem', p) == Hdr(L.mem, p) + Hdr(L.mem, q) by { MergedShape(L, i); }
    forall j | 0 <= j < |front| ensures Hdr(L.mem, front[j]) == Hdr(mem', front[j]) {
      assert front[j] == s[j] != p;
      MergedShape(L, i);
    }
    forall j | 0 <= j < |back| ensures Hdr(L.mem, back[j]) == Hdr(mem', back[j]) {
      assert back[j] == s[i + 2 + j] != p;
      MergedShape(L, i);
    }
    SumHeadersAbsorb(L.mem, mem', front, p, q, back);
  }

  lemma MergedDistinct(L: Layout, i: nat)
    requires Sorted(L.freeList) && Distinct(L.freeList) && i + 1 < |L.freeList|
    ensures Distinct(Merged(L, i).freeList)
  {
    var r := Merged(L, i).freeList;
    assert r == L.freeList[..i + 1] + L.freeList[i + 2..] by { MergedShape(L, i); }
    forall x, y | 0 <= x < y < |r| ensures r[x] != r[y] {
      var x' := if x <= i then x else x + 1;
      var y' := if y <= i then y else y + 1;
      assert r[x] == L.freeList[x'] && r[y] == L.freeList[y'];
    }
  }

  /** When no address repeats, the merge pass leaves the sum of free headers
      unchanged: a merge adds the absorbed header's value, so the absorbed
      block's 8 header bytes are not counted as free afterwards. */
  lemma {:induction false} CoalesceKeepsFreeSum(L: Layout, i: nat)
    requires Sorted(L.freeList) && Distinct(L.freeList)
    ensures SumHeaders(CoalesceFrom(L, i).mem, CoalesceFrom(L, i).freeList) == SumHeaders(L.mem, L.freeList)
    decreases |L.freeList| - i
  {
    if i + 1 < |L.freeList| {
      if Mergeable(L.mem, L.freeList[i], L.freeList[i + 1]) {
        MergedShape(L, i);
        MergedKeepsSum(L, i);
        MergedDistinct(L, i);
        CoalesceKeepsFreeSum(Merged(L, i), i);
      } else {
        CoalesceKeepsFreeSum(L, i + 1);
      }
    }
  }

  // ----------------------------------------------------------------------
  // Deallocation

  /** The first half of `deallocate` of the block at payload p: its node
      moves from the allocated list to the free list; if the allocated list
      is then empty, the free list is destroyed and the buffer
      re-initialised. */
  function Released(L: Layout, size: int, p: int): (r: Layout)
    requires p in L.allocList && size >= HEADER_SIZE
    ensures multiset(r.allocList) == multiset(L.allocList) - multiset{p}
    ensures r.freeList != []
    ensures RemoveFirst(L.allocList, p) != [] ==>
      multiset(r.freeList) == multiset(L.freeList) + multiset{p} && r.mem == L.mem
    ensures RemoveFirst(L.allocList, p) == [] ==> r == Initial(size)
  {
    var alloc := RemoveFirst(L.allocList, p);
    var L1 := Layout(Inserted(L.freeList, p), alloc, L.mem);
    if alloc == [] then InitFree(Layout([], alloc, L1.mem), size) else L1
  }

  /** `deallocate` of the block at payload p: the release, then the merge
      pass over the free list from its head. */
  function Deallocated(L: Layout, size: int, p: int): (r: Layout)
    requires p in L.allocList && size >= HEADER_SIZE
    ensures multiset(r.allocList) == multiset(L.allocList) - multiset{p}
    ensures multiset(r.freeList) <= multiset(Released(L, size, p).freeList)
  {
    CoalesceFrom(Released(L, size, p), 0)
  }

  /** Linking a new address into a list without repeats keeps it without
      repeats. */
  lemma InsertedDistinct(s: seq<int>, a: int)
    requires Distinct(s) && a !in s
    ensures Distinct(Inserted(s, a))
  {
    var k := InsertAt(s, a);
    InsertAtSplice(s, a);
    var t := Inserted(s, a);
    forall i, j | 0 <= i < j < |t| ensures t[i] != t[j] {
      if i < k && j < k {
        assert t[i] == s[i] && t[j] == s[j];
      } else if i < k && j == k {
        assert t[i] == s[i];
      } else if i < k {
        assert t[i] == s[i] && t[j] == s[j - 1];
      } else if i == k {
        assert t[j] == s[j - 1];
      } else {
        assert t[i] == s[i - 1] && t[j] == s[j - 1];
      }
    }
  }

  /** Linking a into a list adds a's header to the list's header sum. */
  lemma InsertedSum(mem: Words, s: seq<int>, a: int)
    ensures SumHeaders(mem, Inserted(s, a)) == SumHeaders(mem, s) + Hdr(mem, a)
  {
    var k := InsertAt(s, a);
    InsertAtSplice(s, a);
    assert s == s[..k] + s[k..];
    SumHeadersAppend(mem, s[..k], s[k..]);
    SumHeadersAppend(mem, s[..k] + [a], s[k..]);
    SumHeadersAppend(mem, s[..k], [a]);
    assert [a][..0] == [];
  }

  /** While other blocks stay allocated and no free address repeats,
      deallocation adds exactly the freed block's header to the sum of the
      free headers: the release adds it and the merge pass keeps the sum. */
  lemma DeallocatedFreeSum(L: Layout, size: int, p: int)
    requires WellFormed(L) && p in L.allocList && size >= HEADER_SIZE
    requires RemoveFirst(L.allocList, p) != []
    requires Distinct(L.freeList) && p !in L.freeList
    ensures SumHeaders(Deallocated(L, size, p).mem, Deallocated(L, size, p).freeList)
      == SumHeaders(L.mem, L.freeList) + Hdr(L.mem, p)
  {
    var R := Released(L, size, p);
    assert R.freeList == Inserted(L.freeList, p) && R.mem == L.mem;
    OrderedAboveStart(L.allocList);
    InsertedOrdered(L.freeList, p);
    InsertedDistinct(L.freeList, p);
    InsertedSum(L.mem, L.freeList, p);
    CoalesceKeepsFreeSum(R, 0);
  }

  /** Deallocation keeps both lists sorted and above the buffer start, and
      leaves no mergeable neighbours in the free list. */
  lemma DeallocatedWellFormed(L: Layout, size: int, p: int)
    requires WellFormed(L) && p in L.allocList && size >= HEADER_SIZE
    ensures WellFormed(Deallocated(L, size, p))
    ensures NoMergeableBefore(Deallocated(L, size, p), |Deallocated(L, size, p).freeList|)
  {
    var alloc := RemoveFirst(L.allocList, p);
    RemoveFirstOrdered(L.allocList, p);
    assert p >= HEADER_SIZE;
    InsertedOrdered(L.freeList, p);
    InsertedOrdered([], HEADER_SIZE);
    var L2 := Released(L, size, p);
    assert WellFormed(L2);
    CoalesceWellFormed(L2, 0);
    CoalesceLeavesNoMergeable(L2, 0);
  }

  /** Freeing the last allocated block resets the arena to its initial
      state, however fragmented the free list was. */
  lemma DeallocateLastResets(L: Layout, size: int, p: int)
    requires L.allocList == [p] && size >= HEADER_SIZE
    ensures Deallocated(L, size, p) == Layout([HEADER_SIZE], [], map[0 := size - HEADER_SIZE])
    ensures Deallocated(L, size, p) == Initial(size)
  {
  }
}
