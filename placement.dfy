/**
 * The three placement policies of `allocate` (myalloc.c): which free block
 * a request is served from.  Each policy is a scan over the free list, in
 * list order; the scans are specified by the recursive functions below and
 * the methods mirror the source's `while` loops.
 *
 * A choice is a position in the free list.  BEST_FIT and WORST_FIT update
 * their running fragment from the word stored at the chosen block's
 * payload, not at its header; that word belongs to whoever used the block
 * last, so it is a parameter `peek` (the word at each payload offset).
 */
module Placement {
  import opened Wrappers
  import opened BlockList
  import opened ArenaSpec

  /** The source's `enum allocation_algorithm`. */
  datatype Policy = FirstFit | BestFit | WorstFit

  // ----------------------------------------------------------------------
  // Specifications of the scans

  /** FIRST_FIT from position i on: the first block whose header is at least
      the request. */
  function FirstFitFrom(free: seq<int>, mem: Words, req: int, i: nat): (r: Option<nat>)
    requires i <= |free|
    ensures r.Some? ==> i <= r.value < |free| && Hdr(mem, free[r.value]) >= req
    decreases |free| - i
  {
    if i == |free| then None
    else if Hdr(mem, free[i]) >= req then Some(i)
    else FirstFitFrom(free, mem, req, i + 1)
  }

  /** BEST_FIT from position i on, with running fragment `frag` and current
      choice `chosen`: a block is taken when its header is at least the
      request and at most the request plus the fragment, and the fragment
      becomes the payload word minus the request. */
  function BestFitFrom(free: seq<int>, mem: Words, req: int, peek: int -> int,
                       i: nat, frag: int, chosen: Option<nat>): (r: Option<nat>)
    requires i <= |free|
    ensures r.Some? ==> r == chosen || (i <= r.value < |free| && Hdr(mem, free[r.value]) >= req)
    decreases |free| - i
  {
    if i == |free| then chosen
    else
      var h := Hdr(mem, free[i]);
      if h >= req && h <= req + frag then BestFitFrom(free, mem, req, peek, i + 1, peek(free[i]) - req, Some(i))
      else BestFitFrom(free, mem, req, peek, i + 1, frag, chosen)
  }

  /** WORST_FIT from position i on: as BEST_FIT, but a block is taken when
      its header is at least the request plus the fragment. */
  function WorstFitFrom(free: seq<int>, mem: Words, req: int, peek: int -> int,
                        i: nat, frag: int, chosen: Option<nat>): (r: Option<nat>)
    requires i <= |free|
    ensures r.Some? ==> r == chosen || (i <= r.value < |free| && Hdr(mem, free[r.value]) >= req)
    decreases |free| - i
  {
    if i == |free| then chosen
    else
      var h := Hdr(mem, free[i]);
      if h >= req && h >= req + frag then WorstFitFrom(free, mem, req, peek, i + 1, peek(free[i]) - req, Some(i))
      else WorstFitFrom(free, mem, req, peek, i + 1, frag, chosen)
  }

  /** The block `allocate` serves a request from, or None (NULL).  BEST_FIT
      starts its fragment at the arena size and WORST_FIT at 0.  Whatever the
      policy, a chosen block is in the free list and its header is at least
      the request. */
  function Pick(policy: Policy, free: seq<int>, mem: Words, req: int, peek: int -> int, size: int): (r: Option<nat>)
    ensures r.Some? ==> r.value < |free| && Hdr(mem, free[r.value]) >= req
  {
    match policy
    case FirstFit => FirstFitFrom(free, mem, req, 0)
    case BestFit => BestFitFrom(free, mem, req, peek, 0, size, None)
    case WorstFit => WorstFitFrom(free, mem, req, peek, 0, 0, None)
  }

  // ----------------------------------------------------------------------
  // The scans as the source runs them

  /** The FIRST_FIT loop of `allocate`. */
  method FirstFitScan(free: seq<int>, mem: Words, req: int) returns (r: Option<nat>)
    ensures r == FirstFitFrom(free, mem, req, 0)
  {
    var current := 0;
    while current < |free|
      invariant current <= |free|
      invariant FirstFitFrom(free, mem, req, 0) == FirstFitFrom(free, mem, req, current)
    {
      if GetSize(mem, free[current] - HEADER_SIZE) >= req {
        return Some(current);
      }
      current := current + 1;
    }
    r := None;
  }

  /** The BEST_FIT loop of `allocate`; `size` is the arena size. */
  method BestFitScan(free: seq<int>, mem: Words, req: int, peek: int -> int, size: int) returns (r: Option<nat>)
    ensures r == BestFitFrom(free, mem, req, peek, 0, size, None)
  {
    var fragment := size;
    var chosen: Option<nat> := None;
    var current := 0;
    while current < |free|
      invariant current <= |free|
      invariant BestFitFrom(free, mem, req, peek, 0, size, None) == BestFitFrom(free, mem, req, peek, current, fragment, chosen)
    {
      var h := GetSize(mem, free[current] - HEADER_SIZE);
      if h >= req && h <= req + fragment {
        fragment := peek(free[current]) - req;
        chosen := Some(current);
      }
      current := current + 1;
    }
    r := chosen;
  }

  /** The WORST_FIT loop of `allocate`. */
  method WorstFitScan(free: seq<int>, mem: Words, req: int, peek: int -> int) returns (r: Option<nat>)
    ensures r == WorstFitFrom(free, mem, req, peek, 0, 0, None)
  {
    var fragment := 0;
    var chosen: Option<nat> := None;
    var current := 0;
    while current < |free|
      invariant current <= |free|
      invariant WorstFitFrom(free, mem, req, peek, 0, 0, None) == WorstFitFrom(free, mem, req, peek, current, fragment, chosen)
    {
      var h := GetSize(mem, free[current] - HEADER_SIZE);
      if h >= req && h >= req + fragment {
        fragment := peek(free[current]) - req;
        chosen := Some(current);
      }
      current := current + 1;
    }
    r := chosen;
  }

  /** The policy dispatch of `allocate`. */
  method PickScan(policy: Policy, free: seq<int>, mem: Words, req: int, peek: int -> int, size: int)
    returns (r: Option<nat>)
    ensures r == Pick(policy, free, mem, req, peek, size)
  {
    match policy
    case FirstFit => r := FirstFitScan(free, mem, req);
    case BestFit => r := BestFitScan(free, mem, req, peek, size);
    case WorstFit => r := WorstFitScan(free, mem, req, peek);
  }

  // ----------------------------------------------------------------------
  // What the scans choose

  lemma {:induction false} FirstFitFromChoice(free: seq<int>, mem: Words, req: int, i: nat)
    requires i <= |free|
    ensures FirstFitFrom(free, mem, req, i).None? <==> forall j :: i <= j < |free| ==> Hdr(mem, free[j]) < req
    ensures FirstFitFrom(free, mem, req, i).Some? ==>
      var k := FirstFitFrom(free, mem, req, i).value;
      i <= k < |free| && Hdr(mem, free[k]) >= req && forall j :: i <= j < k ==> Hdr(mem, free[j]) < req
    decreases |free| - i
  {
    if i < |free| && Hdr(mem, free[i]) < req {
      FirstFitFromChoice(free, mem, req, i + 1);
    }
  }

  /** FIRST_FIT returns NULL exactly when no free block's header is at least
      the request; otherwise it takes the first such block in list order. */
  lemma FirstFitChoice(free: seq<int>, mem: Words, req: int)
    ensures FirstFitFrom(free, mem, req, 0).None? <==> forall j :: 0 <= j < |free| ==> Hdr(mem, free[j]) < req
    ensures FirstFitFrom(free, mem, req, 0).Some? ==>
      var k := FirstFitFrom(free, mem, req, 0).value;
      k < |free| && Hdr(mem, free[k]) >= req && forall j :: 0 <= j < k ==> Hdr(mem, free[j]) < req
  {
    FirstFitFromChoice(free, mem, req, 0);
  }

  /** On the address-sorted free list, FIRST_FIT takes the block at the
      lowest address among those whose header is at least the request. */
  lemma FirstFitLowestAddress(free: seq<int>, mem: Words, req: int)
    requires Sorted(free)
    ensures FirstFitFrom(free, mem, req, 0).Some? ==>
      var k := FirstFitFrom(free, mem, req, 0).value;
      k < |free| && forall j :: 0 <= j < |free| && Hdr(mem, free[j]) >= req ==> free[k] <= free[j]
  {
    FirstFitChoice(free, mem, req);
  }

  lemma {:induction false} BestFitFromChoice(free: seq<int>, mem: Words, req: int, peek: int -> int,
                                             i: nat, frag: int, chosen: Option<nat>)
    requires i <= |free|
    requires chosen.Some? ==> chosen.value < |free| && Hdr(mem, free[chosen.value]) >= req
    ensures BestFitFrom(free, mem, req, peek, i, frag, chosen).Some? ==>
      var k := BestFitFrom(free, mem, req, peek, i, frag, chosen).value;
      k < |free| && Hdr(mem, free[k]) >= req
    ensures BestFitFrom(free, mem, req, peek, i, frag, chosen).None? <==>
      chosen.None? && forall j :: i <= j < |free| ==> !(req <= Hdr(mem, free[j]) <= req + frag)
    decreases |free| - i
  {
    if i < |free| {
      var h := Hdr(mem, free[i]);
      if h >= req && h <= req + frag {
        BestFitFromChoice(free, mem, req, peek, i + 1, peek(free[i]) - req, Some(i));
      } else {
        BestFitFromChoice(free, mem, req, peek, i + 1, frag, chosen);
      }
    }
  }

  /** Whatever the payload words hold, BEST_FIT takes a free block whose
      header is at least the request, and returns NULL exactly when no free
      block's header lies between the request and the request plus the arena
      size.  A block whose header exceeds that bound is never taken. */
  lemma BestFitChoice(free: seq<int>, mem: Words, req: int, peek: int -> int, size: int)
    ensures BestFitFrom(free, mem, req, peek, 0, size, None).Some? ==>
      var k := BestFitFrom(free, mem, req, peek, 0, size, None).value;
      k < |free| && Hdr(mem, free[k]) >= req
    ensures BestFitFrom(free, mem, req, peek, 0, size, None).None? <==>
      forall j :: 0 <= j < |free| ==> !(req <= Hdr(mem, free[j]) <= req + size)
  {
    BestFitFromChoice(free, mem, req, peek, 0, size, None);
  }

  lemma {:induction false} WorstFitFromChoice(free: seq<int>, mem: Words, req: int, peek: int -> int,
                                              i: nat, frag: int, chosen: Option<nat>)
    requires i <= |free|
    requires chosen.Some? ==> chosen.value < |free| && Hdr(mem, free[chosen.value]) >= req
    ensures WorstFitFrom(free, mem, req, peek, i, frag, chosen).Some? ==>
      var k := WorstFitFrom(free, mem, req, peek, i, frag, chosen).value;
      k < |free| && Hdr(mem, free[k]) >= req
    ensures WorstFitFrom(free, mem, req, peek, i, frag, chosen).None? <==>
      chosen.None? && forall j :: i <= j < |free| ==> !(Hdr(mem, free[j]) >= req && Hdr(mem, free[j]) >= req + frag)
    decreases |free| - i
  {
    if i < |free| {
      var h := Hdr(mem, free[i]);
      if h >= req && h >= req + frag {
        WorstFitFromChoice(free, mem, req, peek, i + 1, peek(free[i]) - req, Some(i));
      } else {
        WorstFitFromChoice(free, mem, req, peek, i + 1, frag, chosen);
      }
    }
  }

  /** Whatever the payload words hold, WORST_FIT takes a free block whose
      header is at least the request, and returns NULL exactly when there is
      none: its fragment starts at 0, so the first such block is always
      taken. */
  lemma WorstFitChoice(free: seq<int>, mem: Words, req: int, peek: int -> int)
    ensures WorstFitFrom(free, mem, req, peek, 0, 0, None).Some? ==>
      var k := WorstFitFrom(free, mem, req, peek, 0, 0, None).value;
      k < |free| && Hdr(mem, free[k]) >= req
    ensures WorstFitFrom(free, mem, req, peek, 0, 0, None).None? <==>
      forall j :: 0 <= j < |free| ==> Hdr(mem, free[j]) < req
  {
    WorstFitFromChoice(free, mem, req, peek, 0, 0, None);
  }

  /** The payload word of every free block holds that block's header. */
  predicate PeekReadsHeaders(free: seq<int>, mem: Words, peek: int -> int)
  {
    forall j :: 0 <= j < |free| ==> peek(free[j]) == Hdr(mem, free[j])
  }

  lemma {:induction false} BestFitFromSmallest(free: seq<int>, mem: Words, req: int, peek: int -> int,
                                               i: nat, frag: int, chosen: Option<nat>)
    requires i <= |free| && PeekReadsHeaders(free, mem, peek)
    requires forall j :: 0 <= j < i && Hdr(mem, free[j]) >= req ==> Hdr(mem, free[j]) >= req + frag
    requires chosen.Some? ==> chosen.value < |free| && Hdr(mem, free[chosen.value]) == req + frag
    ensures BestFitFrom(free, mem, req, peek, i, frag, chosen).Some? ==>
      var k := BestFitFrom(free, mem, req, peek, i, frag, chosen).value;
      k < |free| && forall j :: 0 <= j < |free| && Hdr(mem, free[j]) >= req ==> Hdr(mem, free[k]) <= Hdr(mem, free[j])
    decreases |free| - i
  {
    if i == |free| {
      if chosen.Some? {
        forall j | 0 <= j < |free| && Hdr(mem, free[j]) >= req
          ensures Hdr(mem, free[chosen.value]) <= Hdr(mem, free[j])
        {
        }
      }
    } else {
      var h := Hdr(mem, free[i]);
      if h >= req && h <= req + frag {
        BestFitFromSmallest(free, mem, req, peek, i + 1, peek(free[i]) - req, Some(i));
      } else {
        BestFitFromSmallest(free, mem, req, peek, i + 1, frag, chosen);
      }
    }
  }

  /** Were the payload word the block's header (as the fragment's name
      suggests), BEST_FIT would take a block with the smallest header among
      those at least the request. */
  lemma BestFitSmallestIfPeekReadsHeaders(free: seq<int>, mem: Words, req: int, peek: int -> int, size: int)
    requires PeekReadsHeaders(free, mem, peek)
    ensures BestFitFrom(free, mem, req, peek, 0, size, None).Some? ==>
      var k := BestFitFrom(free, mem, req, peek, 0, size, None).value;
      k < |free| && forall j :: 0 <= j < |free| && Hdr(mem, free[j]) >= req ==> Hdr(mem, free[k]) <= Hdr(mem, free[j])
  {
    BestFitFromSmallest(free, mem, req, peek, 0, size, None);
  }

  lemma {:induction false} WorstFitFromLargest(free: seq<int>, mem: Words, req: int, peek: int -> int,
                                               i: nat, frag: int, chosen: Option<nat>)
    requires i <= |free| && PeekReadsHeaders(free, mem, peek)
    requires forall j :: 0 <= j < i && Hdr(mem, free[j]) >= req ==> Hdr(mem, free[j]) <= req + frag
    requires chosen.Some? ==> chosen.value < |free| && Hdr(mem, free[chosen.value]) == req + frag
    ensures WorstFitFrom(free, mem, req, peek, i, frag, chosen).Some? ==>
      var k := WorstFitFrom(free, mem, req, peek, i, frag, chosen).value;
      k < |free| && forall j :: 0 <= j < |free| && Hdr(mem, free[j]) >= req ==> Hdr(mem, free[k]) >= Hdr(mem, free[j])
    decreases |free| - i
  {
    if i == |free| {
      if chosen.Some? {
        forall j | 0 <= j < |free| && Hdr(mem, free[j]) >= req
          ensures Hdr(mem, free[chosen.value]) >= Hdr(mem, free[j])
        {
        }
      }
    } else {
      var h := Hdr(mem, free[i]);
      if h >= req && h >= req + frag {
        WorstFitFromLargest(free, mem, req, peek, i + 1, peek(free[i]) - req, Some(i));
      } else {
        WorstFitFromLargest(free, mem, req, peek, i + 1, frag, chosen);
      }
    }
  }

  /** Were the payload word the block's header, WORST_FIT would take a block
      with the largest header among those at least the request. */
  lemma WorstFitLargestIfPeekReadsHeaders(free: seq<int>, mem: Words, req: int, peek: int -> int)
    requires PeekReadsHeaders(free, mem, peek)
    ensures WorstFitFrom(free, mem, req, peek, 0, 0, None).Some? ==>
      var k := WorstFitFrom(free, mem, req, peek, 0, 0, None).value;
      k < |free| && forall j :: 0 <= j < |free| && Hdr(mem, free[j]) >= req ==> Hdr(mem, free[k]) >= Hdr(mem, free[j])
  {
    WorstFitFromLargest(free, mem, req, peek, 0, 0, None);
  }
}
