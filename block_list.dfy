/**
 * The block-descriptor list of list.c.
 *
 * A descriptor node carries one payload address (the field the source calls
 * `size`) and a link.  Since a node holds nothing but its address, a list is
 * modelled as the sequence of the addresses its nodes hold, head first, and a
 * node is named by its address: the methods below take the value of
 * `*headRef` and return its new value.  Addresses are byte offsets from the
 * start of the arena buffer.
 *
 * The list keeps nodes in non-decreasing ADDRESS order, because
 * `List_insertBlock` compares the `void *` fields.
 */
module BlockList {
  import opened Wrappers

  /** The buffer's 8-byte words, keyed by byte offset.  A word never written
      reads as zero, since the buffer is zero-filled when the arena is set up. */
  type Words = map<int, nat>

  /** `List_getSize`: the word stored at byte offset `off`; a word that was
      never stored reads as zero.  `ReadAfterWrite` states what reading
      means. */
  function GetSize(mem: Words, off: int): nat
  {
    if off in mem then mem[off] else 0
  }

  /** Reading a header word returns the last value stored there, and storing a
      word leaves every other word as it was. */
  lemma ReadAfterWrite(mem: Words, off: int, v: nat, other: int)
    ensures GetSize(mem[off := v], off) == v
    ensures other != off ==> GetSize(mem[off := v], other) == GetSize(mem, other)
  {
  }

  predicate Sorted(s: seq<int>)
  {
    forall i, j :: 0 <= i < j < |s| ==> s[i] <= s[j]
  }

  // ----------------------------------------------------------------------
  // Insertion

  /** The part of `List_insertBlock`'s walk after the head: passes every
      entry below `a`, then links `a` before the first entry that is at
      least `a`. */
  function InsertedAfter(t: seq<int>, a: int): (r: seq<int>)
    ensures |r| == |t| + 1
    ensures multiset(r) == multiset(t) + multiset{a}
  {
    if t == [] || t[0] >= a then [a] + t
    else
      assert t == [t[0]] + t[1..];
      [t[0]] + InsertedAfter(t[1..], a)
  }

  /** The list after `List_insertBlock` links a node holding `a`: at the head
      when the list is empty or `a` is below the head's address, otherwise
      somewhere after the head. */
  function Inserted(s: seq<int>, a: int): (r: seq<int>)
    ensures |r| == |s| + 1
    ensures multiset(r) == multiset(s) + multiset{a}
  {
    if s == [] || a < s[0] then [a] + s
    else
      assert s == [s[0]] + s[1..];
      [s[0]] + InsertedAfter(s[1..], a)
  }

  /** The index of the first entry that is at least `a` (|s| if none).  Past
      the head, this is where the walk of `List_insertBlock` stops. */
  function FirstAtLeast(s: seq<int>, a: int): (k: nat)
    ensures k <= |s|
  {
    if s == [] || a <= s[0] then 0 else 1 + FirstAtLeast(s[1..], a)
  }

  /** The position at which `List_insertBlock` links `a`. */
  function InsertAt(s: seq<int>, a: int): (k: nat)
    ensures k <= |s|
  {
    if s == [] || a < s[0] then 0 else 1 + FirstAtLeast(s[1..], a)
  }

  /** Every entry before `FirstAtLeast(s, a)` is below `a`, and the entry
      there, if any, is not. */
  lemma {:induction false} FirstAtLeastPlace(s: seq<int>, a: int)
    ensures forall j :: 0 <= j < FirstAtLeast(s, a) ==> s[j] < a
    ensures FirstAtLeast(s, a) == |s| || a <= s[FirstAtLeast(s, a)]
  {
    if s != [] && a > s[0] {
      FirstAtLeastPlace(s[1..], a);
    }
  }

  /** Linking `a` at position `m` of the tail of `s` and then putting the
      head back on the front links `a` at position `m + 1` of `s`. */
  lemma ConsSplice(s: seq<int>, m: nat, a: int)
    requires s != [] && m < |s|
    ensures [s[0]] + (s[1..][..m] + [a] + s[1..][m..]) == s[..m + 1] + [a] + s[m + 1..]
  {
    assert s[..m + 1] == [s[0]] + s[1..][..m];
    assert s[m + 1..] == s[1..][m..];
  }

  lemma {:induction false} InsertedAfterAt(t: seq<int>, a: int)
    ensures InsertedAfter(t, a) == t[..FirstAtLeast(t, a)] + [a] + t[FirstAtLeast(t, a)..]
  {
    if t != [] && t[0] < a {
      InsertedAfterAt(t[1..], a);
      ConsSplice(t, FirstAtLeast(t[1..], a), a);
    }
  }

  /** `Inserted` links `a` at position `InsertAt(s, a)`. */
  lemma InsertAtSplice(s: seq<int>, a: int)
    ensures Inserted(s, a) == s[..InsertAt(s, a)] + [a] + s[InsertAt(s, a)..]
  {
    if s != [] && a >= s[0] {
      InsertedAfterAt(s[1..], a);
      ConsSplice(s, FirstAtLeast(s[1..], a), a);
    }
  }

  /** Where the new node lands, for any list: it is linked at position
      `InsertAt(s, a)`, which is the head exactly when the list is empty or
      `a` is below the head; every entry it passes after the head is below
      `a`; and the entry it lands before, if any, is at least `a`. */
  lemma InsertAtPlace(s: seq<int>, a: int)
    ensures Inserted(s, a) == s[..InsertAt(s, a)] + [a] + s[InsertAt(s, a)..]
    ensures InsertAt(s, a) == 0 <==> s == [] || a < s[0]
    ensures forall j :: 1 <= j < InsertAt(s, a) ==> s[j] < a
    ensures InsertAt(s, a) == |s| || a <= s[InsertAt(s, a)]
  {
    InsertAtSplice(s, a);
    if s != [] && a >= s[0] {
      var t := s[1..];
      FirstAtLeastPlace(t, a);
      forall j | 1 <= j < InsertAt(s, a)
        ensures s[j] < a
      {
        assert s[j] == t[j - 1];
      }
      if InsertAt(s, a) < |s| {
        assert s[InsertAt(s, a)] == t[FirstAtLeast(t, a)];
      }
    }
  }

  /** In a sorted list the new node goes before the first node whose address
      is at least its own, except that an address equal to the head's goes
      straight after the head. */
  lemma InsertedSortedPlace(s: seq<int>, a: int)
    requires Sorted(s)
    ensures InsertAt(s, a) == (if s != [] && s[0] == a then 1 else FirstAtLeast(s, a))
  {
    InsertAtPlace(s, a);
    FirstAtLeastPlace(s, a);
  }

  lemma SortedCons(x: int, r: seq<int>)
    requires Sorted(r) && (r == [] || x <= r[0])
    ensures Sorted([x] + r)
  {
    var t := [x] + r;
    forall i, j | 0 <= i < j < |t| ensures t[i] <= t[j] {
      if i > 0 {
        assert t[i] == r[i - 1] && t[j] == r[j - 1];
      } else if j > 1 {
        assert r[0] <= r[j - 1];
      }
    }
  }

  lemma SortedTail(s: seq<int>)
    requires Sorted(s) && s != []
    ensures Sorted(s[1..]) && forall j :: 0 <= j < |s| ==> s[0] <= s[j]
  {
  }

  lemma {:induction false} InsertedAfterSorted(t: seq<int>, a: int)
    requires Sorted(t)
    ensures Sorted(InsertedAfter(t, a))
    ensures InsertedAfter(t, a)[0] == (if t == [] || t[0] >= a then a else t[0])
  {
    if t == [] || t[0] >= a {
      SortedCons(a, t);
    } else {
      SortedTail(t);
      InsertedAfterSorted(t[1..], a);
      SortedCons(t[0], InsertedAfter(t[1..], a));
    }
  }

  /** `List_insertBlock` keeps an address-sorted list sorted. */
  lemma InsertedSorted(s: seq<int>, a: int)
    requires Sorted(s)
    ensures Sorted(Inserted(s, a))
  {
    if s == [] || a < s[0] {
      SortedCons(a, s);
    } else {
      SortedTail(s);
      InsertedAfterSorted(s[1..], a);
      SortedCons(s[0], InsertedAfter(s[1..], a));
    }
  }

  /** One step of the walk: passing an entry below `a` moves it from the
      unvisited part to the visited part. */
  lemma InsertedAfterStep(head: seq<int>, i: nat, a: int)
    requires i < |head| && head[i] < a
    ensures head[..i] + InsertedAfter(head[i..], a) == head[..i + 1] + InsertedAfter(head[i + 1..], a)
  {
    var t := head[i..];
    assert t[1..] == head[i + 1..];
    var rest := InsertedAfter(head[i + 1..], a);
    assert InsertedAfter(t, a) == [head[i]] + rest;
    assert head[..i + 1] == head[..i] + [head[i]];
    assert head[..i] + ([head[i]] + rest) == (head[..i] + [head[i]]) + rest;
  }

  /** `List_insertBlock` (list.c): links a node holding `chunk` into the list.
      The loop mirrors the source's walk from the head. */
  method InsertBlock(head: seq<int>, chunk: int) returns (r: seq<int>)
    ensures r == Inserted(head, chunk)
  {
    if head == [] || chunk < head[0] {
      r := [chunk] + head;
    } else {
      // `next` is the index of the node after `current`.
      var next := 1;
      assert head[..1] == [head[0]];
      while next < |head| && head[next] < chunk
        invariant 1 <= next <= |head|
        invariant Inserted(head, chunk) == head[..next] + InsertedAfter(head[next..], chunk)
      {
        InsertedAfterStep(head, next, chunk);
        next := next + 1;
      }
      r := head[..next] + [chunk] + head[next..];
    }
  }

  // ----------------------------------------------------------------------
  // Lookup

  /** `List_findBlock` (list.c): the position of the first node holding
      `chunk`, or None (the source's NULL) when no node holds it. */
  method FindBlock(head: seq<int>, chunk: int) returns (r: Option<nat>)
    ensures r.None? <==> chunk !in head
    ensures r.Some? ==> r.value < |head| && head[r.value] == chunk && chunk !in head[..r.value]
  {
    var i := 0;
    while i < |head|
      invariant i <= |head|
      invariant chunk !in head[..i]
    {
      if head[i] == chunk {
        return Some(i);
      }
      assert head[..i + 1] == head[..i] + [head[i]];
      i := i + 1;
    }
    assert head[..i] == head;
    r := None;
  }

  /** The position of the first node holding `a`. */
  function FirstIndex(s: seq<int>, a: int): (i: nat)
    requires a in s
    ensures i < |s| && s[i] == a && a !in s[..i]
  {
    if s[0] == a then 0
    else
      var i := 1 + FirstIndex(s[1..], a);
      assert s[..i] == [s[0]] + s[1..][..i - 1];
      i
  }

  // ----------------------------------------------------------------------
  // Unlinking

  /** The list after unlinking the first node holding `a`. */
  function RemoveFirst(s: seq<int>, a: int): (r: seq<int>)
    requires a in s
    ensures |r| == |s| - 1
    ensures multiset(r) == multiset(s) - multiset{a}
  {
    var i := FirstIndex(s, a);
    assert s == s[..i] + [a] + s[i + 1..];
    s[..i] + s[i + 1..]
  }

  /** Unlinking keeps a sorted list sorted. */
  lemma RemoveFirstSorted(s: seq<int>, a: int)
    requires a in s && Sorted(s)
    ensures Sorted(RemoveFirst(s, a))
  {
    var i := FirstIndex(s, a);
    var r := RemoveFirst(s, a);
    forall x, y | 0 <= x < y < |r| ensures r[x] <= r[y] {
      var x' := if x < i then x else x + 1;
      var y' := if y < i then y else y + 1;
      assert r[x] == s[x'] && r[y] == s[y'];
    }
  }

  /** In a sorted list the nodes holding one address are consecutive, so
      unlinking the node at ANY position holding `a` gives the same list as
      unlinking the first one: naming a node by its address loses nothing. */
  lemma RemoveFirstAnyOccurrence(s: seq<int>, a: int, j: nat)
    requires Sorted(s) && j < |s| && s[j] == a
    ensures RemoveFirst(s, a) == s[..j] + s[j + 1..]
  {
    var i := FirstIndex(s, a);
    var r := RemoveFirst(s, a);
    var t := s[..j] + s[j + 1..];
    forall m | 0 <= m < |r| ensures r[m] == t[m] {
      if i <= m < j {
        assert s[i] <= s[m] <= s[m + 1] <= s[j];
      }
    }
  }

  /** `List_deleteBlock` (list.c): unlinks the node holding `chunk`.  The node
      must be in the list: the source's walk runs off the end otherwise. */
  method DeleteBlock(head: seq<int>, chunk: int) returns (r: seq<int>)
    requires chunk in head
    ensures r == RemoveFirst(head, chunk)
  {
    if head[0] == chunk {
      if |head| == 1 {
        r := [];
      } else {
        r := head[1..];
      }
    } else {
      var current := 0;
      while head[current + 1] != chunk
        invariant current + 1 < |head|
        invariant chunk !in head[..current + 1]
        invariant chunk in head[current + 1..]
        decreases |head| - current
      {
        assert head[..current + 2] == head[..current + 1] + [head[current + 1]];
        assert head[current + 1..] == [head[current + 1]] + head[current + 2..];
        current := current + 1;
      }
      r := head[..current + 1] + head[current + 2..];
    }
  }

  /** `List_freeBlock` (list.c): the same unlinking as `List_deleteBlock`;
      releasing the node's memory has no counterpart here. */
  method FreeBlock(head: seq<int>, chunk: int) returns (r: seq<int>)
    requires chunk in head
    ensures r == RemoveFirst(head, chunk)
    ensures |r| == |head| - 1 && multiset(r) == multiset(head) - multiset{chunk}
  {
    r := DeleteBlock(head, chunk);
  }

  /** `List_destroy` (list.c): unlinks every node, head first. */
  method Destroy(head: seq<int>) returns (r: seq<int>)
    ensures r == []
  {
    r := head;
    while r != []
      decreases |r|
    {
      r := r[1..];
    }
  }
}
