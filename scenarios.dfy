/**
 * A concrete run of the arena, stated over the state-change functions.
 */
module Scenarios {
  import opened Wrappers
  import opened BlockList
  import opened ArenaSpec
  import opened Placement
  import opened MyAlloc

  /** A 100-byte arena after a 10-byte request: the initial block at 8 was
      split, leaving a free block at 26 whose header (at 18) is 74. */
  function AfterFirst(): Layout
  {
    Layout([26], [8], map[0 := 92][18 := 74][0 := 10])
  }

  /** ... after a further 70-byte request: the block at 26 was taken whole,
      and its header became 70 + 74. */
  function AfterSecond(): Layout
  {
    Layout([], [8, 26], AfterFirst().mem[18 := 144])
  }

  /** ... after the block at 26 was freed again. */
  function AfterFree(): Layout
  {
    Layout([26], [8], AfterSecond().mem)
  }

  lemma FirstStep(peek: int -> int)
    ensures Allocation(Initial(100), BestFit, 10, peek, 100) == (AfterFirst(), Some(8))
  {
    var S0 := Initial(100);
    InitialState(100);
    assert S0.mem == map[0 := 92];
    assert Pick(BestFit, S0.freeList, S0.mem, 10, peek, 100) == Some(0);
    assert Inserted([8], CarvedAt(8, 10)) == [8, 26];
    assert Carve([8], 8, CarvedAt(8, 10)) == [26];
    assert Inserted([], 8) == [8];
    assert Split(S0, 8, 10) == AfterFirst();
  }

  lemma SecondStep(peek: int -> int)
    ensures Allocation(AfterFirst(), BestFit, 70, peek, 100) == (AfterSecond(), Some(26))
  {
    var L1 := AfterFirst();
    assert Hdr(L1.mem, 26) == 74;
    assert Pick(BestFit, L1.freeList, L1.mem, 70, peek, 100) == Some(0);
    assert Inserted([8], 26) == [8, 26];
    assert Split(L1, 26, 70) == AfterSecond();
  }

  lemma FreeStep()
    ensures Deallocated(AfterSecond(), 100, 26) == AfterFree()
  {
    assert RemoveFirst([8, 26], 26) == [8];
    assert Inserted([], 26) == [26];
    assert Released(AfterSecond(), 100, 26) == AfterFree();
  }

  lemma LastStep(peek: int -> int)
    ensures Hdr(AfterFree().mem, 26) == 144
    ensures Allocation(AfterFree(), BestFit, 10, peek, 100).1 == None
    ensures Allocation(AfterFree(), FirstFit, 10, peek, 100).1 == Some(26)
  {
    assert Hdr(AfterFree().mem, 26) == 144;
    assert Pick(BestFit, [26], AfterFree().mem, 10, peek, 100) == None;
    assert Pick(FirstFit, [26], AfterFree().mem, 10, peek, 100) == Some(0);
  }

  /** A 100-byte BEST_FIT arena.  A 10-byte request splits the initial block
      and leaves a free block at offset 26 with header 74.  A 70-byte request
      then takes that block without splitting it, so its header becomes
      70 + 74 = 144: the block now claims to reach offset 170, past the end of
      the buffer.  Once it is freed, a 10-byte request returns NULL although
      the free block at 26 has a header of at least 10, because 144 exceeds
      the request plus the arena size.  FIRST_FIT serves the same request. */
  lemma BestFitMissesFittingBlock(peek: int -> int)
    ensures
      var S1 := Allocation(Initial(100), BestFit, 10, peek, 100);
      var S2 := Allocation(S1.0, BestFit, 70, peek, 100);
      var S3 := Deallocated(S2.0, 100, 26);
      && S1.1 == Some(8) && S2.1 == Some(26)
      && 26 + Hdr(S2.0.mem, 26) > 100
      && S3.freeList == [26] && Hdr(S3.mem, 26) >= 10
      && Allocation(S3, BestFit, 10, peek, 100).1 == None
      && Allocation(S3, FirstFit, 10, peek, 100).1 == Some(26)
  {
    FirstStep(peek);
    SecondStep(peek);
    FreeStep();
    LastStep(peek);
  }

  // ----------------------------------------------------------------------
  // A 200-byte FIRST_FIT arena where a header outgrows its block

  /** A 200-byte arena after one 20-byte request: the block at 8 has
      header 20 and the free block at 36 has header 164. */
  function One(): Layout
  {
    Layout([36], [8], map[0 := 192][28 := 164][0 := 20])
  }

  /** ... after a second 20-byte request. */
  function Two(): Layout
  {
    Layout([64], [8, 36], One().mem[56 := 136][28 := 20])
  }

  /** ... after a third: blocks at 8, 36 and 64 are allocated, each with
      header 20, and the free block at 92 has header 108. */
  function Three(): Layout
  {
    Layout([92], [8, 36, 64], Two().mem[84 := 108][56 := 20])
  }

  /** ... the block at 36 freed; its header is still 20. */
  function ThreeFreed(): Layout
  {
    Layout([36, 92], [8, 64], Three().mem)
  }

  /** ... a 15-byte request takes the block at 36 without splitting it, so
      its header becomes 15 + 20 = 35, more than the 20 bytes that lie
      between it and the header of the block at 64. */
  function Grown(): Layout
  {
    Layout([92], [8, 36, 64], Three().mem[28 := 35])
  }

  /** ... the block at 36 freed again. */
  function GrownFreed(): Layout
  {
    Layout([36, 92], [8, 64], Grown().mem)
  }

  lemma StepOne(peek: int -> int)
    ensures Allocation(Initial(200), FirstFit, 20, peek, 200) == (One(), Some(8))
  {
    var S0 := Initial(200);
    assert S0.mem == map[0 := 192];
    assert Pick(FirstFit, S0.freeList, S0.mem, 20, peek, 200) == Some(0);
    assert Carve([8], 8, 36) == [36];
    assert Inserted([], 8) == [8];
    assert Split(S0, 8, 20) == One();
  }

  /** The header values the run below reads. */
  lemma RunHeaders()
    ensures Hdr(One().mem, 36) == 164 && Hdr(Two().mem, 64) == 136
    ensures Hdr(Three().mem, 36) == 20
    ensures Hdr(Grown().mem, 36) == 35 && Hdr(Grown().mem, 64) == 20 && Hdr(Grown().mem, 92) == 108
    ensures Hdr(Merged64().mem, 36) == 35 && Hdr(Merged64().mem, 64) == 128
  {
  }

  lemma StepTwoCarve()
    ensures Carve([36], 36, 64) == [64]
  {
  }

  lemma StepTwoAlloc()
    ensures Inserted([8], 36) == [8, 36]
  {
  }

  lemma StepTwo(peek: int -> int)
    ensures Allocation(One(), FirstFit, 20, peek, 200) == (Two(), Some(36))
  {
    RunHeaders();
    StepTwoCarve();
    StepTwoAlloc();
    var L := One();
    assert Pick(FirstFit, L.freeList, L.mem, 20, peek, 200) == Some(0);
    assert Split(L, 36, 20) == Two();
  }

  lemma StepThreeCarve()
    ensures Carve([64], 64, 92) == [92]
  {
  }

  lemma StepThreeAlloc()
    ensures Inserted([8, 36], 64) == [8, 36, 64]
  {
  }

  lemma StepThree(peek: int -> int)
    ensures Allocation(Two(), FirstFit, 20, peek, 200) == (Three(), Some(64))
  {
    RunHeaders();
    StepThreeCarve();
    StepThreeAlloc();
    var L := Two();
    assert Pick(FirstFit, L.freeList, L.mem, 20, peek, 200) == Some(0);
    assert Split(L, 64, 20) == Three();
  }

  lemma ThreeSteps(peek: int -> int)
    ensures
      var S1 := Allocation(Initial(200), FirstFit, 20, peek, 200);
      var S2 := Allocation(S1.0, FirstFit, 20, peek, 200);
      var S3 := Allocation(S2.0, FirstFit, 20, peek, 200);
      S1.1 == Some(8) && S2.1 == Some(36) && S3.1 == Some(64) && S3.0 == Three()
  {
    StepOne(peek);
    StepTwo(peek);
    StepThree(peek);
  }

  /** Unlinking 36 from the allocated list and linking it into the free list
      holding only 92, as both frees of 36 below do. */
  lemma FreeThirtySixAlloc()
    ensures RemoveFirst([8, 36, 64], 36) == [8, 64]
  {
  }

  lemma FreeThirtySixFree()
    ensures Inserted([92], 36) == [36, 92]
  {
  }

  lemma FreeThirtySix()
    ensures Deallocated(Three(), 200, 36) == ThreeFreed()
  {
    FreeThirtySixAlloc();
    FreeThirtySixFree();
    RunHeaders();
    assert Released(Three(), 200, 36) == ThreeFreed();
    assert CoalesceFrom(ThreeFreed(), 1) == ThreeFreed();
  }

  lemma GrowFree()
    ensures RemoveFirst([36, 92], 36) == [92]
  {
  }

  /** Linking 36 back into the allocated list [8, 64], as both requests
      that take the block at 36 below do. */
  lemma LinkThirtySix()
    ensures Inserted([8, 64], 36) == [8, 36, 64]
  {
  }

  lemma GrowStep(peek: int -> int)
    ensures Allocation(ThreeFreed(), FirstFit, 15, peek, 200) == (Grown(), Some(36))
  {
    RunHeaders();
    GrowFree();
    LinkThirtySix();
    var L := ThreeFreed();
    assert Pick(FirstFit, L.freeList, L.mem, 15, peek, 200) == Some(0);
    assert Split(L, 36, 15) == Grown();
  }

  lemma FreeGrown()
    ensures Deallocated(Grown(), 200, 36) == GrownFreed()
  {
    FreeThirtySixAlloc();
    FreeThirtySixFree();
    RunHeaders();
    assert Released(Grown(), 200, 36) == GrownFreed();
    assert CoalesceFrom(GrownFreed(), 1) == GrownFreed();
  }

  /** The run that leads to a block whose header exceeds its extent: in a
      200-byte FIRST_FIT arena, allocate 20, 20 and 20, free 36, allocate
      15, free 36. */
  lemma GrownRun(peek: int -> int)
    ensures
      var S1 := Allocation(Initial(200), FirstFit, 20, peek, 200);
      var S2 := Allocation(S1.0, FirstFit, 20, peek, 200);
      var S3 := Allocation(S2.0, FirstFit, 20, peek, 200);
      S3.1 == Some(64) && S3.0 == Three()
    ensures Deallocated(Three(), 200, 36) == ThreeFreed()
    ensures Allocation(ThreeFreed(), FirstFit, 15, peek, 200) == (Grown(), Some(36))
    ensures Deallocated(Grown(), 200, 36) == GrownFreed()
  {
    ThreeSteps(peek);
    FreeThirtySix();
    GrowStep(peek);
    FreeGrown();
  }

  /** After that run, a 19-byte request splits the block at 36 (header 35)
      and writes the carved block's header at offset 55.  In the source
      that 8-byte word covers bytes 55 to 62 and so overwrites seven bytes
      of the header of the allocated block at 64, which starts at offset
      56.  Header words here are separate cells, so the block at 64 keeps
      its header 20. */
  lemma CarvedHeaderOverlapsLiveHeader(peek: int -> int)
    ensures
      var S := Allocation(GrownFreed(), FirstFit, 19, peek, 200);
      && S.1 == Some(36)
      && 63 in S.0.freeList && 64 in S.0.allocList
      && CarvedAt(36, 19) - HEADER_SIZE == 55
      && 55 < 64 - HEADER_SIZE < 55 + HEADER_SIZE
      && Hdr(S.0.mem, 63) == 8 && Hdr(S.0.mem, 64) == 20
  {
    RunHeaders();
    OverlapCarve();
    LinkThirtySix();
    var L := GrownFreed();
    assert Pick(FirstFit, L.freeList, L.mem, 19, peek, 200) == Some(0);
    assert Split(L, 36, 19) == Layout([63, 92], [8, 36, 64], L.mem[55 := 8][28 := 19]);
  }

  lemma OverlapCarve()
    ensures Carve([36, 92], 36, 63) == [63, 92]
  {
    assert Inserted([36, 92], 63) == [36, 63, 92];
  }

  /** The state after that run and then freeing 64: the block at 64 merged
      with the free block at 92, so its header is 20 + 108 = 128. */
  function Merged64(): Layout
  {
    Layout([36, 64], [8], GrownFreed().mem[56 := 128])
  }

  lemma FreeSixtyFourAlloc()
    ensures RemoveFirst([8, 64], 64) == [8]
  {
  }

  lemma FreeSixtyFourFree()
    ensures Inserted([36, 92], 64) == [36, 64, 92]
  {
  }

  lemma MergeSixtyFourList()
    ensures RemoveFirst([36, 64, 92], 92) == [36, 64]
  {
  }

  lemma FreeSixtyFour()
    ensures Deallocated(GrownFreed(), 200, 64) == Merged64()
  {
    RunHeaders();
    FreeSixtyFourAlloc();
    FreeSixtyFourFree();
    MergeSixtyFourList();
    var R := Layout([36, 64, 92], [8], GrownFreed().mem);
    assert Released(GrownFreed(), 200, 64) == R;
    assert Merged(R, 1) == Merged64();
    assert CoalesceFrom(Merged64(), 1) == Merged64();
    assert CoalesceFrom(R, 0) == Merged64();
  }

  lemma DuplicateList()
    ensures Carve([36, 64], 36, 64) == [64, 64]
  {
    assert Inserted([36, 64], 64) == [36, 64, 64];
  }

  /** After the same run, freeing 64 merges it with the free block at 92,
      and a 20-byte request then splits the block at 36 so that the carved
      block lands exactly on the free block at 64: the free list holds 64
      twice. */
  lemma SplitDuplicatesFreeAddress(peek: int -> int)
    ensures Deallocated(GrownFreed(), 200, 64) == Merged64()
    ensures Merged64().freeList == [36, 64] && Hdr(Merged64().mem, 64) == 128
    ensures
      var T := Allocation(Merged64(), FirstFit, 20, peek, 200);
      T.1 == Some(36) && T.0.freeList == [64, 64]
  {
    FreeSixtyFour();
    RunHeaders();
    DuplicateList();
    var M := Merged64();
    assert Pick(FirstFit, M.freeList, M.mem, 20, peek, 200) == Some(0);
    assert Split(M, 36, 20).freeList == [64, 64];
  }
}
