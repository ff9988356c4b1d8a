/** Concrete runs of the allocator on a 100-word space. */
module Scenarios {
  import opened Results
  import opened Seqs
  import opened Blocks
  import opened LinkedList
  import opened MemorySpace
  import opened Accounting

  // ----- The worked example -----

  const W1 := Space(List([Block(30, 70)], 1, At(0)), List([Block(0, 30)], 1, At(0)))
  const W2 := Space(List([Block(50, 50)], 1, At(0)), List([Block(0, 30), Block(30, 20)], 2, At(1)))
  const W3 := Space(List([Block(50, 50), Block(0, 30)], 2, At(1)), List([Block(30, 20)], 1, At(0)))

  /** malloc(30) on a new 100-word space returns 0 and carves (0,30) off the
      single free block. */
  lemma WorkedMalloc30()
    ensures Malloc(New(100), 30) == Returned(0, W1)
  {
    assert [Block(0, 100)][0 := Block(30, 70)] == [Block(30, 70)];
  }

  /** malloc(20) then returns 30. */
  lemma WorkedMalloc20()
    ensures Malloc(W1, 20) == Returned(30, W2)
  {
    assert [Block(30, 70)][0 := Block(50, 50)] == [Block(50, 50)];
    assert [Block(0, 30)][..1] + [Block(30, 20)] == [Block(0, 30), Block(30, 20)];
  }

  /** free(0) appends (0,30) after (50,50) on the free list. */
  lemma WorkedFree0()
    ensures Free(W2, 0) == Returned((), W3)
  {
    assert Delete([Block(0, 30), Block(30, 20)], 0) == [Block(30, 20)];
    assert [Block(50, 50)][..1] + [Block(0, 30)] == [Block(50, 50), Block(0, 30)];
  }

  /** defrag then merges nothing: the two free blocks are contiguous in
      address order but not in list order (0+30 != 50). */
  lemma WorkedDefrag()
    ensures Defrag(W3) == W3
  {
    assert W3.freeList.chain[0].End() != W3.freeList.chain[1].baseAddress;
  }

  /** A replay starts by serving its first request. */
  lemma ReplayCons(step: (Space, Op) -> Space, s: Space, o: Op, rest: seq<Op>)
    ensures Replay(step, s, [o] + rest) == Replay(step, step(s, o), rest)
  {
    assert ([o] + rest)[1..] == rest;
  }

  /** Seven single requests, each taking one state to the next under
      `step`, chained into one replay. */
  lemma SevenSteps(step: (Space, Op) -> Space,
                   s0: Space, s1: Space, s2: Space, s3: Space, s4: Space,
                   s5: Space, s6: Space, s7: Space,
                   o0: Op, o1: Op, o2: Op, o3: Op, o4: Op, o5: Op, o6: Op)
    requires step(s0, o0) == s1 && step(s1, o1) == s2 && step(s2, o2) == s3
    requires step(s3, o3) == s4 && step(s4, o4) == s5 && step(s5, o5) == s6
    requires step(s6, o6) == s7
    ensures Replay(step, s0, [o0, o1, o2, o3, o4, o5, o6]) == s7
  {
    ReplayCons(step, s6, o6, []);
    ReplayCons(step, s5, o5, [o6]);
    ReplayCons(step, s4, o4, [o5, o6]);
    ReplayCons(step, s3, o3, [o4, o5, o6]);
    ReplayCons(step, s2, o2, [o3, o4, o5, o6]);
    ReplayCons(step, s1, o1, [o2, o3, o4, o5, o6]);
    ReplayCons(step, s0, o0, [o1, o2, o3, o4, o5, o6]);
  }

  // ----- The stale `last` field -----

  /** The requests that expose the stale `last` field: two halves are
      allocated and freed, defrag merges them back into one free block and
      splices out the node `last` refers to, and two more requests follow. */
  const LossOps: seq<Op> :=
    [MallocOp(50), MallocOp(50), FreeOp(0), FreeOp(50), DefragOp, MallocOp(10), FreeOp(0)]

  const L1 := Space(List([Block(50, 50)], 1, At(0)), List([Block(0, 50)], 1, At(0)))
  const L2 := Space(List([], 0, Null), List([Block(0, 50), Block(50, 50)], 2, At(1)))
  const L3 := Space(List([Block(0, 50)], 1, At(0)), List([Block(50, 50)], 1, At(0)))
  const L4 := Space(List([Block(0, 50), Block(50, 50)], 2, At(1)), List([], 0, Null))
  const L5 := Space(List([Block(0, 100)], 2, Detached), List([], 0, Null))
  const L6 := Space(List([Block(10, 90)], 2, Detached), List([Block(0, 10)], 1, At(0)))
  const L7 := Space(List([Block(10, 90)], 3, Detached), List([], 0, Null))

  lemma LossMalloc50()
    ensures Malloc(New(100), 50) == Returned(0, L1)
    ensures Apply(New(100), MallocOp(50)) == L1 && ApplyAsWritten(New(100), MallocOp(50)) == L1
  {
    assert [Block(0, 100)][0 := Block(50, 50)] == [Block(50, 50)];
  }

  lemma LossMalloc50Again()
    ensures Malloc(L1, 50) == Returned(50, L2)
    ensures Apply(L1, MallocOp(50)) == L2 && ApplyAsWritten(L1, MallocOp(50)) == L2
  {
    assert Delete([Block(50, 50)], 0) == [];
    assert [Block(0, 50)][..1] + [Block(50, 50)] == [Block(0, 50), Block(50, 50)];
  }

  lemma LossFree0()
    ensures Free(L2, 0) == Returned((), L3)
    ensures Apply(L2, FreeOp(0)) == L3 && ApplyAsWritten(L2, FreeOp(0)) == L3
  {
    assert Delete([Block(0, 50), Block(50, 50)], 0) == [Block(50, 50)];
  }

  lemma LossFree50()
    ensures Free(L3, 50) == Returned((), L4)
    ensures Apply(L3, FreeOp(50)) == L4 && ApplyAsWritten(L3, FreeOp(50)) == L4
  {
    assert Delete([Block(50, 50)], 0) == [];
    assert [Block(0, 50)][..1] + [Block(50, 50)] == [Block(0, 50), Block(50, 50)];
  }

  /** defrag merges (0,50) and (50,50) and splices out the tail node, which
      `last` still names; the counter still says 2. */
  lemma LossDefrag()
    ensures Defrag(L4) == L5
    ensures ApplyAsWritten(L4, DefragOp) == L5
  {
    assert [Block(0, 50), Block(50, 50)][1..] == [Block(50, 50)];
    assert [Block(50, 50)][1..] == [];
  }

  lemma LossMalloc10()
    ensures Malloc(L5, 10) == Returned(0, L6)
    ensures Apply(L5, MallocOp(10)) == L6 && ApplyAsWritten(L5, MallocOp(10)) == L6
  {
    assert [Block(0, 100)][0 := Block(10, 90)] == [Block(10, 90)];
  }

  /** The freed block is hung on the spliced-out node. */
  lemma LossFree0Again()
    ensures Free(L6, 0) == Returned((), L7)
    ensures Apply(L6, FreeOp(0)) == L7 && ApplyAsWritten(L6, FreeOp(0)) == L7
  {
    assert Delete([Block(0, 10)], 0) == [];
  }

  /** As written, the final free leaves the freed block (0,10) in neither
      list: the counter says 3 blocks while one is reachable, and only 90 of
      the 100 words are accounted for. */
  lemma DefragThenFreeLosesWords()
    ensures RunAsWritten(New(100), LossOps) == L7
    ensures Tracked(L7) == 90
  {
    LossMalloc50();
    LossMalloc50Again();
    LossFree0();
    LossFree50();
    LossDefrag();
    LossMalloc10();
    LossFree0Again();
    SevenSteps(ApplyAsWritten, New(100), L1, L2, L3, L4, L5, L6, L7,
               MallocOp(50), MallocOp(50), FreeOp(0), FreeOp(50), DefragOp, MallocOp(10), FreeOp(0));
    assert [Block(10, 90)][1..] == [];
  }

  /** Continuing from there, malloc(90) empties the free chain (the counter
      still says 2) and the next free dereferences the null `last` field:
      it throws after the block has left the allocated list, so no word is
      accounted for any more. */
  lemma StaleLastThrows()
    ensures var m := Malloc(L7, 90);
            && m == Returned(10, Space(List([], 2, Null), List([Block(10, 90)], 1, At(0))))
            && Free(m.space, 10) == Threw(NullPointer, Space(List([], 2, Null), List([], 0, Null)))
  {
    assert Delete([Block(10, 90)], 0) == [];
  }

  const F5 := Space(List([Block(0, 100)], 1, At(0)), List([], 0, Null))
  const F6 := Space(List([Block(10, 90)], 1, At(0)), List([Block(0, 10)], 1, At(0)))
  const F7 := Space(List([Block(10, 90), Block(0, 10)], 2, At(1)), List([], 0, Null))

  /** The corrected defrag makes the merged block the one tracked node. */
  lemma FixedDefrag()
    ensures DefragFixed(L4) == F5
    ensures Apply(L4, DefragOp) == F5
  {
    LossDefrag();
  }

  lemma FixedMalloc10()
    ensures Malloc(F5, 10) == Returned(0, F6)
    ensures Apply(F5, MallocOp(10)) == F6 && ApplyAsWritten(F5, MallocOp(10)) == F6
  {
    assert [Block(0, 100)][0 := Block(10, 90)] == [Block(10, 90)];
  }

  lemma FixedFree0()
    ensures Free(F6, 0) == Returned((), F7)
    ensures Apply(F6, FreeOp(0)) == F7 && ApplyAsWritten(F6, FreeOp(0)) == F7
  {
    assert Delete([Block(0, 10)], 0) == [];
    assert [Block(10, 90)][..1] + [Block(0, 10)] == [Block(10, 90), Block(0, 10)];
  }

  /** With the corrected defrag the same requests account for all 100
      words, and the freed block is back on the free list. */
  lemma CorrectedDefragKeepsWords()
    ensures Run(New(100), LossOps) == F7
    ensures Tracked(F7) == 100
  {
    LossMalloc50();
    LossMalloc50Again();
    LossFree0();
    LossFree50();
    FixedDefrag();
    FixedMalloc10();
    FixedFree0();
    SevenSteps(Apply, New(100), L1, L2, L3, L4, F5, F6, F7,
               MallocOp(50), MallocOp(50), FreeOp(0), FreeOp(50), DefragOp, MallocOp(10), FreeOp(0));
    assert [Block(10, 90), Block(0, 10)][1..] == [Block(0, 10)];
    assert [Block(0, 10)][1..] == [];
  }
}
