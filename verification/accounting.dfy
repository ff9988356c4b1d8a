/** Address accounting across both lists of a memory space: every address
    of [0, maxSize) belongs to exactly one block, in exactly one of the two
    lists, and the lengths add up to maxSize. */
module Accounting {
  import opened Seqs
  import opened Blocks
  import opened LinkedList
  import opened Coalescing
  import opened MemorySpace

  /** The sum of the lengths of all blocks, free and allocated. */
  function Tracked(s: Space): int {
    Total(s.freeList.chain) + Total(s.allocatedList.chain)
  }

  /** How many blocks, free or allocated, cover address `x`. */
  function Owners(s: Space, x: int): nat {
    Cover(s.freeList.chain, x) + Cover(s.allocatedList.chain, x)
  }

  /** The allocator's invariant for a space of `maxSize` words. */
  ghost predicate Inv(s: Space, maxSize: int) {
    && WellLinked(s)
    && Positive(s.freeList.chain) && Positive(s.allocatedList.chain)
    && Tracked(s) == maxSize
    && forall x :: Owners(s, x) == (if 0 <= x < maxSize then 1 else 0)
  }

  /** A new space of positive size satisfies the invariant. */
  lemma NewInv(maxSize: int)
    requires maxSize > 0
    ensures Inv(New(maxSize), maxSize)
  {
    var s := New(maxSize);
    assert [Block(0, maxSize)][1..] == [];
    assert Total(s.freeList.chain) == maxSize;
    forall x
      ensures Owners(s, x) == (if 0 <= x < maxSize then 1 else 0)
    {
    }
  }

  /** Appending one block adds its length and its coverage. */
  lemma AppendOne(c: seq<Block>, b: Block)
    ensures Total(c + [b]) == Total(c) + b.length
    ensures forall x :: Cover(c + [b], x) == Cover(c, x) + Hit(b, x)
    ensures Positive(c) && b.length > 0 ==> Positive(c + [b])
  {
    TotalConcat(c, [b]);
    forall x
      ensures Cover(c + [b], x) == Cover(c, x) + Hit(b, x)
    {
      CoverConcat(c, [b], x);
    }
  }

  /** Moving free block `k` whole to the end of the allocated list keeps
      the invariant (an exact fit). */
  lemma ExactFitInv(s: Space, r: Space, maxSize: int, k: nat)
    requires Inv(s, maxSize) && k < |s.freeList.chain| && WellLinked(r)
    requires r.allocatedList.chain == s.allocatedList.chain + [s.freeList.chain[k]]
    requires r.freeList.chain == Delete(s.freeList.chain, k)
    ensures Inv(r, maxSize)
  {
    var c := s.freeList.chain;
    var a := s.allocatedList.chain;
    AppendOne(a, c[k]);
    TotalDelete(c, k);
    forall x
      ensures Owners(r, x) == Owners(s, x)
    {
      CoverDelete(c, k, x);
    }
  }

  /** Splitting free block `k` into a low part of `length` words, appended
      to the allocated list, and a high part left in place keeps the
      invariant (a larger fit). */
  lemma SplitInv(s: Space, r: Space, maxSize: int, k: nat, length: int)
    requires Inv(s, maxSize) && k < |s.freeList.chain| && WellLinked(r)
    requires 0 < length < s.freeList.chain[k].length
    requires var b := s.freeList.chain[k];
             && r.allocatedList.chain == s.allocatedList.chain + [Block(b.baseAddress, length)]
             && r.freeList.chain == s.freeList.chain[k := Block(b.baseAddress + length, b.length - length)]
    ensures Inv(r, maxSize)
  {
    var c := s.freeList.chain;
    var a := s.allocatedList.chain;
    var b := c[k];
    var lo := Block(b.baseAddress, length);
    var hi := Block(b.baseAddress + length, b.length - length);
    AppendOne(a, lo);
    TotalReplace(c, k, hi);
    forall x
      ensures Owners(r, x) == Owners(s, x)
    {
      CoverReplace(c, k, hi, x);
    }
  }

  lemma MallocExactFit(s: Space, maxSize: int, length: int, k: nat)
    requires Inv(s, maxSize) && length > 0
    requires IsFirstFit(s.freeList.chain, length, k) && s.freeList.chain[k].length == length
    ensures Inv(Malloc(s, length).space, maxSize)
  {
    ExactFitInv(s, Malloc(s, length).space, maxSize, k);
  }

  lemma MallocSplit(s: Space, maxSize: int, length: int, k: nat)
    requires Inv(s, maxSize) && length > 0
    requires IsFirstFit(s.freeList.chain, length, k) && s.freeList.chain[k].length > length
    ensures Inv(Malloc(s, length).space, maxSize)
  {
    SplitInv(s, Malloc(s, length).space, maxSize, k, length);
  }

  /** malloc keeps the invariant. */
  lemma MallocPreservesInv(s: Space, maxSize: int, length: int)
    requires Inv(s, maxSize)
    ensures Inv(Malloc(s, length).space, maxSize)
  {
    if length > 0 {
      match FirstFit(s.freeList.chain, length)
      case None =>
      case Some(k) =>
        if s.freeList.chain[k].length == length {
          MallocExactFit(s, maxSize, length, k);
        } else {
          MallocSplit(s, maxSize, length, k);
        }
    }
  }

  /** free keeps the invariant: one block changes lists, unchanged. */
  lemma FreePreservesInv(s: Space, maxSize: int, address: int)
    requires Inv(s, maxSize)
    ensures Inv(Free(s, address).space, maxSize)
  {
    var a := s.allocatedList.chain;
    match FirstBase(a, address)
    case None =>
    case Some(k) =>
      var r := Free(s, address).space;
      assert r.allocatedList.chain == Delete(a, k);
      assert r.freeList.chain == s.freeList.chain + [a[k]];
      AppendOne(s.freeList.chain, a[k]);
      TotalDelete(a, k);
      forall x
        ensures Owners(r, x) == Owners(s, x)
      {
        CoverDelete(a, k, x);
      }
  }

  /** defrag, as written, conserves the lengths and the address coverage
      and keeps every block non-empty, but only the chain: its counter and
      `last` field may go stale. */
  lemma DefragConserves(s: Space)
    requires Positive(s.freeList.chain)
    ensures Tracked(Defrag(s)) == Tracked(s)
    ensures forall x :: Owners(Defrag(s), x) == Owners(s, x)
    ensures Positive(Defrag(s).freeList.chain)
  {
    var c := s.freeList.chain;
    CoalescePositive(c);
    forall x
      ensures Owners(Defrag(s), x) == Owners(s, x)
    {
      CoalesceCover(c, x);
    }
  }

  /** The corrected defrag keeps the whole invariant. */
  lemma DefragFixedPreservesInv(s: Space, maxSize: int)
    requires Inv(s, maxSize)
    ensures Inv(DefragFixed(s), maxSize)
  {
    DefragConserves(s);
    forall x
      ensures Owners(DefragFixed(s), x) == Owners(s, x)
    {
      assert Owners(DefragFixed(s), x) == Owners(Defrag(s), x);
    }
  }

  /** Under the invariant no address belongs to two blocks, and every block
      lies inside [0, maxSize). */
  lemma InvDisjointInBounds(s: Space, maxSize: int)
    requires Inv(s, maxSize)
    ensures var all := s.freeList.chain + s.allocatedList.chain;
            && (forall i, j :: 0 <= i < |all| && 0 <= j < |all| && i != j ==> Disjoint(all[i], all[j]))
            && (forall i :: 0 <= i < |all| ==> 0 <= all[i].baseAddress && all[i].End() <= maxSize)
  {
    var all := s.freeList.chain + s.allocatedList.chain;
    forall x
      ensures Cover(all, x) == Owners(s, x)
    {
      CoverConcat(s.freeList.chain, s.allocatedList.chain, x);
    }
    assert Positive(all);
    SingleCoverDisjoint(all);
    forall i | 0 <= i < |all|
      ensures 0 <= all[i].baseAddress && all[i].End() <= maxSize
    {
      CoverAtLeastOne(all, i, all[i].baseAddress);
      CoverAtLeastOne(all, i, all[i].End() - 1);
    }
  }

  /** Under the invariant, no allocated block starts where a free block
      does. */
  lemma FreeBaseNotAllocated(s: Space, maxSize: int, k: nat)
    requires Inv(s, maxSize) && k < |s.freeList.chain|
    ensures forall j :: 0 <= j < |s.allocatedList.chain| ==>
              s.allocatedList.chain[j].baseAddress != s.freeList.chain[k].baseAddress
  {
    var c := s.freeList.chain;
    var a := s.allocatedList.chain;
    InvDisjointInBounds(s, maxSize);
    forall j | 0 <= j < |a|
      ensures a[j].baseAddress != c[k].baseAddress
    {
      assert (c + a)[k] == c[k] && (c + a)[|c| + j] == a[j];
      assert Disjoint((c + a)[k], (c + a)[|c| + j]);
    }
  }

  /** Freeing the base of the block just appended to the allocated list,
      when no earlier allocated block has that base, takes exactly that
      block back and appends it to the free list. */
  lemma FreeLastAllocated(s: Space, a: seq<Block>, b: Block)
    requires WellLinked(s) && s.allocatedList.chain == a + [b]
    requires forall j :: 0 <= j < |a| ==> a[j].baseAddress != b.baseAddress
    ensures Free(s, b.baseAddress).Returned?
    ensures Free(s, b.baseAddress).space.allocatedList.chain == a
    ensures Free(s, b.baseAddress).space.freeList.chain == s.freeList.chain + [b]
  {
    assert IsFirstBase(s.allocatedList.chain, b.baseAddress, |a|);
    assert Delete(a + [b], |a|) == a;
  }

  /** Freeing the address malloc just returned gives the allocated list
      back and restores the total free capacity (not the free list's shape:
      the block returns at the end, as a separate entry). */
  lemma MallocThenFree(s: Space, maxSize: int, length: int)
    requires Inv(s, maxSize) && length > 0
    requires exists j :: 0 <= j < |s.freeList.chain| && s.freeList.chain[j].length >= length
    ensures var m := Malloc(s, length);
            var f := Free(m.space, m.value);
            && m.value >= 0
            && f.Returned?
            && f.space.allocatedList.chain == s.allocatedList.chain
            && Total(f.space.freeList.chain) == Total(s.freeList.chain)
  {
    var c := s.freeList.chain;
    var a := s.allocatedList.chain;
    var k := FirstFit(c, length).value;
    var m := Malloc(s, length);
    var lo := Block(c[k].baseAddress, length);
    MallocPreservesInv(s, maxSize, length);
    InvDisjointInBounds(s, maxSize);
    assert c[k] == (c + a)[k];
    FreeBaseNotAllocated(s, maxSize, k);
    FreeLastAllocated(m.space, a, lo);
    AppendOne(m.space.freeList.chain, lo);
    AppendOne(a, lo);
  }

  /** A client request. */
  datatype Op = MallocOp(length: int) | FreeOp(address: int) | DefragOp

  /** The space after one request (defragmenting with the corrected pass). */
  function Apply(s: Space, op: Op): Space {
    match op
    case MallocOp(length) => Malloc(s, length).space
    case FreeOp(address) => Free(s, address).space
    case DefragOp => DefragFixed(s)
  }

  /** The space after a sequence of requests, each one served by `step`. */
  function Replay(step: (Space, Op) -> Space, s: Space, ops: seq<Op>): Space
    decreases |ops|
  {
    if ops == [] then s else Replay(step, step(s, ops[0]), ops[1..])
  }

  /** The space after a sequence of requests. */
  function Run(s: Space, ops: seq<Op>): Space {
    Replay(Apply, s, ops)
  }

  /** The space after one request, defragmenting with the pass as written. */
  function ApplyAsWritten(s: Space, op: Op): Space {
    match op
    case MallocOp(length) => Malloc(s, length).space
    case FreeOp(address) => Free(s, address).space
    case DefragOp => Defrag(s)
  }

  function RunAsWritten(s: Space, ops: seq<Op>): Space {
    Replay(ApplyAsWritten, s, ops)
  }

  /** Any sequence of requests keeps the invariant: the lengths always add
      up to maxSize and no address is ever in two blocks. */
  lemma {:induction false} RunPreservesInv(s: Space, maxSize: int, ops: seq<Op>)
    requires Inv(s, maxSize)
    ensures Inv(Run(s, ops), maxSize)
    decreases |ops|
  {
    if ops != [] {
      match ops[0] {
        case MallocOp(length) => MallocPreservesInv(s, maxSize, length);
        case FreeOp(address) => FreePreservesInv(s, maxSize, address);
        case DefragOp => DefragFixedPreservesInv(s, maxSize);
      }
      RunPreservesInv(Apply(s, ops[0]), maxSize, ops[1..]);
    }
  }

  /** From a new space of positive size, every sequence of requests ends in
      a space satisfying the invariant. */
  lemma RunFromNew(maxSize: int, ops: seq<Op>)
    requires maxSize > 0
    ensures Inv(Run(New(maxSize), ops), maxSize)
  {
    NewInv(maxSize);
    RunPreservesInv(New(maxSize), maxSize, ops);
  }
}
