/** The managed memory space: a free list and an allocated list of blocks,
    with first-fit `malloc`, `free` and list-order `defrag`. */
module MemorySpace {
  import opened Results
  import opened Seqs
  import opened Blocks
  import opened LinkedList
  import opened Coalescing

  datatype Space = Space(freeList: List, allocatedList: List)

  /** How a call ends: it returns a value, or it throws. Either way the
      space is the one the call leaves behind, since changes made before a
      throw are not rolled back. */
  datatype Step<T> = Returned(value: T, space: Space) | Threw(error: Error, space: Space)

  /** Both lists are consistent. */
  predicate WellLinked(s: Space) {
    Valid(s.freeList) && Valid(s.allocatedList)
  }

  /** A new space of `maxSize` words: one free block [0, maxSize), nothing
      allocated. */
  function New(maxSize: int): (s: Space)
    ensures WellLinked(s)
    ensures s.freeList.chain == [Block(0, maxSize)] && s.allocatedList.chain == []
  {
    Space(AddLast(Empty(), Block(0, maxSize)).value, Empty())
  }

  // ----- malloc -----

  /** Position `k` is the first free block long enough for `length`. */
  predicate IsFirstFit(c: seq<Block>, length: int, k: int) {
    0 <= k < |c| && c[k].length >= length
    && forall j :: 0 <= j < k ==> c[j].length < length
  }

  /** The list-order scan for the first block long enough. */
  function FirstFit(c: seq<Block>, length: int): (r: Option<nat>)
    ensures r.None? <==> forall j :: 0 <= j < |c| ==> c[j].length < length
    ensures r.Some? ==> IsFirstFit(c, length, r.value)
  {
    if c == [] then None
    else if c[0].length >= length then Some(0)
    else match FirstFit(c[1..], length)
      case None => None
      case Some(k) => Some(k + 1)
  }

  /** The free list once `length` words are taken off the low end of the
      block at `k`: the entry is removed on an exact fit (by index at the
      head, by value elsewhere) and shrunk in place otherwise. */
  function TakeFrom(free: List, k: nat, length: int): (r: Result<List>)
    requires k < |free.chain|
    requires IsFirstFit(free.chain, length, k)
    ensures Valid(free) ==> r.Ok? && Valid(r.value)
    ensures Valid(free) && free.chain[k].length == length ==> r.value.chain == Delete(free.chain, k)
    ensures Valid(free) && free.chain[k].length > length ==>
              r.value.chain == free.chain[k := Block(free.chain[k].baseAddress + length, free.chain[k].length - length)]
  {
    var b := free.chain[k];
    if b.length == length then
      if k == 0 then RemoveAt(free, 0)
      else
        assert b !in free.chain[..k];
        RemoveBlock(free, b)
    else Ok(free.(chain := free.chain[k := Block(b.baseAddress + length, b.length - length)]))
  }

  /** Allocates `length` words by first fit and returns the base address of
      the new block, or -1 when no single free block is long enough. */
  function Malloc(s: Space, length: int): (r: Step<int>)
    ensures length <= 0 ==> r == Threw(IllegalArgument, s)
    ensures length > 0 && WellLinked(s) ==> r.Returned? && WellLinked(r.space)
    ensures length > 0 && WellLinked(s)
            && (forall j :: 0 <= j < |s.freeList.chain| ==> s.freeList.chain[j].length < length) ==>
              r == Returned(-1, s)
    ensures length > 0 && WellLinked(s) ==>
              forall k :: IsFirstFit(s.freeList.chain, length, k) ==>
                var c := s.freeList.chain;
                && r.value == c[k].baseAddress
                && r.space.allocatedList.chain == s.allocatedList.chain + [Block(c[k].baseAddress, length)]
                && (c[k].length == length ==> r.space.freeList.chain == Delete(c, k))
                && (c[k].length > length ==>
                      r.space.freeList.chain == c[k := Block(c[k].baseAddress + length, c[k].length - length)])
  {
    if length <= 0 then Threw(IllegalArgument, s)
    else match FirstFit(s.freeList.chain, length)
      case None => Returned(-1, s)
      case Some(k) => PlaceAt(s, k, length)
  }

  /** Serves a request from the first fit at `k`: the low `length` words of
      that block move to the end of the allocated list. */
  function PlaceAt(s: Space, k: nat, length: int): (r: Step<int>)
    requires k < |s.freeList.chain|
    requires IsFirstFit(s.freeList.chain, length, k)
    ensures WellLinked(s) ==>
              var c := s.freeList.chain;
              && r.Returned? && WellLinked(r.space)
              && r.value == c[k].baseAddress
              && r.space.allocatedList.chain == s.allocatedList.chain + [Block(c[k].baseAddress, length)]
              && (c[k].length == length ==> r.space.freeList.chain == Delete(c, k))
              && (c[k].length > length ==>
                    r.space.freeList.chain == c[k := Block(c[k].baseAddress + length, c[k].length - length)])
  {
    var b := s.freeList.chain[k];
    match TakeFrom(s.freeList, k, length)
    case Err(e) => Threw(e, s)
    case Ok(freeList) =>
      match AddLast(s.allocatedList, Block(b.baseAddress, length))
      case Err(e) => Threw(e, Space(freeList, s.allocatedList))
      case Ok(allocatedList) => Returned(b.baseAddress, Space(freeList, allocatedList))
  }

  // ----- free -----

  /** Position `k` holds the first allocated block based at `address`. */
  predicate IsFirstBase(c: seq<Block>, address: int, k: int) {
    0 <= k < |c| && c[k].baseAddress == address
    && forall j :: 0 <= j < k ==> c[j].baseAddress != address
  }

  /** The list-order scan for a block based at `address`. */
  function FirstBase(c: seq<Block>, address: int): (r: Option<nat>)
    ensures r.None? <==> forall j :: 0 <= j < |c| ==> c[j].baseAddress != address
    ensures r.Some? ==> IsFirstBase(c, address, r.value)
  {
    if c == [] then None
    else if c[0].baseAddress == address then Some(0)
    else match FirstBase(c[1..], address)
      case None => None
      case Some(k) => Some(k + 1)
  }

  /** Moves the first allocated block based at `address`, unchanged, to the
      end of the free list; throws when there is none. */
  function Free(s: Space, address: int): (r: Step<()>)
    ensures (forall j :: 0 <= j < |s.allocatedList.chain| ==> s.allocatedList.chain[j].baseAddress != address) ==>
              r == Threw(IllegalArgument, s)
    ensures WellLinked(s) ==>
              forall k :: IsFirstBase(s.allocatedList.chain, address, k) ==>
                && r.Returned? && WellLinked(r.space)
                && r.space.allocatedList.chain == Delete(s.allocatedList.chain, k)
                && r.space.freeList.chain == s.freeList.chain + [s.allocatedList.chain[k]]
  {
    match FirstBase(s.allocatedList.chain, address)
    case None => Threw(IllegalArgument, s)
    case Some(k) =>
      var b := s.allocatedList.chain[k];
      var taken :=
        if k == 0 then RemoveAt(s.allocatedList, 0)
        else
          assert b !in s.allocatedList.chain[..k];
          RemoveBlock(s.allocatedList, b);
      match taken
      case Err(e) => Threw(e, s)
      case Ok(allocatedList) =>
        match AddLast(s.freeList, b)
        case Err(e) => Threw(e, Space(s.freeList, allocatedList))
        case Ok(freeList) => Returned((), Space(freeList, allocatedList))
  }

  /** When the free list's `last` names a detached node, free returns
      normally, yet the block it takes off the allocated list is hung on
      that node and reaches neither list. */
  lemma FreeOntoDetachedLast(s: Space, address: int, k: nat)
    requires Valid(s.allocatedList) && s.freeList.size != 0 && s.freeList.last == Detached
    requires IsFirstBase(s.allocatedList.chain, address, k)
    ensures Free(s, address).Returned?
    ensures Free(s, address).space.allocatedList.chain == Delete(s.allocatedList.chain, k)
    ensures Free(s, address).space.freeList.chain == s.freeList.chain
  {
    assert FirstBase(s.allocatedList.chain, address) == Some(k);
  }

  // ----- defrag -----

  /** Merges list-adjacent contiguous free blocks by relinking nodes
      directly: neither the free list's counter nor its `last` field is
      touched, so `last` may go on naming a node that was spliced out. */
  function Defrag(s: Space): (r: Space)
    ensures r.allocatedList == s.allocatedList
    ensures r.freeList.size == s.freeList.size
    ensures Coalesced(r.freeList.chain)
    ensures Total(r.freeList.chain) == Total(s.freeList.chain)
  {
    var c := s.freeList.chain;
    CoalesceTotal(c);
    Space(List(Coalesce(c), s.freeList.size, CoalesceRef(c, s.freeList.last)), s.allocatedList)
  }

  /** On a free chain with no contiguous neighbours, defrag changes nothing
      (unless `last` names a position past the chain, which it normalises to
      a detached node). */
  lemma DefragOnMergedChain(s: Space)
    ensures Coalesced(s.freeList.chain) && !(s.freeList.last.At? && !Reaches(s.freeList, s.freeList.last)) ==>
              Defrag(s) == s
  {
    CoalesceFixpoint(s.freeList.chain, s.freeList.last);
  }

  /** A second defrag changes nothing: not the chain, not `last`. */
  lemma DefragIdempotent(s: Space)
    ensures Defrag(Defrag(s)) == Defrag(s)
  {
    CoalesceIdempotent(s.freeList.chain, s.freeList.last);
  }

  /** When a merge shortens a consistent free list, the counter is stale,
      and `last` is the new tail or a spliced-out node. */
  lemma DefragLeavesListStale(s: Space)
    requires Valid(s.freeList)
    ensures |Defrag(s).freeList.chain| < |s.freeList.chain| ==> !Valid(Defrag(s).freeList)
    ensures s.freeList.chain != [] ==>
              Defrag(s).freeList.last in {TailRef(Defrag(s).freeList.chain), Detached}
  {
    CoalesceTail(s.freeList.chain);
  }

  /** Defragmentation that also brings the free list's counter and `last`
      field up to date with the merged chain. */
  function DefragFixed(s: Space): (r: Space)
    ensures r.allocatedList == s.allocatedList
    ensures Valid(r.freeList)
    ensures r.freeList.chain == Defrag(s).freeList.chain
  {
    var c := Coalesce(s.freeList.chain);
    Space(List(c, |c|, TailRef(c)), s.allocatedList)
  }
}
