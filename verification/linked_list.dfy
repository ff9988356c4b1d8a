/** The singly-linked list of memory blocks.

    A list is modelled by what can be observed through its three fields:
    the blocks of the nodes reachable from `first`, in link order (`chain`),
    the `size` counter, and the node the `last` field refers to. The counter
    and `last` are kept as separate fields, not derived from the chain,
    because the allocator's defragmentation rewrites links behind the list's
    back and leaves both stale; `Valid` says when they agree with the chain. */
module LinkedList {
  import opened Results
  import opened Seqs
  import opened Blocks

  /** A node reference: null, the node at a position of the chain, or a node
      that is not (or no longer) reachable from `first`. */
  datatype Ref = Null | At(pos: nat) | Detached

  datatype List = List(chain: seq<Block>, size: int, last: Ref)

  /** The reference a consistent `last` field holds for this chain. */
  function TailRef(chain: seq<Block>): Ref {
    if chain == [] then Null else At(|chain| - 1)
  }

  /** The counter equals the chain length and `last` is the chain's tail
      (absent exactly when the list is empty). */
  predicate Valid(l: List) {
    l.size == |l.chain| && l.last == TailRef(l.chain)
  }

  /** `r` names a node reachable from `first`. */
  predicate Reaches(l: List, r: Ref) {
    r.At? && r.pos < |l.chain|
  }

  /** The reference `r` after a node is inserted at position `k`. */
  function ShiftIns(r: Ref, k: nat): Ref {
    match r
    case At(p) => if p >= k then At(p + 1) else r
    case _ => r
  }

  /** The reference `r` after the node at position `k` is unlinked. */
  function ShiftDel(r: Ref, k: nat): Ref {
    match r
    case At(p) => if p < k then r else if p == k then Detached else At(p - 1)
    case _ => r
  }

  /** The empty list: no first node, no last node, size 0. */
  function Empty(): (l: List)
    ensures Valid(l) && l.chain == []
  {
    List([], 0, Null)
  }

  /** The node at `index`, walking `index` links from `first`. The bound is
      deliberately `index <= size`, so `index == size` yields the null link
      past the tail. Walking past that null link throws. */
  function GetNode(l: List, index: int): (r: Result<Ref>)
    ensures r == Err(IllegalArgument) <==> index < 0 || index > l.size
    ensures r.Ok? && r.value != Null ==> r.value == At(index) && Reaches(l, r.value)
    ensures 0 <= index <= l.size && index < |l.chain| ==> r == Ok(At(index))
    ensures 0 <= index <= l.size && index == |l.chain| ==> r == Ok(Null)
    ensures Valid(l) && index == l.size ==> r == Ok(Null)
    ensures 0 <= index <= l.size && index > |l.chain| ==> r == Err(NullPointer)
  {
    if index < 0 || index > l.size then Err(IllegalArgument)
    else if index > |l.chain| then Err(NullPointer)
    else if index == |l.chain| then Ok(Null)
    else Ok(At(index))
  }

  /** A new first node holding `b` (`last` is set only when size was 0). */
  function PushFront(l: List, b: Block): List {
    List([b] + l.chain, l.size + 1, if l.size == 0 then At(0) else ShiftIns(l.last, 0))
  }

  /** `last.next = new node; last = new node; size++`. The new node becomes
      reachable only when `last` is; hanging it on a detached node leaves the
      chain as it was. Any successors of a non-tail `last` are cut off. */
  function LinkAfterLast(l: List, b: Block): Result<List> {
    match l.last
    case Null => Err(NullPointer)
    case At(p) =>
      if p < |l.chain| then Ok(List(l.chain[..p + 1] + [b], l.size + 1, At(p + 1)))
      else Ok(List(l.chain, l.size + 1, Detached))
    case Detached => Ok(List(l.chain, l.size + 1, Detached))
  }

  /** Inserts `b` before position `index`. */
  function Add(l: List, index: int, b: Block): (r: Result<List>)
    ensures r == Err(IllegalArgument) <==> index < 0 || index > l.size
    ensures Valid(l) && 0 <= index <= l.size ==>
              r.Ok? && Valid(r.value) && r.value.chain == Insert(l.chain, index, b)
  {
    if index < 0 || index > l.size then Err(IllegalArgument)
    else if index == 0 then Ok(PushFront(l, b))
    else if index == l.size then LinkAfterLast(l, b)
    else if index > |l.chain| then Err(NullPointer)
    else Ok(List(Insert(l.chain, index, b), l.size + 1, ShiftIns(l.last, index)))
  }

  /** Appends `b`. On a size-0 list the new node becomes both first and last
      (dropping whatever the chain held); otherwise it is linked after `last`. */
  function AddLast(l: List, b: Block): (r: Result<List>)
    ensures Valid(l) ==> r.Ok? && Valid(r.value) && r.value.chain == l.chain + [b]
    ensures l.size == 0 ==> r == Ok(List([b], 1, At(0)))
    ensures l.size != 0 && l.last == Detached ==> r == Ok(List(l.chain, l.size + 1, Detached))
    ensures r.Err? ==> r.error == NullPointer && l.size != 0 && l.last == Null
    ensures l.size != 0 && l.last == Null ==> r == Err(NullPointer)
  {
    if l.size == 0 then Ok(List([b], 1, At(0))) else LinkAfterLast(l, b)
  }

  /** Prepends `b`; on a size-0 list the new node is also the last one. */
  function AddFirst(l: List, b: Block): (r: List)
    ensures r.chain == [b] + l.chain && r.size == l.size + 1
    ensures Valid(l) ==> Valid(r)
    ensures l.size == 0 ==> r.last == At(0)
  {
    PushFront(l, b)
  }

  /** The block at `index`. The null check behind the bound check only
      fires when the counter overstates the chain length. */
  function GetBlock(l: List, index: int): (r: Result<Block>)
    ensures index < 0 || index >= l.size ==> r == Err(IllegalArgument)
    ensures l.size <= |l.chain| ==> (r.Ok? <==> 0 <= index < l.size)
    ensures r.Ok? ==> 0 <= index < |l.chain| && r.value == l.chain[index]
  {
    if index < 0 || index >= l.size then Err(IllegalArgument)
    else match GetNode(l, index)
      case Err(e) => Err(e)
      case Ok(node) =>
        if node == Null then Err(IllegalArgument) else Ok(l.chain[node.pos])
  }

  /** The index of the first block equal to `b`, or -1; scans positions
      0..size-1 through GetBlock. */
  method IndexOf(l: List, b: Block) returns (r: Result<int>)
    ensures Valid(l) ==> r.Ok? && -1 <= r.value < l.size
    ensures Valid(l) ==> (r.value == -1 <==> b !in l.chain)
    ensures r.Ok? && r.value >= 0 ==>
              r.value < |l.chain| && l.chain[r.value] == b && b !in l.chain[..r.value]
  {
    var i := 0;
    while i < l.size
      invariant 0 <= i <= |l.chain|
      invariant Valid(l) ==> i <= l.size
      invariant b !in l.chain[..i]
    {
      var x := GetBlock(l, i);
      if x.Err? {
        return Err(x.error);
      }
      if x.value == b {
        return Ok(i);
      }
      assert l.chain[..i + 1] == l.chain[..i] + [l.chain[i]];
      i := i + 1;
    }
    assert Valid(l) ==> l.chain[..i] == l.chain;
    return Ok(-1);
  }

  /** Unlinks the reachable node at position `k`, decrementing the counter.
      `last` moves to the predecessor when the tail goes, becomes absent when
      the only node goes, and otherwise keeps naming the same node. */
  function Unlink(l: List, k: nat): List
    requires k < |l.chain|
  {
    var last :=
      if k + 1 == |l.chain| then (if k == 0 then Null else At(k - 1))
      else ShiftDel(l.last, k);
    List(Delete(l.chain, k), l.size - 1, last)
  }

  /** On a valid list, Unlink removes the element and keeps the list valid. */
  lemma UnlinkValid(l: List, k: nat)
    requires Valid(l) && k < |l.chain|
    ensures Valid(Unlink(l, k)) && Unlink(l, k).chain == Delete(l.chain, k)
  {
  }

  /** Removes a node given by reference. Null throws; an empty list is left
      alone; a reachable node is unlinked; an unreachable node leaves the
      chain and `last` alone, yet the counter is still decremented. */
  function RemoveNode(l: List, node: Ref): (r: Result<List>)
    ensures r.Err? <==> node == Null
    ensures r.Err? ==> r.error == NullPointer
    ensures node != Null && l.chain == [] ==> r == Ok(l)
    ensures Valid(l) && Reaches(l, node) ==>
              r.Ok? && Valid(r.value) && r.value.chain == Delete(l.chain, node.pos)
    ensures node != Null && l.chain != [] && !Reaches(l, node) ==>
              r.Ok? && r.value.chain == l.chain && r.value.last == l.last
              && r.value.size == l.size - 1
    ensures Valid(l) && node != Null && l.chain != [] && !Reaches(l, node) ==>
              !Valid(r.value)
  {
    if node == Null then Err(NullPointer)
    else if l.chain == [] then Ok(l)
    else if Reaches(l, node) then Ok(Unlink(l, node.pos))
    else Ok(l.(size := l.size - 1))
  }

  /** Removes the node at `index`. */
  function RemoveAt(l: List, index: int): (r: Result<List>)
    ensures r == Err(IllegalArgument) <==> index < 0 || index >= l.size
    ensures Valid(l) && 0 <= index < l.size ==>
              r.Ok? && Valid(r.value) && r.value.chain == Delete(l.chain, index)
    ensures r.Ok? ==> 0 <= index < |l.chain| && r.value.size == l.size - 1
  {
    if index < 0 || index >= l.size then Err(IllegalArgument)
    else if index >= |l.chain| then Err(NullPointer)
    else Ok(Unlink(l, index))
  }

  /** Removes the first node whose block equals `b`; throws when the list is
      empty or holds no such block. */
  function RemoveBlock(l: List, b: Block): (r: Result<List>)
    ensures r.Err? <==> b !in l.chain
    ensures r.Err? ==> r.error == IllegalArgument
    ensures forall k :: 0 <= k < |l.chain| && l.chain[k] == b && b !in l.chain[..k] ==>
              r == Ok(Unlink(l, k))
    ensures Valid(l) && b in l.chain ==>
              r.Ok? && Valid(r.value) && r.value.size == l.size - 1
              && multiset(r.value.chain) == multiset(l.chain) - multiset{b}
  {
    if l.chain == [] then Err(IllegalArgument)
    else match FirstIndex(l.chain, b)
      case None => Err(IllegalArgument)
      case Some(k) =>
        DeleteMultiset(l.chain, k);
        Ok(Unlink(l, k))
  }

  // ----- Relations between the operations on consistent lists -----

  /** addFirst and addLast are add at index 0 and at index size. */
  lemma AddAtEnds(l: List, b: Block)
    requires Valid(l)
    ensures Add(l, 0, b) == Ok(AddFirst(l, b))
    ensures Add(l, l.size, b) == AddLast(l, b)
  {
    if l.size == 0 {
      assert [b] + l.chain == [b];
    }
  }

  /** Inserting into an empty list, by any of the three insertions, makes
      the new node both the first and the last one. */
  lemma {:induction false} AddToEmpty(l: List, b: Block)
    requires Valid(l) && l.chain == []
    ensures Add(l, 0, b) == Ok(List([b], 1, At(0)))
    ensures AddFirst(l, b) == List([b], 1, At(0))
    ensures AddLast(l, b) == Ok(List([b], 1, At(0)))
  {
    assert [b] + l.chain == [b];
  }

  /** The block just added at `index` is the one found there. */
  lemma GetBlockAfterAdd(l: List, index: int, b: Block)
    requires Valid(l) && 0 <= index <= l.size
    ensures GetBlock(Add(l, index, b).value, index) == Ok(b)
  {
  }

  /** Removing at `index` undoes adding at `index`. */
  lemma RemoveAtAfterAdd(l: List, index: int, b: Block)
    requires Valid(l) && 0 <= index <= l.size
    ensures RemoveAt(Add(l, index, b).value, index) == Ok(l)
  {
    DeleteInsert(l.chain, index, b);
  }

  /** Removing by value is removing at the first index holding the value. */
  lemma RemoveBlockIsRemoveAtFirstIndex(l: List, b: Block)
    requires Valid(l) && b in l.chain
    ensures RemoveBlock(l, b) == RemoveAt(l, FirstIndex(l.chain, b).value)
  {
  }

  /** Removing the node that getNode returns for `index` is removing at
      `index`. */
  lemma RemoveNodeIsRemoveAt(l: List, index: int)
    requires Valid(l) && 0 <= index < l.size
    ensures RemoveNode(l, GetNode(l, index).value) == RemoveAt(l, index)
  {
  }
}
