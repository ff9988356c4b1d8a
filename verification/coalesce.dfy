/** The merge pass of defragmentation, over the chain of free blocks.

    The pass keeps a current node, starting at the first. While the current
    node has a successor, it either absorbs the successor (when the current
    range ends exactly where the successor's begins, the current length grows
    and the successor is spliced out) and stays put, or moves on to the
    successor. Adjacency is judged in list order only. */
module Coalescing {
  import opened Seqs
  import opened Blocks
  import opened LinkedList

  /** `b` begins exactly where `a` ends. */
  predicate Contiguous(a: Block, b: Block) {
    a.End() == b.baseAddress
  }

  /** `a` grown by the length of `b`. */
  function Merge(a: Block, b: Block): Block {
    Block(a.baseAddress, a.length + b.length)
  }

  /** No two consecutive blocks of `c` are contiguous. */
  predicate Coalesced(c: seq<Block>) {
    forall i :: 0 < i < |c| ==> !Contiguous(c[i - 1], c[i])
  }

  /** The base addresses of `c`, in list order. */
  function Bases(c: seq<Block>): (r: seq<int>)
    ensures |r| == |c|
  {
    if c == [] then [] else [c[0].baseAddress] + Bases(c[1..])
  }

  /** The pass from current block `cur` over its successors `rest`. */
  function CoalesceFrom(cur: Block, rest: seq<Block>): (r: seq<Block>)
    ensures 1 <= |r| <= 1 + |rest|
    ensures r[0].baseAddress == cur.baseAddress
    ensures Coalesced(r)
    decreases |rest|
  {
    if rest == [] then [cur]
    else if Contiguous(cur, rest[0]) then CoalesceFrom(Merge(cur, rest[0]), rest[1..])
    else [cur] + CoalesceFrom(rest[0], rest[1..])
  }

  /** The chain left by the pass. */
  function Coalesce(c: seq<Block>): (r: seq<Block>)
    ensures |r| <= |c|
    ensures r == [] <==> c == []
    ensures Coalesced(r)
  {
    if c == [] then [] else CoalesceFrom(c[0], c[1..])
  }

  /** Where the node at position `p` of `[cur] + rest` ends up: the position
      it keeps in the result, or Detached when it was spliced out. */
  function Survivor(cur: Block, rest: seq<Block>, p: nat): (r: Ref)
    requires p <= |rest|
    ensures r == Detached || (r.At? && r.pos < |CoalesceFrom(cur, rest)|)
    ensures r.At? ==> CoalesceFrom(cur, rest)[r.pos].baseAddress == ([cur] + rest)[p].baseAddress
    ensures p == 0 ==> r == At(0)
    decreases |rest|
  {
    if p == 0 then At(0)
    else if Contiguous(cur, rest[0]) then
      (if p == 1 then Detached else Survivor(Merge(cur, rest[0]), rest[1..], p - 1))
    else ShiftIns(Survivor(rest[0], rest[1..], p - 1), 0)
  }

  /** What a node reference into `c` refers to after the pass. */
  function CoalesceRef(c: seq<Block>, r: Ref): (r': Ref)
    ensures r'.At? ==> r.At? && r'.pos < |Coalesce(c)|
    ensures r == Null <==> r' == Null
  {
    match r
    case At(p) => if p < |c| then Survivor(c[0], c[1..], p) else Detached
    case _ => r
  }

  // ----- Properties of the pass -----

  /** The pass conserves the total length. */
  lemma {:induction false} CoalesceFromTotal(cur: Block, rest: seq<Block>)
    ensures Total(CoalesceFrom(cur, rest)) == cur.length + Total(rest)
    decreases |rest|
  {
    if rest == [] {
    } else if Contiguous(cur, rest[0]) {
      CoalesceFromTotal(Merge(cur, rest[0]), rest[1..]);
    } else {
      CoalesceFromTotal(rest[0], rest[1..]);
      assert ([cur] + CoalesceFrom(rest[0], rest[1..]))[1..] == CoalesceFrom(rest[0], rest[1..]);
    }
  }

  lemma CoalesceTotal(c: seq<Block>)
    ensures Total(Coalesce(c)) == Total(c)
  {
    if c != [] {
      CoalesceFromTotal(c[0], c[1..]);
    }
  }

  /** Every length of `s` is at least zero. */
  predicate Nonnegative(s: seq<Block>) {
    forall i :: 0 <= i < |s| ==> s[i].length >= 0
  }

  /** Over blocks of non-negative length, the pass covers every address
      exactly as often as the blocks it started from; merging never gains or
      loses an address. */
  lemma {:induction false} CoalesceFromCover(cur: Block, rest: seq<Block>, x: int)
    requires cur.length >= 0 && Nonnegative(rest)
    ensures Cover(CoalesceFrom(cur, rest), x) == Cover([cur] + rest, x)
    decreases |rest|
  {
    assert ([cur] + rest)[1..] == rest;
    if rest == [] {
    } else if Contiguous(cur, rest[0]) {
      var m := Merge(cur, rest[0]);
      CoalesceFromCover(m, rest[1..], x);
      assert ([m] + rest[1..])[1..] == rest[1..];
    } else {
      var tail := CoalesceFrom(rest[0], rest[1..]);
      CoalesceFromCover(rest[0], rest[1..], x);
      assert ([cur] + tail)[1..] == tail;
      assert [rest[0]] + rest[1..] == rest;
    }
  }

  lemma CoalesceCover(c: seq<Block>, x: int)
    requires Nonnegative(c)
    ensures Cover(Coalesce(c), x) == Cover(c, x)
  {
    if c != [] {
      CoalesceFromCover(c[0], c[1..], x);
      assert [c[0]] + c[1..] == c;
    }
  }

  /** Merging non-empty blocks yields non-empty blocks. */
  lemma {:induction false} CoalesceFromPositive(cur: Block, rest: seq<Block>)
    requires cur.length > 0 && Positive(rest)
    ensures Positive(CoalesceFrom(cur, rest))
    decreases |rest|
  {
    if rest == [] {
    } else if Contiguous(cur, rest[0]) {
      CoalesceFromPositive(Merge(cur, rest[0]), rest[1..]);
    } else {
      CoalesceFromPositive(rest[0], rest[1..]);
    }
  }

  lemma CoalescePositive(c: seq<Block>)
    requires Positive(c)
    ensures Positive(Coalesce(c))
  {
    if c != [] {
      CoalesceFromPositive(c[0], c[1..]);
    }
  }

  /** The surviving blocks keep their list order: the base addresses after
      the pass are a subsequence of those before it. */
  lemma BasesCons(b: Block, c: seq<Block>)
    ensures Bases([b] + c) == [b.baseAddress] + Bases(c)
  {
    assert ([b] + c)[1..] == c;
  }

  lemma {:induction false} CoalesceFromKeepsOrder(cur: Block, rest: seq<Block>)
    ensures Subseq(Bases(CoalesceFrom(cur, rest)), Bases([cur] + rest))
    decreases |rest|
  {
    BasesCons(cur, rest);
    if rest == [] {
      assert Subseq(Bases([cur])[1..], Bases(rest));
    } else {
      var r0, r1 := rest[0], rest[1..];
      assert rest == [r0] + r1;
      BasesCons(r0, r1);
      if Contiguous(cur, r0) {
        var m := Merge(cur, r0);
        CoalesceFromKeepsOrder(m, r1);
        BasesCons(m, r1);
        SubseqWiden(Bases(CoalesceFrom(m, r1)), cur.baseAddress, r0.baseAddress, Bases(r1));
        assert [cur.baseAddress, r0.baseAddress] + Bases(r1) == [cur.baseAddress] + Bases(rest);
      } else {
        var tail := CoalesceFrom(r0, r1);
        CoalesceFromKeepsOrder(r0, r1);
        BasesCons(cur, tail);
        SubseqCons(cur.baseAddress, Bases(tail), Bases(rest));
      }
    }
  }

  lemma CoalesceKeepsOrder(c: seq<Block>)
    ensures Subseq(Bases(Coalesce(c)), Bases(c))
  {
    if c != [] {
      CoalesceFromKeepsOrder(c[0], c[1..]);
      assert [c[0]] + c[1..] == c;
    }
  }

  /** On a chain with no contiguous neighbours the pass changes nothing, and
      every node keeps its position. */
  lemma {:induction false} CoalesceFromFixpoint(cur: Block, rest: seq<Block>)
    requires Coalesced([cur] + rest)
    ensures CoalesceFrom(cur, rest) == [cur] + rest
    ensures forall p :: 0 <= p <= |rest| ==> Survivor(cur, rest, p) == At(p)
    decreases |rest|
  {
    if rest != [] {
      var r0, r1 := rest[0], rest[1..];
      assert ([cur] + rest)[0] == cur && ([cur] + rest)[1] == r0;
      assert !Contiguous(cur, r0);
      assert rest == [r0] + r1;
      assert Coalesced([r0] + r1) by {
        forall i | 0 < i < |rest|
          ensures !Contiguous(rest[i - 1], rest[i])
        {
          assert ([cur] + rest)[i] == rest[i - 1] && ([cur] + rest)[i + 1] == rest[i];
        }
      }
      CoalesceFromFixpoint(r0, r1);
      assert CoalesceFrom(cur, rest) == [cur] + CoalesceFrom(r0, r1) == [cur] + rest;
      forall p | 0 <= p <= |rest|
        ensures Survivor(cur, rest, p) == At(p)
      {
        if p > 0 {
          assert Survivor(cur, rest, p) == ShiftIns(Survivor(r0, r1, p - 1), 0);
        }
      }
    }
  }

  /** The same, for a whole chain and any reference that a list's `last`
      field can hold. */
  lemma CoalesceFixpoint(c: seq<Block>, r: Ref)
    ensures Coalesced(c) ==> Coalesce(c) == c
    ensures Coalesced(c) && (r.At? ==> r.pos < |c|) ==> CoalesceRef(c, r) == r
  {
    if Coalesced(c) && c != [] {
      assert [c[0]] + c[1..] == c;
      CoalesceFromFixpoint(c[0], c[1..]);
    }
  }

  /** The tail node either stays the tail or is spliced out. */
  lemma {:induction false} SurvivorOfTail(cur: Block, rest: seq<Block>)
    ensures Survivor(cur, rest, |rest|) in {At(|CoalesceFrom(cur, rest)| - 1), Detached}
    decreases |rest|
  {
    if rest != [] {
      if Contiguous(cur, rest[0]) {
        if |rest| > 1 {
          SurvivorOfTail(Merge(cur, rest[0]), rest[1..]);
        }
      } else {
        SurvivorOfTail(rest[0], rest[1..]);
      }
    }
  }

  lemma CoalesceTail(c: seq<Block>)
    ensures c != [] ==> CoalesceRef(c, At(|c| - 1)) in {TailRef(Coalesce(c)), Detached}
  {
    if c != [] {
      var d := CoalesceFrom(c[0], c[1..]);
      SurvivorOfTail(c[0], c[1..]);
      assert Coalesce(c) == d;
      assert TailRef(d) == At(|d| - 1);
      assert CoalesceRef(c, At(|c| - 1)) == Survivor(c[0], c[1..], |c[1..]|);
    }
  }

  /** The pass is idempotent, on the chain and on node references. */
  lemma CoalesceIdempotent(c: seq<Block>, r: Ref)
    ensures Coalesce(Coalesce(c)) == Coalesce(c)
    ensures CoalesceRef(Coalesce(c), CoalesceRef(c, r)) == CoalesceRef(c, r)
  {
    var d := Coalesce(c);
    if d != [] {
      assert [d[0]] + d[1..] == d;
      CoalesceFromFixpoint(d[0], d[1..]);
    }
  }
}
