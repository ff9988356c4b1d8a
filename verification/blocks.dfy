/** Memory blocks: contiguous address ranges, and the two measures the
    allocator must conserve — the total length of a list of blocks, and the
    number of blocks that cover a given address. */
module Blocks {
  import opened Seqs

  /** The range [baseAddress, baseAddress + length). Equality is structural:
      two blocks are equal exactly when both fields are. */
  datatype Block = Block(baseAddress: int, length: int) {

    /** The first address past the range. */
    function End(): int {
      baseAddress + length
    }

    predicate Contains(x: int) {
      baseAddress <= x < End()
    }
  }

  /** The two ranges share no address. */
  predicate Disjoint(a: Block, b: Block) {
    a.End() <= b.baseAddress || b.End() <= a.baseAddress
  }

  /** Every block of `s` is a non-empty range. */
  predicate Positive(s: seq<Block>) {
    forall i :: 0 <= i < |s| ==> s[i].length > 0
  }

  /** The sum of the lengths of the blocks of `s`. */
  function Total(s: seq<Block>): int {
    if s == [] then 0 else s[0].length + Total(s[1..])
  }

  /** 1 when `b` covers `x`, else 0. */
  function Hit(b: Block, x: int): nat {
    if b.Contains(x) then 1 else 0
  }

  /** How many blocks of `s` cover address `x`. */
  function Cover(s: seq<Block>, x: int): nat {
    if s == [] then 0 else Hit(s[0], x) + Cover(s[1..], x)
  }

  lemma {:induction false} TotalConcat(a: seq<Block>, b: seq<Block>)
    ensures Total(a + b) == Total(a) + Total(b)
  {
    if a == [] {
      assert a + b == b;
    } else {
      assert (a + b)[1..] == a[1..] + b;
      TotalConcat(a[1..], b);
    }
  }

  lemma {:induction false} CoverConcat(a: seq<Block>, b: seq<Block>, x: int)
    ensures Cover(a + b, x) == Cover(a, x) + Cover(b, x)
  {
    if a == [] {
      assert a + b == b;
    } else {
      assert (a + b)[1..] == a[1..] + b;
      CoverConcat(a[1..], b, x);
    }
  }

  /** Removing the block at `k` takes exactly its length off the total. */
  lemma {:induction false} TotalDelete(s: seq<Block>, k: nat)
    requires k < |s|
    ensures Total(Delete(s, k)) + s[k].length == Total(s)
  {
    var front, back := s[..k], s[k + 1..];
    assert s == front + ([s[k]] + back);
    TotalConcat(front, [s[k]] + back);
    assert ([s[k]] + back)[1..] == back;
    TotalConcat(front, back);
  }

  /** Removing the block at `k` uncovers exactly the addresses it covered. */
  lemma {:induction false} CoverDelete(s: seq<Block>, k: nat, x: int)
    requires k < |s|
    ensures Cover(Delete(s, k), x) + Hit(s[k], x) == Cover(s, x)
  {
    var front, back := s[..k], s[k + 1..];
    assert s == front + ([s[k]] + back);
    CoverConcat(front, [s[k]] + back, x);
    assert ([s[k]] + back)[1..] == back;
    CoverConcat(front, back, x);
  }

  /** Replacing the block at `k` by `b` trades its length for that of `b`. */
  lemma {:induction false} TotalReplace(s: seq<Block>, k: nat, b: Block)
    requires k < |s|
    ensures Total(s[k := b]) + s[k].length == Total(s) + b.length
  {
    TotalDelete(s, k);
    TotalDelete(s[k := b], k);
    assert Delete(s[k := b], k) == Delete(s, k);
  }

  /** Replacing the block at `k` by `b` trades its coverage for that of `b`. */
  lemma {:induction false} CoverReplace(s: seq<Block>, k: nat, b: Block, x: int)
    requires k < |s|
    ensures Cover(s[k := b], x) + Hit(s[k], x) == Cover(s, x) + Hit(b, x)
  {
    CoverDelete(s, k, x);
    CoverDelete(s[k := b], k, x);
    assert Delete(s[k := b], k) == Delete(s, k);
  }

  /** A block of `s` that covers `x` is counted. */
  lemma {:induction false} CoverAtLeastOne(s: seq<Block>, i: nat, x: int)
    requires i < |s| && s[i].Contains(x)
    ensures Cover(s, x) >= 1
  {
    if i > 0 {
      CoverAtLeastOne(s[1..], i - 1, x);
    }
  }

  /** Two distinct blocks of `s` that both cover `x` are both counted. */
  lemma {:induction false} CoverAtLeastTwo(s: seq<Block>, i: nat, j: nat, x: int)
    requires i < |s| && j < |s| && i != j
    requires s[i].Contains(x) && s[j].Contains(x)
    ensures Cover(s, x) >= 2
  {
    if i == 0 {
      CoverAtLeastOne(s[1..], j - 1, x);
    } else if j == 0 {
      CoverAtLeastOne(s[1..], i - 1, x);
    } else {
      CoverAtLeastTwo(s[1..], i - 1, j - 1, x);
    }
  }

  /** If no address is covered twice, the non-empty blocks of `s` are
      pairwise disjoint ranges. */
  lemma SingleCoverDisjoint(s: seq<Block>)
    requires Positive(s)
    requires forall x :: Cover(s, x) <= 1
    ensures forall i, j :: 0 <= i < |s| && 0 <= j < |s| && i != j ==> Disjoint(s[i], s[j])
  {
    forall i, j | 0 <= i < |s| && 0 <= j < |s| && i != j
      ensures Disjoint(s[i], s[j])
    {
      if !Disjoint(s[i], s[j]) {
        var x := if s[i].baseAddress < s[j].baseAddress then s[j].baseAddress else s[i].baseAddress;
        CoverAtLeastTwo(s, i, j, x);
        assert false;
      }
    }
  }
}
