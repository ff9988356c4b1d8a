/** Sequence helpers: positional insertion and deletion, first occurrence,
    and the subsequence relation. */
module Seqs {
  import opened Results

  /** `s` with `x` placed before position `k`. */
  function Insert<T>(s: seq<T>, k: nat, x: T): (r: seq<T>)
    requires k <= |s|
    ensures |r| == |s| + 1 && r[k] == x
    ensures forall i :: 0 <= i < k ==> r[i] == s[i]
    ensures forall i :: k < i < |r| ==> r[i] == s[i - 1]
  {
    s[..k] + [x] + s[k..]
  }

  /** `s` without its element at position `k`. */
  function Delete<T>(s: seq<T>, k: nat): (r: seq<T>)
    requires k < |s|
    ensures |r| == |s| - 1
    ensures forall i :: 0 <= i < k ==> r[i] == s[i]
    ensures forall i :: k <= i < |r| ==> r[i] == s[i + 1]
  {
    s[..k] + s[k + 1..]
  }

  /** Deleting what was just inserted gives the sequence back. */
  lemma DeleteInsert<T>(s: seq<T>, k: nat, x: T)
    requires k <= |s|
    ensures Delete(Insert(s, k, x), k) == s
  {
  }

  /** The position of the first element equal to `x`, if any. */
  function FirstIndex<T(==)>(s: seq<T>, x: T): (r: Option<nat>)
    ensures r.None? <==> x !in s
    ensures r.Some? ==> r.value < |s| && s[r.value] == x && x !in s[..r.value]
    ensures forall j :: 0 <= j < |s| && s[j] == x && x !in s[..j] ==> r == Some(j)
  {
    if s == [] then None
    else if s[0] == x then Some(0)
    else match FirstIndex(s[1..], x)
      case None => None
      case Some(k) =>
        assert s[..k + 1] == [s[0]] + s[1..][..k];
        Some(k + 1)
  }

  /** Deleting position `k` removes one occurrence of `s[k]`. */
  lemma DeleteMultiset<T>(s: seq<T>, k: nat)
    requires k < |s|
    ensures multiset(Delete(s, k)) == multiset(s) - multiset{s[k]}
  {
    assert s == s[..k] + [s[k]] + s[k + 1..];
  }

  /** `a` can be obtained from `b` by dropping elements, keeping the order. */
  predicate Subseq<T(==)>(a: seq<T>, b: seq<T>)
    decreases |b|
  {
    a == [] || (b != [] && ((a[0] == b[0] && Subseq(a[1..], b[1..])) || Subseq(a, b[1..])))
  }

  /** Putting the same head on both sides keeps a subsequence. */
  lemma SubseqCons<T>(h: T, x: seq<T>, y: seq<T>)
    requires Subseq(x, y)
    ensures Subseq([h] + x, [h] + y)
  {
    assert ([h] + x)[1..] == x;
    assert ([h] + y)[1..] == y;
  }

  /** A subsequence of `[h] + y` stays one when a `k` is slipped in after `h`. */
  lemma SubseqWiden<T>(x: seq<T>, h: T, k: T, y: seq<T>)
    requires Subseq(x, [h] + y)
    ensures Subseq(x, [h, k] + y)
  {
    assert ([h] + y)[1..] == y;
    assert ([h, k] + y)[1..] == [k] + y;
    assert ([k] + y)[1..] == y;
    if x != [] && !Subseq(x, y) {
      assert x[0] == h && Subseq(x[1..], y);
      assert Subseq(x[1..], [k] + y);
    }
  }
}
