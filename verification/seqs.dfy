/** Mapping a function over a sequence, and why the result's multiset
    depends only on the input's multiset. */
module Seqs {

  function Map<T, U>(xs: seq<T>, f: T -> U): (ys: seq<U>)
    ensures |ys| == |xs|
    ensures forall i | 0 <= i < |xs| :: ys[i] == f(xs[i])
  {
    if |xs| == 0 then [] else Map(xs[..|xs| - 1], f) + [f(xs[|xs| - 1])]
  }

  lemma MapAppend<T, U>(a: seq<T>, b: seq<T>, f: T -> U)
    ensures Map(a + b, f) == Map(a, f) + Map(b, f)
  {
    assert forall i | 0 <= i < |a + b| :: Map(a + b, f)[i] == (Map(a, f) + Map(b, f))[i];
  }

  /** Permuting the input permutes the output. */
  lemma {:induction false} MapPermutation<T, U>(a: seq<T>, b: seq<T>, f: T -> U)
    requires multiset(a) == multiset(b)
    ensures multiset(Map(a, f)) == multiset(Map(b, f))
    decreases |a|
  {
    if |a| == 0 {
      assert |multiset(b)| == 0;
    } else {
      var n := |a| - 1;
      assert a[n] in multiset(b);
      var k :| 0 <= k < |b| && b[k] == a[n];
      MultisetRemove(a, n);
      MultisetRemove(b, k);
      assert a[..n] + a[n + 1..] == a[..n];
      MapPermutation(a[..n], b[..k] + b[k + 1..], f);
      MapRemove(a, n, f);
      MapRemove(b, k, f);
    }
  }

  /** Taking the element at `k` out of the input takes its image out of
      the output. */
  lemma MapRemove<T, U>(b: seq<T>, k: int, f: T -> U)
    requires 0 <= k < |b|
    ensures multiset(Map(b, f)) == multiset(Map(b[..k] + b[k + 1..], f)) + multiset{f(b[k])}
  {
    MapSplit(b, k, f);
    var mf, mb := Map(b[..k], f), Map(b[k + 1..], f);
    assert multiset(mf + [f(b[k])] + mb) == multiset(mf) + multiset{f(b[k])} + multiset(mb);
  }

  /** The image of a list around its element `k`, with and without it. */
  lemma MapSplit<T, U>(b: seq<T>, k: int, f: T -> U)
    requires 0 <= k < |b|
    ensures Map(b, f) == Map(b[..k], f) + [f(b[k])] + Map(b[k + 1..], f)
    ensures Map(b[..k] + b[k + 1..], f) == Map(b[..k], f) + Map(b[k + 1..], f)
  {
    var front, back := b[..k], b[k + 1..];
    assert b == front + [b[k]] + back;
    MapAppend(front + [b[k]], back, f);
    MapAppend(front, [b[k]], f);
    MapAppend(front, back, f);
  }

  lemma MultisetRemove<T>(b: seq<T>, k: int)
    requires 0 <= k < |b|
    ensures multiset(b[..k] + b[k + 1..]) == multiset(b) - multiset{b[k]}
  {
    assert b == b[..k] + [b[k]] + b[k + 1..];
    assert multiset(b) == multiset(b[..k]) + multiset{b[k]} + multiset(b[k + 1..]);
  }
}
