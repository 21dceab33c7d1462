/** Order-preserving subsequences, witnessed by strictly increasing index lists. */
module Sequences {

  /** `idx` picks the elements of `a` out of `b`, in order. */
  ghost predicate Embeds<T>(a: seq<T>, b: seq<T>, idx: seq<nat>) {
    && |idx| == |a|
    && (forall i :: 0 <= i < |idx| ==> idx[i] < |b| && a[i] == b[idx[i]])
    && (forall i, j :: 0 <= i < j < |idx| ==> idx[i] < idx[j])
  }

  ghost predicate IsSubsequence<T>(a: seq<T>, b: seq<T>) {
    exists idx :: Embeds(a, b, idx)
  }

  /** `xs` without its element at position `i`. */
  function RemoveAt<T>(xs: seq<T>, i: nat): (r: seq<T>)
    requires i < |xs|
    ensures |r| == |xs| - 1
  {
    xs[..i] + xs[i + 1..]
  }

  lemma SubsequenceRefl<T>(a: seq<T>)
    ensures IsSubsequence(a, a)
  {
    var idx := seq(|a|, i => i);
    assert Embeds(a, a, idx);
  }

  lemma RemoveAtSubsequence<T>(xs: seq<T>, i: nat)
    requires i < |xs|
    ensures IsSubsequence(RemoveAt(xs, i), xs)
  {
    var r := RemoveAt(xs, i);
    var idx := seq(|r|, j => if j < i then j else j + 1);
    assert Embeds(r, xs, idx);
  }

  lemma SubsequenceTrans<T>(a: seq<T>, b: seq<T>, c: seq<T>)
    requires IsSubsequence(a, b) && IsSubsequence(b, c)
    ensures IsSubsequence(a, c)
  {
    var f :| Embeds(a, b, f);
    var g :| Embeds(b, c, g);
    var h := seq(|f|, i requires 0 <= i < |f| => g[f[i]]);
    assert Embeds(a, c, h);
  }

  /** A subsequence is never longer. */
  lemma SubsequenceLength<T>(a: seq<T>, b: seq<T>)
    requires IsSubsequence(a, b)
    ensures |a| <= |b|
  {
    var idx :| Embeds(a, b, idx);
    var i := 0;
    while i < |idx|
      invariant 0 <= i <= |idx|
      invariant forall j :: 0 <= j < i ==> idx[j] >= j
    {
      if i > 0 {
        assert idx[i - 1] < idx[i];
      }
      i := i + 1;
    }
    if |idx| > 0 {
      assert idx[|idx| - 1] >= |idx| - 1;
    }
  }
}
