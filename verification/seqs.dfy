/** Sequence helpers shared by the range-set model. */
module Seqs {
  import opened Wrappers

  function Last<T>(xs: seq<T>): T
    requires |xs| > 0
  {
    xs[|xs| - 1]
  }

  /** xs with the element at position k taken out; everything else keeps its order. */
  function Without<T>(xs: seq<T>, k: nat): (ys: seq<T>)
    requires k < |xs|
    ensures |ys| == |xs| - 1
    ensures forall j :: 0 <= j < k ==> ys[j] == xs[j]
    ensures forall j :: k <= j < |ys| ==> ys[j] == xs[j + 1]
    ensures multiset(ys) == multiset(xs) - multiset{xs[k]}
  {
    assert xs == xs[..k] + [xs[k]] + xs[k + 1..];
    xs[..k] + xs[k + 1..]
  }

  /** Position of the first element satisfying p, scanning from the front: the shape of
      the Java `for (x : xs) { if (p(x)) return ...; }` loops. */
  function FirstIndex<T>(xs: seq<T>, p: T -> bool): (k: Option<nat>)
    ensures k.Some? ==> k.value < |xs| && p(xs[k.value])
    ensures k.Some? ==> forall j :: 0 <= j < k.value ==> !p(xs[j])
    ensures k.None? <==> forall j :: 0 <= j < |xs| ==> !p(xs[j])
  {
    if |xs| == 0 then None
    else if p(xs[0]) then Some(0)
    else
      match FirstIndex(xs[1..], p)
      case None => None
      case Some(k) => Some(k + 1)
  }

  /** Taking out position k > 0 keeps the head and takes out position k - 1 of the tail. */
  lemma WithoutTail<T>(xs: seq<T>, k: nat)
    requires 0 < k < |xs|
    ensures Without(xs, k) == [xs[0]] + Without(xs[1..], k - 1)
  {
    assert xs[1..][..k - 1] == xs[1..k];
    assert xs[1..][k..] == xs[k + 1..];
  }
}
