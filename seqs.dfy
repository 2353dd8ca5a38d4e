/** Mapping a function over a sequence, how that splits along the sequence, and
    regrouping a concatenation. */
module Seqs {

  /** `f` applied to each element, in order. */
  function Map<A, B>(xs: seq<A>, f: A -> B): (r: seq<B>)
    ensures |r| == |xs| && forall k :: 0 <= k < |xs| ==> r[k] == f(xs[k])
  {
    seq(|xs|, k requires 0 <= k < |xs| => f(xs[k]))
  }

  lemma MapSnoc<A, B>(xs: seq<A>, i: nat, f: A -> B)
    requires i < |xs|
    ensures Map(xs[..i + 1], f) == Map(xs[..i], f) + [f(xs[i])]
  {
    var lhs, rhs := Map(xs[..i + 1], f), Map(xs[..i], f) + [f(xs[i])];
    forall k | 0 <= k < |lhs| ensures lhs[k] == rhs[k] {
      if k < i {
        assert xs[..i + 1][k] == xs[..i][k];
      }
    }
  }

  lemma MapConcat<A, B>(xs: seq<A>, ys: seq<A>, f: A -> B)
    ensures Map(xs + ys, f) == Map(xs, f) + Map(ys, f)
  {
    var lhs, rhs := Map(xs + ys, f), Map(xs, f) + Map(ys, f);
    forall k | 0 <= k < |lhs| ensures lhs[k] == rhs[k] {
      if k >= |xs| {
        assert (xs + ys)[k] == ys[k - |xs|];
      }
    }
  }

  /** Moving the head of the remainder onto what is already collected. */
  lemma ConcatStep<T>(kept: seq<T>, mid: seq<T>, later: seq<T>, total: seq<T>)
    requires kept + (mid + later) == total
    ensures (kept + mid) + later == total
    ensures mid == [] ==> kept + later == total
  {
    assert kept + (mid + later) == (kept + mid) + later;
    if mid == [] {
      assert kept + mid == kept;
    }
  }
}
