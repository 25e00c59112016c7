/** Sizes of finite sets of indices. */
module Sets {
  import opened Bits

  lemma {:induction false} DistinctSize(order: seq<nat>)
    requires forall i, j :: 0 <= i < j < |order| ==> order[i] != order[j]
    ensures |ToSet(order)| == |order|
  {
    if order == [] {
      assert ToSet(order) == {};
    } else {
      var k := |order| - 1;
      DistinctSize(order[..k]);
      ToSetSnoc(order);
      assert order[k] !in ToSet(order[..k]);
    }
  }

  lemma SubsetOfSameSize(a: set<nat>, b: set<nat>)
    requires a <= b && |a| == |b|
    ensures a == b
  {
    assert b == a + (b - a);
    assert |b - a| == 0;
  }

  lemma ProperSubsetSize(a: set<nat>, b: set<nat>, x: nat)
    requires a <= b && x in b && x !in a
    ensures |a| < |b|
  {
    assert b == a + (b - a);
    assert x in b - a;
  }

  /** Distinct numbers below a bound are at most as many as the bound. */
  lemma DistinctBelow(order: seq<nat>, bound: nat)
    requires forall i, j :: 0 <= i < j < |order| ==> order[i] != order[j]
    requires forall i :: 0 <= i < |order| ==> order[i] < bound
    ensures |order| <= bound
  {
    DistinctSize(order);
    UpToSize(bound);
    forall x | x in ToSet(order)
      ensures x in UpTo(bound)
    {
      assert Below(x, bound);
    }
    assert UpTo(bound) == ToSet(order) + (UpTo(bound) - ToSet(order));
  }
}
