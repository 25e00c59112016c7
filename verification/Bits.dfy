/** Unsigned words as bit sets: a state of the subset lattice is the number whose bit
    `i` is set exactly when element `i` belongs to the subset. */
module Bits {

  function Pow2(n: nat): (r: nat)
    ensures 0 < r
  {
    if n == 0 then 1 else 2 * Pow2(n - 1)
  }

  predicate Below(i: nat, n: nat) {
    i < n
  }

  /** The elements below `n`. */
  function UpTo(n: nat): set<nat> {
    set i | 0 <= i < n && Below(i, n)
  }

  lemma {:induction false} UpToSize(n: nat)
    ensures |UpTo(n)| == n
  {
    if n == 0 {
      assert UpTo(n) == {};
    } else {
      UpToSize(n - 1);
      assert UpTo(n) == UpTo(n - 1) + {n - 1};
    }
  }

  predicate HasBit(s: nat, i: nat) {
    if i == 0 then s % 2 == 1 else HasBit(s / 2, i - 1)
  }

  /** `s | (1 << i)`. */
  function SetBit(s: nat, i: nat): nat {
    if i == 0 then (if s % 2 == 1 then s else s + 1)
    else 2 * SetBit(s / 2, i - 1) + s % 2
  }

  function Members(s: nat, n: nat): set<nat> {
    set i | 0 <= i < n && HasBit(s, i)
  }

  lemma {:induction false} SetBitHas(s: nat, i: nat, j: nat)
    ensures HasBit(SetBit(s, i), j) <==> i == j || HasBit(s, j)
  {
    if i == 0 {
      assert j != 0 ==> SetBit(s, i) / 2 == s / 2;
    } else {
      var t := SetBit(s / 2, i - 1);
      assert SetBit(s, i) / 2 == t && SetBit(s, i) % 2 == s % 2;
      if j != 0 {
        SetBitHas(s / 2, i - 1, j - 1);
      }
    }
  }

  lemma {:induction false} SetBitGrows(s: nat, i: nat)
    ensures if HasBit(s, i) then SetBit(s, i) == s else s < SetBit(s, i)
  {
    if i != 0 {
      SetBitGrows(s / 2, i - 1);
    }
  }

  lemma {:induction false} SetBitBound(s: nat, i: nat, n: nat)
    requires s < Pow2(n) && i < n
    ensures SetBit(s, i) < Pow2(n)
  {
    if i != 0 {
      SetBitBound(s / 2, i - 1, n - 1);
    }
  }

  lemma {:induction false} Extensional(s: nat, t: nat, n: nat)
    requires s < Pow2(n) && t < Pow2(n)
    requires forall i :: 0 <= i < n ==> (HasBit(s, i) <==> HasBit(t, i))
    ensures s == t
  {
    if n != 0 {
      assert HasBit(s, 0) <==> HasBit(t, 0);
      forall i | 0 <= i < n - 1
        ensures HasBit(s / 2, i) <==> HasBit(t / 2, i)
      {
        assert HasBit(s, i + 1) <==> HasBit(t, i + 1);
      }
      Extensional(s / 2, t / 2, n - 1);
    }
  }

  lemma MembersSetBit(s: nat, i: nat, n: nat)
    requires i < n
    ensures Members(SetBit(s, i), n) == Members(s, n) + {i}
  {
    forall j | 0 <= j < n
      ensures HasBit(SetBit(s, i), j) <==> i == j || HasBit(s, j)
    {
      SetBitHas(s, i, j);
    }
  }

  lemma MembersInjective(s: nat, t: nat, n: nat)
    requires s < Pow2(n) && t < Pow2(n) && Members(s, n) == Members(t, n)
    ensures s == t
  {
    forall i | 0 <= i < n
      ensures HasBit(s, i) <==> HasBit(t, i)
    {
      assert i in Members(s, n) <==> HasBit(s, i);
      assert i in Members(t, n) <==> HasBit(t, i);
    }
    Extensional(s, t, n);
  }

  lemma {:induction false} ZeroHasNoBit(i: nat)
    ensures !HasBit(0, i)
  {
    if i != 0 {
      ZeroHasNoBit(i - 1);
    }
  }

  lemma ZeroIsEmpty(n: nat)
    ensures Members(0, n) == {}
  {
    forall i | 0 <= i < n
      ensures !HasBit(0, i)
    {
      ZeroHasNoBit(i);
    }
  }

  lemma {:induction false} AllOnesHasBit(n: nat, i: nat)
    requires i < n
    ensures HasBit(Pow2(n) - 1, i)
  {
    if i != 0 {
      assert (Pow2(n) - 1) / 2 == Pow2(n - 1) - 1;
      AllOnesHasBit(n - 1, i - 1);
    }
  }

  lemma AllOnesIsFull(n: nat)
    ensures Members(Pow2(n) - 1, n) == UpTo(n)
  {
    forall i | i in UpTo(n)
      ensures HasBit(Pow2(n) - 1, i)
    {
      AllOnesHasBit(n, i);
    }
  }

  /** The word of a set. */
  ghost function Encode(S: set<nat>, n: nat): (s: nat)
    requires forall i :: i in S ==> i < n
    ensures s < Pow2(n) && Members(s, n) == S
  {
    EncodeExists(S, n);
    var s: nat :| s < Pow2(n) && Members(s, n) == S;
    s
  }

  lemma {:induction false} EncodeExists(S: set<nat>, n: nat)
    requires forall i :: i in S ==> i < n
    ensures exists s: nat :: s < Pow2(n) && Members(s, n) == S
  {
    if S == {} {
      ZeroIsEmpty(n);
      assert 0 < Pow2(n) && Members(0, n) == S;
    } else {
      var i :| i in S;
      EncodeExists(S - {i}, n);
      var s: nat :| s < Pow2(n) && Members(s, n) == S - {i};
      SetBitBound(s, i, n);
      MembersSetBit(s, i, n);
      assert Members(SetBit(s, i), n) == S;
    }
  }

  // ------------------------------------------------------------------
  // The set behind an order
  // ------------------------------------------------------------------

  ghost function ToSet(order: seq<nat>): set<nat> {
    set k | 0 <= k < |order| :: order[k]
  }

  lemma ToSetSnoc(order: seq<nat>)
    requires order != []
    ensures ToSet(order) == ToSet(order[..|order| - 1]) + {order[|order| - 1]}
  {
    var k := |order| - 1;
    forall o | o in ToSet(order)
      ensures o in ToSet(order[..k]) + {order[k]}
    {
      var i :| 0 <= i < |order| && order[i] == o;
      if i < k {
        assert order[..k][i] == o;
      }
    }
    forall o | o in ToSet(order[..k])
      ensures o in ToSet(order)
    {
      var i :| 0 <= i < k && order[..k][i] == o;
      assert order[i] == o;
    }
  }

  lemma ToSetCons(order: seq<nat>)
    requires order != []
    ensures ToSet(order) == {order[0]} + ToSet(order[1..])
  {
    forall o | o in ToSet(order)
      ensures o in {order[0]} + ToSet(order[1..])
    {
      var i :| 0 <= i < |order| && order[i] == o;
      if i != 0 {
        assert order[1..][i - 1] == o;
      }
    }
    forall o | o in ToSet(order[1..])
      ensures o in ToSet(order)
    {
      var i :| 0 <= i < |order| - 1 && order[1..][i] == o;
      assert order[i + 1] == o;
    }
  }
}
