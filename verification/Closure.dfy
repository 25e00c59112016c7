/** Closing the required predecessors of the operations, in place. */
module Closure {

  type Relation = seq<set<nat>>

  ghost predicate Within(r: Relation) {
    forall i, j :: 0 <= i < |r| && j in r[i] ==> j < |r|
  }

  /** A walk of at least one step, each step going to a required predecessor. */
  ghost predicate Walk(r: Relation, w: seq<nat>) {
    && 2 <= |w|
    && (forall k :: 0 <= k < |w| ==> w[k] < |r|)
    && (forall k :: 0 <= k < |w| - 1 ==> w[k + 1] in r[w[k]])
  }

  ghost predicate WalkFromTo(r: Relation, w: seq<nat>, i: nat, j: nat) {
    Walk(r, w) && w[0] == i && w[|w| - 1] == j
  }

  ghost predicate Reaches(r: Relation, i: nat, j: nat) {
    exists w :: WalkFromTo(r, w, i, j)
  }

  ghost predicate HasCycle(r: Relation) {
    exists i :: 0 <= i < |r| && Reaches(r, i, i)
  }

  lemma StepReaches(r: Relation, i: nat, j: nat)
    requires Within(r) && i < |r| && j in r[i]
    ensures Reaches(r, i, j)
  {
    assert WalkFromTo(r, [i, j], i, j);
  }

  lemma ReachesTransitive(r: Relation, i: nat, p: nat, j: nat)
    requires Reaches(r, i, p) && Reaches(r, p, j)
    ensures Reaches(r, i, j)
  {
    var v :| WalkFromTo(r, v, i, p);
    var w :| WalkFromTo(r, w, p, j);
    var joined := v + w[1..];
    forall k | 0 <= k < |joined| - 1
      ensures joined[k + 1] in r[joined[k]]
    {
      if |v| <= k + 1 {
        assert joined[k + 1] == w[k + 2 - |v|];
        assert joined[k] == w[k + 1 - |v|];
      }
    }
    assert WalkFromTo(r, joined, i, j);
  }

  ghost predicate TransitiveThrough(c: Relation, k: nat) {
    forall i, p, j :: 0 <= i < |c| && 0 <= p < k && p < |c| && p in c[i] && j in c[p] ==> j in c[i]
  }

  /** A relation that holds every step and is transitive holds every walk. */
  lemma {:induction false} WalkInside(r: Relation, c: Relation, w: seq<nat>)
    requires |r| == |c| && forall i :: 0 <= i < |r| ==> r[i] <= c[i]
    requires TransitiveThrough(c, |c|)
    requires Walk(r, w)
    ensures w[|w| - 1] in c[w[0]]
    decreases |w|
  {
    if 2 < |w| {
      var init := w[..|w| - 1];
      WalkInside(r, c, init);
      assert init[|init| - 1] == w[|w| - 2];
    }
  }

  /** Row `i` of the relation after pivot `k` has been taken. */
  ghost function Pivoted(base: Relation, k: nat, i: nat): set<nat>
    requires k < |base| && i < |base|
  {
    if k in base[i] then base[i] + base[k] else base[i]
  }

  lemma PivotKeepsTransitivity(base: Relation, next: Relation, k: nat)
    requires Within(base) && k < |base| == |next|
    requires TransitiveThrough(base, k)
    requires forall i :: 0 <= i < |base| ==> next[i] == Pivoted(base, k, i)
    ensures TransitiveThrough(next, k + 1)
  {
    forall i, p, j | 0 <= i < |next| && 0 <= p < k + 1 && p < |next| && p in next[i] && j in next[p]
      ensures j in next[i]
    {
      assert next[i] == Pivoted(base, k, i) && next[p] == Pivoted(base, k, p);
    }
  }

  /** The pivot loop updates the masks in place, reading rows it has already changed.
      It leaves the transitive closure, and reports failure exactly on a cycle. */
  method CloseRequiredPredecessors(required: array<set<nat>>) returns (ok: bool)
    requires Within(required[..])
    modifies required
    ensures forall i, j: nat :: 0 <= i < required.Length ==>
              (j in required[i] <==> Reaches(old(required[..]), i, j))
    ensures ok <==> !HasCycle(old(required[..]))
  {
    ghost var r := required[..];
    var n := required.Length;
    forall i, j | 0 <= i < n && j in r[i]
      ensures Reaches(r, i, j)
    {
      StepReaches(r, i, j);
    }
    for pivot := 0 to n
      invariant Within(required[..])
      invariant forall i :: 0 <= i < n ==> r[i] <= required[i]
      invariant forall i, j :: 0 <= i < n && j in required[i] ==> Reaches(r, i, j)
      invariant TransitiveThrough(required[..], pivot)
    {
      ghost var base := required[..];
      for operation := 0 to n
        invariant forall i :: 0 <= i < operation ==> required[i] == Pivoted(base, pivot, i)
        invariant forall i :: operation <= i < n ==> required[i] == base[i]
      {
        assert required[pivot] == base[pivot];
        if pivot in required[operation] {
          required[operation] := required[operation] + required[pivot];
        }
      }
      forall i, j | 0 <= i < n && j in required[i]
        ensures Reaches(r, i, j) && j < n
      {
        assert required[i] == Pivoted(base, pivot, i);
        if j !in base[i] {
          ReachesTransitive(r, i, pivot, j);
        }
      }
      PivotKeepsTransitivity(base, required[..], pivot);
    }
    forall i, j: nat | 0 <= i < n && Reaches(r, i, j)
      ensures j in required[i]
    {
      var w :| WalkFromTo(r, w, i, j);
      WalkInside(r, required[..], w);
    }
    for operation := 0 to n
      invariant forall i :: 0 <= i < operation ==> i !in required[i]
    {
      if operation in required[operation] {
        assert Reaches(r, operation, operation);
        return false;
      }
    }
    return true;
  }

  // ------------------------------------------------------------------
  // Closures and orders
  // ------------------------------------------------------------------

  /** Every element comes after all of its required predecessors. */
  ghost predicate Obeys(r: Relation, order: seq<nat>) {
    forall k :: 0 <= k < |order| ==> order[k] < |r| && (forall p :: p in r[order[k]] ==> p in order[..k])
  }

  ghost predicate Distinct(order: seq<nat>) {
    forall i, j :: 0 <= i < j < |order| ==> order[i] != order[j]
  }

  /** An order that obeys a relation obeys its closure. */
  lemma {:induction false} OrderObeysWalks(r: Relation, order: seq<nat>, k: nat, w: seq<nat>)
    requires Obeys(r, order) && k < |order|
    requires Walk(r, w) && w[0] == order[k]
    ensures w[|w| - 1] in order[..k]
    decreases |w|
  {
    assert w[1] in r[order[k]];
    if 2 < |w| {
      var m :| 0 <= m < k && order[m] == w[1];
      OrderObeysWalks(r, order, m, w[1..]);
      assert order[..m] <= order[..k];
    }
  }

  /** A relation obeyed by some order of all its elements has no cycle. */
  lemma OrderForbidsCycle(r: Relation, order: seq<nat>)
    requires Obeys(r, order) && Distinct(order)
    requires forall i :: 0 <= i < |r| ==> i in order
    ensures !HasCycle(r)
  {
    if HasCycle(r) {
      var i :| 0 <= i < |r| && Reaches(r, i, i);
      var w :| WalkFromTo(r, w, i, i);
      assert i in order;
      var k :| 0 <= k < |order| && order[k] == i;
      OrderObeysWalks(r, order, k, w);
      assert false;
    }
  }
}
