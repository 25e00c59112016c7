/** Skipping operations before their required predecessors: when it is harmless, and that
    nothing else depends on it. */
module Pruning {
  import opened BuildTree

  // ------------------------------------------------------------------
  // Required predecessors
  // ------------------------------------------------------------------

  ghost predicate Ready<G, H>(P: Problem<G, H>, remaining: set<nat>, op: nat) {
    forall p :: p in P.predecessors(op) ==> p in P.order && p !in remaining
  }

  /** From this state on, an operation placed before its required predecessors never leads
      to an accepting state. The DAG does not look at predecessors, so this is what makes
      skipping such operations harmless. */
  ghost predicate Safe<G, H>(P: Problem<G, H>, g: G, remaining: set<nat>)
    decreases |remaining|, 1, 0
  {
    remaining != {} ==> SafeMoves(P, remaining, MovesFrom(P, g, remaining, 0))
  }

  ghost predicate SafeMoves<G, H>(P: Problem<G, H>, remaining: set<nat>, moves: seq<Move<G>>)
    decreases |remaining|, 0, |moves|
  {
    moves != [] ==> SafeMove(P, remaining, moves[0]) && SafeMoves(P, remaining, moves[1..])
  }

  ghost predicate SafeMove<G, H>(P: Problem<G, H>, remaining: set<nat>, move: Move<G>)
    decreases |remaining|, 0, 0
  {
    && move.op in remaining
    && (assert |remaining - {move.op}| < |remaining| by { Shrinks(remaining, move.op); }
        Safe(P, move.next, remaining - {move.op}))
    && (!Ready(P, remaining, move.op) ==> !LiveMove(P, remaining, move))
  }

  lemma {:induction false} SafeHas<G, H>(P: Problem<G, H>, remaining: set<nat>, moves: seq<Move<G>>, k: nat)
    requires SafeMoves(P, remaining, moves) && k < |moves|
    ensures SafeMove(P, remaining, moves[k])
    decreases k
  {
    if k != 0 {
      SafeHas(P, remaining, moves[1..], k - 1);
    }
  }

  /** Without required predecessors every state is safe. */
  lemma {:induction false} UnconstrainedIsSafe<G, H>(P: Problem<G, H>, g: G, remaining: set<nat>)
    requires forall op :: P.predecessors(op) == {}
    ensures Safe(P, g, remaining)
    decreases |remaining|, 1, 0
  {
    if remaining != {} {
      var moves := MovesFrom(P, g, remaining, 0);
      forall k | 0 <= k < |moves|
        ensures moves[k].op in remaining
      {
        MoveRemains(P, g, remaining, 0, k);
      }
      UnconstrainedMoves(P, remaining, moves);
    }
  }

  lemma {:induction false} UnconstrainedMoves<G, H>(P: Problem<G, H>, remaining: set<nat>, moves: seq<Move<G>>)
    requires forall op :: P.predecessors(op) == {}
    requires forall k :: 0 <= k < |moves| ==> moves[k].op in remaining
    ensures SafeMoves(P, remaining, moves)
    decreases |remaining|, 0, |moves|
  {
    if moves != [] {
      Shrinks(remaining, moves[0].op);
      UnconstrainedIsSafe(P, moves[0].next, remaining - {moves[0].op});
      UnconstrainedMoves(P, remaining, moves[1..]);
    }
  }

  /** Moves use remaining operations, from the given place in the order on. */
  lemma {:induction false} MoveRemains<G, H>(P: Problem<G, H>, g: G, remaining: set<nat>, i: nat, k: nat)
    requires i <= |P.order| && k < |MovesFrom(P, g, remaining, i)|
    ensures MovesFrom(P, g, remaining, i)[k].op in remaining && MovesFrom(P, g, remaining, i)[k].op in P.order[i..]
    decreases |P.order| - i
  {
    var first := MovesOfOperation(P, g, remaining, P.order[i]);
    assert P.order[i..][0] == P.order[i] && P.order[i..][1..] == P.order[i + 1..];
    if k >= |first| {
      MoveRemains(P, g, remaining, i + 1, k - |first|);
    }
  }

  /** An operation contributes the same whether or not predecessors are consulted. */
  lemma OperationIsBranches<G, H>(P: Problem<G, H>, g: G, h: H, remaining: set<nat>, op: nat)
    requires op in remaining && P.matches(g, op) && SafeMoves(P, remaining, MovesOf(op, P.moves(g, op)))
    ensures OverOperation(P, g, h, remaining, op) ==
              OverBranches(P, remaining, op, P.moves(g, op), P.HoldsFor(h, remaining, op))
  {
    if !P.Eligible(g, remaining, op) {
      var moves := MovesOf(op, P.moves(g, op));
      NotReadyIsDead(P, remaining, op, moves);
      DeadBranches(P, remaining, op, P.moves(g, op), P.HoldsFor(h, remaining, op));
    }
  }

  lemma {:induction false} NotReadyIsDead<G, H>(P: Problem<G, H>, remaining: set<nat>, op: nat, moves: seq<Move<G>>)
    requires SafeMoves(P, remaining, moves) && !Ready(P, remaining, op)
    requires forall k :: 0 <= k < |moves| ==> moves[k].op == op
    ensures !AnyLive(P, remaining, moves)
    decreases |moves|
  {
    if moves != [] {
      NotReadyIsDead(P, remaining, op, moves[1..]);
    }
  }

  lemma {:induction false} AllSafe<G, H>(P: Problem<G, H>, remaining: set<nat>, moves: seq<Move<G>>)
    requires forall k :: 0 <= k < |moves| ==> SafeMove(P, remaining, moves[k])
    ensures SafeMoves(P, remaining, moves)
    decreases |moves|
  {
    if moves != [] {
      AllSafe(P, remaining, moves[1..]);
    }
  }

  // ------------------------------------------------------------------
  // The same problem without required predecessors
  // ------------------------------------------------------------------

  function Unpruned<G, H>(P: Problem<G, H>): (Q: Problem<G, H>)
    ensures Q.Valid() <==> P.Valid()
    ensures forall op :: Q.predecessors(op) == {}
  {
    P.(predecessors := (op: nat) => var none: set<nat> := {}; none)
  }

  lemma {:induction false} UnprunedMoves<G, H>(P: Problem<G, H>, g: G, remaining: set<nat>, i: nat)
    requires i <= |P.order|
    ensures MovesFrom(Unpruned(P), g, remaining, i) == MovesFrom(P, g, remaining, i)
    decreases |P.order| - i
  {
    if i < |P.order| {
      UnprunedMoves(P, g, remaining, i + 1);
    }
  }

  lemma {:induction false} UnprunedLive<G, H>(P: Problem<G, H>, g: G, remaining: set<nat>)
    ensures Live(Unpruned(P), g, remaining) <==> Live(P, g, remaining)
    decreases |remaining|, 1, 0
  {
    if remaining != {} {
      UnprunedMoves(P, g, remaining, 0);
      UnprunedAnyLive(P, remaining, MovesFrom(P, g, remaining, 0));
    }
  }

  lemma {:induction false} UnprunedAnyLive<G, H>(P: Problem<G, H>, remaining: set<nat>, moves: seq<Move<G>>)
    ensures AnyLive(Unpruned(P), remaining, moves) <==> AnyLive(P, remaining, moves)
    decreases |remaining|, 0, |moves|
  {
    if moves != [] {
      UnprunedAnyLive(P, remaining, moves[1..]);
      if moves[0].op in remaining {
        Shrinks(remaining, moves[0].op);
        UnprunedLive(P, moves[0].next, remaining - {moves[0].op});
      }
    }
  }

  /** From a safe state the pruned search meets every variant of the unpruned one, in the
      same order. */
  lemma {:induction false} PruningLosesNothing<G, H>(P: Problem<G, H>, g: G, h: H, remaining: set<nat>)
    requires Safe(P, g, remaining)
    ensures Completions(P, g, h, remaining) == Completions(Unpruned(P), g, h, remaining)
    decreases |remaining|, 3, 0
  {
    if remaining != {} {
      OperationsLoseNothing(P, g, h, remaining, 0);
    }
  }

  lemma {:induction false} OperationsLoseNothing<G, H>(P: Problem<G, H>, g: G, h: H, remaining: set<nat>, i: nat)
    requires i <= |P.order| && SafeMoves(P, remaining, MovesFrom(P, g, remaining, i))
    ensures OverOperations(P, g, h, remaining, i) == OverOperations(Unpruned(P), g, h, remaining, i)
    decreases |remaining|, 2, |P.order| - i
  {
    if i < |P.order| {
      var op := P.order[i];
      SafeSplits(P, remaining, MovesOfOperation(P, g, remaining, op), MovesFrom(P, g, remaining, i + 1));
      OperationsLoseNothing(P, g, h, remaining, i + 1);
      if op in remaining && P.matches(g, op) {
        OperationIsBranches(P, g, h, remaining, op);
        BranchesLoseNothing(P, remaining, op, P.moves(g, op), P.HoldsFor(h, remaining, op));
      }
    }
  }

  lemma {:induction false} BranchesLoseNothing<G, H>(
      P: Problem<G, H>, remaining: set<nat>, op: nat, nexts: seq<G>, holds: seq<H>)
    requires op in remaining && SafeMoves(P, remaining, MovesOf(op, nexts))
    ensures OverBranches(P, remaining, op, nexts, holds) == OverBranches(Unpruned(P), remaining, op, nexts, holds)
    decreases |remaining|, 1, |holds|
  {
    if holds != [] {
      MovesLoseNothing(P, remaining, op, nexts, holds[0]);
      BranchesLoseNothing(P, remaining, op, nexts, holds[1..]);
    }
  }

  lemma {:induction false} MovesLoseNothing<G, H>(
      P: Problem<G, H>, remaining: set<nat>, op: nat, nexts: seq<G>, hold: H)
    requires op in remaining && SafeMoves(P, remaining, MovesOf(op, nexts))
    ensures OverMoves(P, remaining, op, nexts, hold) == OverMoves(Unpruned(P), remaining, op, nexts, hold)
    decreases |remaining|, 0, |nexts|
  {
    if nexts != [] {
      assert MovesOf(op, nexts)[0] == Move(op, nexts[0]);
      assert MovesOf(op, nexts)[1..] == MovesOf(op, nexts[1..]);
      Shrinks(remaining, op);
      PruningLosesNothing(P, nexts[0], hold, remaining - {op});
      MovesLoseNothing(P, remaining, op, nexts[1..], hold);
    }
  }

  lemma {:induction false} SafeSplits<G, H>(
      P: Problem<G, H>, remaining: set<nat>, a: seq<Move<G>>, b: seq<Move<G>>)
    requires SafeMoves(P, remaining, a + b)
    ensures SafeMoves(P, remaining, a) && SafeMoves(P, remaining, b)
    decreases |a|
  {
    if a == [] {
      assert a + b == b;
    } else {
      assert (a + b)[0] == a[0] && (a + b)[1..] == a[1..] + b;
      SafeSplits(P, remaining, a[1..], b);
    }
  }
}
