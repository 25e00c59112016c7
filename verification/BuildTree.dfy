/** The tree of build variants: placement orders combined with the hold automaton. */
module BuildTree {
  /** One placement: which operation, the geometry it leads to and the hold state after it. */
  datatype Step<G, H> = Step(op: nat, next: G, hold: H)

  type Variant<G, H> = seq<Step<G, H>>

  /** What the search takes from the problem. `moves` lists the geometry states that the
      variants of an operation lead to, in variant order, rejected variants left out;
      `branches` lists the hold states after consuming a piece, the second argument telling
      the last step apart. */
  datatype Problem<!G, !H> = Problem(
    order: seq<nat>,
    piece: nat -> nat,
    predecessors: nat -> set<nat>,
    matches: (G, nat) -> bool,
    moves: (G, nat) -> seq<G>,
    empty: G -> bool,
    branches: (H, bool, nat) -> seq<H>,
    preserve: bool)
  {
    /** Every operation appears once in the order of preference. */
    ghost predicate Valid() {
      forall i, j :: 0 <= i < j < |order| ==> order[i] != order[j]
    }

    /** May be tried next by the direct search. */
    predicate Eligible(g: G, remaining: set<nat>, op: nat) {
      op in remaining && (forall p :: p in predecessors(op) ==> p in order && p !in remaining) && matches(g, op)
    }

    /** Only the first hold branch counts unless branches are preserved. */
    function Kept(holds: seq<H>): seq<H> {
      if preserve || |holds| <= 1 then holds else holds[..1]
    }

    function HoldsFor(h: H, remaining: set<nat>, op: nat): seq<H> {
      Kept(branches(h, |remaining| == 1, piece(op)))
    }
  }

  function Prepend<T>(step: T, paths: seq<seq<T>>): seq<seq<T>> {
    seq(|paths|, i requires 0 <= i < |paths| => [step] + paths[i])
  }

  function After<T>(trace: seq<T>, paths: seq<seq<T>>): seq<seq<T>> {
    seq(|paths|, i requires 0 <= i < |paths| => trace + paths[i])
  }

  lemma AfterConcat<T>(trace: seq<T>, a: seq<seq<T>>, b: seq<seq<T>>)
    ensures After(trace, a + b) == After(trace, a) + After(trace, b)
  {
  }

  lemma AfterPrepend<T>(trace: seq<T>, step: T, paths: seq<seq<T>>)
    ensures After(trace, Prepend(step, paths)) == After(trace + [step], paths)
  {
    forall i | 0 <= i < |paths|
      ensures trace + ([step] + paths[i]) == (trace + [step]) + paths[i]
    {
    }
  }

  // ------------------------------------------------------------------
  // All completed variants, in the order of the direct search
  // ------------------------------------------------------------------

  ghost function Completions<G, H>(P: Problem<G, H>, g: G, h: H, remaining: set<nat>): seq<Variant<G, H>>
    decreases |remaining|, 3, 0
  {
    if remaining == {} then (if P.empty(g) then [[]] else [])
    else OverOperations(P, g, h, remaining, 0)
  }

  ghost function OverOperations<G, H>(P: Problem<G, H>, g: G, h: H, remaining: set<nat>, i: nat): seq<Variant<G, H>>
    requires i <= |P.order|
    decreases |remaining|, 2, |P.order| - i + 1
  {
    if i >= |P.order| then []
    else OverOperation(P, g, h, remaining, P.order[i]) + OverOperations(P, g, h, remaining, i + 1)
  }

  ghost function OverOperation<G, H>(P: Problem<G, H>, g: G, h: H, remaining: set<nat>, op: nat): seq<Variant<G, H>>
    decreases |remaining|, 2, 0
  {
    if P.Eligible(g, remaining, op)
    then OverBranches(P, remaining, op, P.moves(g, op), P.HoldsFor(h, remaining, op))
    else []
  }

  ghost function OverBranches<G, H>(
    P: Problem<G, H>, remaining: set<nat>, op: nat, nexts: seq<G>, holds: seq<H>): seq<Variant<G, H>>
    requires op in remaining
    decreases |remaining|, 1, |holds|
  {
    if holds == [] then []
    else OverMoves(P, remaining, op, nexts, holds[0]) + OverBranches(P, remaining, op, nexts, holds[1..])
  }

  ghost function OverMoves<G, H>(
    P: Problem<G, H>, remaining: set<nat>, op: nat, nexts: seq<G>, hold: H): seq<Variant<G, H>>
    requires op in remaining
    decreases |remaining|, 0, |nexts|
  {
    if nexts == [] then []
    else
      assert |remaining - {op}| < |remaining| by { Shrinks(remaining, op); }
      Prepend(Step(op, nexts[0], hold), Completions(P, nexts[0], hold, remaining - {op}))
      + OverMoves(P, remaining, op, nexts[1..], hold)
  }

  lemma Shrinks(remaining: set<nat>, op: nat)
    requires op in remaining
    ensures |remaining - {op}| == |remaining| - 1
  {
  }

  // ------------------------------------------------------------------
  // Geometry alone
  // ------------------------------------------------------------------

  datatype Move<G> = Move(op: nat, next: G)

  /** The moves of one operation. */
  function MovesOf<G>(op: nat, nexts: seq<G>): seq<Move<G>> {
    seq(|nexts|, k requires 0 <= k < |nexts| => Move(op, nexts[k]))
  }

  /** All moves from a geometry state, by operations in order of preference. Required
      predecessors are not consulted here. */
  ghost function MovesFrom<G, H>(P: Problem<G, H>, g: G, remaining: set<nat>, i: nat): seq<Move<G>>
    requires i <= |P.order|
    decreases |P.order| - i
  {
    if i == |P.order| then []
    else MovesOfOperation(P, g, remaining, P.order[i]) + MovesFrom(P, g, remaining, i + 1)
  }

  ghost function MovesOfOperation<G, H>(P: Problem<G, H>, g: G, remaining: set<nat>, op: nat): seq<Move<G>> {
    if op in remaining && P.matches(g, op) then MovesOf(op, P.moves(g, op)) else []
  }

  /** Some sequence of moves places everything and empties the board. */
  ghost predicate Live<G, H>(P: Problem<G, H>, g: G, remaining: set<nat>)
    decreases |remaining|, 1, 0
  {
    if remaining == {} then P.empty(g) else AnyLive(P, remaining, MovesFrom(P, g, remaining, 0))
  }

  ghost predicate AnyLive<G, H>(P: Problem<G, H>, remaining: set<nat>, moves: seq<Move<G>>)
    decreases |remaining|, 0, |moves|
  {
    moves != [] && (LiveMove(P, remaining, moves[0]) || AnyLive(P, remaining, moves[1..]))
  }

  ghost predicate LiveMove<G, H>(P: Problem<G, H>, remaining: set<nat>, move: Move<G>)
    decreases |remaining|, 0, 0
  {
    move.op in remaining &&
    (assert |remaining - {move.op}| < |remaining| by { Shrinks(remaining, move.op); }
     Live(P, move.next, remaining - {move.op}))
  }

  lemma {:induction false} AnyLiveConcat<G, H>(P: Problem<G, H>, remaining: set<nat>, a: seq<Move<G>>, b: seq<Move<G>>)
    ensures AnyLive(P, remaining, a + b) <==> AnyLive(P, remaining, a) || AnyLive(P, remaining, b)
    decreases |a|
  {
    if a == [] {
      assert a + b == b;
    } else {
      assert (a + b)[0] == a[0] && (a + b)[1..] == a[1..] + b;
      AnyLiveConcat(P, remaining, a[1..], b);
    }
  }

  lemma {:induction false} AnyLiveHas<G, H>(P: Problem<G, H>, remaining: set<nat>, moves: seq<Move<G>>, k: nat)
    requires k < |moves| && LiveMove(P, remaining, moves[k])
    ensures AnyLive(P, remaining, moves)
    decreases k
  {
    if k != 0 {
      AnyLiveHas(P, remaining, moves[1..], k - 1);
    }
  }

  // ------------------------------------------------------------------
  // Dead states have no completions
  // ------------------------------------------------------------------

  lemma {:induction false} DeadHasNone<G, H>(P: Problem<G, H>, g: G, h: H, remaining: set<nat>)
    requires !Live(P, g, remaining)
    ensures Completions(P, g, h, remaining) == []
    decreases |remaining|, 3
  {
    if remaining != {} {
      DeadOperations(P, g, h, remaining, 0);
    }
  }

  lemma {:induction false} DeadOperations<G, H>(P: Problem<G, H>, g: G, h: H, remaining: set<nat>, i: nat)
    requires i <= |P.order| && !AnyLive(P, remaining, MovesFrom(P, g, remaining, i))
    ensures OverOperations(P, g, h, remaining, i) == []
    decreases |remaining|, 2, |P.order| - i
  {
    if i < |P.order| {
      var op := P.order[i];
      AnyLiveConcat(P, remaining, MovesOfOperation(P, g, remaining, op), MovesFrom(P, g, remaining, i + 1));
      DeadOperations(P, g, h, remaining, i + 1);
      if P.Eligible(g, remaining, op) {
        DeadBranches(P, remaining, op, P.moves(g, op), P.HoldsFor(h, remaining, op));
      }
    }
  }

  lemma {:induction false} DeadBranches<G, H>(
      P: Problem<G, H>, remaining: set<nat>, op: nat, nexts: seq<G>, holds: seq<H>)
    requires op in remaining && !AnyLive(P, remaining, MovesOf(op, nexts))
    ensures OverBranches(P, remaining, op, nexts, holds) == []
    decreases |remaining|, 1, |holds|
  {
    if holds != [] {
      DeadMoves(P, remaining, op, nexts, holds[0]);
      DeadBranches(P, remaining, op, nexts, holds[1..]);
    }
  }

  lemma {:induction false} DeadMoves<G, H>(P: Problem<G, H>, remaining: set<nat>, op: nat, nexts: seq<G>, hold: H)
    requires op in remaining && !AnyLive(P, remaining, MovesOf(op, nexts))
    ensures OverMoves(P, remaining, op, nexts, hold) == []
    decreases |remaining|, 0, |nexts|
  {
    if nexts != [] {
      Shrinks(remaining, op);
      assert MovesOf(op, nexts)[0] == Move(op, nexts[0]);
      assert MovesOf(op, nexts)[1..] == MovesOf(op, nexts[1..]);
      DeadHasNone(P, nexts[0], hold, remaining - {op});
      DeadMoves(P, remaining, op, nexts[1..], hold);
    }
  }
}
