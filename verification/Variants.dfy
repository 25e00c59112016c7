/** What a completed build variant is, without any search, and what it does to the board. */
module Variants {
  import opened Options
  import opened Bits
  import opened Folding
  import opened BuildTree
  import opened Pruning
  import Frame
  import BuildRun

  // ------------------------------------------------------------------
  // The search enumerates exactly the variants
  // ------------------------------------------------------------------

  /** A sequence of steps that places every remaining operation once, each by a move and
      with an available piece, and ends with an empty board. Required predecessors are no
      part of this. */
  ghost predicate IsVariant<G, H>(P: Problem<G, H>, g: G, h: H, remaining: set<nat>, path: Variant<G, H>)
    decreases |path|
  {
    if path == [] then remaining == {} && P.empty(g)
    else
      var step := path[0];
      && step.op in P.order && step.op in remaining && P.matches(g, step.op)
      && step.next in P.moves(g, step.op)
      && step.hold in P.HoldsFor(h, remaining, step.op)
      && IsVariant(P, step.next, step.hold, remaining - {step.op}, path[1..])
  }

  /** Every step comes after its required predecessors. */
  ghost predicate InTurn<G, H>(P: Problem<G, H>, remaining: set<nat>, path: Variant<G, H>)
    decreases |path|
  {
    path != [] ==> Ready(P, remaining, path[0].op) && InTurn(P, remaining - {path[0].op}, path[1..])
  }

  /** The direct search meets exactly the variants whose steps respect the required
      predecessors. */
  lemma {:induction false} CompletionsAreVariants<G, H>(
      P: Problem<G, H>, g: G, h: H, remaining: set<nat>, path: Variant<G, H>)
    ensures path in Completions(P, g, h, remaining) <==>
            IsVariant(P, g, h, remaining, path) && InTurn(P, remaining, path)
    decreases |remaining|, 3, 0
  {
    if remaining != {} {
      OperationsHave(P, g, h, remaining, 0, path);
      assert P.order[0..] == P.order;
    }
  }

  /** Without required predecessors it meets all variants. */
  lemma AllVariantsAreMet<G, H>(P: Problem<G, H>, g: G, h: H, remaining: set<nat>, path: Variant<G, H>)
    ensures path in Completions(Unpruned(P), g, h, remaining) <==> IsVariant(P, g, h, remaining, path)
  {
    CompletionsAreVariants(Unpruned(P), g, h, remaining, path);
    UnprunedVariant(P, g, h, remaining, path);
  }

  lemma {:induction false} UnprunedVariant<G, H>(
      P: Problem<G, H>, g: G, h: H, remaining: set<nat>, path: Variant<G, H>)
    ensures IsVariant(Unpruned(P), g, h, remaining, path) <==> IsVariant(P, g, h, remaining, path)
    ensures InTurn(Unpruned(P), remaining, path)
    decreases |path|
  {
    if path != [] {
      UnprunedVariant(P, path[0].next, path[0].hold, remaining - {path[0].op}, path[1..]);
    }
  }

  /** One step and then a variant of what is left. */
  ghost predicate Begins<G, H>(
    P: Problem<G, H>, remaining: set<nat>, op: nat, nexts: seq<G>, holds: seq<H>, path: Variant<G, H>)
  {
    && path != [] && path[0].op == op && path[0].next in nexts && path[0].hold in holds
    && IsVariant(P, path[0].next, path[0].hold, remaining - {op}, path[1..])
    && InTurn(P, remaining - {op}, path[1..])
  }

  lemma {:induction false} OperationsHave<G, H>(
      P: Problem<G, H>, g: G, h: H, remaining: set<nat>, i: nat, path: Variant<G, H>)
    requires i <= |P.order|
    ensures path in OverOperations(P, g, h, remaining, i) <==>
            && path != [] && path[0].op in P.order[i..] && P.Eligible(g, remaining, path[0].op)
            && Begins(P, remaining, path[0].op, P.moves(g, path[0].op), P.HoldsFor(h, remaining, path[0].op), path)
    decreases |remaining|, 2, |P.order| - i
  {
    if i < |P.order| {
      var op := P.order[i];
      OperationsHave(P, g, h, remaining, i + 1, path);
      assert P.order[i..][0] == op && P.order[i..][1..] == P.order[i + 1..];
      if P.Eligible(g, remaining, op) {
        BranchesHave(P, remaining, op, P.moves(g, op), P.HoldsFor(h, remaining, op), path);
      }
    }
  }

  lemma {:induction false} BranchesHave<G, H>(
      P: Problem<G, H>, remaining: set<nat>, op: nat, nexts: seq<G>, holds: seq<H>, path: Variant<G, H>)
    requires op in remaining
    ensures path in OverBranches(P, remaining, op, nexts, holds) <==> Begins(P, remaining, op, nexts, holds, path)
    decreases |remaining|, 1, |holds|
  {
    if holds != [] {
      MovesHave(P, remaining, op, nexts, holds[0], path);
      BranchesHave(P, remaining, op, nexts, holds[1..], path);
    }
  }

  lemma {:induction false} MovesHave<G, H>(
      P: Problem<G, H>, remaining: set<nat>, op: nat, nexts: seq<G>, hold: H, path: Variant<G, H>)
    requires op in remaining
    ensures path in OverMoves(P, remaining, op, nexts, hold) <==> Begins(P, remaining, op, nexts, [hold], path)
    decreases |remaining|, 0, |nexts|
  {
    if nexts != [] {
      Shrinks(remaining, op);
      MovesHave(P, remaining, op, nexts[1..], hold, path);
      var step := Step(op, nexts[0], hold);
      var tails := Completions(P, nexts[0], hold, remaining - {op});
      PrependHas(step, tails, path);
      if path != [] {
        CompletionsAreVariants(P, nexts[0], hold, remaining - {op}, path[1..]);
      }
    }
  }

  lemma PrependHas<T>(step: T, paths: seq<seq<T>>, path: seq<T>)
    ensures path in Prepend(step, paths) <==> path != [] && path[0] == step && path[1..] in paths
  {
    if path in Prepend(step, paths) {
      var i :| 0 <= i < |paths| && Prepend(step, paths)[i] == path;
      assert path[1..] == paths[i];
    }
    if path != [] && path[0] == step && path[1..] in paths {
      var i :| 0 <= i < |paths| && paths[i] == path[1..];
      assert Prepend(step, paths)[i] == path;
    }
  }

  // ------------------------------------------------------------------
  // When required predecessors are safe
  // ------------------------------------------------------------------

  /** A sequence of moves that places everything and empties the board. */
  ghost predicate IsPath<G, H>(P: Problem<G, H>, g: G, remaining: set<nat>, path: seq<Move<G>>)
    decreases |path|
  {
    if path == [] then remaining == {} && P.empty(g)
    else IsMove(P, g, remaining, path[0]) && IsPath(P, path[0].next, remaining - {path[0].op}, path[1..])
  }

  ghost predicate IsMove<G, H>(P: Problem<G, H>, g: G, remaining: set<nat>, move: Move<G>) {
    move.op in P.order && move.op in remaining && P.matches(g, move.op) && move.next in P.moves(g, move.op)
  }

  /** Every operation of the path comes after its required predecessors. */
  ghost predicate Obeys<G, H>(P: Problem<G, H>, remaining: set<nat>, path: seq<Move<G>>)
    decreases |path|
  {
    path != [] ==> Ready(P, remaining, path[0].op) && Obeys(P, remaining - {path[0].op}, path[1..])
  }

  lemma {:induction false} MovesFromHas<G, H>(P: Problem<G, H>, g: G, remaining: set<nat>, i: nat, move: Move<G>)
    requires i <= |P.order|
    ensures move in MovesFrom(P, g, remaining, i) <==>
            move.op in P.order[i..] && move.op in remaining && P.matches(g, move.op) && move.next in P.moves(g, move.op)
    decreases |P.order| - i
  {
    if i < |P.order| {
      var op := P.order[i];
      MovesFromHas(P, g, remaining, i + 1, move);
      assert P.order[i..][0] == op && P.order[i..][1..] == P.order[i + 1..];
      MovesOfHas(op, P.moves(g, op), move);
    }
  }

  lemma MovesOfHas<G>(op: nat, nexts: seq<G>, move: Move<G>)
    ensures move in MovesOf(op, nexts) <==> move.op == op && move.next in nexts
  {
    if move in MovesOf(op, nexts) {
      var k :| 0 <= k < |nexts| && MovesOf(op, nexts)[k] == move;
    }
    if move.op == op && move.next in nexts {
      var k :| 0 <= k < |nexts| && nexts[k] == move.next;
      assert MovesOf(op, nexts)[k] == move;
    }
  }

  lemma MoveIsMove<G, H>(P: Problem<G, H>, g: G, remaining: set<nat>, move: Move<G>)
    ensures move in MovesFrom(P, g, remaining, 0) <==> IsMove(P, g, remaining, move)
  {
    MovesFromHas(P, g, remaining, 0, move);
    assert P.order[0..] == P.order;
  }

  /** A live state has an accepting path. */
  lemma {:induction false} LiveHasPath<G, H>(P: Problem<G, H>, g: G, remaining: set<nat>) returns (path: seq<Move<G>>)
    requires Live(P, g, remaining)
    ensures IsPath(P, g, remaining, path)
    decreases |remaining|
  {
    path := [];
    if remaining != {} {
      var move := LiveMoveExists(P, remaining, MovesFrom(P, g, remaining, 0));
      MoveIsMove(P, g, remaining, move);
      Shrinks(remaining, move.op);
      var rest := LiveHasPath(P, move.next, remaining - {move.op});
      path := [move] + rest;
      assert path[1..] == rest;
    }
  }

  lemma {:induction false} LiveMoveExists<G, H>(
      P: Problem<G, H>, remaining: set<nat>, moves: seq<Move<G>>)
    returns (move: Move<G>)
    requires AnyLive(P, remaining, moves)
    ensures move in moves && LiveMove(P, remaining, move)
    decreases |moves|
  {
    if LiveMove(P, remaining, moves[0]) {
      move := moves[0];
    } else {
      move := LiveMoveExists(P, remaining, moves[1..]);
    }
  }

  /** An accepting path makes its state live. */
  lemma {:induction false} PathIsLive<G, H>(P: Problem<G, H>, g: G, remaining: set<nat>, path: seq<Move<G>>)
    requires IsPath(P, g, remaining, path)
    ensures Live(P, g, remaining)
    decreases |path|
  {
    if path != [] {
      MoveIsMove(P, g, remaining, path[0]);
      PathIsLive(P, path[0].next, remaining - {path[0].op}, path[1..]);
      var moves := MovesFrom(P, g, remaining, 0);
      var k: nat :| k < |moves| && moves[k] == path[0];
      AnyLiveHas(P, remaining, moves, k);
    }
  }

  lemma {:induction false} SafePathsObey<G, H>(P: Problem<G, H>, g: G, remaining: set<nat>, path: seq<Move<G>>)
    requires Safe(P, g, remaining) && IsPath(P, g, remaining, path)
    ensures Obeys(P, remaining, path)
    decreases |path|
  {
    if path != [] {
      MoveIsMove(P, g, remaining, path[0]);
      var moves := MovesFrom(P, g, remaining, 0);
      var k: nat :| k < |moves| && moves[k] == path[0];
      SafeHas(P, remaining, moves, k);
      PathIsLive(P, path[0].next, remaining - {path[0].op}, path[1..]);
      SafePathsObey(P, path[0].next, remaining - {path[0].op}, path[1..]);
    }
  }

  ghost predicate AllObey<G(!new), H>(P: Problem<G, H>, g: G, remaining: set<nat>) {
    forall path :: IsPath(P, g, remaining, path) ==> Obeys(P, remaining, path)
  }

  lemma {:induction false} ObeyingIsSafe<G(!new), H>(P: Problem<G, H>, g: G, remaining: set<nat>)
    requires AllObey(P, g, remaining)
    ensures Safe(P, g, remaining)
    decreases |remaining|
  {
    if remaining != {} {
      var moves := MovesFrom(P, g, remaining, 0);
      forall k | 0 <= k < |moves|
        ensures SafeMove(P, remaining, moves[k])
      {
        MoveIsMove(P, g, remaining, moves[k]);
        Shrinks(remaining, moves[k].op);
        ObeyingMove(P, g, remaining, moves[k]);
        ObeyingIsSafe(P, moves[k].next, remaining - {moves[k].op});
      }
      AllSafe(P, remaining, moves);
    }
  }

  lemma ObeyingMove<G(!new), H>(P: Problem<G, H>, g: G, remaining: set<nat>, move: Move<G>)
    requires AllObey(P, g, remaining) && IsMove(P, g, remaining, move)
    ensures AllObey(P, move.next, remaining - {move.op})
    ensures LiveMove(P, remaining, move) ==> Ready(P, remaining, move.op)
  {
    forall rest | IsPath(P, move.next, remaining - {move.op}, rest)
      ensures Obeys(P, remaining - {move.op}, rest) && Ready(P, remaining, move.op)
    {
      var path := [move] + rest;
      assert path[1..] == rest;
      assert IsPath(P, g, remaining, path);
      assert Obeys(P, remaining, path);
    }
    if LiveMove(P, remaining, move) {
      var rest := LiveHasPath(P, move.next, remaining - {move.op});
    }
  }

  /** Skipping operations before their required predecessors is harmless exactly when every
      accepting path obeys the predecessors. */
  lemma SafeExactlyWhenPathsObey<G(!new), H>(P: Problem<G, H>, g: G, remaining: set<nat>)
    ensures Safe(P, g, remaining) <==> AllObey(P, g, remaining)
  {
    if Safe(P, g, remaining) {
      forall path | IsPath(P, g, remaining, path)
        ensures Obeys(P, remaining, path)
      {
        SafePathsObey(P, g, remaining, path);
      }
    } else if AllObey(P, g, remaining) {
      ObeyingIsSafe(P, g, remaining);
    }
  }

  // ------------------------------------------------------------------
  // Counted variants are real builds
  // ------------------------------------------------------------------

  /** The states that the variants of an operation lead to, rejected ones left out. */
  function Results(
    L: Frame.Layout, reach: BuildRun.Reachability, st: BuildRun.BuildState, variants: seq<BuildRun.Operation>)
    : (states: seq<BuildRun.BuildState>)
    requires L.Valid() && L.Fits(st.board)
    ensures forall next :: next in states ==>
              exists v :: v in variants && BuildRun.Step(L, reach, st, v) == BuildRun.Ok(next)
    decreases |variants|
  {
    if variants == [] then []
    else
      var first := BuildRun.Step(L, reach, st, variants[0]);
      (if first.Ok? then [first.state] else []) + Results(L, reach, st, variants[1..])
  }

  /** The placements to try for an operation in a state. */
  type Placements = (BuildRun.BuildState, nat) -> seq<BuildRun.Operation>

  /** The search runs over real placements. */
  ghost predicate Places<H>(
    P: Problem<BuildRun.BuildState, H>, L: Frame.Layout, reach: BuildRun.Reachability, variants: Placements)
  {
    && L.Valid()
    && (forall st :: P.empty(st) <==> st.board == {})
    && forall u: nat {:trigger Unfold(u)} :: Unfold(u) ==>
         forall st, op: nat :: P.moves(st, op) ==
           if L.Fits(st.board) then Results(L, reach, st, variants(st, op)) else []
  }

  /** The operations realise the steps of a variant. */
  ghost predicate Realises<H>(
    variants: Placements, st: BuildRun.BuildState, path: Variant<BuildRun.BuildState, H>,
    ops: seq<BuildRun.Operation>)
  {
    |ops| == |path| && forall k :: 0 <= k < |ops| ==> ops[k] in variants(StateAt(st, path, k), path[k].op)
  }

  ghost function StateAt<H>(
    st: BuildRun.BuildState, path: Variant<BuildRun.BuildState, H>, k: nat): BuildRun.BuildState
    requires k <= |path|
  {
    if k == 0 then st else path[k - 1].next
  }

  lemma MoveIsPlacement<H>(
      P: Problem<BuildRun.BuildState, H>, L: Frame.Layout, reach: BuildRun.Reachability, variants: Placements,
      st: BuildRun.BuildState, op: nat, next: BuildRun.BuildState)
    returns (v: BuildRun.Operation)
    requires Places(P, L, reach, variants) && next in P.moves(st, op)
    ensures v in variants(st, op) && L.Fits(st.board) && BuildRun.Step(L, reach, st, v) == BuildRun.Ok(next)
  {
    assert Unfold(0);
    v :| v in variants(st, op) && BuildRun.Step(L, reach, st, v) == BuildRun.Ok(next);
  }

  lemma {:induction false} VariantIsBuild<H>(
      P: Problem<BuildRun.BuildState, H>, L: Frame.Layout, reach: BuildRun.Reachability, variants: Placements,
      st: BuildRun.BuildState, h: H, remaining: set<nat>, path: Variant<BuildRun.BuildState, H>)
    returns (ops: seq<BuildRun.Operation>)
    requires Places(P, L, reach, variants) && IsVariant(P, st, h, remaining, path)
    ensures Realises(variants, st, path, ops)
    ensures BuildRun.Run(L, reach, st, ops).Some? && BuildRun.Run(L, reach, st, ops).value.board == {}
    decreases |path|
  {
    ops := [];
    if path != [] {
      var step := path[0];
      var v := MoveIsPlacement(P, L, reach, variants, st, step.op, step.next);
      var rest := VariantIsBuild(P, L, reach, variants, step.next, step.hold, remaining - {step.op}, path[1..]);
      ops := [v] + rest;
      assert ops[1..] == rest;
      forall k | 0 <= k < |ops|
        ensures ops[k] in variants(StateAt(st, path, k), path[k].op)
      {
        if k > 0 {
          assert ops[k] == rest[k - 1] && path[k] == path[1..][k - 1];
          assert StateAt(step.next, path[1..], k - 1) == StateAt(st, path, k);
        }
      }
    }
  }

  /** Every variant the search counts places disjoint masks that, with the initial cells,
      fill exactly the rows it clears. */
  lemma CountedVariantsConserveCells<H>(
      P: Problem<BuildRun.BuildState, H>, L: Frame.Layout, reach: BuildRun.Reachability, variants: Placements,
      board: Frame.Board, h: H, path: Variant<BuildRun.BuildState, H>)
    returns (ops: seq<BuildRun.Operation>, end: BuildRun.BuildState)
    requires Places(P, L, reach, variants) && L.height <= 16 && L.Fits(board)
    requires path in Completions(P, BuildRun.InitialState(board), h, ToSet(P.order))
    ensures Realises(variants, BuildRun.InitialState(board), path, ops)
    ensures BuildRun.Run(L, reach, BuildRun.InitialState(board), ops) == Some(end)
    ensures BuildRun.Disjoint(board, ops)
    ensures BuildRun.Placed(board, ops) == BuildRun.FilledRows(L, end.deletedRows)
    ensures L.width * end.clearedLines == |board| + BuildRun.MaskSizes(ops)
  {
    var st := BuildRun.InitialState(board);
    CompletionsAreVariants(P, st, h, ToSet(P.order), path);
    ops := VariantIsBuild(P, L, reach, variants, st, h, ToSet(P.order), path);
    end := BuildRun.Run(L, reach, st, ops).value;
    BuildRun.AcceptedRunConservesCells(L, reach, board, ops);
  }
}
