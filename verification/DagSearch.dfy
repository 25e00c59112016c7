/** Enumerating build variants over the geometry DAG, and why it finds what the direct
    search finds. */
module DagSearch {
  import opened Bits
  import opened Folding
  import opened BuildTree
  import opened Pruning
  import opened GeometryDag
  import opened VariantSearch
  import CompletionMemo

  // ------------------------------------------------------------------
  // Groups of edges
  // ------------------------------------------------------------------

  /** Operations without a move contribute nothing and leave no edges. */
  lemma {:induction false} NextGroup<G, H>(P: Problem<G, H>, g: G, h: H, remaining: set<nat>, i: nat) returns (p: nat)
    requires i <= |P.order|
    ensures i <= p <= |P.order|
    ensures MovesFrom(P, g, remaining, i) == MovesFrom(P, g, remaining, p)
    ensures OverOperations(P, g, h, remaining, i) == OverOperations(P, g, h, remaining, p)
    ensures p < |P.order| ==> MovesOfOperation(P, g, remaining, P.order[p]) != []
    decreases |P.order| - i
  {
    p := i;
    if i < |P.order| && MovesOfOperation(P, g, remaining, P.order[i]) == [] {
      var op := P.order[i];
      if P.Eligible(g, remaining, op) {
        NoMovesNoCompletions(P, remaining, op, P.HoldsFor(h, remaining, op));
        assert |MovesOf(op, P.moves(g, op))| == 0;
        assert P.moves(g, op) == [];
      }
      assert OverOperation(P, g, h, remaining, op) == [];
      p := NextGroup(P, g, h, remaining, i + 1);
    }
  }

  lemma {:induction false} NoMovesNoCompletions<G, H>(P: Problem<G, H>, remaining: set<nat>, op: nat, holds: seq<H>)
    requires op in remaining
    ensures OverBranches(P, remaining, op, [], holds) == []
    decreases |holds|
  {
    if holds != [] {
      NoMovesNoCompletions(P, remaining, op, holds[1..]);
    }
  }

  /** The first edge past the group that starts at `a`. */
  method GroupEnd(edges: seq<Edge>, a: nat) returns (b: nat)
    requires a < |edges|
    ensures a < b <= |edges|
    ensures forall k :: a <= k < b ==> edges[k].op == edges[a].op
    ensures b < |edges| ==> edges[b].op != edges[a].op
  {
    b := a + 1;
    while b < |edges| && edges[b].op == edges[a].op
      invariant a < b <= |edges|
      invariant forall k :: a <= k < b ==> edges[k].op == edges[a].op
    {
      b := b + 1;
    }
  }

  /** Because each operation is tried once, a group is exactly the moves of one operation. */
  lemma GroupIsOperation<G, H>(P: Problem<G, H>, g: G, remaining: set<nat>, p: nat, moves: seq<Move<G>>, b: nat)
    requires P.Valid() && p < |P.order| && moves == MovesFrom(P, g, remaining, p)
    requires MovesOfOperation(P, g, remaining, P.order[p]) != [] && 0 < b <= |moves|
    requires forall k :: 0 <= k < b ==> moves[k].op == moves[0].op
    requires b < |moves| ==> moves[b].op != moves[0].op
    ensures moves[..b] == MovesOfOperation(P, g, remaining, P.order[p]) &&
              moves[b..] == MovesFrom(P, g, remaining, p + 1)
  {
    var first, rest := MovesOfOperation(P, g, remaining, P.order[p]), MovesFrom(P, g, remaining, p + 1);
    assert moves == first + rest;
    assert forall k :: 0 <= k < |first| ==> moves[k] == first[k] && first[k].op == P.order[p];
    if |rest| > 0 {
      LaterMovesDiffer(P, g, remaining, p);
      assert moves[|first|] == rest[0];
    }
    assert b == |first|;
  }

  lemma LaterMovesDiffer<G, H>(P: Problem<G, H>, g: G, remaining: set<nat>, p: nat)
    requires P.Valid() && p < |P.order| && |MovesFrom(P, g, remaining, p + 1)| > 0
    ensures MovesFrom(P, g, remaining, p + 1)[0].op != P.order[p]
  {
    MoveRemains(P, g, remaining, p + 1, 0);
    var tail := P.order[p + 1..];
    var j :| 0 <= j < |tail| && tail[j] == MovesFrom(P, g, remaining, p + 1)[0].op;
    assert P.order[p + 1 + j] != P.order[p];
  }

  // ------------------------------------------------------------------
  // The search
  // ------------------------------------------------------------------

  /** The geometry states that a group of edges leads to. */
  ghost function Nexts<G>(keys: seq<Key<G>>, edges: seq<Edge>): (nexts: seq<G>)
    requires forall k :: 0 <= k < |edges| ==> edges[k].child < |keys|
    ensures |nexts| == |edges|
  {
    seq(|edges|, k requires 0 <= k < |edges| => keys[edges[k].child].0)
  }

  /** A group of edges of one operation of a finished node. */
  ghost predicate IsGroup<G, H>(
    P: Problem<G, H>, keys: seq<Key<G>>, nodes: seq<Node>, edges: seq<Edge>, remaining: set<nat>, op: nat)
  {
    && AllFinished(P, keys, nodes) && op in remaining
    && forall k :: 0 <= k < |edges| ==>
         && edges[k].op == op && edges[k].piece == P.piece(op) && edges[k].child < |keys|
         && keys[edges[k].child].1 == remaining - {op}
         && Safe(P, keys[edges[k].child].0, remaining - {op})
  }

  method SearchNode<G(==, !new), H(==, !new)>(
      search: Search<G, H>, keys: seq<Key<G>>, nodes: seq<Node>, i: nat, h: H, trace: Variant<G, H>)
    requires search.Valid() && (search.stop ==> search.enumerated == 0)
    requires AllFinished(search.P, keys, nodes) && i < |nodes| && keys[i].1 <= ToSet(search.P.order)
    requires Safe(search.P, keys[i].0, keys[i].1)
    modifies search`enumerated, search`retained, search.memo`count, search.memo`contents, search.memo.keys,
        search.memo.values, search.memo.stamps
    ensures search.Valid()
    ensures search.Met(old(search.enumerated), old(search.retained), trace,
              Completions(search.P, keys[i].0, h, keys[i].1))
    decreases |keys[i].1|, 3
  {
    var P, g, remaining := search.P, keys[i].0, keys[i].1;
    NodeIsFinished(P, keys, nodes, i);
    if !nodes[i].live {
      DeadHasNone(P, g, h, remaining);
      search.NothingMet(trace);
      return;
    }
    if remaining == {} {
      search.RecordSuccess(trace);
      return;
    }
    var handled := search.Recall(g, h, remaining, trace);
    if handled {
      return;
    }
    var before := search.enumerated;
    ghost var kept := search.retained;
    SearchGroups(search, keys, nodes, i, h, trace);
    search.Remember(g, h, remaining, trace, before, kept);
  }

  /** Every live edge places one of the pieces. */
  ghost predicate HasLivePieces(nodes: seq<Node>, edges: seq<Edge>, pieces: set<nat>) {
    forall u: nat {:trigger Unfold(u)} :: Unfold(u) ==>
      forall k :: 0 <= k < |edges| ==>
          edges[k].child < |nodes| && (nodes[edges[k].child].live ==> edges[k].piece in pieces)
  }

  lemma SliceHasLivePieces(nodes: seq<Node>, edges: seq<Edge>, pieces: set<nat>, a: nat, b: nat)
    requires HasLivePieces(nodes, edges, pieces) && a <= b <= |edges|
    ensures HasLivePieces(nodes, edges[a..b], pieces)
  {
    assert Unfold(0);
  }

  /** The pieces that some live edge places. */
  method LivePieces(nodes: seq<Node>, edges: seq<Edge>) returns (pieces: set<nat>)
    requires forall k :: 0 <= k < |edges| ==> edges[k].child < |nodes|
    ensures HasLivePieces(nodes, edges, pieces)
    ensures forall p :: p in pieces ==>
              exists k :: 0 <= k < |edges| && nodes[edges[k].child].live && edges[k].piece == p
  {
    pieces := {};
    for k := 0 to |edges|
      invariant forall j :: 0 <= j < k && nodes[edges[j].child].live ==> edges[j].piece in pieces
      invariant forall p :: p in pieces ==> exists j :: 0 <= j < k && nodes[edges[j].child].live && edges[j].piece == p
    {
      if nodes[edges[k].child].live {
        pieces := pieces + {edges[k].piece};
      }
    }
  }

  method SearchEdges<G(==, !new), H(==, !new)>(
      search: Search<G, H>, keys: seq<Key<G>>, nodes: seq<Node>, edges: seq<Edge>, remaining: set<nat>, op: nat,
      hold: H, trace: Variant<G, H>)
    requires search.Valid() && (search.stop ==> search.enumerated == 0)
    requires IsGroup(search.P, keys, nodes, edges, remaining, op) && remaining <= ToSet(search.P.order)
    modifies search`enumerated, search`retained, search.memo`count, search.memo`contents, search.memo.keys,
        search.memo.values, search.memo.stamps
    ensures search.Valid()
    ensures search.Met(old(search.enumerated), old(search.retained), trace,
              OverMoves(search.P, remaining, op, Nexts(keys, edges), hold))
    decreases |remaining|, 0
  {
    ghost var P, count0, kept0 := search.P, search.enumerated, search.retained;
    ghost var done: seq<Variant<G, H>> := [];
    ghost var nexts := Nexts(keys, edges);
    search.NothingMet(trace);
    Shrinks(remaining, op);
    for k := 0 to |edges|
      invariant search.Valid() && (search.stop ==> search.enumerated == 0)
      invariant OverMoves(P, remaining, op, nexts, hold) == done + OverMoves(P, remaining, op, nexts[k..], hold)
      invariant search.Met(count0, kept0, trace, done) && (search.stop ==> done == [])
    {
      ghost var count1, kept1 := search.enumerated, search.retained;
      var child := edges[k].child;
      var step := Step(op, keys[child].0, hold);
      ghost var paths := Completions(P, nexts[k], hold, remaining - {op});
      ghost var found := Prepend(step, paths);
      NextMove(P, remaining, op, nexts, hold, k, done);
      ghost var rest := OverMoves(P, remaining, op, nexts[k + 1..], hold);
      SearchEdge(search, keys, nodes, child, hold, trace, step);
      search.Continue(count0, kept0, trace, done, count1, kept1, found);
      done := done + found;
      if search.stop && search.enumerated > 0 {
        search.Stopped(count0, kept0, trace, done, rest);
        return;
      }
    }
    assert done + [] == done;
  }

  method SearchEdge<G(==, !new), H(==, !new)>(
      search: Search<G, H>, keys: seq<Key<G>>, nodes: seq<Node>, child: nat, hold: H, trace: Variant<G, H>,
      step: Step<G, H>)
    requires search.Valid() && (search.stop ==> search.enumerated == 0)
    requires AllFinished(search.P, keys, nodes) && child < |nodes| && keys[child].1 <= ToSet(search.P.order)
    requires Safe(search.P, keys[child].0, keys[child].1)
    modifies search`enumerated, search`retained, search.memo`count, search.memo`contents, search.memo.keys,
        search.memo.values, search.memo.stamps
    ensures search.Valid()
    ensures search.Met(old(search.enumerated), old(search.retained), trace,
              Prepend(step, Completions(search.P, keys[child].0, hold, keys[child].1)))
    decreases |keys[child].1|, 4
  {
    NodeIsFinished(search.P, keys, nodes, child);
    if !nodes[child].live {
      DeadHasNone(search.P, keys[child].0, hold, keys[child].1);
      search.NothingMet(trace);
      return;
    }
    SearchNode(search, keys, nodes, child, hold, trace + [step]);
    AfterPrepend(trace, step, Completions(search.P, keys[child].0, hold, keys[child].1));
  }

  method SearchHolds<G(==, !new), H(==, !new)>(
      search: Search<G, H>, keys: seq<Key<G>>, nodes: seq<Node>, edges: seq<Edge>, remaining: set<nat>, op: nat,
      holds: seq<H>, trace: Variant<G, H>)
    requires search.Valid() && (search.stop ==> search.enumerated == 0)
    requires IsGroup(search.P, keys, nodes, edges, remaining, op) && remaining <= ToSet(search.P.order)
    modifies search`enumerated, search`retained, search.memo`count, search.memo`contents, search.memo.keys,
        search.memo.values, search.memo.stamps
    ensures search.Valid()
    ensures search.Met(old(search.enumerated), old(search.retained), trace,
              OverBranches(search.P, remaining, op, Nexts(keys, edges), holds))
    decreases |remaining|, 1, 0
  {
    ghost var P, count0, kept0 := search.P, search.enumerated, search.retained;
    ghost var done: seq<Variant<G, H>> := [];
    ghost var nexts := Nexts(keys, edges);
    search.NothingMet(trace);
    for b := 0 to |holds|
      invariant search.Valid() && (search.stop ==> search.enumerated == 0)
      invariant OverBranches(P, remaining, op, nexts, holds) == done + OverBranches(P, remaining, op, nexts, holds[b..])
      invariant search.Met(count0, kept0, trace, done) && (search.stop ==> done == [])
    {
      ghost var count1, kept1 := search.enumerated, search.retained;
      ghost var found := OverMoves(P, remaining, op, nexts, holds[b]);
      NextBranch(P, remaining, op, nexts, holds, b, done);
      ghost var rest := OverBranches(P, remaining, op, nexts, holds[b + 1..]);
      SearchEdges(search, keys, nodes, edges, remaining, op, holds[b], trace);
      search.Continue(count0, kept0, trace, done, count1, kept1, found);
      done := done + found;
      if search.stop && search.enumerated > 0 {
        search.Stopped(count0, kept0, trace, done, rest);
        return;
      }
    }
    assert done + [] == done;
  }

  lemma {:induction false} DeadEdgesAreDead<G, H>(
      P: Problem<G, H>, keys: seq<Key<G>>, nodes: seq<Node>, edges: seq<Edge>, remaining: set<nat>, op: nat)
    requires IsGroup(P, keys, nodes, edges, remaining, op)
    requires forall k :: 0 <= k < |edges| ==> !nodes[edges[k].child].live
    ensures !AnyLive(P, remaining, MovesOf(op, Nexts(keys, edges)))
    decreases |edges|
  {
    if edges != [] {
      DeadEdgesAreDead(P, keys, nodes, edges[1..], remaining, op);
      var nexts := Nexts(keys, edges);
      assert MovesOf(op, nexts)[0] == Move(op, nexts[0]);
      assert MovesOf(op, nexts)[1..] == MovesOf(op, Nexts(keys, edges[1..]));
      NodeIsFinished(P, keys, nodes, edges[0].child);
    }
  }

  /** All hold branches for one operation. A piece without a live edge gets none. */
  method SearchGroup<G(==, !new), H(==, !new)>(
      search: Search<G, H>, keys: seq<Key<G>>, nodes: seq<Node>, edges: seq<Edge>, remaining: set<nat>, op: nat,
      pieces: set<nat>, h: H, trace: Variant<G, H>)
    requires search.Valid() && (search.stop ==> search.enumerated == 0)
    requires IsGroup(search.P, keys, nodes, edges, remaining, op) && remaining <= ToSet(search.P.order)
    requires HasLivePieces(nodes, edges, pieces)
    modifies search`enumerated, search`retained, search.memo`count, search.memo`contents, search.memo.keys,
        search.memo.values, search.memo.stamps
    ensures search.Valid()
    ensures search.Met(old(search.enumerated), old(search.retained), trace,
              OverBranches(search.P, remaining, op, Nexts(keys, edges), search.P.HoldsFor(h, remaining, op)))
    decreases |remaining|, 1, 1
  {
    if search.P.piece(op) !in pieces {
      assert Unfold(0);
      DeadEdgesAreDead(search.P, keys, nodes, edges, remaining, op);
      DeadBranches(search.P, remaining, op, Nexts(keys, edges), search.P.HoldsFor(h, remaining, op));
      search.NothingMet(trace);
      return;
    }
    SearchHolds(search, keys, nodes, edges, remaining, op, search.P.HoldsFor(h, remaining, op), trace);
  }

  /** The group of edges that carries the moves of operation `p` of the order. */
  lemma GroupOfOperation<G, H>(P: Problem<G, H>, keys: seq<Key<G>>, nodes: seq<Node>, i: nat, p: nat, a: nat, b: nat)
    requires P.Valid() && AllFinished(P, keys, nodes) && i < |nodes| && keys[i].1 != {} && Safe(P, keys[i].0, keys[i].1)
    requires a < b <= |nodes[i].edges| && p < |P.order|
    requires |MovesFrom(P, keys[i].0, keys[i].1, 0)| == |nodes[i].edges|
    requires MovesFrom(P, keys[i].0, keys[i].1, 0)[a..] == MovesFrom(P, keys[i].0, keys[i].1, p)
    requires MovesOfOperation(P, keys[i].0, keys[i].1, P.order[p]) != []
    requires forall k :: a <= k < b ==> nodes[i].edges[k].op == nodes[i].edges[a].op
    requires b < |nodes[i].edges| ==> nodes[i].edges[b].op != nodes[i].edges[a].op
    ensures nodes[i].edges[a].op == P.order[p] && P.order[p] in keys[i].1 && P.matches(keys[i].0, P.order[p])
    ensures IsGroup(P, keys, nodes, nodes[i].edges[a..b], keys[i].1, P.order[p])
    ensures Nexts(keys, nodes[i].edges[a..b]) == P.moves(keys[i].0, P.order[p])
    ensures SafeMoves(P, keys[i].1, MovesOf(P.order[p], P.moves(keys[i].0, P.order[p])))
    ensures MovesFrom(P, keys[i].0, keys[i].1, 0)[b..] == MovesFrom(P, keys[i].0, keys[i].1, p + 1)
  {
    var g, remaining, edges := keys[i].0, keys[i].1, nodes[i].edges;
    var moves := MovesFrom(P, g, remaining, 0);
    NodeIsFinished(P, keys, nodes, i);
    var op := P.order[p];
    EdgeOpsAreMoveOps(P, keys, edges, moves, remaining, a, b);
    BlockOfOperation(P, g, remaining, p, moves, a, b);
    GroupFollows(P, keys, nodes, edges, moves, remaining, op, P.moves(g, op), a, b);
  }

  lemma EdgeOpsAreMoveOps<G, H>(
      P: Problem<G, H>, keys: seq<Key<G>>, edges: seq<Edge>, moves: seq<Move<G>>, remaining: set<nat>, a: nat, b: nat)
    requires Follows(P, keys, edges, moves, remaining) && a < b <= |edges|
    requires forall k :: a <= k < b ==> edges[k].op == edges[a].op
    requires b < |edges| ==> edges[b].op != edges[a].op
    ensures |moves| == |edges| && edges[a].op == moves[a].op
    ensures forall k :: a <= k < b ==> moves[k].op == moves[a].op
    ensures b < |moves| ==> moves[b].op != moves[a].op
  {
  }

  /** A maximal stretch of moves with one operation, in place among all moves. */
  lemma BlockOfOperation<G, H>(
      P: Problem<G, H>, g: G, remaining: set<nat>, p: nat, moves: seq<Move<G>>, a: nat, b: nat)
    requires P.Valid() && p < |P.order| && a < b <= |moves| && moves[a..] == MovesFrom(P, g, remaining, p)
    requires MovesOfOperation(P, g, remaining, P.order[p]) != []
    requires forall k :: a <= k < b ==> moves[k].op == moves[a].op
    requires b < |moves| ==> moves[b].op != moves[a].op
    ensures moves[a].op == P.order[p] && P.order[p] in remaining && P.matches(g, P.order[p])
    ensures |P.moves(g, P.order[p])| == b - a
    ensures forall k :: 0 <= k < b - a ==> moves[a + k] == Move(P.order[p], P.moves(g, P.order[p])[k])
    ensures moves[b..] == MovesFrom(P, g, remaining, p + 1)
  {
    var tail, size := moves[a..], b - a;
    assert forall k :: 0 <= k < |tail| ==> tail[k] == moves[a + k];
    GroupIsOperation(P, g, remaining, p, tail, size);
    var block := MovesOf(P.order[p], P.moves(g, P.order[p]));
    assert tail[..size] == block;
    forall k | 0 <= k < size
      ensures moves[a + k] == block[k]
    {
      assert tail[..size][k] == tail[k];
    }
    var none: nat := 0;
    assert moves[a + none] == block[none];
    assert moves[b..] == tail[size..];
  }

  lemma GroupFollows<G, H>(
      P: Problem<G, H>, keys: seq<Key<G>>, nodes: seq<Node>, edges: seq<Edge>, moves: seq<Move<G>>,
      remaining: set<nat>, op: nat, nexts: seq<G>, a: nat, b: nat)
    requires AllFinished(P, keys, nodes) && Follows(P, keys, edges, moves, remaining) && SafeMoves(P, remaining, moves)
    requires a < b <= |edges| && |nexts| == b - a
    requires forall k :: 0 <= k < b - a ==> moves[a + k] == Move(op, nexts[k])
    ensures op in remaining && IsGroup(P, keys, nodes, edges[a..b], remaining, op)
    ensures Nexts(keys, edges[a..b]) == nexts
    ensures SafeMoves(P, remaining, MovesOf(op, nexts))
  {
    var group := edges[a..b];
    var first: nat := 0;
    assert moves[a + first] == Move(op, nexts[first]);
    assert edges[a].op == op;
    forall k | 0 <= k < |group|
      ensures group[k].op == op && group[k].piece == P.piece(op) && group[k].child < |keys|
      ensures keys[group[k].child] == (nexts[k], remaining - {op})
      ensures SafeMove(P, remaining, MovesOf(op, nexts)[k])
    {
      assert group[k] == edges[a + k] && moves[a + k] == Move(op, nexts[k]);
      SafeHas(P, remaining, moves, a + k);
    }
    AllSafe(P, remaining, MovesOf(op, nexts));
    forall k | 0 <= k < |group|
      ensures Safe(P, keys[group[k].child].0, remaining - {op})
    {
      assert SafeMove(P, remaining, MovesOf(op, nexts)[k]);
    }
  }

  /** The moves from `a` on begin with those of operation `q` of the order. */
  ghost predicate AtGroup<G, H>(P: Problem<G, H>, g: G, remaining: set<nat>, a: nat, q: nat) {
    q < |P.order| && forall u: nat {:trigger Unfold(u)} :: Unfold(u) ==>
      && a <= |MovesFrom(P, g, remaining, 0)| && MovesFrom(P, g, remaining, 0)[a..] == MovesFrom(P, g, remaining, q)
      && MovesOfOperation(P, g, remaining, P.order[q]) != []
  }

  lemma OpenGroup<G, H>(P: Problem<G, H>, g: G, remaining: set<nat>, a: nat, q: nat)
    requires AtGroup(P, g, remaining, a, q)
    ensures a <= |MovesFrom(P, g, remaining, 0)| && MovesFrom(P, g, remaining, 0)[a..] == MovesFrom(P, g, remaining, q)
    ensures MovesOfOperation(P, g, remaining, P.order[q]) != []
  {
    assert Unfold(0);
  }

  /** The moves from `b` on are those after operation `q`. */
  ghost predicate PastGroup<G, H>(P: Problem<G, H>, g: G, remaining: set<nat>, b: nat, q: nat) {
    q < |P.order| && forall u: nat {:trigger Unfold(u)} :: Unfold(u) ==>
      && b <= |MovesFrom(P, g, remaining, 0)|
      && MovesFrom(P, g, remaining, 0)[b..] == MovesFrom(P, g, remaining, q + 1)
  }

  method SearchNextGroup<G(==, !new), H(==, !new)>(
      search: Search<G, H>, keys: seq<Key<G>>, nodes: seq<Node>, i: nat, h: H, trace: Variant<G, H>, pieces: set<nat>,
      a: nat, ghost p: nat)
    returns (b: nat)
    requires search.Valid() && (search.stop ==> search.enumerated == 0)
    requires AllFinished(search.P, keys, nodes) && i < |nodes| && keys[i].1 <= ToSet(search.P.order) && keys[i].1 != {}
    requires Safe(search.P, keys[i].0, keys[i].1)
    requires HasLivePieces(nodes, nodes[i].edges, pieces)
    requires a < |nodes[i].edges| == |MovesFrom(search.P, keys[i].0, keys[i].1, 0)|
    requires AtGroup(search.P, keys[i].0, keys[i].1, a, p)
    modifies search`enumerated, search`retained, search.memo`count, search.memo`contents, search.memo.keys,
        search.memo.values, search.memo.stamps
    ensures search.Valid() && a < b <= |nodes[i].edges|
    ensures PastGroup(search.P, keys[i].0, keys[i].1, b, p)
    ensures search.Met(old(search.enumerated), old(search.retained), trace,
              OverOperation(search.P, keys[i].0, h, keys[i].1, search.P.order[p]))
    decreases |keys[i].1|, 1, 2
  {
    var edges := nodes[i].edges;
    b := GroupEnd(edges, a);
    SliceHasLivePieces(nodes, edges, pieces, a, b);
    OpenGroup(search.P, keys[i].0, keys[i].1, a, p);
    GroupOfOperation(search.P, keys, nodes, i, p, a, b);
    OperationIsBranches(search.P, keys[i].0, h, keys[i].1, search.P.order[p]);
    SearchGroup(search, keys, nodes, edges[a..b], keys[i].1, edges[a].op, pieces, h, trace);
  }

  /** Edges from `a` on carry the moves from operation `p` on, and the operations before
      `p` have contributed `done`. */
  ghost predicate Reached<G, H>(
    P: Problem<G, H>, g: G, h: H, remaining: set<nat>, a: nat, p: nat, done: seq<Variant<G, H>>)
  {
    forall u: nat {:trigger Unfold(u)} :: Unfold(u) ==>
      && a <= |MovesFrom(P, g, remaining, 0)| && p <= |P.order|
      && MovesFrom(P, g, remaining, 0)[a..] == MovesFrom(P, g, remaining, p)
      && Completions(P, g, h, remaining) == done + OverOperations(P, g, h, remaining, p)
  }

  lemma StartReached<G, H>(P: Problem<G, H>, g: G, h: H, remaining: set<nat>)
    requires remaining != {}
    ensures Reached(P, g, h, remaining, 0, 0, [])
  {
    assert MovesFrom(P, g, remaining, 0)[0..] == MovesFrom(P, g, remaining, 0);
    assert [] + OverOperations(P, g, h, remaining, 0) == OverOperations(P, g, h, remaining, 0);
  }

  lemma NextReached<G, H>(
      P: Problem<G, H>, g: G, h: H, remaining: set<nat>, a: nat, p: nat, done: seq<Variant<G, H>>)
    returns (q: nat)
    requires Reached(P, g, h, remaining, a, p, done) && a < |MovesFrom(P, g, remaining, 0)|
    ensures AtGroup(P, g, remaining, a, q) && Remains(P, g, h, remaining, q, done)
  {
    assert Unfold(0);
    q := NextGroup(P, g, h, remaining, p);
    assert |MovesFrom(P, g, remaining, q)| > 0;
  }

  /** The operations before `q` have contributed `done` to the completions. */
  ghost predicate Remains<G, H>(
    P: Problem<G, H>, g: G, h: H, remaining: set<nat>, q: nat, done: seq<Variant<G, H>>)
  {
    q <= |P.order| && forall u: nat {:trigger Unfold(u)} :: Unfold(u) ==>
      Completions(P, g, h, remaining) == done + OverOperations(P, g, h, remaining, q)
  }

  lemma GroupReached<G, H>(P: Problem<G, H>, g: G, h: H, remaining: set<nat>, b: nat, q: nat, done: seq<Variant<G, H>>)
    requires PastGroup(P, g, remaining, b, q) && Remains(P, g, h, remaining, q, done)
    ensures Reached(P, g, h, remaining, b, q + 1, done + OverOperation(P, g, h, remaining, P.order[q]))
    ensures Completions(P, g, h, remaining) == done + OverOperation(P, g, h, remaining, P.order[q]) +
              OverOperations(P, g, h, remaining, q + 1)
  {
    assert Unfold(0);
    var found, rest := OverOperation(P, g, h, remaining, P.order[q]), OverOperations(P, g, h, remaining, q + 1);
    assert done + (found + rest) == (done + found) + rest;
  }

  lemma EndReached<G, H>(P: Problem<G, H>, g: G, h: H, remaining: set<nat>, p: nat, done: seq<Variant<G, H>>)
    requires Reached(P, g, h, remaining, |MovesFrom(P, g, remaining, 0)|, p, done)
    ensures Completions(P, g, h, remaining) == done
  {
    assert Unfold(0);
    var q := NextGroup(P, g, h, remaining, p);
    assert MovesFrom(P, g, remaining, q) == [];
    assert q == |P.order|;
    assert done + [] == done;
  }

  /** The next group, and what has been met after it. */
  method SearchFrom<G(==, !new), H(==, !new)>(
      search: Search<G, H>, keys: seq<Key<G>>, nodes: seq<Node>, i: nat, h: H, trace: Variant<G, H>, pieces: set<nat>,
      a: nat, ghost p: nat, ghost done: seq<Variant<G, H>>, ghost count0: nat, ghost kept0: seq<Variant<G, H>>)
    returns (b: nat, stopped: bool, ghost q: nat, ghost more: seq<Variant<G, H>>)
    requires search.Valid() && (search.stop ==> search.enumerated == 0 && count0 == 0 && done == []) &&
              |kept0| <= search.limit
    requires AllFinished(search.P, keys, nodes) && i < |nodes| && keys[i].1 <= ToSet(search.P.order) && keys[i].1 != {}
    requires Safe(search.P, keys[i].0, keys[i].1) && HasLivePieces(nodes, nodes[i].edges, pieces)
    requires a < |nodes[i].edges| == |MovesFrom(search.P, keys[i].0, keys[i].1, 0)|
    requires Reached(search.P, keys[i].0, h, keys[i].1, a, p, done) && search.Met(count0, kept0, trace, done)
    modifies search`enumerated, search`retained, search.memo`count, search.memo`contents, search.memo.keys,
        search.memo.values, search.memo.stamps
    ensures search.Valid() && a < b <= |nodes[i].edges|
    ensures stopped ==> search.Met(count0, kept0, trace, Completions(search.P, keys[i].0, h, keys[i].1))
    ensures !stopped ==>
              && Reached(search.P, keys[i].0, h, keys[i].1, b, q, more) && search.Met(count0, kept0, trace, more)
              && (search.stop ==> search.enumerated == 0 && more == [])
    decreases |keys[i].1|, 1, 3
  {
    ghost var P, g, remaining := search.P, keys[i].0, keys[i].1;
    ghost var count1, kept1 := search.enumerated, search.retained;
    q := NextReached(P, g, h, remaining, a, p, done);
    b := SearchNextGroup(search, keys, nodes, i, h, trace, pieces, a, q);
    more := GroupMet(search, g, h, remaining, trace, b, q, done, count0, kept0, count1, kept1);
    q := q + 1;
    stopped := search.stop && search.enumerated > 0;
  }

  /** What has been met after one more group. */
  lemma GroupMet<G(!new), H(!new)>(
      search: Search<G, H>, g: G, h: H, remaining: set<nat>, trace: Variant<G, H>, b: nat, q: nat,
      done: seq<Variant<G, H>>, count0: nat, kept0: seq<Variant<G, H>>, count1: nat, kept1: seq<Variant<G, H>>)
    returns (more: seq<Variant<G, H>>)
    requires |kept0| <= search.limit && (search.stop ==> count0 == 0 && done == [])
    requires PastGroup(search.P, g, remaining, b, q) && Remains(search.P, g, h, remaining, q, done)
    requires search.MetBy(trace, done, count0, kept0, count1, kept1)
    requires search.Met(count1, kept1, trace, OverOperation(search.P, g, h, remaining, search.P.order[q]))
    ensures Reached(search.P, g, h, remaining, b, q + 1, more) && search.Met(count0, kept0, trace, more)
    ensures search.stop && search.enumerated == 0 ==> more == []
    ensures search.stop && search.enumerated > 0 ==>
              search.Met(count0, kept0, trace, Completions(search.P, g, h, remaining))
  {
    var found := OverOperation(search.P, g, h, remaining, search.P.order[q]);
    more := done + found;
    search.Continue(count0, kept0, trace, done, count1, kept1, found);
    GroupReached(search.P, g, h, remaining, b, q, done);
    if search.stop && search.enumerated > 0 {
      search.Stopped(count0, kept0, trace, done + found, OverOperations(search.P, g, h, remaining, q + 1));
    }
  }

  /** Walks the edges group by group. */
  method SearchGroups<G(==, !new), H(==, !new)>(
      search: Search<G, H>, keys: seq<Key<G>>, nodes: seq<Node>, i: nat, h: H, trace: Variant<G, H>)
    requires search.Valid() && (search.stop ==> search.enumerated == 0)
    requires AllFinished(search.P, keys, nodes) && i < |nodes| && keys[i].1 <= ToSet(search.P.order) && keys[i].1 != {}
    requires Safe(search.P, keys[i].0, keys[i].1)
    modifies search`enumerated, search`retained, search.memo`count, search.memo`contents, search.memo.keys,
        search.memo.values, search.memo.stamps
    ensures search.Valid()
    ensures search.Met(old(search.enumerated), old(search.retained), trace,
              Completions(search.P, keys[i].0, h, keys[i].1))
    decreases |keys[i].1|, 2
  {
    ghost var P, g, remaining := search.P, keys[i].0, keys[i].1;
    var edges := nodes[i].edges;
    ghost var count0, kept0 := search.enumerated, search.retained;
    EdgesMatchMoves(P, keys, nodes, i);
    var pieces := LivePieces(nodes, edges);
    ghost var done: seq<Variant<G, H>> := [];
    ghost var p: nat := 0;
    StartReached(P, g, h, remaining);
    search.NothingMet(trace);
    var a := 0;
    while a < |edges|
      invariant 0 <= a <= |edges|
      invariant Reached(P, g, h, remaining, a, p, done)
      invariant search.Valid() && (search.stop ==> search.enumerated == 0)
      invariant search.Met(count0, kept0, trace, done) && (search.stop ==> done == [])
      decreases |edges| - a
    {
      var stopped;
      a, stopped, p, done := SearchFrom(search, keys, nodes, i, h, trace, pieces, a, p, done, count0, kept0);
      if stopped {
        return;
      }
    }
    EndReached(P, g, h, remaining, p, done);
  }

  lemma EdgesMatchMoves<G, H>(P: Problem<G, H>, keys: seq<Key<G>>, nodes: seq<Node>, i: nat)
    requires AllFinished(P, keys, nodes) && i < |nodes| && keys[i].1 != {}
    ensures |MovesFrom(P, keys[i].0, keys[i].1, 0)| == |nodes[i].edges|
    ensures forall k :: 0 <= k < |nodes[i].edges| ==> nodes[i].edges[k].child < |nodes|
  {
    NodeIsFinished(P, keys, nodes, i);
  }

  // ------------------------------------------------------------------
  // Whole runs
  // ------------------------------------------------------------------

  lemma AfterNothing<T>(paths: seq<seq<T>>)
    ensures After([], paths) == paths
  {
    assert forall i :: 0 <= i < |paths| ==> [] + paths[i] == paths[i];
  }

  lemma RunIsExact<G(!new), H(!new)>(search: Search<G, H>, paths: seq<Variant<G, H>>)
    requires search.Met(0, [], [], paths)
    ensures search.enumerated == |Found(search.stop, paths)|
    ensures search.retained == Take(Found(search.stop, paths), search.limit)
  {
    assert Unfold(0);
    AfterNothing(paths);
    assert [] + Found(search.stop, paths) == Found(search.stop, paths);
  }

  /** The direct search: for every hash function, capacity and generation of the memo it
      counts and retains exactly what the plain enumeration gives. From a safe state that is
      every variant there is, required predecessors or not. */
  method RunDirect<G(==, !new), H(==, !new)>(
      P: Problem<G, H>, g: G, h: H, stop: bool, limit: nat, memo: CompletionMemo.Memo<MemoKey<G, H>>)
    returns (count: nat, variants: seq<Variant<G, H>>)
    requires P.Valid() && memo.Valid() && memo.contents == map[]
    modifies memo, memo.keys, memo.values, memo.stamps
    ensures var all := Completions(P, g, h, ToSet(P.order));
            count == |Found(stop, all)| && variants == Take(Found(stop, all), limit)
    ensures Safe(P, g, ToSet(P.order)) ==>
              var all := Completions(Unpruned(P), g, h, ToSet(P.order));
              count == |Found(stop, all)| && variants == Take(Found(stop, all), limit)
  {
    var search := new Search(P, stop, limit, memo);
    var all := set op | op in P.order;
    assert all == ToSet(P.order);
    search.SearchOrder(g, h, all, []);
    RunIsExact(search, Completions(P, g, h, all));
    if Safe(P, g, all) {
      PruningLosesNothing(P, g, h, all);
    }
    return search.enumerated, search.retained;
  }

  /** The DAG and its liveness do not depend on required predecessors. */
  lemma UnprunedFinished<G, H>(P: Problem<G, H>, keys: seq<Key<G>>, nodes: seq<Node>)
    requires AllFinished(P, keys, nodes)
    ensures AllFinished(Unpruned(P), keys, nodes)
  {
    forall j | 0 <= j < |nodes|
      ensures Finished(Unpruned(P), keys, nodes[j], keys[j])
    {
      NodeIsFinished(P, keys, nodes, j);
      UnprunedLive(P, keys[j].0, keys[j].1);
      UnprunedMoves(P, keys[j].0, keys[j].1, 0);
    }
  }

  /** The search over the DAG never consults required predecessors: it counts and retains
      every variant there is, in the order of the direct search. */
  method RunThroughDag<G(==, !new), H(==, !new)>(
      P: Problem<G, H>, g: G, h: H, stop: bool, limit: nat,
      memo: CompletionMemo.Memo<MemoKey<G, H>>, dag: Dag<G, H>, roomy: bool)
    returns (count: nat, variants: seq<Variant<G, H>>)
    requires P.Valid() && memo.Valid() && memo.contents == map[]
    requires dag.Valid() && dag.P == P
    modifies memo, memo.keys, memo.values, memo.stamps, dag, dag.index
    ensures var all := Completions(Unpruned(P), g, h, ToSet(P.order));
            count == |Found(stop, all)| && variants == Take(Found(stop, all), limit)
  {
    var root := dag.Prepare(g, roomy);
    var keys, nodes := dag.index.keys, dag.nodes;
    UnprunedFinished(P, keys, nodes);
    UnconstrainedIsSafe(Unpruned(P), g, keys[root].1);
    var search := new Search(Unpruned(P), stop, limit, memo);
    SearchNode(search, keys, nodes, root, h, []);
    RunIsExact(search, Completions(Unpruned(P), g, h, keys[root].1));
    return search.enumerated, search.retained;
  }
}
