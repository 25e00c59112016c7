/** The hold-free DAG of geometry states, built by depth-first expansion. */
module GeometryDag {
  import opened Bits
  import opened Folding
  import opened BuildTree
  import NodeIndex

  type Key<G> = (G, set<nat>)

  datatype Edge = Edge(op: nat, piece: nat, child: nat)

  datatype Node = Node(edges: seq<Edge>, expanded: bool, accepting: bool, live: bool)

  const FRESH: Node := Node([], false, false, false)

  /** The edges carry the moves, in order, to the nodes of the states they lead to. */
  ghost predicate Follows<G, H>(
    P: Problem<G, H>, keys: seq<Key<G>>, edges: seq<Edge>, moves: seq<Move<G>>, remaining: set<nat>)
  {
    && |edges| == |moves|
    && forall k :: 0 <= k < |edges| ==>
         && edges[k].op == moves[k].op && edges[k].piece == P.piece(moves[k].op) && edges[k].op in remaining
         && edges[k].child < |keys| && keys[edges[k].child] == (moves[k].next, remaining - {moves[k].op})
  }

  /** A node that is expanded and correct: its edges are all moves of its state, it accepts
      when everything is placed and the board is empty, and it is live exactly when an
      accepting state can be reached. */
  ghost predicate Finished<G, H>(P: Problem<G, H>, keys: seq<Key<G>>, node: Node, key: Key<G>) {
    && node.expanded
    && node.accepting == (key.1 == {} && P.empty(key.0))
    && node.live == Live(P, key.0, key.1)
    && (if key.1 == {} then node.edges == [] else Follows(P, keys, node.edges, MovesFrom(P, key.0, key.1, 0), key.1))
  }

  lemma FinishedStays<G, H>(P: Problem<G, H>, keys: seq<Key<G>>, more: seq<Key<G>>, node: Node, key: Key<G>)
    requires Finished(P, keys, node, key) && keys <= more
    ensures Finished(P, more, node, key)
  {
  }

  ghost predicate AllFinished<G, H>(P: Problem<G, H>, keys: seq<Key<G>>, nodes: seq<Node>) {
    && |keys| == |nodes|
    && forall u: nat {:trigger Unfold(u)} :: Unfold(u) ==> forall j :: 0 <= j < |nodes| ==>
        Finished(P, keys, nodes[j], keys[j])
  }

  lemma NodeIsFinished<G, H>(P: Problem<G, H>, keys: seq<Key<G>>, nodes: seq<Node>, i: nat)
    requires AllFinished(P, keys, nodes) && i < |nodes|
    ensures Finished(P, keys, nodes[i], keys[i])
  {
    assert Unfold(0);
  }

  // ------------------------------------------------------------------
  // States of the expansion, as values
  // ------------------------------------------------------------------

  ghost predicate Sized<G, H>(P: Problem<G, H>, keys: seq<Key<G>>, nodes: seq<Node>) {
    |nodes| == |keys| && forall j :: 0 <= j < |keys| ==> keys[j].1 <= ToSet(P.order)
  }

  /** Every expanded node but `i` with at most `rank` operations left is finished. */
  ghost predicate Settled<G, H>(P: Problem<G, H>, keys: seq<Key<G>>, nodes: seq<Node>, rank: nat, i: int)
    requires |nodes| == |keys|
  {
    forall j :: 0 <= j < |nodes| && j != i && nodes[j].expanded && |keys[j].1| <= rank ==>
        Finished(P, keys, nodes[j], keys[j])
  }

  ghost predicate Expanded(nodes: seq<Node>, i: int) {
    forall j :: 0 <= j < |nodes| && j != i ==> nodes[j].expanded
  }

  /** Earlier nodes but `i` are untouched, later ones have fewer operations left. */
  ghost predicate Grown<G>(
    keys0: seq<Key<G>>, nodes0: seq<Node>, keys: seq<Key<G>>, nodes: seq<Node>, i: int, rank: nat)
    requires |nodes| == |keys|
  {
    && |nodes0| == |keys0| <= |nodes| && keys0 <= keys
    && (forall j :: 0 <= j < |nodes0| && j != i ==> nodes[j] == nodes0[j])
    && (forall j :: |nodes0| <= j < |nodes| ==> |keys[j].1| < rank)
  }

  /** Node `i` is being expanded and has got the edges of `moves` so far. */
  ghost predicate Partial<G, H>(P: Problem<G, H>, keys: seq<Key<G>>, nodes: seq<Node>, i: nat, moves: seq<Move<G>>)
    requires |nodes| == |keys| && i < |nodes|
  {
    && nodes[i].expanded && !nodes[i].accepting
    && Follows(P, keys, nodes[i].edges, moves, keys[i].1)
    && nodes[i].live == AnyLive(P, keys[i].1, moves)
  }

  ghost predicate Progress<G, H>(
    P: Problem<G, H>, keys0: seq<Key<G>>, nodes0: seq<Node>, keys: seq<Key<G>>, nodes: seq<Node>, i: nat, key: Key<G>,
    moves: seq<Move<G>>)
  {
    && Sized(P, keys, nodes) && i < |keys0| <= |keys| && keys[i] == key
    && Expanded(nodes, -1)
    && Settled(P, keys, nodes, |key.1|, i)
    && Grown(keys0, nodes0, keys, nodes, i, |key.1|)
    && Partial(P, keys, nodes, i, moves)
  }

  ghost predicate Working<G, H>(
    P: Problem<G, H>, keys0: seq<Key<G>>, nodes0: seq<Node>, keys: seq<Key<G>>, nodes: seq<Node>, i: nat, key: Key<G>,
    moves: seq<Move<G>>)
  {
    forall u: nat {:trigger Unfold(u)} :: Unfold(u) ==> Progress(P, keys0, nodes0, keys, nodes, i, key, moves)
  }

  lemma SettledStays<G, H>(
      P: Problem<G, H>, keys: seq<Key<G>>, more: seq<Key<G>>, nodes: seq<Node>, after: seq<Node>, rank: nat, less: nat,
      i: int)
    requires |nodes| == |keys| && |after| == |more| && keys <= more && less <= rank
    requires Settled(P, keys, nodes, rank, i)
    requires forall j :: 0 <= j < |keys| && j != i ==> after[j] == nodes[j]
    requires forall j :: |keys| <= j < |more| ==> !after[j].expanded
    ensures Settled(P, more, after, less, i)
  {
    forall j | 0 <= j < |after| && j != i && after[j].expanded && |more[j].1| <= less
      ensures Finished(P, more, after[j], more[j])
    {
      FinishedStays(P, keys, more, nodes[j], keys[j]);
    }
  }

  lemma FollowsMore<G, H>(
      P: Problem<G, H>, keys: seq<Key<G>>, more: seq<Key<G>>, edges: seq<Edge>, moves: seq<Move<G>>,
      remaining: set<nat>, op: nat, next: G, child: nat)
    requires Follows(P, keys, edges, moves, remaining) && keys <= more && op in remaining
    requires child < |more| && more[child] == (next, remaining - {op})
    ensures Follows(P, more, edges + [Edge(op, P.piece(op), child)], moves + [Move(op, next)], remaining)
  {
  }

  lemma AnyLiveMore<G, H>(P: Problem<G, H>, remaining: set<nat>, moves: seq<Move<G>>, move: Move<G>)
    ensures AnyLive(P, remaining, moves + [move]) <==> AnyLive(P, remaining, moves) || LiveMove(P, remaining, move)
  {
    AnyLiveConcat(P, remaining, moves, [move]);
    assert [move][1..] == [];
  }

  class Dag<G(==, !new), H(!new)> {
    const P: Problem<G, H>
    const index: NodeIndex.Index<Key<G>>
    var nodes: seq<Node>

    constructor (P: Problem<G, H>, index: NodeIndex.Index<Key<G>>)
      requires index.Valid() && index.keys == []
      ensures this.P == P && this.index == index && Valid() && nodes == []
    {
      this.P, this.index, nodes := P, index, [];
    }

    ghost predicate Valid()
      reads this, index
    {
      index.Valid() && Sized(P, index.keys, nodes)
    }

    /** Builds the DAG of an initial state, in storage that may have been used before. */
    method Prepare(g: G, roomy: bool) returns (root: nat)
      requires Valid()
      modifies this`nodes, index
      ensures Valid() && AllFinished(P, index.keys, nodes)
      ensures root < |nodes| && index.keys[root] == (g, ToSet(P.order))
    {
      index.Reset();
      nodes := [];
      var all := set op | op in P.order;
      assert all == ToSet(P.order);
      root := NodeFor(g, all, roomy);
      ExpandNode(root, roomy);
      forall j | 0 <= j < |nodes|
        ensures Finished(P, index.keys, nodes[j], index.keys[j])
      {
        FewerAreFewer(index.keys[j].1, all);
      }
    }

    /** The node of a state, new or known. */
    method NodeFor(g: G, remaining: set<nat>, roomy: bool) returns (i: nat)
      requires Valid() && remaining <= ToSet(P.order)
      modifies this`nodes, index
      ensures Valid() && i < |nodes| && index.keys[i] == (g, remaining)
      ensures old(index.keys) <= index.keys
      ensures nodes == old(nodes) || (nodes == old(nodes) + [FRESH] && i == |old(nodes)|)
    {
      i := index.FindOrInsert((g, remaining), roomy);
      if |nodes| < |index.keys| {
        nodes := nodes + [FRESH];
      }
    }

    /** Expands a node and everything below it. A known child is never still in progress,
        because nodes in progress have more operations left. */
    method ExpandNode(i: nat, roomy: bool)
      requires Valid() && i < |nodes| && Expanded(nodes, i) && Settled(P, index.keys, nodes, |index.keys[i].1|, -1)
      modifies this`nodes, index
      ensures Valid() && Expanded(nodes, -1)
      ensures Grown(old(index.keys), old(nodes), index.keys, nodes, i, |old(index.keys[i].1)|)
      ensures Settled(P, index.keys, nodes, |old(index.keys[i].1)|, -1)
      ensures old(nodes[i].expanded) ==> nodes == old(nodes) && index.keys == old(index.keys)
      decreases |index.keys[i].1|, 3
    {
      if nodes[i].expanded {
        return;
      }
      var g, remaining := index.keys[i].0, index.keys[i].1;
      if remaining == {} {
        nodes := nodes[i := Node([], true, P.empty(g), P.empty(g))];
        return;
      }
      ghost var keys0, nodes0 := index.keys, nodes;
      nodes := nodes[i := Node([], true, false, false)];
      SettledStays(P, keys0, keys0, nodes0, nodes, |remaining|, |remaining|, i);
      ExpandOperations(i, g, remaining, roomy, keys0, nodes0);
      assert Unfold(0);
      assert Finished(P, index.keys, nodes[i], index.keys[i]);
    }

    method ExpandOperations(
        i: nat, g: G, remaining: set<nat>, roomy: bool, ghost keys0: seq<Key<G>>, ghost nodes0: seq<Node>)
      requires Valid() && Working(P, keys0, nodes0, index.keys, nodes, i, (g, remaining), [])
      modifies this`nodes, index
      ensures Valid()
      ensures Working(P, keys0, nodes0, index.keys, nodes, i, (g, remaining), MovesFrom(P, g, remaining, 0))
      decreases |remaining|, 2
    {
      ghost var moves: seq<Move<G>> := [];
      for preference := 0 to |P.order|
        invariant Valid() && Working(P, keys0, nodes0, index.keys, nodes, i, (g, remaining), moves)
        invariant MovesFrom(P, g, remaining, 0) == moves + MovesFrom(P, g, remaining, preference)
      {
        ExpandOperation(i, g, remaining, P.order[preference], roomy, moves, keys0, nodes0);
        NextMoves(P, g, remaining, preference, moves);
        moves := moves + MovesOfOperation(P, g, remaining, P.order[preference]);
      }
      assert moves + [] == moves;
    }

    method ExpandOperation(
        i: nat, g: G, remaining: set<nat>, op: nat, roomy: bool, ghost moves: seq<Move<G>>,
        ghost keys0: seq<Key<G>>, ghost nodes0: seq<Node>)
      requires Valid() && Working(P, keys0, nodes0, index.keys, nodes, i, (g, remaining), moves)
      modifies this`nodes, index
      ensures Valid()
      ensures Working(
                P, keys0, nodes0, index.keys, nodes, i, (g, remaining), moves + MovesOfOperation(P, g, remaining, op))
      decreases |remaining|, 1, 1
    {
      if op in remaining && P.matches(g, op) {
        ExpandVariants(i, g, remaining, op, P.moves(g, op), roomy, moves, keys0, nodes0);
      } else {
        assert moves + [] == moves;
      }
    }

    method ExpandVariants(
        i: nat, g: G, remaining: set<nat>, op: nat, nexts: seq<G>, roomy: bool, ghost moves: seq<Move<G>>,
        ghost keys0: seq<Key<G>>, ghost nodes0: seq<Node>)
      requires Valid() && Working(P, keys0, nodes0, index.keys, nodes, i, (g, remaining), moves) && op in remaining
      modifies this`nodes, index
      ensures Valid()
      ensures Working(P, keys0, nodes0, index.keys, nodes, i, (g, remaining), moves + MovesOf(op, nexts))
      decreases |remaining|, 1, 0
    {
      assert moves + MovesOf(op, nexts[..0]) == moves;
      for k := 0 to |nexts|
        invariant Valid()
        invariant Working(P, keys0, nodes0, index.keys, nodes, i, (g, remaining), moves + MovesOf(op, nexts[..k]))
      {
        ghost var before := moves + MovesOf(op, nexts[..k]);
        AddEdge(i, g, remaining, op, nexts[k], roomy, before, keys0, nodes0);
        assert moves + MovesOf(op, nexts[..k + 1]) == before + [Move(op, nexts[k])];
      }
      assert nexts[..|nexts|] == nexts;
    }

    /** One variant: its child is found or made, linked, expanded, and keeps its parent live. */
    method AddEdge(
        i: nat, g: G, remaining: set<nat>, op: nat, next: G, roomy: bool, ghost moves: seq<Move<G>>,
        ghost keys0: seq<Key<G>>, ghost nodes0: seq<Node>)
      requires Valid() && Working(P, keys0, nodes0, index.keys, nodes, i, (g, remaining), moves) && op in remaining
      modifies this`nodes, index
      ensures Valid()
      ensures Working(P, keys0, nodes0, index.keys, nodes, i, (g, remaining), moves + [Move(op, next)])
      decreases |remaining|, 0
    {
      ghost var keys1, nodes1 := index.keys, nodes;
      assert Unfold(0);
      Shrinks(remaining, op);
      var child := NodeFor(next, remaining - {op}, roomy);
      nodes := nodes[i := nodes[i].(edges := nodes[i].edges + [Edge(op, P.piece(op), child)])];
      ghost var keys2, nodes2 := index.keys, nodes;
      Linked(P, keys0, nodes0, keys1, nodes1, keys2, nodes2, i, (g, remaining), moves, op, next, child);
      ExpandNode(child, roomy);
      ghost var keys3, nodes3 := index.keys, nodes;
      if nodes[child].live {
        nodes := nodes[i := nodes[i].(live := true)];
      }
      ChildDone(P, keys0, nodes0, keys2, nodes2, keys3, nodes3, nodes, i, (g, remaining), moves, op, next, child);
    }
  }

  lemma NextMoves<G, H>(P: Problem<G, H>, g: G, remaining: set<nat>, i: nat, moves: seq<Move<G>>)
    requires i < |P.order|
    ensures moves + MovesFrom(P, g, remaining, i) ==
            moves + MovesOfOperation(P, g, remaining, P.order[i]) + MovesFrom(P, g, remaining, i + 1)
  {
  }

  lemma FewerAreFewer(a: set<nat>, b: set<nat>)
    requires a <= b
    ensures |a| <= |b|
  {
    assert b == a + (b - a);
  }

  /** An edge to a child is in place, the child may still be fresh. */
  ghost predicate Linking<G, H>(
    P: Problem<G, H>, keys0: seq<Key<G>>, nodes0: seq<Node>, keys: seq<Key<G>>, nodes: seq<Node>, i: nat, key: Key<G>,
    moves: seq<Move<G>>, op: nat, next: G, child: nat)
  {
    && Sized(P, keys, nodes) && i < |keys0| <= |keys| && keys[i] == key && op in key.1
    && child < |keys| && child != i && keys[child] == (next, key.1 - {op})
    && Expanded(nodes, child) && (nodes[child].expanded || |keys0| <= child)
    && Settled(P, keys, nodes, |key.1|, i)
    && Grown(keys0, nodes0, keys, nodes, i, |key.1|)
    && nodes[i].expanded && !nodes[i].accepting
    && Follows(P, keys, nodes[i].edges, moves + [Move(op, next)], key.1)
    && nodes[i].live == AnyLive(P, key.1, moves)
  }

  lemma Linked<G, H>(
      P: Problem<G, H>, keys0: seq<Key<G>>, nodes0: seq<Node>, keys1: seq<Key<G>>, nodes1: seq<Node>,
      keys2: seq<Key<G>>, nodes2: seq<Node>, i: nat, key: Key<G>, moves: seq<Move<G>>, op: nat, next: G, child: nat)
    requires Progress(P, keys0, nodes0, keys1, nodes1, i, key, moves) && op in key.1
    requires Sized(P, keys2, nodes2) && keys1 <= keys2 && child < |keys2| && keys2[child] == (next, key.1 - {op})
    requires |nodes2| == |nodes1| || (|nodes2| == |nodes1| + 1 && nodes2[|nodes1|] == FRESH && child == |nodes1|)
    requires nodes2[i] == nodes1[i].(edges := nodes1[i].edges + [Edge(op, P.piece(op), child)])
    requires forall j :: 0 <= j < |nodes1| && j != i ==> nodes2[j] == nodes1[j]
    ensures Linking(P, keys0, nodes0, keys2, nodes2, i, key, moves, op, next, child)
    ensures |keys2[child].1| == |key.1| - 1
    ensures Settled(P, keys2, nodes2, |keys2[child].1|, -1)
  {
    Shrinks(key.1, op);
    SettledStays(P, keys1, keys2, nodes1, nodes2, |key.1|, |key.1|, i);
    FollowsMore(P, keys1, keys2, nodes1[i].edges, moves, key.1, op, next, child);
  }

  lemma ChildDone<G, H>(
      P: Problem<G, H>, keys0: seq<Key<G>>, nodes0: seq<Node>, keys2: seq<Key<G>>, nodes2: seq<Node>,
      keys: seq<Key<G>>, nodes3: seq<Node>, nodes: seq<Node>, i: nat, key: Key<G>, moves: seq<Move<G>>, op: nat,
      next: G, child: nat)
    requires Linking(P, keys0, nodes0, keys2, nodes2, i, key, moves, op, next, child)
    requires Sized(P, keys, nodes3) && Expanded(nodes3, -1)
    requires Grown(keys2, nodes2, keys, nodes3, child, |keys2[child].1|)
    requires Settled(P, keys, nodes3, |keys2[child].1|, -1)
    requires nodes2[child].expanded ==> nodes3 == nodes2 && keys == keys2
    requires nodes == if nodes3[child].live then nodes3[i := nodes3[i].(live := true)] else nodes3
    ensures Progress(P, keys0, nodes0, keys, nodes, i, key, moves + [Move(op, next)])
  {
    Shrinks(key.1, op);
    OthersSettled(P, keys2, nodes2, keys, nodes3, i, |key.1|, child);
    GrownOn(keys0, nodes0, keys2, nodes2, keys, nodes3, nodes, i, |key.1|, child);
    SettledStays(P, keys, keys, nodes3, nodes, |key.1|, |key.1|, i);
    assert Finished(P, keys, nodes3[child], keys[child]);
    EdgeDone(P, keys2, nodes2[i], keys, nodes[i], key.1, moves, op, next, nodes3[child].live);
  }

  /** The parent has one more edge and is live if the child is. */
  lemma EdgeDone<G, H>(
      P: Problem<G, H>, keys2: seq<Key<G>>, before: Node, keys: seq<Key<G>>, after: Node, remaining: set<nat>,
      moves: seq<Move<G>>, op: nat, next: G, live: bool)
    requires keys2 <= keys && op in remaining && live == Live(P, next, remaining - {op})
    requires before.expanded && !before.accepting && before.live == AnyLive(P, remaining, moves)
    requires Follows(P, keys2, before.edges, moves + [Move(op, next)], remaining)
    requires after == if live then before.(live := true) else before
    ensures after.expanded && !after.accepting
    ensures Follows(P, keys, after.edges, moves + [Move(op, next)], remaining)
    ensures after.live == AnyLive(P, remaining, moves + [Move(op, next)])
  {
    AnyLiveMore(P, remaining, moves, Move(op, next));
  }

  lemma GrownOn<G>(
      keys0: seq<Key<G>>, nodes0: seq<Node>, keys2: seq<Key<G>>, nodes2: seq<Node>, keys: seq<Key<G>>,
      nodes3: seq<Node>, nodes: seq<Node>, i: nat, rank: nat, child: nat)
    requires |nodes2| == |keys2| && |nodes3| == |keys| == |nodes| && child < |keys2| && |keys2[child].1| < rank
    requires Grown(keys0, nodes0, keys2, nodes2, i, rank) && Grown(keys2, nodes2, keys, nodes3, child, |keys2[child].1|)
    requires nodes2[child].expanded ==> nodes3 == nodes2 && keys == keys2
    requires nodes2[child].expanded || |keys0| <= child
    requires forall j :: 0 <= j < |nodes| && j != i ==> nodes[j] == nodes3[j]
    ensures Grown(keys0, nodes0, keys, nodes, i, rank)
  {
  }

  lemma OthersSettled<G, H>(
      P: Problem<G, H>, keys2: seq<Key<G>>, nodes2: seq<Node>, keys: seq<Key<G>>, nodes: seq<Node>, i: nat, rank: nat,
      child: nat)
    requires |nodes2| == |keys2| && |nodes| == |keys| && child < |keys2| && |keys2[child].1| < rank
    requires Settled(P, keys2, nodes2, rank, i)
    requires Grown(keys2, nodes2, keys, nodes, child, |keys2[child].1|)
    requires Settled(P, keys, nodes, |keys2[child].1|, -1)
    ensures Settled(P, keys, nodes, rank, i)
  {
    forall j | 0 <= j < |nodes| && j != i && nodes[j].expanded && |keys[j].1| <= rank
      ensures Finished(P, keys, nodes[j], keys[j])
    {
      if |keys[j].1| > |keys2[child].1| {
        FinishedStays(P, keys2, keys, nodes2[j], keys2[j]);
      }
    }
  }
}
