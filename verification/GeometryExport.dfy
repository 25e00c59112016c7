/** The exported geometry language: live nodes with dense indices and sliced edges. */
module GeometryExport {
  import opened Options
  import opened BuildTree
  import opened GeometryDag
  import opened Variants

  datatype OutNode<G> = OutNode(key: Key<G>, firstEdge: nat, edgeCount: nat, accepting: bool, depth: nat)

  datatype OutEdge = OutEdge(op: nat, piece: nat, child: nat)

  // ------------------------------------------------------------------
  // What is exported
  // ------------------------------------------------------------------

  predicate IsExported(nodes: seq<Node>, root: nat, i: nat)
    requires i < |nodes|
  {
    i == root || nodes[i].live
  }

  /** How many of the first `i` nodes are exported: the index of node `i` if it is. */
  ghost function Rank(nodes: seq<Node>, root: nat, i: nat): nat
    requires i <= |nodes|
  {
    if i == 0 then 0 else Rank(nodes, root, i - 1) + if IsExported(nodes, root, i - 1) then 1 else 0
  }

  lemma {:induction false} RankGrows(nodes: seq<Node>, root: nat, i: nat, j: nat)
    requires i < j <= |nodes|
    ensures Rank(nodes, root, i) <= Rank(nodes, root, j)
    ensures IsExported(nodes, root, i) ==> Rank(nodes, root, i) < Rank(nodes, root, j)
    decreases j
  {
    if i + 1 < j {
      RankGrows(nodes, root, i, j - 1);
    }
  }

  ghost predicate ChildrenInRange(nodes: seq<Node>) {
    forall i, k :: 0 <= i < |nodes| && 0 <= k < |nodes[i].edges| ==> nodes[i].edges[k].child < |nodes|
  }

  /** The edges to live children, renumbered, in their order. */
  ghost function OutEdgesOf(nodes: seq<Node>, root: nat, edges: seq<Edge>): seq<OutEdge>
    requires forall k :: 0 <= k < |edges| ==> edges[k].child < |nodes|
    decreases |edges|
  {
    if edges == [] then []
    else
      var last := edges[|edges| - 1];
      OutEdgesOf(nodes, root, edges[..|edges| - 1]) +
      if nodes[last.child].live then [OutEdge(last.op, last.piece, Rank(nodes, root, last.child))] else []
  }

  /** The edges of the exported nodes among the first `i`, one node after the other. */
  ghost function EdgesBefore(nodes: seq<Node>, root: nat, i: nat): seq<OutEdge>
    requires i <= |nodes| && ChildrenInRange(nodes)
  {
    if i == 0 then []
    else EdgesBefore(nodes, root, i - 1) + if IsExported(nodes, root, i - 1)
        then OutEdgesOf(nodes, root, nodes[i - 1].edges) else []
  }

  ghost function Image<G>(keys: seq<Key<G>>, nodes: seq<Node>, root: nat, operations: nat, i: nat): OutNode<G>
    requires |keys| == |nodes| && i < |nodes| && ChildrenInRange(nodes) && |keys[i].1| <= operations
  {
    OutNode(keys[i], |EdgesBefore(nodes, root, i)|, |OutEdgesOf(nodes, root, nodes[i].edges)|, nodes[i].accepting,
        operations - |keys[i].1|)
  }

  /** Dense node records and one slice of edges per node. */
  ghost predicate IsExport<G>(
    keys: seq<Key<G>>, nodes: seq<Node>, root: nat, operations: nat, outNodes: seq<OutNode<G>>, outEdges: seq<OutEdge>)
  {
    && |keys| == |nodes| && ChildrenInRange(nodes) && (forall i :: 0 <= i < |keys| ==> |keys[i].1| <= operations)
    && |outNodes| == Rank(nodes, root, |nodes|)
    && outEdges == EdgesBefore(nodes, root, |nodes|)
    && forall i: nat :: i < |nodes| && IsExported(nodes, root, i) ==>
         Rank(nodes, root, i) < |outNodes| && outNodes[Rank(nodes, root, i)] == Image(keys, nodes, root, operations, i)
  }

  // ------------------------------------------------------------------
  // The two passes
  // ------------------------------------------------------------------

  method CountOutEdges(nodes: seq<Node>, ghost root: nat, edges: seq<Edge>) returns (count: nat)
    requires forall k :: 0 <= k < |edges| ==> edges[k].child < |nodes|
    ensures count == |OutEdgesOf(nodes, root, edges)|
  {
    count := 0;
    for k := 0 to |edges|
      invariant count == |OutEdgesOf(nodes, root, edges[..k])|
    {
      assert edges[..k + 1][..k] == edges[..k];
      if nodes[edges[k].child].live {
        count := count + 1;
      }
    }
    assert edges[..|edges|] == edges;
  }

  /** First pass: numbers the exported nodes and counts nodes and edges. */
  method FinalizeLayout(nodes: seq<Node>, root: nat) returns (indices: seq<Option<nat>>, nodeCount: nat, edgeCount: nat)
    requires root < |nodes| && ChildrenInRange(nodes)
    ensures |indices| == |nodes|
    ensures forall i: nat :: i < |nodes| ==>
              indices[i] == if IsExported(nodes, root, i) then Some(Rank(nodes, root, i)) else None
    ensures nodeCount == Rank(nodes, root, |nodes|) > 0 && edgeCount == |EdgesBefore(nodes, root, |nodes|)|
  {
    indices, nodeCount, edgeCount := [], 0, 0;
    for i := 0 to |nodes|
      invariant |indices| == i && nodeCount == Rank(nodes, root, i) && edgeCount == |EdgesBefore(nodes, root, i)|
      invariant forall j: nat :: j < i ==>
                  indices[j] == if IsExported(nodes, root, j) then Some(Rank(nodes, root, j)) else None
    {
      if IsExported(nodes, root, i) {
        indices := indices + [Some(nodeCount)];
        nodeCount := nodeCount + 1;
        var count := CountOutEdges(nodes, root, nodes[i].edges);
        edgeCount := edgeCount + count;
      } else {
        indices := indices + [None];
      }
    }
    RankGrows(nodes, root, root, |nodes|);
  }

  method WriteEdges(
      nodes: seq<Node>, root: nat, indices: seq<Option<nat>>, edges: seq<Edge>, written: seq<OutEdge>)
    returns (next: seq<OutEdge>)
    requires forall k :: 0 <= k < |edges| ==> edges[k].child < |nodes|
    requires |indices| == |nodes|
    requires forall i: nat :: i < |nodes| ==>
              indices[i] == if IsExported(nodes, root, i) then Some(Rank(nodes, root, i)) else None
    ensures next == written + OutEdgesOf(nodes, root, edges)
  {
    next := written;
    for k := 0 to |edges|
      invariant next == written + OutEdgesOf(nodes, root, edges[..k])
    {
      assert edges[..k + 1][..k] == edges[..k];
      var child := edges[k].child;
      if nodes[child].live {
        next := next + [OutEdge(edges[k].op, edges[k].piece, indices[child].value)];
      }
    }
    assert edges[..|edges|] == edges;
  }

  /** Second pass: writes node records and edge slices. */
  method Export<G>(
      keys: seq<Key<G>>, nodes: seq<Node>, root: nat, operations: nat)
    returns (outNodes: seq<OutNode<G>>, outEdges: seq<OutEdge>)
    requires |keys| == |nodes| && root < |nodes| && ChildrenInRange(nodes)
    requires forall i :: 0 <= i < |keys| ==> |keys[i].1| <= operations
    ensures IsExport(keys, nodes, root, operations, outNodes, outEdges)
  {
    var indices, nodeCount, edgeCount := FinalizeLayout(nodes, root);
    outNodes, outEdges := [], [];
    for i := 0 to |nodes|
      invariant |outNodes| == Rank(nodes, root, i) && outEdges == EdgesBefore(nodes, root, i)
      invariant forall j: nat :: j < i && IsExported(nodes, root, j) ==>
                  Rank(nodes, root, j) < |outNodes| &&
                      outNodes[Rank(nodes, root, j)] == Image(keys, nodes, root, operations, j)
    {
      if IsExported(nodes, root, i) {
        var first := |outEdges|;
        outEdges := WriteEdges(nodes, root, indices, nodes[i].edges, outEdges);
        outNodes := outNodes + [OutNode(keys[i], first, |outEdges| - first, nodes[i].accepting,
            operations - |keys[i].1|)];
      }
    }
    assert |outEdges| == edgeCount && |outNodes| == nodeCount;
  }

  // ------------------------------------------------------------------
  // Accepting paths of the DAG
  // ------------------------------------------------------------------

  type Word<G> = seq<Move<G>>

  /** Edges that place remaining operations and lead to nodes without them. */
  ghost predicate Descends<G>(keys: seq<Key<G>>, edges: seq<Edge>, remaining: set<nat>) {
    forall k :: 0 <= k < |edges| ==>
        edges[k].op in remaining && edges[k].child < |keys| && keys[edges[k].child].1 == remaining - {edges[k].op}
  }

  ghost predicate IsDag<G>(keys: seq<Key<G>>, nodes: seq<Node>) {
    |keys| == |nodes| && forall i :: 0 <= i < |nodes| ==> Descends(keys, nodes[i].edges, keys[i].1)
  }

  /** All accepting paths from a node, in the order of its edges. */
  ghost function Words<G>(keys: seq<Key<G>>, nodes: seq<Node>, i: nat): seq<Word<G>>
    requires IsDag(keys, nodes) && i < |nodes|
    decreases |keys[i].1|, |nodes[i].edges| + 1
  {
    if keys[i].1 == {} then (if nodes[i].accepting then [[]] else [])
    else WordsOver(keys, nodes, keys[i].1, nodes[i].edges)
  }

  ghost function WordsOver<G>(keys: seq<Key<G>>, nodes: seq<Node>, remaining: set<nat>, edges: seq<Edge>): seq<Word<G>>
    requires IsDag(keys, nodes) && Descends(keys, edges, remaining)
    decreases |remaining|, |edges|
  {
    if edges == [] then []
    else
      var last := edges[|edges| - 1];
      assert |remaining - {last.op}| < |remaining| by { Shrinks(remaining, last.op); }
      WordsOver(keys, nodes, remaining, edges[..|edges| - 1]) +
      Prepend(Move(last.op, keys[last.child].0), Words(keys, nodes, last.child))
  }

  lemma FinishedIsDag<G, H>(P: Problem<G, H>, keys: seq<Key<G>>, nodes: seq<Node>)
    requires AllFinished(P, keys, nodes)
    ensures IsDag(keys, nodes) && ChildrenInRange(nodes)
  {
    forall i | 0 <= i < |nodes|
      ensures Descends(keys, nodes[i].edges, keys[i].1)
    {
      NodeIsFinished(P, keys, nodes, i);
    }
    forall i, k | 0 <= i < |nodes| && 0 <= k < |nodes[i].edges|
      ensures nodes[i].edges[k].child < |nodes|
    {
      assert Descends(keys, nodes[i].edges, keys[i].1);
    }
  }

  /** Live means that an accepting node can be reached. */
  lemma {:induction false} LiveMeansAccepting<G, H>(P: Problem<G, H>, keys: seq<Key<G>>, nodes: seq<Node>, i: nat)
    requires AllFinished(P, keys, nodes) && IsDag(keys, nodes) && i < |nodes|
    ensures nodes[i].live <==> Words(keys, nodes, i) != []
    decreases |keys[i].1|, 1, 0
  {
    NodeIsFinished(P, keys, nodes, i);
    if keys[i].1 != {} {
      var moves := MovesFrom(P, keys[i].0, keys[i].1, 0);
      assert Follows(P, keys, nodes[i].edges, moves, keys[i].1);
      LiveEdges(P, keys, nodes, keys[i].1, nodes[i].edges, moves);
    }
  }

  lemma LastIsLive<G, H>(
      P: Problem<G, H>, keys: seq<Key<G>>, nodes: seq<Node>, remaining: set<nat>, last: Edge, moves: seq<Move<G>>)
    requires AllFinished(P, keys, nodes) && moves != [] && last.child < |keys|
    requires last.op in remaining && last.op == moves[|moves| - 1].op &&
              keys[last.child] == (moves[|moves| - 1].next, remaining - {last.op})
    ensures AnyLive(P, remaining, moves) <==> AnyLive(P, remaining, moves[..|moves| - 1]) || nodes[last.child].live
  {
    var n := |moves| - 1;
    NodeIsFinished(P, keys, nodes, last.child);
    assert moves == moves[..n] + [moves[n]];
    AnyLiveMore(P, remaining, moves[..n], moves[n]);
  }

  lemma {:induction false} LiveEdges<G, H>(
      P: Problem<G, H>, keys: seq<Key<G>>, nodes: seq<Node>, remaining: set<nat>, edges: seq<Edge>, moves: seq<Move<G>>)
    requires AllFinished(P, keys, nodes) && IsDag(keys, nodes) && Descends(keys, edges, remaining) &&
              Follows(P, keys, edges, moves, remaining)
    ensures AnyLive(P, remaining, moves) <==> WordsOver(keys, nodes, remaining, edges) != []
    decreases |remaining|, 0, |edges|
  {
    if edges != [] {
      var n := |edges| - 1;
      var last := edges[n];
      Shrinks(remaining, last.op);
      LiveEdges(P, keys, nodes, remaining, edges[..n], moves[..n]);
      LiveMeansAccepting(P, keys, nodes, last.child);
      LastIsLive(P, keys, nodes, remaining, last, moves);
    }
  }

  // ------------------------------------------------------------------
  // Accepting paths of the export
  // ------------------------------------------------------------------

  ghost predicate Shaped<G>(outNodes: seq<OutNode<G>>, outEdges: seq<OutEdge>) {
    && (forall x :: 0 <= x < |outNodes| ==> outNodes[x].firstEdge + outNodes[x].edgeCount <= |outEdges|)
    && (forall e :: 0 <= e < |outEdges| ==> outEdges[e].child < |outNodes|)
  }

  ghost function Slice<G>(outNodes: seq<OutNode<G>>, outEdges: seq<OutEdge>, x: nat): (slice: seq<OutEdge>)
    requires Shaped(outNodes, outEdges) && x < |outNodes|
    ensures forall e :: 0 <= e < |slice| ==> slice[e].child < |outNodes|
  {
    outEdges[outNodes[x].firstEdge..outNodes[x].firstEdge + outNodes[x].edgeCount]
  }

  /** All accepting paths of the given length from an exported node. */
  ghost function OutWords<G>(outNodes: seq<OutNode<G>>, outEdges: seq<OutEdge>, x: nat, length: nat): seq<Word<G>>
    requires Shaped(outNodes, outEdges) && x < |outNodes|
    decreases length, 1, 0
  {
    if length == 0 then (if outNodes[x].accepting then [[]] else [])
    else OutWordsOver(outNodes, outEdges, Slice(outNodes, outEdges, x), length - 1)
  }

  ghost function OutWordsOver<G>(
    outNodes: seq<OutNode<G>>, outEdges: seq<OutEdge>, edges: seq<OutEdge>, length: nat): seq<Word<G>>
    requires Shaped(outNodes, outEdges) && forall e :: 0 <= e < |edges| ==> edges[e].child < |outNodes|
    decreases length + 1, 0, |edges|
  {
    if edges == [] then []
    else
      var last := edges[|edges| - 1];
      OutWordsOver(outNodes, outEdges, edges[..|edges| - 1], length) +
      Prepend(Move(last.op, outNodes[last.child].key.0), OutWords(outNodes, outEdges, last.child, length))
  }

  // ------------------------------------------------------------------
  // The export keeps exactly the accepting paths
  // ------------------------------------------------------------------

  ghost predicate LeadBelow(edges: seq<OutEdge>, bound: nat) {
    forall e :: 0 <= e < |edges| ==> edges[e].child < bound
  }

  lemma {:induction false} OutEdgesInRange(nodes: seq<Node>, root: nat, edges: seq<Edge>)
    requires forall k :: 0 <= k < |edges| ==> edges[k].child < |nodes|
    ensures LeadBelow(OutEdgesOf(nodes, root, edges), Rank(nodes, root, |nodes|))
    decreases |edges|
  {
    if edges != [] {
      var last := edges[|edges| - 1];
      OutEdgesInRange(nodes, root, edges[..|edges| - 1]);
      RankGrows(nodes, root, last.child, |nodes|);
    }
  }

  lemma {:induction false} EdgesBeforeInRange(nodes: seq<Node>, root: nat, i: nat)
    requires i <= |nodes| && ChildrenInRange(nodes)
    ensures LeadBelow(EdgesBefore(nodes, root, i), Rank(nodes, root, |nodes|))
    decreases i
  {
    if i != 0 {
      EdgesBeforeInRange(nodes, root, i - 1);
      OutEdgesInRange(nodes, root, nodes[i - 1].edges);
    }
  }

  /** The edges of node `i` stand in one contiguous slice. */
  lemma {:induction false} SliceOfNode(nodes: seq<Node>, root: nat, i: nat, j: nat)
    requires i < j <= |nodes| && ChildrenInRange(nodes) && IsExported(nodes, root, i)
    ensures var first, count := |EdgesBefore(nodes, root, i)|, |OutEdgesOf(nodes, root, nodes[i].edges)|;
            && first + count <= |EdgesBefore(nodes, root, j)|
            && EdgesBefore(nodes, root, j)[first..first + count] == OutEdgesOf(nodes, root, nodes[i].edges)
    decreases j
  {
    if i + 1 < j {
      SliceOfNode(nodes, root, i, j - 1);
    }
  }

  /** Every exported index belongs to an exported node. */
  lemma {:induction false} RankIsOnto(nodes: seq<Node>, root: nat, n: nat, x: nat) returns (i: nat)
    requires n <= |nodes| && x < Rank(nodes, root, n)
    ensures i < n && IsExported(nodes, root, i) && Rank(nodes, root, i) == x
    decreases n
  {
    if IsExported(nodes, root, n - 1) && Rank(nodes, root, n - 1) == x {
      i := n - 1;
    } else {
      i := RankIsOnto(nodes, root, n - 1, x);
    }
  }

  lemma ExportIsShaped<G>(
      keys: seq<Key<G>>, nodes: seq<Node>, root: nat, operations: nat, outNodes: seq<OutNode<G>>,
      outEdges: seq<OutEdge>)
    requires IsExport(keys, nodes, root, operations, outNodes, outEdges)
    ensures Shaped(outNodes, outEdges)
  {
    forall x | 0 <= x < |outNodes|
      ensures outNodes[x].firstEdge + outNodes[x].edgeCount <= |outEdges|
    {
      var i := RankIsOnto(nodes, root, |nodes|, x);
      SliceOfNode(nodes, root, i, |nodes|);
    }
    EdgesBeforeInRange(nodes, root, |nodes|);
  }

  lemma SliceIsEdges<G>(
      keys: seq<Key<G>>, nodes: seq<Node>, root: nat, operations: nat, outNodes: seq<OutNode<G>>,
      outEdges: seq<OutEdge>, i: nat)
    requires IsExport(keys, nodes, root, operations, outNodes, outEdges) && Shaped(outNodes, outEdges)
    requires i < |nodes| && IsExported(nodes, root, i)
    ensures Rank(nodes, root, i) < |outNodes|
    ensures outNodes[Rank(nodes, root, i)].accepting == nodes[i].accepting
    ensures Slice(outNodes, outEdges, Rank(nodes, root, i)) == OutEdgesOf(nodes, root, nodes[i].edges)
  {
    assert outNodes[Rank(nodes, root, i)] == Image(keys, nodes, root, operations, i);
    SliceOfNode(nodes, root, i, |nodes|);
  }

  lemma {:induction false} ExportKeepsWords<G, H>(
      P: Problem<G, H>, keys: seq<Key<G>>, nodes: seq<Node>, root: nat, operations: nat, outNodes: seq<OutNode<G>>,
      outEdges: seq<OutEdge>, i: nat)
    requires AllFinished(P, keys, nodes) && IsDag(keys, nodes)
    requires IsExport(keys, nodes, root, operations, outNodes, outEdges) && Shaped(outNodes, outEdges)
    requires i < |nodes| && IsExported(nodes, root, i)
    ensures Rank(nodes, root, i) < |outNodes|
    ensures OutWords(outNodes, outEdges, Rank(nodes, root, i), |keys[i].1|) == Words(keys, nodes, i)
    decreases |keys[i].1|, 1, 0
  {
    SliceIsEdges(keys, nodes, root, operations, outNodes, outEdges, i);
    if keys[i].1 != {} {
      assert |keys[i].1| > 0;
      assert Descends(keys, nodes[i].edges, keys[i].1);
      EdgesKeepWords(P, keys, nodes, root, operations, outNodes, outEdges, keys[i].1, nodes[i].edges);
    }
  }

  lemma OutWordsOverMore<G>(
      outNodes: seq<OutNode<G>>, outEdges: seq<OutEdge>, before: seq<OutEdge>, last: OutEdge, length: nat)
    requires Shaped(outNodes, outEdges) && last.child < |outNodes|
    requires forall e :: 0 <= e < |before| ==> before[e].child < |outNodes|
    ensures OutWordsOver(outNodes, outEdges, before + [last], length) ==
            OutWordsOver(outNodes, outEdges, before, length) +
            Prepend(Move(last.op, outNodes[last.child].key.0), OutWords(outNodes, outEdges, last.child, length))
  {
    var edges := before + [last];
    assert edges[..|edges| - 1] == before;
  }

  lemma {:induction false} EdgesKeepWords<G, H>(
      P: Problem<G, H>, keys: seq<Key<G>>, nodes: seq<Node>, root: nat, operations: nat, outNodes: seq<OutNode<G>>,
      outEdges: seq<OutEdge>, remaining: set<nat>, edges: seq<Edge>)
    requires AllFinished(P, keys, nodes) && IsDag(keys, nodes)
    requires IsExport(keys, nodes, root, operations, outNodes, outEdges) && Shaped(outNodes, outEdges)
    requires remaining != {} && Descends(keys, edges, remaining)
    ensures var out := OutEdgesOf(nodes, root, edges);
            && (forall e :: 0 <= e < |out| ==> out[e].child < |outNodes|)
            && OutWordsOver(outNodes, outEdges, out, |remaining| - 1) == WordsOver(keys, nodes, remaining, edges)
    decreases |remaining|, 0, |edges|
  {
    OutEdgesInRange(nodes, root, edges);
    if edges != [] {
      var n := |edges| - 1;
      var last := edges[n];
      Shrinks(remaining, last.op);
      EdgesKeepWords(P, keys, nodes, root, operations, outNodes, outEdges, remaining, edges[..n]);
      LiveMeansAccepting(P, keys, nodes, last.child);
      var before, out := OutEdgesOf(nodes, root, edges[..n]), OutEdgesOf(nodes, root, edges);
      if nodes[last.child].live {
        ExportKeepsWords(P, keys, nodes, root, operations, outNodes, outEdges, last.child);
        assert outNodes[Rank(nodes, root, last.child)] == Image(keys, nodes, root, operations, last.child);
        OutWordsOverMore(outNodes, outEdges, before, out[|before|], |remaining| - 1);
        assert out == before + [out[|before|]];
      } else {
        assert out == before;
      }
    }
  }

  /** Every exported edge leads one level deeper. */
  lemma EdgesRaiseDepth<G, H>(
      P: Problem<G, H>, keys: seq<Key<G>>, nodes: seq<Node>, root: nat, operations: nat, outNodes: seq<OutNode<G>>,
      outEdges: seq<OutEdge>, x: nat, e: nat)
    requires AllFinished(P, keys, nodes) && IsDag(keys, nodes)
    requires IsExport(keys, nodes, root, operations, outNodes, outEdges) && Shaped(outNodes, outEdges)
    requires x < |outNodes| && e < |Slice(outNodes, outEdges, x)|
    ensures outNodes[Slice(outNodes, outEdges, x)[e].child].depth == outNodes[x].depth + 1
  {
    var i := RankIsOnto(nodes, root, |nodes|, x);
    SliceOfNode(nodes, root, i, |nodes|);
    assert outNodes[x] == Image(keys, nodes, root, operations, i);
    var c := OutEdgeSource(nodes, root, nodes[i].edges, e);
    var edge := nodes[i].edges[c];
    Shrinks(keys[i].1, edge.op);
    assert outNodes[Rank(nodes, root, edge.child)] == Image(keys, nodes, root, operations, edge.child);
  }

  lemma {:induction false} OutEdgeSource(nodes: seq<Node>, root: nat, edges: seq<Edge>, e: nat) returns (k: nat)
    requires forall k :: 0 <= k < |edges| ==> edges[k].child < |nodes|
    requires e < |OutEdgesOf(nodes, root, edges)|
    ensures k < |edges| && nodes[edges[k].child].live
    ensures OutEdgesOf(nodes, root, edges)[e] == OutEdge(edges[k].op, edges[k].piece, Rank(nodes, root, edges[k].child))
    decreases |edges|
  {
    var n := |edges| - 1;
    if e < |OutEdgesOf(nodes, root, edges[..n])| {
      k := OutEdgeSource(nodes, root, edges[..n], e);
    } else {
      k := n;
    }
  }

  // ------------------------------------------------------------------
  // The exported language
  // ------------------------------------------------------------------

  /** A path over some of the edges of a node. */
  ghost predicate Continues<G>(
    keys: seq<Key<G>>, nodes: seq<Node>, remaining: set<nat>, edges: seq<Edge>, path: seq<Move<G>>)
    requires IsDag(keys, nodes) && Descends(keys, edges, remaining)
  {
    path != [] && exists k :: 0 <= k < |edges| && Takes(keys, nodes, edges[k], path)
  }

  ghost predicate Takes<G>(keys: seq<Key<G>>, nodes: seq<Node>, edge: Edge, path: seq<Move<G>>)
    requires IsDag(keys, nodes) && edge.child < |keys| && path != []
  {
    path[0] == Move(edge.op, keys[edge.child].0) && path[1..] in Words(keys, nodes, edge.child)
  }

  lemma ContinuesMore<G>(
      keys: seq<Key<G>>, nodes: seq<Node>, remaining: set<nat>, edges: seq<Edge>, path: seq<Move<G>>)
    requires IsDag(keys, nodes) && Descends(keys, edges, remaining) && edges != []
    ensures var n := |edges| - 1;
            Descends(keys, edges[..n], remaining) &&
            (Continues(keys, nodes, remaining, edges, path) <==>
             Continues(keys, nodes, remaining, edges[..n], path) || (path != [] && Takes(keys, nodes, edges[n], path)))
  {
    var n := |edges| - 1;
    assert forall k :: 0 <= k < n ==> edges[..n][k] == edges[k];
  }

  lemma {:induction false} WordsOverHas<G>(
      keys: seq<Key<G>>, nodes: seq<Node>, remaining: set<nat>, edges: seq<Edge>, path: seq<Move<G>>)
    requires IsDag(keys, nodes) && Descends(keys, edges, remaining)
    ensures path in WordsOver(keys, nodes, remaining, edges) <==> Continues(keys, nodes, remaining, edges, path)
    decreases |edges|
  {
    if edges != [] {
      var last := edges[|edges| - 1];
      ContinuesMore(keys, nodes, remaining, edges, path);
      WordsOverHas(keys, nodes, remaining, edges[..|edges| - 1], path);
      PrependHas(Move(last.op, keys[last.child].0), Words(keys, nodes, last.child), path);
    }
  }

  /** The words of a node are exactly the accepting paths from its state. */
  lemma {:induction false} WordsArePaths<G, H>(
      P: Problem<G, H>, keys: seq<Key<G>>, nodes: seq<Node>, i: nat, path: seq<Move<G>>)
    requires AllFinished(P, keys, nodes) && IsDag(keys, nodes) && i < |nodes|
    ensures path in Words(keys, nodes, i) <==> IsPath(P, keys[i].0, keys[i].1, path)
    decreases |keys[i].1|
  {
    NodeIsFinished(P, keys, nodes, i);
    var g, remaining, edges := keys[i].0, keys[i].1, nodes[i].edges;
    if remaining != {} {
      WordsOverHas(keys, nodes, remaining, edges, path);
      if path != [] {
        MoveIsMove(P, g, remaining, path[0]);
        forall k | 0 <= k < |edges|
          ensures Takes(keys, nodes, edges[k], path) <==>
                  path[0] == MovesFrom(P, g, remaining, 0)[k] &&
                  IsPath(P, path[0].next, remaining - {path[0].op}, path[1..])
        {
          Shrinks(remaining, edges[k].op);
          WordsArePaths(P, keys, nodes, edges[k].child, path[1..]);
        }
      }
    }
  }

  /** The export of a finished DAG is well formed, and the words that its record of a node
      spells are exactly the accepting paths from the node's state. */
  lemma ExportedLanguage<G, H>(
      P: Problem<G, H>, keys: seq<Key<G>>, nodes: seq<Node>, root: nat, operations: nat,
      outNodes: seq<OutNode<G>>, outEdges: seq<OutEdge>, i: nat, path: seq<Move<G>>)
    requires AllFinished(P, keys, nodes) && IsExport(keys, nodes, root, operations, outNodes, outEdges)
    requires i < |nodes| && IsExported(nodes, root, i)
    ensures Shaped(outNodes, outEdges) && Rank(nodes, root, i) < |outNodes|
    ensures path in OutWords(outNodes, outEdges, Rank(nodes, root, i), |keys[i].1|) <==>
            IsPath(P, keys[i].0, keys[i].1, path)
  {
    FinishedIsDag(P, keys, nodes);
    ExportIsShaped(keys, nodes, root, operations, outNodes, outEdges);
    ExportKeepsWords(P, keys, nodes, root, operations, outNodes, outEdges, i);
    WordsArePaths(P, keys, nodes, i, path);
  }
}
