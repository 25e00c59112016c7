/** Depth-first search for a complete order, with states marked visited by their bitset
    alone, although every test also looks at the board that the search carries along.
 */
module OrderSearch {
  import opened Bits
  import opened Frame
  import opened Sets

  type Edge = (nat, nat) -> bool

  /** The state after placing the operations in order. */
  ghost function WordAfter(s: nat, order: seq<nat>): nat
    decreases |order|
  {
    if order == [] then s else WordAfter(SetBit(s, order[0]), order[1..])
  }

  ghost predicate EdgesFrom(edge: Edge, s: nat, order: seq<nat>)
    decreases |order|
  {
    order == [] || (edge(s, order[0]) && EdgesFrom(edge, SetBit(s, order[0]), order[1..]))
  }

  ghost predicate Completes(edge: Edge, s: nat, terminal: nat, order: seq<nat>) {
    EdgesFrom(edge, s, order) && WordAfter(s, order) == terminal
  }

  ghost predicate CanComplete(edge: Edge, s: nat, terminal: nat) {
    exists order :: Completes(edge, s, terminal, order)
  }

  ghost predicate AddsOne(edge: Edge, n: nat) {
    forall s: nat, o: nat :: edge(s, o) ==> o < n && !HasBit(s, o)
  }

  lemma {:induction false} PathSnoc(edge: Edge, s: nat, order: seq<nat>, o: nat)
    ensures WordAfter(s, order + [o]) == SetBit(WordAfter(s, order), o)
    ensures EdgesFrom(edge, s, order + [o]) <==> EdgesFrom(edge, s, order) && edge(WordAfter(s, order), o)
    decreases |order|
  {
    if order == [] {
      assert (order + [o])[1..] == [];
    } else {
      assert (order + [o])[1..] == order[1..] + [o];
      PathSnoc(edge, SetBit(s, order[0]), order[1..], o);
    }
  }

  /** A path from the empty state places distinct operations, and its state is the set of
      them. */
  lemma {:induction false} PathIsASet(edge: Edge, n: nat, order: seq<nat>)
    requires AddsOne(edge, n) && EdgesFrom(edge, 0, order)
    ensures Members(WordAfter(0, order), n) == ToSet(order)
    ensures WordAfter(0, order) < Pow2(n)
    ensures forall k :: 0 <= k < |order| ==> order[k] < n
    ensures forall i, j :: 0 <= i < j < |order| ==> order[i] != order[j]
    decreases |order|
  {
    if order == [] {
      ZeroIsEmpty(n);
      assert ToSet(order) == {};
    } else {
      var k := |order| - 1;
      var init := order[..k];
      assert order == init + [order[k]];
      PathSnoc(edge, 0, init, order[k]);
      PathIsASet(edge, n, init);
      var s := WordAfter(0, init);
      MembersSetBit(s, order[k], n);
      SetBitBound(s, order[k], n);
      ToSetSnoc(order);
      assert order[k] !in ToSet(init) by {
        assert order[k] in Members(s, n) <==> HasBit(s, order[k]);
      }
      forall i, j | 0 <= i < j < |order|
        ensures order[i] != order[j]
      {
        assert order[i] == init[i];
        if j == k {
          assert order[i] in ToSet(init);
        } else {
          assert order[j] == init[j];
        }
      }
    }
  }

  lemma CompleteIsEdge(edge: Edge, s: nat, terminal: nat)
    requires s != terminal
    ensures CanComplete(edge, s, terminal) <==> exists o: nat :: edge(s, o) && CanComplete(edge, SetBit(s, o), terminal)
  {
    if CanComplete(edge, s, terminal) {
      var order :| Completes(edge, s, terminal, order);
      assert Completes(edge, SetBit(s, order[0]), terminal, order[1..]);
    }
    if o: nat :| edge(s, o) && CanComplete(edge, SetBit(s, o), terminal) {
      var order :| Completes(edge, SetBit(s, o), terminal, order);
      assert ([o] + order)[1..] == order;
      assert Completes(edge, s, terminal, [o] + order);
    }
  }

  /** An order of all operations, each of which may be placed after those before it, is a
      complete path. */
  lemma OrderIsAPath(edge: Edge, n: nat, order: seq<nat>)
    requires AddsOne(edge, n) && ToSet(order) == UpTo(n)
    requires forall k, s: nat :: 0 <= k < |order| && s < Pow2(n) && Members(s, n) == ToSet(order[..k]) ==>
              edge(s, order[k])
    ensures CanComplete(edge, 0, Pow2(n) - 1)
  {
    PrefixIsAPath(edge, n, order, |order|);
    assert order[..|order|] == order;
    FullPathCompletes(edge, n, order);
  }

  lemma FullPathCompletes(edge: Edge, n: nat, order: seq<nat>)
    requires AddsOne(edge, n) && ToSet(order) == UpTo(n) && EdgesFrom(edge, 0, order)
    ensures CanComplete(edge, 0, Pow2(n) - 1)
  {
    PathIsASet(edge, n, order);
    AllOnesIsFull(n);
    MembersInjective(WordAfter(0, order), Pow2(n) - 1, n);
    assert Completes(edge, 0, Pow2(n) - 1, order);
  }

  lemma {:induction false} PrefixIsAPath(edge: Edge, n: nat, order: seq<nat>, k: nat)
    requires AddsOne(edge, n) && k <= |order|
    requires forall k, s: nat :: 0 <= k < |order| && s < Pow2(n) && Members(s, n) == ToSet(order[..k]) ==>
              edge(s, order[k])
    ensures EdgesFrom(edge, 0, order[..k])
  {
    if k != 0 {
      PrefixIsAPath(edge, n, order, k - 1);
      assert order[..k] == order[..k - 1] + [order[k - 1]];
      PathSnoc(edge, 0, order[..k - 1], order[k - 1]);
      PathIsASet(edge, n, order[..k - 1]);
    }
  }

  /** The visited states that are not on the current path lead nowhere. */
  ghost predicate DeadWhenVisited(edge: Edge, n: nat, visited: seq<nat>, generation: nat, pending: set<nat>)
    requires Pow2(n) <= |visited|
  {
    forall s: nat :: s < Pow2(n) && visited[s] == generation && s !in pending ==>
      !CanComplete(edge, s, Pow2(n) - 1)
  }

  /** `allowed(s, board, o)` is the outcome of the tests for placing `o` in state `s`. */
  datatype Space = Space(initial: Board, masks: seq<Board>, allowed: (nat, Board, nat) -> bool)

  ghost function BoardAt(sp: Space, s: nat): Board {
    sp.initial + set o, c | o in Members(s, |sp.masks|) && c in sp.masks[o] :: c
  }

  ghost predicate EdgesOf(sp: Space, edge: Edge) {
    forall s: nat, o: nat :: edge(s, o) <==> o < |sp.masks| && !HasBit(s, o) && sp.allowed(s, BoardAt(sp, s), o)
  }

  lemma BoardGrows(sp: Space, s: nat, o: nat)
    requires o < |sp.masks|
    ensures BoardAt(sp, SetBit(s, o)) == BoardAt(sp, s) + sp.masks[o]
  {
    MembersSetBit(s, o, |sp.masks|);
  }

  lemma ShortPath(edge: Edge, n: nat, order: seq<nat>, o: nat)
    requires AddsOne(edge, n) && EdgesFrom(edge, 0, order) && edge(WordAfter(0, order), o)
    ensures |order| < n
  {
    PathIsASet(edge, n, order);
    DistinctSize(order);
    UpToSize(n);
    var state := WordAfter(0, order);
    assert o in Members(state, n) <==> HasBit(state, o);
    ProperSubsetSize(ToSet(order), UpTo(n), o);
  }

  lemma FullPath(edge: Edge, n: nat, order: seq<nat>)
    requires AddsOne(edge, n) && EdgesFrom(edge, 0, order) && WordAfter(0, order) == Pow2(n) - 1
    ensures |order| == n
  {
    PathIsASet(edge, n, order);
    AllOnesIsFull(n);
    DistinctSize(order);
    UpToSize(n);
  }

  ghost predicate Context(sp: Space, edge: Edge, priority: seq<nat>) {
    && EdgesOf(sp, edge)
    && (forall o :: 0 <= o < |sp.masks| ==> o in priority)
    && (forall k :: 0 <= k < |priority| ==> priority[k] < |sp.masks|)
  }

  /** The path leads to the state, and the carried board is the one of the state. */
  ghost predicate AtState(sp: Space, edge: Edge, path: seq<nat>, state: nat, board: Board) {
    && state < Pow2(|sp.masks|) && board == BoardAt(sp, state)
    && EdgesFrom(edge, 0, path) && WordAfter(0, path) == state
  }

  /** Depth-first search over the subset lattice. Visited marks carry no board and no
      order, yet a failed search proves that no order completes the state. */
  method SearchOrder(
      sp: Space, ghost edge: Edge, priority: seq<nat>, visited: array<nat>, generation: nat, path: array<nat>,
      state: nat, board: Board, depth: nat, ghost pending: set<nat>)
    returns (found: bool)
    requires visited != path && path.Length == |sp.masks| && Pow2(|sp.masks|) <= visited.Length
    requires Context(sp, edge, priority)
    requires depth <= path.Length && AtState(sp, edge, path[..depth], state, board)
    requires forall s :: s in pending ==> s < state
    requires DeadWhenVisited(edge, |sp.masks|, visited[..], generation, pending)
    modifies visited, path
    ensures found ==> EdgesFrom(edge, 0, path[..]) && WordAfter(0, path[..]) == Pow2(|sp.masks|) - 1
    ensures !found ==> !CanComplete(edge, state, Pow2(|sp.masks|) - 1)
    ensures !found ==> DeadWhenVisited(edge, |sp.masks|, visited[..], generation, pending)
    ensures !found ==> path[..depth] == old(path[..depth])
    ensures forall s :: 0 <= s < visited.Length ==> visited[s] == generation || visited[s] == old(visited[s])
    decreases Pow2(|sp.masks|) - state, 1
  {
    var n := |sp.masks|;
    var terminal := Pow2(n) - 1;
    ghost var entry := path[..depth];
    if state == terminal {
      FullPath(edge, n, entry);
      assert path[..depth] == path[..];
      return true;
    }
    if visited[state] == generation {
      return false;
    }
    visited[state] := generation;
    for index := 0 to |priority|
      invariant path[..depth] == entry
      invariant DeadWhenVisited(edge, n, visited[..], generation, pending + {state})
      invariant forall k :: 0 <= k < index ==> NoWayOn(edge, state, priority[k], terminal)
      invariant forall s :: 0 <= s < visited.Length ==> visited[s] == generation || visited[s] == old(visited[s])
    {
      found := TryOperation(sp, edge, priority, visited, generation, path,
                            state, board, depth, pending + {state}, priority[index]);
      if found {
        return true;
      }
    }
    NowhereToGo(sp, edge, priority, state, terminal);
    return false;
  }

  ghost predicate NoWayOn(edge: Edge, state: nat, o: nat, terminal: nat) {
    edge(state, o) ==> !CanComplete(edge, SetBit(state, o), terminal)
  }

  lemma NowhereToGo(sp: Space, edge: Edge, priority: seq<nat>, state: nat, terminal: nat)
    requires Context(sp, edge, priority) && state != terminal
    requires forall k :: 0 <= k < |priority| ==> NoWayOn(edge, state, priority[k], terminal)
    ensures !CanComplete(edge, state, terminal)
  {
    CompleteIsEdge(edge, state, terminal);
    forall o: nat | edge(state, o)
      ensures !CanComplete(edge, SetBit(state, o), terminal)
    {
      assert o in priority;
      var k :| 0 <= k < |priority| && priority[k] == o;
      assert NoWayOn(edge, state, priority[k], terminal);
    }
  }

  /** Tests one operation in a state and, if it passes, searches on from there. */
  method TryOperation(
      sp: Space, ghost edge: Edge, priority: seq<nat>, visited: array<nat>, generation: nat, path: array<nat>,
      state: nat, board: Board, depth: nat, ghost pending: set<nat>, operation: nat)
    returns (found: bool)
    requires visited != path && path.Length == |sp.masks| && Pow2(|sp.masks|) <= visited.Length
    requires Context(sp, edge, priority) && operation < |sp.masks|
    requires depth <= path.Length && AtState(sp, edge, path[..depth], state, board)
    requires forall s :: s in pending ==> s <= state
    requires DeadWhenVisited(edge, |sp.masks|, visited[..], generation, pending)
    modifies visited, path
    ensures found ==> EdgesFrom(edge, 0, path[..]) && WordAfter(0, path[..]) == Pow2(|sp.masks|) - 1
    ensures !found ==> NoWayOn(edge, state, operation, Pow2(|sp.masks|) - 1)
    ensures !found ==> DeadWhenVisited(edge, |sp.masks|, visited[..], generation, pending)
    ensures !found ==> path[..depth] == old(path[..depth])
    ensures forall s :: 0 <= s < visited.Length ==> visited[s] == generation || visited[s] == old(visited[s])
    decreases Pow2(|sp.masks|) - state, 0
  {
    if HasBit(state, operation) || !sp.allowed(state, board, operation) {
      return false;
    }
    assert edge(state, operation);
    ghost var entry := path[..depth];
    ShortPath(edge, |sp.masks|, entry, operation);
    var next := SetBit(state, operation);
    SetBitGrows(state, operation);
    SetBitBound(state, operation, |sp.masks|);
    BoardGrows(sp, state, operation);
    PathSnoc(edge, 0, entry, operation);
    path[depth] := operation;
    assert path[..depth + 1] == entry + [operation];
    found := SearchOrder(sp, edge, priority, visited, generation, path,
                         next, board + sp.masks[operation], depth + 1, pending);
    assert !found ==> path[..depth] == path[..depth + 1][..depth];
  }

  /** The whole search, from nothing placed and no state visited. */
  method SearchFromStart(sp: Space, ghost edge: Edge, priority: seq<nat>, visited: array<nat>, generation: nat)
    returns (found: bool, order: seq<nat>)
    requires Pow2(|sp.masks|) <= visited.Length && Context(sp, edge, priority)
    requires forall s :: 0 <= s < visited.Length ==> visited[s] != generation
    modifies visited
    ensures found ==> |order| == |sp.masks| && EdgesFrom(edge, 0, order)
    ensures !found ==> !CanComplete(edge, 0, Pow2(|sp.masks|) - 1)
    ensures forall s :: 0 <= s < visited.Length ==> visited[s] == generation || visited[s] == old(visited[s])
  {
    var path := new nat[|sp.masks|];
    ZeroIsEmpty(|sp.masks|);
    assert path[..0] == [];
    assert BoardAt(sp, 0) == sp.initial;
    found := SearchOrder(sp, edge, priority, visited, generation, path, 0, sp.initial, 0, {});
    order := path[..];
  }
}
