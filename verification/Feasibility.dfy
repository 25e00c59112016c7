/** Realization feasibility: can the skeleton rows of a candidate be placed one after the
    other on a real board?
 */
module Feasibility {
  import opened Options
  import opened Frame
  import opened Bits
  import opened Folding
  import opened Realization
  import opened Propagation
  import opened Structural
  import opened OrderSearch
  import Closure
  import BuildRun

  // ------------------------------------------------------------------
  // Generation-stamped workspace
  // ------------------------------------------------------------------

  /** Stamps are 32-bit; the counter skips zero when it wraps. */
  const GENERATION_LIMIT: nat := 0x1_0000_0000

  class Workspace {
    var visited: array<nat>
    var reachable: array<nat>
    var live: array<nat>
    var generation: nat

    ghost predicate Valid()
      reads this, visited, reachable, live
    {
      && visited != reachable && visited != live && reachable != live
      && visited.Length == reachable.Length == live.Length
      && generation < GENERATION_LIMIT
      && (forall s :: 0 <= s < visited.Length ==> visited[s] <= generation)
      && (forall s :: 0 <= s < reachable.Length ==> reachable[s] <= generation)
      && (forall s :: 0 <= s < live.Length ==> live[s] <= generation)
    }

    /** No state carries the current stamp. */
    ghost predicate AllStale()
      reads this, visited, reachable, live
    {
      && (forall s :: 0 <= s < visited.Length ==> visited[s] != generation)
      && (forall s :: 0 <= s < reachable.Length ==> reachable[s] != generation)
      && (forall s :: 0 <= s < live.Length ==> live[s] != generation)
    }

    constructor ()
      ensures Valid() && fresh(visited) && fresh(reachable) && fresh(live)
    {
      visited := new nat[0];
      reachable := new nat[0];
      live := new nat[0];
      generation := 0;
    }

    /** Grows the planes; a larger plane starts all zero with generation zero. */
    method EnsureCapacity(states: nat)
      requires Valid()
      modifies this
      ensures Valid() && states <= visited.Length
      ensures old(visited.Length) < states ==> fresh(visited) && fresh(reachable) && fresh(live) && generation == 0
      ensures states <= old(visited.Length) ==>
                visited == old(visited) && reachable == old(reachable) && live == old(live) &&
                generation == old(generation)
    {
      if visited.Length < states {
        visited := new nat[states](_ => 0);
        reachable := new nat[states](_ => 0);
        live := new nat[states](_ => 0);
        generation := 0;
      }
    }

    /** Makes every stamp stale, also when the counter wraps around. */
    method AdvanceGeneration()
      requires Valid()
      modifies this`generation, visited, reachable, live
      ensures Valid() && AllStale() && generation != 0
    {
      if generation + 1 != GENERATION_LIMIT {
        generation := generation + 1;
        return;
      }
      forall s | 0 <= s < visited.Length {
        visited[s] := 0;
      }
      forall s | 0 <= s < reachable.Length {
        reachable[s] := 0;
      }
      forall s | 0 <= s < live.Length {
        live[s] := 0;
      }
      generation := 1;
    }
  }

  // ------------------------------------------------------------------
  // One transition of the search
  // ------------------------------------------------------------------

  predicate GroundedInClearState(T: Board, mask: Board, deleted: set<nat>) {
    BuildRun.Grounded(Compress(T, deleted), Compress(mask, deleted))
  }

  /** Replays a realization on the compressed board and compares the outcome with the
      clear state and board that the contributor formula predicts. */
  predicate Replays(L: Layout, world: Board, T: Board, mask: Board, before: set<nat>, after: set<nat>) {
    var current := Compress(T, before);
    && L.FullRows(current) == {}
    && current !! world
    && var clear := LineClearOf(L, current + world);
    && (forall r :: r in clear.deletedRows ==> r < Rank(before, L.height))
    && before + UnrankImage(before, clear.deletedRows, L.height) == after
    && clear.board == Compress(T + mask, after)
    && (forall r :: r in clear.deletedRows ==> exists c :: c in world && c.y == r)
  }

  /** The replay never has to give up for a cleared row without a target row: whatever is
      full holds a cell of the compressed board or of the realization, and both stay below
      the rows that survive. */
  lemma ReplayIsNeverIncomplete(L: Layout, t: Template, T: Board, before: set<nat>)
    requires L.Valid() && L.Fits(T) && Instantiate(L, t, before).Some?
    ensures L.Fits(Compress(T, before) + Instantiate(L, t, before).value)
    ensures var clear := LineClearOf(L, Compress(T, before) + Instantiate(L, t, before).value);
            forall r :: r in clear.deletedRows ==> r < Rank(before, L.height)
  {
    var board := Compress(T, before) + Instantiate(L, t, before).value;
    CompressFits(L, T, before);
    forall r | r in L.FullRows(board)
      ensures r < Rank(before, L.height)
    {
      var c := Cell(0, r);
      assert c in board;
      if c in Compress(T, before) {
        var d :| d in T && d.y !in before && c == Cell(d.x, Rank(before, d.y));
        UnrankOfRank(before, d.y, L.height);
      }
    }
  }

  /** The contributor sets as they were compiled. */
  datatype Formula = Formula(contributors: seq<set<nat>>, clearable: set<nat>) {
    predicate Describes(p: Problem) {
      && |contributors| == 16 && clearable == ClearableRows(p)
      && (forall row :: row in clearable ==> row < 16 && contributors[row] == Contributors(p, row))
    }

    /** The value that `DeletedRowsForState` computes. */
    function Deleted(p: Problem, placed: set<nat>): (deleted: set<nat>)
      requires Describes(p)
      ensures deleted == DeletedRows(p, placed)
    {
      set row | row in clearable && contributors[row] <= placed
    }
  }

  datatype Search = Search(
    p: Problem, formula: Formula, active: Domains, required: seq<set<nat>>,
    useLive: bool, live: seq<nat>, generation: nat)
  {
    predicate Valid() {
      && p.Valid() && formula.Describes(p)
      && |active| == |p.ops| == |required|
      && (useLive ==> Pow2(|p.ops|) <= |live|)
    }

    predicate StateIsLive(s: nat) {
      useLive ==> s < |live| && live[s] == generation
    }

    predicate RealizationMatches(board: Board, placed: set<nat>, o: nat, k: nat)
      requires Valid() && o < |p.ops|
    {
      && k < |p.ops[o].templates|
      && var before := formula.Deleted(p, placed);
      && var world := Instantiate(p.L, p.ops[o].templates[k], before);
      && world.Some?
      && Replays(p.L, world.value, board, p.ops[o].mask, before, formula.Deleted(p, placed + {o}))
    }

    /** The tests that the search makes in a state, on the target board it has carried
        along, before it descends. */
    predicate Allows(s: nat, board: Board, o: nat) {
      && Valid() && o < |p.ops|
      && StateIsLive(SetBit(s, o))
      && var placed := Members(s, |p.ops|);
      && var before := formula.Deleted(p, placed);
      && required[o] <= placed
      && GroundedInClearState(board, p.ops[o].mask, before)
      && exists k :: k in active[o] && RealizationMatches(board, placed, o, k)
    }
  }

  function SpaceOf(c: Search): Space {
    Space(c.p.initial,
          seq(|c.p.ops|, o requires 0 <= o < |c.p.ops| => c.p.ops[o].mask),
          (s: nat, board: Board, o: nat) => c.Allows(s, board, o))
  }

  lemma SpaceBoardIsTarget(c: Search, s: nat)
    ensures BoardAt(SpaceOf(c), s) == Target(c.p, Members(s, |c.p.ops|))
  {
    var sp := SpaceOf(c);
    var placed := Members(s, |c.p.ops|);
    assert forall o :: o in placed ==> sp.masks[o] == c.p.ops[o].mask;
    assert (set o, x | o in placed && x in sp.masks[o] :: x) == MasksOf(c.p, placed);
  }

  /** The tests of the search, spelled out on the placed set. */
  lemma EdgeMeans(c: Search, edge: Edge, s: nat, o: nat)
    requires c.Valid() && EdgesOf(SpaceOf(c), edge)
    ensures edge(s, o) <==>
              && o < |c.p.ops| && !HasBit(s, o)
              && c.Allows(s, Target(c.p, Members(s, |c.p.ops|)), o)
  {
    SpaceBoardIsTarget(c, s);
  }

  // ------------------------------------------------------------------
  // A path of the search is a real build
  // ------------------------------------------------------------------

  /** A realization that matches in the replay really locks there, and really leads to
      the clear state and board that the formula predicts. */
  lemma MatchIsPlacement(c: Search, placed: set<nat>, o: nat, k: nat)
    requires c.Valid() && o < |c.p.ops|
    requires GroundedInClearState(Target(c.p, placed), c.p.ops[o].mask, DeletedRows(c.p, placed))
    requires c.RealizationMatches(Target(c.p, placed), placed, o, k)
    ensures var before := DeletedRows(c.p, placed);
            var after := DeletedRows(c.p, placed + {o});
            Place(c.p.L, Position(Compress(Target(c.p, placed), before), before), c.p.ops[o].templates[k])
            == Some(Position(Compress(Target(c.p, placed + {o}), after), after))
  {
    var before := DeletedRows(c.p, placed);
    InstantiateIsCompression(c.p.L, c.p.ops[o].templates[k], before);
    TargetGrows(c.p, placed, o);
  }

  /** The position that the formula predicts for a set of placed operations. */
  ghost function Predicted(p: Problem, placed: set<nat>): Position {
    Position(Compress(Target(p, placed), DeletedRows(p, placed)), DeletedRows(p, placed))
  }

  ghost predicate ReallyPlaces(p: Problem, placed: set<nat>, o: nat, k: nat)
    requires p.L.Valid()
  {
    && o < |p.ops| && k < |p.ops[o].templates|
    && Place(p.L, Predicted(p, placed), p.ops[o].templates[k]) == Some(Predicted(p, placed + {o}))
  }

  ghost predicate EdgesReallyPlace(p: Problem, edge: Edge)
    requires p.L.Valid()
  {
    forall u: nat {:trigger Unfold(u)} :: Unfold(u) ==>
      forall s: nat, o: nat :: edge(s, o) ==> exists k :: ReallyPlaces(p, Members(s, |p.ops|), o, k)
  }

  lemma SearchEdgesReallyPlace(c: Search, edge: Edge)
    requires c.Valid() && EdgesOf(SpaceOf(c), edge)
    ensures EdgesReallyPlace(c.p, edge) && AddsOne(edge, |c.p.ops|)
  {
    forall s: nat, o: nat | edge(s, o)
      ensures exists k :: ReallyPlaces(c.p, Members(s, |c.p.ops|), o, k)
    {
      EdgeMeans(c, edge, s, o);
      var placed := Members(s, |c.p.ops|);
      var k :| k in c.active[o] && c.RealizationMatches(Target(c.p, placed), placed, o, k);
      MatchIsPlacement(c, placed, o, k);
      assert ReallyPlaces(c.p, placed, o, k);
    }
  }

  lemma {:induction false} PathIsABuild(p: Problem, edge: Edge, order: seq<nat>) returns (choice: seq<nat>)
    requires p.Valid() && p.L.FullRows(p.initial) == {}
    requires AddsOne(edge, |p.ops|) && EdgesReallyPlace(p, edge)
    requires EdgesFrom(edge, 0, order)
    ensures |choice| == |order|
    ensures Played(p, order, choice) == Some(Predicted(p, ToSet(order)))
    decreases |order|
  {
    if order == [] {
      choice := [];
      assert ToSet(order) == {};
      NothingDeletedAtStart(p);
      TargetOfNothing(p);
      CompressNothing(p.initial);
    } else {
      var m := |order| - 1;
      var init := order[..m];
      assert order == init + [order[m]];
      PathSnoc(edge, 0, init, order[m]);
      var earlier := PathIsABuild(p, edge, init);
      PathIsASet(edge, |p.ops|, init);
      var k := EdgePlaces(p, edge, WordAfter(0, init), order[m]);
      choice := earlier + [k];
      PlayOneMore(p, init, earlier, order[m], k);
    }
  }

  lemma EdgePlaces(p: Problem, edge: Edge, s: nat, o: nat) returns (k: nat)
    requires p.L.Valid() && EdgesReallyPlace(p, edge) && edge(s, o)
    ensures ReallyPlaces(p, Members(s, |p.ops|), o, k)
  {
    assert Unfold(0);
    k :| ReallyPlaces(p, Members(s, |p.ops|), o, k);
  }

  lemma PlayOneMore(p: Problem, order: seq<nat>, choice: seq<nat>, o: nat, k: nat)
    requires p.L.Valid() && |choice| == |order|
    requires Played(p, order, choice) == Some(Predicted(p, ToSet(order))) && ReallyPlaces(p, ToSet(order), o, k)
    ensures Played(p, order + [o], choice + [k]) == Some(Predicted(p, ToSet(order + [o])))
  {
    var longer, choices := order + [o], choice + [k];
    assert longer[..|order|] == order && choices[..|order|] == choice;
    ToSetSnoc(longer);
  }

  // ------------------------------------------------------------------
  // A real build is a path of the search
  // ------------------------------------------------------------------

  /** A row cleared by a placement holds a cell of it: before, no row was full. */
  lemma ClearedRowsAreTouched(L: Layout, current: Board, world: Board)
    requires L.Valid() && L.FullRows(current) == {}
    ensures forall r :: r in LineClearOf(L, current + world).deletedRows ==> exists c :: c in world && c.y == r
  {
    forall r | r in LineClearOf(L, current + world).deletedRows
      ensures exists c :: c in world && c.y == r
    {
      assert r !in L.FullRows(current);
      var x :| 0 <= x < L.width && Cell(x, r) !in current;
      assert Cell(x, r) in current + world;
      assert Cell(x, r) in world;
    }
  }

  lemma PlacementMatches(c: Search, order: seq<nat>, choice: seq<nat>, k: nat)
    requires c.Valid() && c.p.L.FullRows(c.p.initial) == {}
    requires IsOrder(c.p, order) && Played(c.p, order, choice).Some? && |choice| == |order| && k < |order|
    ensures var placed := ToSet(order[..k]);
            && GroundedInClearState(Target(c.p, placed), c.p.ops[order[k]].mask, DeletedRows(c.p, placed))
            && c.RealizationMatches(Target(c.p, placed), placed, order[k], choice[k])
  {
    var p := c.p;
    var o := order[k];
    var placed := ToSet(order[..k]);
    var T := Target(p, placed);
    StepObeysContributors(p, order, choice, k);
    StepOfRun(p, order, choice, k);
    var before := DeletedRows(p, placed);
    TargetFits(p, placed);
    var t := p.ops[o].templates[choice[k]];
    InstantiateIsCompression(p.L, t, before);
    PlacementKeepsFramesInStep(p.L, T, p.ops[o].mask);
    FullRowsCompress(p.L, T, before);
    assert p.L.FullRows(T) - before == {};
    ClearedRowsAreTouched(p.L, Compress(T, before), Compress(p.ops[o].mask, before));
    ClearStateAfter(p, order, choice, k);
  }

  /** After the step, too, the clear state is the one of the formula. */
  lemma ClearStateAfter(p: Problem, order: seq<nat>, choice: seq<nat>, k: nat)
    requires p.Valid() && p.L.FullRows(p.initial) == {}
    requires IsOrder(p, order) && Played(p, order, choice).Some? && |choice| == |order| && k < |order|
    ensures var placed := ToSet(order[..k]);
            p.L.FullRows(Target(p, placed) + p.ops[order[k]].mask) == DeletedRows(p, placed + {order[k]})
  {
    BuildableMasksAreDisjoint(p, order, choice);
    IsOrderCovers(p, order);
    var placed := ToSet(order[..k]);
    forall o | o in placed
      ensures o in ToSet(order)
    {
      var i :| 0 <= i < k && order[..k][i] == o;
      assert order[i] == o;
    }
    assert order[k] in ToSet(order);
    FormulaGivesFullRows(p, placed + {order[k]});
    TargetGrows(p, placed, order[k]);
  }

  /** The filters of the search keep this build: its states are live, its predecessors
      are in place and its realizations are active. */
  ghost predicate Keeps(c: Search, order: seq<nat>, choice: seq<nat>)
    requires c.Valid() && |choice| == |order|
  {
    && ObeysAsSets(c.required, order)
    && (forall k :: 0 <= k < |order| ==> order[k] < |c.active| && choice[k] in c.active[order[k]])
    && (forall k, s: nat :: 0 < k <= |order| && s < Pow2(|c.p.ops|) && Members(s, |c.p.ops|) == ToSet(order[..k]) ==>
          c.StateIsLive(s))
  }

  /** The filters of the search keep every build. */
  ghost predicate AllKept(c: Search)
    requires c.Valid()
  {
    forall u: nat {:trigger Unfold(u)} :: Unfold(u) ==>
      forall order, choice :: IsBuild(c.p, order, choice) ==> Keeps(c, order, choice)
  }

  lemma BuildStepIsAnEdge(c: Search, edge: Edge, order: seq<nat>, choice: seq<nat>, k: nat, s: nat)
    requires c.Valid() && EdgesOf(SpaceOf(c), edge) && c.p.L.FullRows(c.p.initial) == {}
    requires IsOrder(c.p, order) && Played(c.p, order, choice).Some? && |choice| == |order| && k < |order|
    requires Keeps(c, order, choice)
    requires s < Pow2(|c.p.ops|) && Members(s, |c.p.ops|) == ToSet(order[..k])
    ensures edge(s, order[k])
  {
    var n := |c.p.ops|;
    var o := order[k];
    PlacementMatches(c, order, choice, k);
    StepObeysContributors(c.p, order, choice, k);
    assert o in Members(s, n) <==> HasBit(s, o);
    assert c.StateIsLive(SetBit(s, o)) by {
      SetBitBound(s, o, n);
      MembersSetBit(s, o, n);
      ToSetSnoc(order[..k + 1]);
      assert order[..k + 1][..k] == order[..k];
    }
    EdgeMeans(c, edge, s, o);
  }

  /** A build that the filters keep is a complete path of the search. */
  lemma BuildCompletes(c: Search, edge: Edge, order: seq<nat>, choice: seq<nat>)
    requires c.Valid() && EdgesOf(SpaceOf(c), edge) && c.p.L.FullRows(c.p.initial) == {}
    requires IsOrder(c.p, order) && Played(c.p, order, choice).Some? && |choice| == |order|
    requires Keeps(c, order, choice)
    ensures CanComplete(edge, 0, Pow2(|c.p.ops|) - 1)
  {
    var n := |c.p.ops|;
    forall k, s: nat | 0 <= k < |order| && s < Pow2(n) && Members(s, n) == ToSet(order[..k])
      ensures edge(s, order[k])
    {
      BuildStepIsAnEdge(c, edge, order, choice, k, s);
    }
    SearchEdgesReallyPlace(c, edge);
    IsOrderCovers(c.p, order);
    OrderIsAPath(edge, n, order);
  }

  // ------------------------------------------------------------------
  // What the filters keep
  // ------------------------------------------------------------------

  ghost predicate IsBuild(p: Problem, order: seq<nat>, choice: seq<nat>)
    requires p.L.Valid()
  {
    IsOrder(p, order) && |choice| == |order| && Played(p, order, choice).Some?
  }

  ghost predicate AllBuildsObey(p: Problem, required: seq<set<nat>>)
    requires p.L.Valid()
  {
    forall order, choice :: IsBuild(p, order, choice) ==> ObeysAsSets(required, order)
  }

  lemma NoBuildMeansInfeasible(p: Problem)
    requires p.L.Valid() && 0 < |p.ops|
    requires forall order, choice :: !IsBuild(p, order, choice)
    ensures forall order :: !Buildable(p, order)
  {
    forall order | Buildable(p, order)
      ensures false
    {
      var choice :| Played(p, order, choice).Some?;
      assert IsBuild(p, order, choice);
    }
  }

  /** The first rejection: inconsistent or cyclic required predecessors. */
  lemma InconsistentMeansNoBuild(p: Problem)
    requires p.Valid() && HasRealizations(p) && p.L.FullRows(p.initial) == {}
    requires !BaseConsistent(p) || Closure.HasCycle(BaseRelation(p))
    ensures forall order, choice :: !IsBuild(p, order, choice)
  {
    forall order, choice | IsBuild(p, order, choice)
      ensures false
    {
      BuildableOrderObeysBase(p, order, choice);
    }
  }

  lemma CompiledPredecessorsAreObeyed(p: Problem, required: seq<set<nat>>)
    requires p.Valid() && HasRealizations(p) && p.L.FullRows(p.initial) == {}
    requires |required| == |p.ops|
    requires forall o, q: nat :: 0 <= o < |p.ops| ==> (q in required[o] <==> Closure.Reaches(BaseRelation(p), o, q))
    ensures AllBuildsObey(p, required)
  {
    forall order, choice | IsBuild(p, order, choice)
      ensures ObeysAsSets(required, order)
    {
      BuildableOrderObeysBase(p, order, choice);
      ClosureKeepsObedience(BaseRelation(p), required, order);
    }
  }

  /** Along a build every state is live and every chosen realization is used. */
  lemma BuildIsLive(p: Problem, required: seq<set<nat>>, order: seq<nat>, choice: seq<nat>)
    requires p.Valid() && p.L.FullRows(p.initial) == {} && |required| == |p.ops|
    requires IsBuild(p, order, choice) && AllBuildsObey(p, required)
    ensures CanFinish(LatticeOf(p, required), AllRealizations(p), {})
    ensures forall k :: 0 <= k <= |order| ==>
              && Reachable(LatticeOf(p, required), AllRealizations(p), ToSet(order[..k]))
              && CanFinish(LatticeOf(p, required), AllRealizations(p), ToSet(order[..k]))
    ensures forall k :: 0 <= k < |order| ==>
              && Usable(p, required, ToSet(order[..k]), order[k], choice[k])
              && UsedSomewhere(LatticeOf(p, required), AllRealizations(p), order[k], choice[k])
  {
    var lat := LatticeOf(p, required);
    var all := AllRealizations(p);
    forall k | 0 <= k < |order|
      ensures choice[k] in all[order[k]]
      ensures Usable(p, required, ToSet(order[..k]), order[k], choice[k])
    {
      BuildableStepIsUsable(p, required, order, choice, k);
    }
    BuildableOrderIsStructural(p, required, all, order, choice);
    IsOrderCovers(p, order);
    assert lat.Everything() == UpTo(|p.ops|);
    forall k | 0 <= k <= |order|
      ensures Reachable(lat, all, ToSet(order[..k])) && CanFinish(lat, all, ToSet(order[..k]))
    {
      OrderReaches(lat, all, order, k);
      OrderFinishes(lat, all, order, k);
    }
    assert ToSet(order[..0]) == {};
    forall k | 0 <= k < |order|
      ensures UsedSomewhere(lat, all, order[k], choice[k])
    {
      assert lat.uses(ToSet(order[..k]), order[k], choice[k]);
      StepOfOrderIsLiveUse(lat, all, order, k, choice[k]);
    }
  }

  /** The predecessors common to the realizations still active: every one of them is a
      predecessor of each. */
  ghost predicate IsCommonOf(p: Problem, required: seq<set<nat>>, narrowed: Domains, common: seq<set<nat>>)
    requires |required| == |p.ops| == |narrowed| == |common|
  {
    forall o, k :: 0 <= o < |narrowed| && k in narrowed[o] ==>
      && k < |p.ops[o].templates|
      && RealizationPredecessors(p, required, o, k).Some?
      && common[o] <= RealizationPredecessors(p, required, o, k).value
  }

  lemma CommonPredecessorsAreObeyed(
      p: Problem, required: seq<set<nat>>, narrowed: Domains, common: seq<set<nat>>)
    requires p.Valid() && p.L.FullRows(p.initial) == {}
    requires |required| == |p.ops| == |narrowed| == |common|
    requires AllBuildsObey(p, required)
    requires forall o: nat, k: nat :: o in UpTo(|p.ops|) ==>
               (k in narrowed[o] <==> UsedSomewhere(LatticeOf(p, required), AllRealizations(p), o, k))
    requires IsCommonOf(p, required, narrowed, common)
    ensures forall order, choice :: IsBuild(p, order, choice) ==> ObeysAsSets(common, order)
  {
    forall order, choice | IsBuild(p, order, choice)
      ensures ObeysAsSets(common, order)
    {
      BuildIsLive(p, required, order, choice);
      forall k | 0 <= k < |order|
        ensures order[k] < |common| && common[order[k]] <= ToSet(order[..k])
      {
        assert order[k] in UpTo(|p.ops|);
        assert choice[k] in narrowed[order[k]];
      }
    }
  }

  lemma StepObeysCommon(
      p: Problem, required: seq<set<nat>>, narrowed: Domains, common: seq<set<nat>>, order: seq<nat>, k: nat)
    requires p.L.Valid() && |required| == |p.ops| == |narrowed| == |common|
    requires forall o: nat, k: nat :: o in UpTo(|p.ops|) ==>
               (k in narrowed[o] <==> UsedSomewhere(LatticeOf(p, required), AllRealizations(p), o, k))
    requires IsCommonOf(p, required, narrowed, common)
    requires StructuralOrder(LatticeOf(p, required), AllRealizations(p), order) &&
              ToSet(order) == LatticeOf(p, required).Everything()
    requires k < |order|
    ensures order[k] < |common| && order[k] !in order[..k]
    ensures forall q :: q in common[order[k]] ==> q in order[..k]
  {
    var lat := LatticeOf(p, required);
    var all := AllRealizations(p);
    assert StructuralStep(lat, all, ToSet(order[..k]), order[k]);
    var j :| j in all[order[k]] && lat.uses(ToSet(order[..k]), order[k], j);
    StepOfOrderIsLiveUse(lat, all, order, k, j);
    assert order[k] in UpTo(|p.ops|);
    assert j in narrowed[order[k]];
    forall q | q in common[order[k]]
      ensures q in order[..k]
    {
      InPrefix(order, k, q);
    }
    InPrefix(order, k, order[k]);
  }

  lemma NoRepeats(order: seq<nat>)
    requires forall k :: 0 <= k < |order| ==> order[k] !in order[..k]
    ensures forall i, j :: 0 <= i < j < |order| ==> order[i] != order[j]
  {
    forall i, j | 0 <= i < j < |order|
      ensures order[i] != order[j]
    {
      assert order[..j][i] == order[i];
    }
  }

  /** The shared predecessors have no cycle when a complete structural order exists. */
  lemma CommonPredecessorsHaveNoCycle(
      p: Problem, required: seq<set<nat>>, narrowed: Domains, common: seq<set<nat>>)
    requires p.L.Valid() && |required| == |p.ops| == |narrowed| == |common|
    requires CanFinish(LatticeOf(p, required), AllRealizations(p), {})
    requires forall o: nat, k: nat :: o in UpTo(|p.ops|) ==>
               (k in narrowed[o] <==> UsedSomewhere(LatticeOf(p, required), AllRealizations(p), o, k))
    requires IsCommonOf(p, required, narrowed, common)
    ensures !Closure.HasCycle(common)
  {
    var order := StructuralOrderExists(p, required);
    forall k: nat | k < |order|
      ensures order[k] < |common| && (forall q :: q in common[order[k]] ==> q in order[..k])
      ensures order[k] !in order[..k]
    {
      StepObeysCommon(p, required, narrowed, common, order, k);
    }
    ObeyingOrderForbidsCycle(common, order);
  }

  lemma StructuralOrderExists(p: Problem, required: seq<set<nat>>) returns (order: seq<nat>)
    requires p.L.Valid() && |required| == |p.ops|
    requires CanFinish(LatticeOf(p, required), AllRealizations(p), {})
    ensures StructuralOrder(LatticeOf(p, required), AllRealizations(p), order) && ToSet(order) == UpTo(|p.ops|)
  {
    var lat, all := LatticeOf(p, required), AllRealizations(p);
    assert lat.Everything() == UpTo(|p.ops|);
    EndsMeet(lat, all);
    order :| Reaches(lat, all, order, lat.Everything());
    PathToIsStructural(lat, all, order);
  }

  lemma ObeyingOrderForbidsCycle(common: seq<set<nat>>, order: seq<nat>)
    requires ToSet(order) == UpTo(|common|)
    requires forall k :: 0 <= k < |order| ==> order[k] < |common| && forall q :: q in common[order[k]] ==>
              q in order[..k]
    requires forall k :: 0 <= k < |order| ==> order[k] !in order[..k]
    ensures !Closure.HasCycle(common)
  {
    NoRepeats(order);
    forall i | 0 <= i < |common|
      ensures i in order
    {
      assert i in ToSet(order);
    }
    Closure.OrderForbidsCycle(common, order);
  }

  // ------------------------------------------------------------------
  // The analysis
  // ------------------------------------------------------------------

  /** A feasible verdict hands its order and the required predecessors on to the build-up
      search. */
  datatype Verdict = Unknown | Infeasible | Feasible(order: seq<nat>, required: seq<set<nat>>)

  function LowestRow(mask: Board, row: nat, height: nat): nat
    decreases height - row
  {
    if height <= row then height
    else if row in RowsUsed(mask) then row
    else LowestRow(mask, row + 1, height)
  }

  predicate ComesFirst(p: Problem, o: nat, q: nat)
    requires o < |p.ops| && q < |p.ops|
  {
    var row := LowestRow(p.ops[o].mask, 0, p.L.height);
    var other := LowestRow(p.ops[q].mask, 0, p.L.height);
    row < other || (row == other && o < q)
  }

  /** Insertion sort of the operations by lowest target row, then by index. */
  method CompilePriority(p: Problem) returns (priority: seq<nat>)
    ensures |priority| == |p.ops|
    ensures forall k :: 0 <= k < |priority| ==> priority[k] < |p.ops|
    ensures forall o :: 0 <= o < |p.ops| ==> o in priority
    ensures forall i, j :: 0 <= i < j < |priority| ==> ComesFirst(p, priority[i], priority[j])
  {
    priority := [];
    for operation := 0 to |p.ops|
      invariant |priority| == operation
      invariant forall k :: 0 <= k < |priority| ==> priority[k] < operation
      invariant forall o :: 0 <= o < operation ==> o in priority
      invariant forall i, j :: 0 <= i < j < |priority| ==> ComesFirst(p, priority[i], priority[j])
    {
      var cursor := operation;
      while 0 < cursor && !ComesFirst(p, priority[cursor - 1], operation)
        invariant 0 <= cursor <= operation
        invariant forall k :: cursor <= k < operation ==> ComesFirst(p, operation, priority[k])
      {
        cursor := cursor - 1;
      }
      var next := priority[..cursor] + [operation] + priority[cursor..];
      forall o | 0 <= o < operation + 1
        ensures o in next
      {
        if o < operation {
          assert o in priority;
          var k :| 0 <= k < |priority| && priority[k] == o;
          assert next[if k < cursor then k else k + 1] == o;
        } else {
          assert next[cursor] == o;
        }
      }
      forall i, j | 0 <= i < j < |next|
        ensures ComesFirst(p, next[i], next[j])
      {
        if i < cursor && j == cursor {
          assert i == cursor - 1 || ComesFirst(p, priority[i], priority[cursor - 1]);
        }
      }
      priority := next;
    }
  }

  predicate SupportedSomewhere(p: Problem, o: nat)
    requires p.L.Valid() && o < |p.ops|
  {
    exists deleted :: deleted <= UpTo(p.L.height) &&
      exists k :: 0 <= k < |p.ops[o].templates| && Instantiate(p.L, p.ops[o].templates[k], deleted).Some?
  }

  /** Every operation has a realization and, on boards of at most six rows where the
      supported clear states are tabulated, a non-empty table. */
  predicate DomainsCompile(p: Problem)
    requires p.L.Valid()
  {
    forall o :: 0 <= o < |p.ops| ==>
      p.ops[o].templates != [] && (p.L.height <= 6 ==> SupportedSomewhere(p, o))
  }

  /** Every build uses active realizations and passes only through stamped states. */
  ghost predicate DomainsKept(p: Problem, active: Domains, live: seq<nat>, generation: nat)
    requires p.L.Valid() && Pow2(|p.ops|) <= |live|
  {
    forall u: nat {:trigger Unfold(u)} :: Unfold(u) ==>
      forall order, choice :: IsBuild(p, order, choice) ==>
        && (forall k :: 0 <= k < |order| ==> order[k] < |active| && choice[k] in active[order[k]])
        && (forall k, s: nat :: 0 <= k <= |order| && s < Pow2(|p.ops|) && Members(s, |p.ops|) == ToSet(order[..k]) ==>
              live[s] == generation)
  }

  /** Propagation, then the tightening of the required predecessors. Either no build
      exists, or every build survives in the live states and active realizations. */
  method RefineDomains(p: Problem, required: array<set<nat>>, reachable: array<nat>, live: array<nat>, generation: nat)
    returns (supported: bool, active: Domains)
    requires p.Valid() && 0 < |p.ops| && p.L.FullRows(p.initial) == {}
    requires required.Length == |p.ops|
    requires AllBuildsObey(p, required[..])
    requires Pow2(|p.ops|) <= reachable.Length && Pow2(|p.ops|) <= live.Length && reachable != live
    requires forall s :: 0 <= s < reachable.Length ==> reachable[s] != generation
    requires forall s :: 0 <= s < live.Length ==> live[s] != generation
    modifies required, reachable, live
    ensures !supported ==> forall order, choice :: !IsBuild(p, order, choice)
    ensures supported ==> |active| == |p.ops| && AllBuildsObey(p, required[..])
    ensures supported ==> DomainsKept(p, active, live[..], generation)
    ensures forall s :: 0 <= s < reachable.Length ==> reachable[s] == generation || reachable[s] == old(reachable[s])
    ensures forall s :: 0 <= s < live.Length ==> live[s] == generation || live[s] == old(live[s])
  {
    ghost var before := required[..];
    var lat := LatticeOf(p, required[..]);
    var all := AllRealizations(p);
    LatticeIsValid(p, before);
    supported, active := Propagate(lat, all, reachable, live, generation);
    assert lat.Everything() == UpTo(|p.ops|);
    if !supported {
      UnsupportedMeansNoBuild(p, before);
      return;
    }
    BuildsSurvive(p, before, active, live[..], generation);
    TightenPredecessors(p, active, required);
  }

  lemma UnsupportedMeansNoBuild(p: Problem, required: seq<set<nat>>)
    requires p.Valid() && p.L.FullRows(p.initial) == {} && |required| == |p.ops| && AllBuildsObey(p, required)
    requires !CanFinish(LatticeOf(p, required), AllRealizations(p), {})
    ensures forall order, choice :: !IsBuild(p, order, choice)
  {
    forall order, choice | IsBuild(p, order, choice)
      ensures false
    {
      BuildIsLive(p, required, order, choice);
    }
  }

  lemma StateOfBuildIsLive(p: Problem, required: seq<set<nat>>, order: seq<nat>, k: nat, s: nat)
    requires p.L.Valid() && k <= |order| && s < Pow2(|p.ops|) && Members(s, |p.ops|) == ToSet(order[..k])
    requires Reachable(LatticeOf(p, required), AllRealizations(p), ToSet(order[..k]))
    requires CanFinish(LatticeOf(p, required), AllRealizations(p), ToSet(order[..k]))
    ensures s in LiveStates(LatticeOf(p, required), AllRealizations(p))
  {
    assert LatticeOf(p, required).Count() == |p.ops|;
    assert Live(LatticeOf(p, required), AllRealizations(p), s);
  }

  /** Narrowed domains and live stamps keep every build. */
  lemma BuildsSurvive(p: Problem, required: seq<set<nat>>, active: Domains, live: seq<nat>, generation: nat)
    requires p.Valid() && p.L.FullRows(p.initial) == {} && AllBuildsObey(p, required)
    requires |required| == |p.ops| == |active| && Pow2(|p.ops|) <= |live|
    requires forall o: nat, k: nat :: o in UpTo(|p.ops|) ==>
               (k in active[o] <==> UsedSomewhere(LatticeOf(p, required), AllRealizations(p), o, k))
    requires forall s: nat :: s < Pow2(|p.ops|) ==>
               (live[s] == generation <==> s in LiveStates(LatticeOf(p, required), AllRealizations(p)))
    ensures DomainsKept(p, active, live, generation)
  {
    forall order, choice | IsBuild(p, order, choice)
      ensures forall k :: 0 <= k < |order| ==> order[k] < |active| && choice[k] in active[order[k]]
      ensures forall k, s: nat :: 0 <= k <= |order| && s < Pow2(|p.ops|) && Members(s, |p.ops|) == ToSet(order[..k]) ==>
                live[s] == generation
    {
      BuildIsLive(p, required, order, choice);
      forall k | 0 <= k < |order|
        ensures order[k] < |active| && choice[k] in active[order[k]]
      {
        assert order[k] in UpTo(|p.ops|);
      }
      forall k, s: nat | 0 <= k <= |order| && s < Pow2(|p.ops|) && Members(s, |p.ops|) == ToSet(order[..k])
        ensures live[s] == generation
      {
        StateOfBuildIsLive(p, required, order, k, s);
      }
    }
  }

  /** Replaces the required predecessors by those common to all active realizations and
      closes them again; after a successful propagation neither step can fail. */
  method TightenPredecessors(p: Problem, active: Domains, required: array<set<nat>>)
    requires p.Valid() && p.L.FullRows(p.initial) == {}
    requires required.Length == |p.ops| && AllBuildsObey(p, required[..])
    requires |active| == |p.ops| && forall o :: 0 <= o < |active| ==> active[o] != {}
    requires CanFinish(LatticeOf(p, required[..]), AllRealizations(p), {})
    requires forall o: nat, k: nat :: o in UpTo(|p.ops|) ==>
               (k in active[o] <==> UsedSomewhere(LatticeOf(p, required[..]), AllRealizations(p), o, k))
    modifies required
    ensures AllBuildsObey(p, required[..])
  {
    ghost var before := required[..];
    var lat := LatticeOf(p, required[..]);
    forall o, k | 0 <= o < |active| && k in active[o]
      ensures k < |p.ops[o].templates|
      ensures RealizationPredecessors(p, before, o, k).Some?
      ensures RealizationPredecessors(p, before, o, k).value <= UpTo(|p.ops|)
    {
      assert o in UpTo(|p.ops|);
      var placed :| LiveUse(lat, AllRealizations(p), placed, o, k);
      assert lat.uses(placed, o, k);
      assert Usable(p, before, placed, o, k);
    }
    var ok := CommonPredecessors(p, active, required);
    ghost var common := required[..];
    assert IsCommonOf(p, before, active, common);
    CommonPredecessorsAreObeyed(p, before, active, common);
    CommonPredecessorsHaveNoCycle(p, before, active, common);
    forall i, j | 0 <= i < |common| && j in common[i]
      ensures j < |common|
    {
      var k :| k in active[i];
      assert j in RealizationPredecessors(p, before, i, k).value;
    }
    ok := Closure.CloseRequiredPredecessors(required);
    assert ok;
    forall order, choice | IsBuild(p, order, choice)
      ensures ObeysAsSets(required[..], order)
    {
      assert ObeysAsSets(common, order);
      AsSetsMeansObeys(common, order);
      ClosureKeepsObedience(common, required[..], order);
    }
  }

  lemma AsSetsMeansObeys(r: Closure.Relation, order: seq<nat>)
    requires ObeysAsSets(r, order)
    ensures Closure.Obeys(r, order)
  {
    forall k | 0 <= k < |order|
      ensures order[k] < |r| && forall q :: q in r[order[k]] ==> q in order[..k]
    {
      forall q | q in r[order[k]]
        ensures q in order[..k]
      {
        InPrefix(order, k, q);
      }
    }
  }

  /** The verdict is exact. A feasible verdict carries an order in which every prefix
      really locks, grounded and without collision, on the board left by the line clears
      before it; an infeasible one means that no order of the operations can be built,
      with any choice of realizations; an unknown one is given exactly when a row is
      full from the start or a domain does not compile. Every build obeys the required
      predecessors that come with a feasible verdict. */
  method Analyze(p: Problem, ws: Workspace) returns (verdict: Verdict)
    requires p.Valid() && 0 < |p.ops| && ws.Valid()
    modifies ws, ws.visited, ws.reachable, ws.live
    ensures ws.Valid() && (ws.visited == old(ws.visited) || fresh(ws.visited))
    ensures ws.reachable == old(ws.reachable) || fresh(ws.reachable)
    ensures ws.live == old(ws.live) || fresh(ws.live)
    ensures verdict.Unknown? <==> !DomainsCompile(p) || p.L.FullRows(p.initial) != {}
    ensures verdict.Feasible? ==> Buildable(p, verdict.order)
    ensures verdict.Feasible? ==> |verdict.required| == |p.ops| && AllBuildsObey(p, verdict.required)
    ensures verdict.Infeasible? ==> forall order :: !Buildable(p, order)
  {
    var n := |p.ops|;
    if !DomainsCompile(p) {
      return Unknown;
    }
    var ok, contributors, clearable := CompileRowContributors(p);
    if !ok {
      return Unknown;
    }
    var required := new set<nat>[n];
    ok := CompileRequiredPredecessors(p, required);
    if !ok {
      InconsistentMeansNoBuild(p);
      NoBuildMeansInfeasible(p);
      return Infeasible;
    }
    CompiledPredecessorsAreObeyed(p, required[..]);
    verdict := Decide(p, Formula(contributors, clearable), required, clearable != {}, ws);
  }

  /** Narrows the domains when some row can be cleared at all, then searches. */
  method Decide(p: Problem, formula: Formula, required: array<set<nat>>, useLive: bool, ws: Workspace)
    returns (verdict: Verdict)
    requires formula.Describes(p)
    requires p.Valid() && 0 < |p.ops| && p.L.FullRows(p.initial) == {} && ws.Valid()
    requires required.Length == |p.ops| && AllBuildsObey(p, required[..])
    modifies required, ws, ws.visited, ws.reachable, ws.live
    ensures ws.Valid() && (ws.visited == old(ws.visited) || fresh(ws.visited))
    ensures ws.reachable == old(ws.reachable) || fresh(ws.reachable)
    ensures ws.live == old(ws.live) || fresh(ws.live)
    ensures verdict.Feasible? || verdict.Infeasible?
    ensures verdict.Feasible? ==> Buildable(p, verdict.order)
    ensures verdict.Feasible? ==> |verdict.required| == |p.ops| && AllBuildsObey(p, verdict.required)
    ensures verdict.Infeasible? ==> forall order :: !Buildable(p, order)
  {
    ws.EnsureCapacity(Pow2(|p.ops|));
    ws.AdvanceGeneration();
    var active := AllRealizations(p);
    if useLive {
      var supported, narrowed := RefineDomains(p, required, ws.reachable, ws.live, ws.generation);
      if !supported {
        NoBuildMeansInfeasible(p);
        return Infeasible;
      }
      active := narrowed;
    }
    var c := Search(p, formula, active, required[..], useLive, ws.live[..], ws.generation);
    SearchKeeps(c);
    verdict := RunSearch(c, ws);
  }

  lemma SearchKeeps(c: Search)
    requires c.Valid() && AllBuildsObey(c.p, c.required) && c.p.L.FullRows(c.p.initial) == {}
    requires c.useLive ==> Pow2(|c.p.ops|) <= |c.live| && DomainsKept(c.p, c.active, c.live, c.generation)
    requires !c.useLive ==> c.active == AllRealizations(c.p)
    ensures AllKept(c)
  {
    if c.useLive {
      LiveSearchKeeps(c);
    } else {
      PlainSearchKeeps(c);
    }
  }

  lemma LiveSearchKeeps(c: Search)
    requires c.Valid() && c.useLive && AllBuildsObey(c.p, c.required) && Pow2(|c.p.ops|) <= |c.live|
    requires DomainsKept(c.p, c.active, c.live, c.generation)
    ensures AllKept(c)
  {
    assert Unfold(0);
    forall order, choice | IsBuild(c.p, order, choice)
      ensures Keeps(c, order, choice)
    {
    }
  }

  lemma PlainSearchKeeps(c: Search)
    requires c.Valid() && !c.useLive && AllBuildsObey(c.p, c.required) && c.p.L.FullRows(c.p.initial) == {}
    requires c.active == AllRealizations(c.p)
    ensures AllKept(c)
  {
    forall order, choice | IsBuild(c.p, order, choice)
      ensures Keeps(c, order, choice)
    {
      PlayedChoicesExist(c.p, order, choice);
    }
  }

  lemma PlayedChoicesExist(p: Problem, order: seq<nat>, choice: seq<nat>)
    requires p.Valid() && p.L.FullRows(p.initial) == {} && IsBuild(p, order, choice)
    ensures forall k :: 0 <= k < |order| ==>
              order[k] < |p.ops| && choice[k] in AllRealizations(p)[order[k]]
  {
    forall k | 0 <= k < |order|
      ensures choice[k] in AllRealizations(p)[order[k]]
    {
      StepOfRun(p, order, choice, k);
    }
  }

  method RunSearch(c: Search, ws: Workspace) returns (verdict: Verdict)
    requires c.Valid() && 0 < |c.p.ops| && c.p.L.FullRows(c.p.initial) == {}
    requires AllKept(c)
    requires ws.Valid() && Pow2(|c.p.ops|) <= ws.visited.Length
    requires forall s :: 0 <= s < ws.visited.Length ==> ws.visited[s] != ws.generation
    modifies ws.visited
    ensures ws.Valid()
    ensures verdict.Feasible? || verdict.Infeasible?
    ensures verdict.Feasible? ==> Buildable(c.p, verdict.order) && verdict.required == c.required
    ensures verdict.Infeasible? ==> forall order :: !Buildable(c.p, order)
  {
    var sp := SpaceOf(c);
    var priority := CompilePriority(c.p);
    ghost var edge := EdgeOf(sp);
    var found, order := SearchFromStart(sp, edge, priority, ws.visited, ws.generation);
    if found {
      SearchEdgesReallyPlace(c, edge);
      PathIsBuildable(c.p, edge, order);
      return Feasible(order, c.required);
    }
    NoPathMeansNoBuild(c, edge);
    return Infeasible;
  }

  ghost function EdgeOf(sp: Space): (edge: Edge)
    ensures EdgesOf(sp, edge)
  {
    (s: nat, o: nat) => o < |sp.masks| && !HasBit(s, o) && sp.allowed(s, BoardAt(sp, s), o)
  }

  lemma PathIsBuildable(p: Problem, edge: Edge, order: seq<nat>)
    requires p.Valid() && p.L.FullRows(p.initial) == {} && |order| == |p.ops|
    requires AddsOne(edge, |p.ops|) && EdgesReallyPlace(p, edge) && EdgesFrom(edge, 0, order)
    ensures Buildable(p, order)
  {
    var choice := PathIsABuild(p, edge, order);
    PathIsASet(edge, |p.ops|, order);
    assert IsOrder(p, order);
  }

  lemma NoPathMeansNoBuild(c: Search, edge: Edge)
    requires c.Valid() && 0 < |c.p.ops| && EdgesOf(SpaceOf(c), edge) && c.p.L.FullRows(c.p.initial) == {}
    requires AllKept(c)
    requires !CanComplete(edge, 0, Pow2(|c.p.ops|) - 1)
    ensures forall order :: !Buildable(c.p, order)
  {
    assert Unfold(0);
    forall order, choice
      ensures !IsBuild(c.p, order, choice)
    {
      if IsBuild(c.p, order, choice) {
        BuildCompletes(c, edge, order, choice);
      }
    }
    NoBuildMeansInfeasible(c.p);
  }
}
