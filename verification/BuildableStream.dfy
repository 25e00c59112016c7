/** From a packed candidate to the answer whether it can be built: the feasibility analysis
    hands its required predecessors to the build-up search, which skips on them.
 */
module BuildableStream {
  import opened Options
  import opened Bits
  import opened Sets
  import opened Folding
  import opened Frame
  import opened BuildRun
  import opened BuildTree
  import opened Pruning
  import opened Variants
  import R = Realization
  import Structural
  import Feasibility
  import CompletionMemo
  import VariantSearch
  import DagSearch
  import CoverSearch

  // ------------------------------------------------------------------
  // The build-up problem of a candidate
  // ------------------------------------------------------------------

  /** What the piece supply offers: the piece of each operation and the hold branches. */
  datatype Supply<!H> = Supply(piece: nat -> nat, branches: (H, bool, nat) -> seq<H>)

  /** A realization as an operation of the build-up search, tied to one clear state. */
  function PlacementOf(t: R.Template, deleted: set<nat>): Operation {
    Operation(t.id, t.offsets, t.x, t.anchorY, deleted, t.canonical)
  }

  /** The realizations from the `k`-th on that lock in a clear state, in catalog order. */
  function PlacementsFrom(L: Layout, templates: seq<R.Template>, deleted: set<nat>, k: nat): (ops: seq<Operation>)
    requires L.Valid() && k <= |templates|
    ensures forall v :: v in ops ==> exists j :: IsPlacement(L, templates, deleted, j, v)
    ensures ops == [] <==> forall j :: k <= j < |templates| ==> R.Instantiate(L, templates[j], deleted).None?
    decreases |templates| - k
  {
    if k == |templates| then []
    else
      var rest := PlacementsFrom(L, templates, deleted, k + 1);
      if R.Instantiate(L, templates[k], deleted).None? then rest
      else
        assert IsPlacement(L, templates, deleted, k, PlacementOf(templates[k], deleted));
        [PlacementOf(templates[k], deleted)] + rest
  }

  predicate IsPlacement(L: Layout, templates: seq<R.Template>, deleted: set<nat>, k: int, v: Operation) {
    && L.Valid() && 0 <= k < |templates|
    && R.Instantiate(L, templates[k], deleted).Some? && v == PlacementOf(templates[k], deleted)
  }

  function PlacementsOf(p: R.Problem, deleted: set<nat>, o: nat): seq<Operation> {
    if p.L.Valid() && o < |p.ops| then PlacementsFrom(p.L, p.ops[o].templates, deleted, 0) else []
  }

  /** No two realizations share a number. */
  ghost predicate Numbered(templates: seq<R.Template>) {
    forall i, j :: 0 <= i < j < |templates| ==> templates[i].id != templates[j].id
  }

  /** The first `k` realizations have been looked at and led to `variants`. */
  ghost predicate Listed(
    L: Layout, templates: seq<R.Template>, deleted: set<nat>, k: nat, variants: seq<Operation>)
    requires L.Valid()
  {
    k <= |templates| && forall u: nat {:trigger Unfold(u)} :: Unfold(u) ==>
      && variants + PlacementsFrom(L, templates, deleted, k) == PlacementsFrom(L, templates, deleted, 0)
      && (forall v :: v in variants ==> exists j :: 0 <= j < k && templates[j].id == v.id)
  }

  lemma NothingListed(L: Layout, templates: seq<R.Template>, deleted: set<nat>)
    requires L.Valid()
    ensures Listed(L, templates, deleted, 0, [])
  {
    var all := PlacementsFrom(L, templates, deleted, 0);
    assert [] + all == all;
  }

  lemma AllListed(L: Layout, templates: seq<R.Template>, deleted: set<nat>, variants: seq<Operation>)
    requires L.Valid() && Listed(L, templates, deleted, |templates|, variants)
    ensures variants == PlacementsFrom(L, templates, deleted, 0)
  {
    assert Unfold(0);
    assert variants + [] == variants;
  }

  /** The next realization is new, so listing it or leaving it out keeps to the catalog. */
  lemma OneMoreListed(
      L: Layout, templates: seq<R.Template>, deleted: set<nat>, k: nat, variants: seq<Operation>)
    requires L.Valid() && Numbered(templates) && k < |templates| && Listed(L, templates, deleted, k, variants)
    ensures PlacementOf(templates[k], deleted) !in variants
    ensures R.Instantiate(L, templates[k], deleted).None? ==> Listed(L, templates, deleted, k + 1, variants)
    ensures R.Instantiate(L, templates[k], deleted).Some? ==>
              Listed(L, templates, deleted, k + 1, variants + [PlacementOf(templates[k], deleted)])
  {
    assert Unfold(0);
    var candidate, rest := PlacementOf(templates[k], deleted), PlacementsFrom(L, templates, deleted, k + 1);
    assert (variants + [candidate]) + rest == variants + ([candidate] + rest);
    assert templates[k].id == candidate.id;
  }

  /** Lists the placements of one operation. The catalog numbers its realizations, so the
      test for duplicates never drops one. */
  method RealizationsForClearState(L: Layout, templates: seq<R.Template>, deleted: set<nat>)
    returns (variants: seq<Operation>)
    requires L.Valid() && Numbered(templates)
    ensures variants == PlacementsFrom(L, templates, deleted, 0)
  {
    variants := [];
    NothingListed(L, templates, deleted);
    for k := 0 to |templates|
      invariant Listed(L, templates, deleted, k, variants)
    {
      OneMoreListed(L, templates, deleted, k, variants);
      if R.Instantiate(L, templates[k], deleted).Some? {
        var candidate := PlacementOf(templates[k], deleted);
        if candidate !in variants {
          variants := variants + [candidate];
        }
      }
    }
    AllListed(L, templates, deleted, variants);
  }

  /** The build-up search over the operations of a candidate, all hold branches kept. */
  function SearchProblem<H>(
    p: R.Problem, reach: Reachability, supply: Supply<H>, order: seq<nat>, required: seq<set<nat>>)
    : BuildTree.Problem<BuildState, H>
  {
    BuildTree.Problem(
      order,
      supply.piece,
      (o: nat) => if o < |required| then required[o] else {},
      (st: BuildState, o: nat) => PlacementsOf(p, st.deletedRows, o) != [],
      (st: BuildState, o: nat) =>
        if p.L.Valid() && p.L.Fits(st.board) then Results(p.L, reach, st, PlacementsOf(p, st.deletedRows, o)) else [],
      (st: BuildState) => st.board == {},
      supply.branches,
      true)
  }

  ghost function PlacementsIn(p: R.Problem): Placements {
    (st: BuildState, o: nat) => PlacementsOf(p, st.deletedRows, o)
  }

  lemma SearchPlaces<H>(
      p: R.Problem, reach: Reachability, supply: Supply<H>, order: seq<nat>, required: seq<set<nat>>)
    requires p.L.Valid()
    ensures Places(SearchProblem(p, reach, supply, order, required), p.L, reach, PlacementsIn(p))
  {
  }

  // ------------------------------------------------------------------
  // Every accepting path is a build of the feasibility problem
  // ------------------------------------------------------------------

  /** A realization that stands on something and hits nothing locks. */
  lemma PlaceSucceeds(p: R.Problem, placed: set<nat>, pos: R.Position, o: nat, k: nat)
    requires p.Valid() && o < |p.ops| && k < |p.ops[o].templates|
    requires pos.deleted == p.L.FullRows(R.Target(p, placed))
    requires pos.board == Compress(R.Target(p, placed), pos.deleted)
    requires R.Instantiate(p.L, p.ops[o].templates[k], pos.deleted).Some?
    requires pos.board !! Compress(p.ops[o].mask, pos.deleted)
    requires Grounded(pos.board, Compress(p.ops[o].mask, pos.deleted))
    ensures R.Place(p.L, pos, p.ops[o].templates[k]).Some?
  {
    R.TargetFits(p, placed);
    R.InstantiateIsCompression(p.L, p.ops[o].templates[k], pos.deleted);
    PlacementKeepsFramesInStep(p.L, R.Target(p, placed), p.ops[o].mask);
  }

  lemma StepMeans(L: Layout, reach: Reachability, st: BuildState, op: Operation)
    requires L.Valid() && L.Fits(st.board) && BuildRun.Step(L, reach, st, op).Ok?
    ensures st.board !! Compress(op.mask, st.deletedRows) && Grounded(st.board, Compress(op.mask, st.deletedRows))
  {
  }

  /** A step of the build-up search is a placement of the feasibility problem. */
  lemma StepIsPlacement(p: R.Problem, reach: Reachability, placed: set<nat>, st: BuildState, o: nat, k: nat)
    requires p.Valid() && o < |p.ops| && k < |p.ops[o].templates|
    requires Tracks(p.L, R.Target(p, placed), st) && p.L.Fits(st.board)
    requires R.Instantiate(p.L, p.ops[o].templates[k], st.deletedRows).Some?
    requires BuildRun.Step(p.L, reach, st, PlacementOf(p.ops[o].templates[k], st.deletedRows)).Ok?
    ensures var next := BuildRun.Step(p.L, reach, st, PlacementOf(p.ops[o].templates[k], st.deletedRows)).state;
            && Tracks(p.L, R.Target(p, placed + {o}), next)
            && R.Place(p.L, R.Position(st.board, st.deletedRows), p.ops[o].templates[k])
               == Some(R.Position(next.board, next.deletedRows))
  {
    var op := PlacementOf(p.ops[o].templates[k], st.deletedRows);
    var pos := R.Position(st.board, st.deletedRows);
    StepTracks(p.L, reach, R.Target(p, placed), st, op);
    R.TargetGrows(p, placed, o);
    StepMeans(p.L, reach, st, op);
    PlaceSucceeds(p, placed, pos, o, k);
    Structural.PlaceTracksTarget(p, placed, pos, o, k);
  }

  function OpsOf<G>(path: seq<Move<G>>): (ops: seq<nat>)
    ensures |ops| == |path|
  {
    seq(|path|, i requires 0 <= i < |path| => path[i].op)
  }

  lemma OpsOfRest<G>(order: seq<nat>, path: seq<Move<G>>)
    requires path != []
    ensures order + OpsOf(path) == order + [path[0].op] + OpsOf(path[1..])
  {
  }

  /** What has been placed so far, as a build and as a state of the search. */
  ghost predicate Stands(p: R.Problem, order: seq<nat>, choice: seq<nat>, st: BuildState, remaining: set<nat>)
    requires p.L.Valid()
  {
    forall u: nat {:trigger Unfold(u)} :: Unfold(u) ==>
      && |choice| == |order| && Structural.InRange(p, order)
      && ToSet(order) !! remaining && ToSet(order) + remaining == UpTo(|p.ops|)
      && Tracks(p.L, R.Target(p, ToSet(order)), st)
      && R.Played(p, order, choice) == Some(R.Position(st.board, st.deletedRows))
  }

  /** A move locks one of the operation's realizations. */
  lemma MoveIsRealization<H>(
      p: R.Problem, reach: Reachability, P: BuildTree.Problem<BuildState, H>, st: BuildState, remaining: set<nat>,
      move: Move<BuildState>)
    returns (k: nat)
    requires p.Valid() && Places(P, p.L, reach, PlacementsIn(p)) && IsMove(P, st, remaining, move)
    ensures move.op in remaining && move.op < |p.ops| && k < |p.ops[move.op].templates| && p.L.Fits(st.board)
    ensures R.Instantiate(p.L, p.ops[move.op].templates[k], st.deletedRows).Some?
    ensures BuildRun.Step(p.L, reach, st, PlacementOf(p.ops[move.op].templates[k], st.deletedRows)) == Ok(move.next)
  {
    var v := MoveIsPlacement(P, p.L, reach, PlacementsIn(p), st, move.op, move.next);
    var j :| IsPlacement(p.L, p.ops[move.op].templates, st.deletedRows, j, v);
    k := j;
  }

  lemma StepStands(
      p: R.Problem, reach: Reachability, order: seq<nat>, choice: seq<nat>, st: BuildState, remaining: set<nat>,
      o: nat, k: nat, next: BuildState)
    requires p.Valid() && Stands(p, order, choice, st, remaining) && o in remaining
    requires o < |p.ops| && k < |p.ops[o].templates| && p.L.Fits(st.board)
    requires R.Instantiate(p.L, p.ops[o].templates[k], st.deletedRows).Some?
    requires BuildRun.Step(p.L, reach, st, PlacementOf(p.ops[o].templates[k], st.deletedRows)) == Ok(next)
    ensures Stands(p, order + [o], choice + [k], next, remaining - {o})
  {
    OpenStands(p, order, choice, st, remaining);
    StepIsPlacement(p, reach, ToSet(order), st, o, k);
    Extended(p, order, choice, o, k);
    OneFewer(ToSet(order), remaining, UpTo(|p.ops|), o);
    CloseStands(p, order + [o], choice + [k], next, remaining - {o});
  }

  lemma OpenStands(p: R.Problem, order: seq<nat>, choice: seq<nat>, st: BuildState, remaining: set<nat>)
    requires p.L.Valid() && Stands(p, order, choice, st, remaining)
    ensures |choice| == |order| && Structural.InRange(p, order)
    ensures ToSet(order) !! remaining && ToSet(order) + remaining == UpTo(|p.ops|)
    ensures Tracks(p.L, R.Target(p, ToSet(order)), st)
    ensures R.Played(p, order, choice) == Some(R.Position(st.board, st.deletedRows))
  {
    assert Unfold(0);
  }

  lemma CloseStands(p: R.Problem, order: seq<nat>, choice: seq<nat>, st: BuildState, remaining: set<nat>)
    requires p.L.Valid() && |choice| == |order| && Structural.InRange(p, order)
    requires ToSet(order) !! remaining && ToSet(order) + remaining == UpTo(|p.ops|)
    requires Tracks(p.L, R.Target(p, ToSet(order)), st)
    requires R.Played(p, order, choice) == Some(R.Position(st.board, st.deletedRows))
    ensures Stands(p, order, choice, st, remaining)
  {
  }

  lemma OneFewer(placed: set<nat>, remaining: set<nat>, all: set<nat>, o: nat)
    requires placed !! remaining && placed + remaining == all && o in remaining
    ensures placed + {o} !! remaining - {o} && (placed + {o}) + (remaining - {o}) == all
  {
  }

  lemma Extended(p: R.Problem, order: seq<nat>, choice: seq<nat>, o: nat, k: nat)
    requires p.L.Valid() && |choice| == |order| && Structural.InRange(p, order)
    requires o < |p.ops| && o !in ToSet(order) && k < |p.ops[o].templates|
    ensures Structural.InRange(p, order + [o]) && ToSet(order + [o]) == ToSet(order) + {o}
    ensures R.Played(p, order, choice).Some? ==>
              R.Played(p, order + [o], choice + [k]) ==
              R.Place(p.L, R.Played(p, order, choice).value, p.ops[o].templates[k])
  {
    OrderExtended(p, order, o);
    PlayedExtended(p, order, choice, o, k);
  }

  lemma OrderExtended(p: R.Problem, order: seq<nat>, o: nat)
    requires Structural.InRange(p, order) && o < |p.ops| && o !in ToSet(order)
    ensures Structural.InRange(p, order + [o]) && ToSet(order + [o]) == ToSet(order) + {o}
  {
    var more := order + [o];
    ToSetSnoc(more);
    assert more[..|order|] == order;
    forall i, j | 0 <= i < j < |more|
      ensures more[i] != more[j]
    {
      assert order[i] in ToSet(order);
    }
  }

  lemma PlayedExtended(p: R.Problem, order: seq<nat>, choice: seq<nat>, o: nat, k: nat)
    requires p.L.Valid() && |choice| == |order| && o < |p.ops| && k < |p.ops[o].templates|
    ensures R.Played(p, order, choice).Some? ==>
              R.Played(p, order + [o], choice + [k]) ==
              R.Place(p.L, R.Played(p, order, choice).value, p.ops[o].templates[k])
  {
    var more, chosen := order + [o], choice + [k];
    assert more[..|more| - 1] == order && chosen[..|chosen| - 1] == choice;
    assert more[|more| - 1] == o && chosen[|chosen| - 1] == k;
  }

  lemma EndIsBuild(p: R.Problem, order: seq<nat>, choice: seq<nat>, st: BuildState)
    requires p.L.Valid() && Stands(p, order, choice, st, {})
    ensures Feasibility.IsBuild(p, order, choice)
  {
    assert Unfold(0);
    DistinctSize(order);
    UpToSize(|p.ops|);
  }

  /** An accepting path of the search, continued from a build, is a build. */
  lemma {:induction false} PathIsBuild<H>(
      p: R.Problem, reach: Reachability, P: BuildTree.Problem<BuildState, H>, order: seq<nat>, choice: seq<nat>,
      st: BuildState, remaining: set<nat>, path: seq<Move<BuildState>>)
    returns (all: seq<nat>)
    requires p.Valid() && Places(P, p.L, reach, PlacementsIn(p))
    requires Stands(p, order, choice, st, remaining) && IsPath(P, st, remaining, path)
    ensures Feasibility.IsBuild(p, order + OpsOf(path), all)
    decreases |path|
  {
    if path == [] {
      assert order + OpsOf(path) == order;
      EndIsBuild(p, order, choice, st);
      all := choice;
    } else {
      var k := MoveIsRealization(p, reach, P, st, remaining, path[0]);
      StepStands(p, reach, order, choice, st, remaining, path[0].op, k, path[0].next);
      OpsOfRest(order, path);
      all := PathIsBuild(
        p, reach, P, order + [path[0].op], choice + [k], path[0].next, remaining - {path[0].op}, path[1..]);
    }
  }

  lemma StartStands(p: R.Problem)
    requires p.Valid() && p.L.FullRows(p.initial) == {}
    ensures Stands(p, [], [], InitialState(p.initial), UpTo(|p.ops|))
  {
    R.TargetOfNothing(p);
    assert ToSet([]) == {};
    InitialTracks(p.L, p.initial);
  }

  // ------------------------------------------------------------------
  // The pruner is sound
  // ------------------------------------------------------------------

  lemma {:induction false} OrderInTurn<G, H>(
      P: BuildTree.Problem<G, H>, n: nat, required: seq<set<nat>>, order: seq<nat>, remaining: set<nat>,
      path: seq<Move<G>>)
    requires ToSet(P.order) == UpTo(n) && forall o: nat :: o < |required| ==> P.predecessors(o) <= required[o]
    requires ToSet(order) !! remaining && ToSet(order) <= UpTo(n)
    requires Structural.ObeysAsSets(required, order + OpsOf(path)) && InUse(remaining, path)
    requires forall i: nat :: i < |path| ==> path[i].op < n
    ensures Obeys(P, remaining, path)
    decreases |path|
  {
    if path != [] {
      var o := path[0].op;
      var whole := order + OpsOf(path);
      var k := |order|;
      assert whole[k] == o && whole[..k] == order;
      forall q | q in P.predecessors(o)
        ensures q in P.order && q !in remaining
      {
        assert q in ToSet(order);
        assert q in ToSet(P.order);
      }
      assert order + [o] + OpsOf(path[1..]) == whole;
      ToSetSnoc(order + [o]);
      assert (order + [o])[..k] == order;
      OrderInTurn(P, n, required, order + [o], remaining - {o}, path[1..]);
    }
  }

  /** Each operation of the path is still remaining when its turn comes. */
  ghost predicate InUse<G>(remaining: set<nat>, path: seq<Move<G>>)
    decreases |path|
  {
    path != [] ==> path[0].op in remaining && InUse(remaining - {path[0].op}, path[1..])
  }

  lemma {:induction false} PathInUse<G, H>(
      P: BuildTree.Problem<G, H>, g: G, remaining: set<nat>, path: seq<Move<G>>)
    requires IsPath(P, g, remaining, path)
    ensures InUse(remaining, path) && forall i: nat :: i < |path| ==> path[i].op in remaining
    decreases |path|
  {
    if path != [] {
      PathInUse(P, path[0].next, remaining - {path[0].op}, path[1..]);
      forall i: nat | i < |path|
        ensures path[i].op in remaining
      {
        if i > 0 {
          assert path[i] == path[1..][i - 1];
        }
      }
    }
  }

  lemma BuildPathObeys<H>(
      p: R.Problem, reach: Reachability, P: BuildTree.Problem<BuildState, H>, required: seq<set<nat>>,
      path: seq<Move<BuildState>>)
    requires p.Valid() && p.L.FullRows(p.initial) == {} && Feasibility.AllBuildsObey(p, required)
    requires Places(P, p.L, reach, PlacementsIn(p)) && ToSet(P.order) == UpTo(|p.ops|)
    requires forall o: nat :: o < |required| ==> P.predecessors(o) <= required[o]
    requires IsPath(P, InitialState(p.initial), UpTo(|p.ops|), path)
    ensures Obeys(P, UpTo(|p.ops|), path)
  {
    var st, all := InitialState(p.initial), UpTo(|p.ops|);
    StartStands(p);
    var choice := PathIsBuild(p, reach, P, [], [], st, all, path);
    PathInUse(P, st, all, path);
    OrderInTurn(P, |p.ops|, required, [], all, path);
  }

  /** Predecessors that all builds obey never make the build-up search skip a build. */
  lemma ObeyedPredecessorsAreSafe<H>(
      p: R.Problem, reach: Reachability, supply: Supply<H>, order: seq<nat>, required: seq<set<nat>>)
    requires p.Valid() && p.L.FullRows(p.initial) == {} && ToSet(order) == UpTo(|p.ops|)
    requires |required| == |p.ops| && Feasibility.AllBuildsObey(p, required)
    ensures Safe(SearchProblem(p, reach, supply, order, required), InitialState(p.initial), UpTo(|p.ops|))
  {
    var P := SearchProblem(p, reach, supply, order, required);
    SearchPlaces(p, reach, supply, order, required);
    forall path | IsPath(P, InitialState(p.initial), UpTo(|p.ops|), path)
      ensures Obeys(P, UpTo(|p.ops|), path)
    {
      BuildPathObeys(p, reach, P, required, path);
    }
    SafeExactlyWhenPathsObey(P, InitialState(p.initial), UpTo(|p.ops|));
  }

  lemma {:induction false} VariantHasPath<G, H>(
      P: BuildTree.Problem<G, H>, g: G, h: H, remaining: set<nat>, path: Variant<G, H>)
    returns (moves: seq<Move<G>>)
    requires IsVariant(P, g, h, remaining, path)
    ensures IsPath(P, g, remaining, moves)
    decreases |path|
  {
    moves := [];
    if path != [] {
      var rest := VariantHasPath(P, path[0].next, path[0].hold, remaining - {path[0].op}, path[1..]);
      moves := [Move(path[0].op, path[0].next)] + rest;
      assert moves[1..] == rest;
    }
  }

  /** A candidate without a build has no variant under any supply. */
  lemma InfeasibleHasNoVariant<H>(
      p: R.Problem, reach: Reachability, supply: Supply<H>, order: seq<nat>, required: seq<set<nat>>, h: H,
      path: Variant<BuildState, H>)
    requires p.Valid() && p.L.FullRows(p.initial) == {}
    requires forall o :: !R.Buildable(p, o)
    ensures !IsVariant(
              SearchProblem(p, reach, supply, order, required), InitialState(p.initial), h, UpTo(|p.ops|), path)
  {
    var P := SearchProblem(p, reach, supply, order, required);
    var st, all := InitialState(p.initial), UpTo(|p.ops|);
    if IsVariant(P, st, h, all, path) {
      SearchPlaces(p, reach, supply, order, required);
      StartStands(p);
      var moves := VariantHasPath(P, st, h, all, path);
      var choice := PathIsBuild(p, reach, P, [], [], st, all, moves);
      assert R.Buildable(p, [] + OpsOf(moves));
    }
  }

  // ------------------------------------------------------------------
  // One candidate of the stream
  // ------------------------------------------------------------------

  /** Some sequence of placements, each with an available piece, builds the candidate. */
  ghost predicate CanBeBuilt<H(!new)>(p: R.Problem, reach: Reachability, supply: Supply<H>, h: H) {
    exists path ::
      IsVariant(
        SearchProblem(p, reach, supply, IndexOrder(|p.ops|), []), InitialState(p.initial), h, UpTo(|p.ops|), path)
  }

  function IndexOrder(n: nat): (order: seq<nat>)
    ensures ToSet(order) == UpTo(n)
  {
    var order := seq(n, i requires 0 <= i < n => i);
    assert forall i :: i in UpTo(n) ==> order[i] == i;
    order
  }

  /** Variants do not depend on preference or on required predecessors. */
  lemma {:induction false} OrderIsIrrelevant<H>(
      p: R.Problem, reach: Reachability, supply: Supply<H>, order: seq<nat>, required: seq<set<nat>>,
      st: BuildState, h: H, remaining: set<nat>, path: Variant<BuildState, H>)
    requires ToSet(order) == UpTo(|p.ops|)
    ensures IsVariant(SearchProblem(p, reach, supply, order, required), st, h, remaining, path) <==>
            IsVariant(SearchProblem(p, reach, supply, IndexOrder(|p.ops|), []), st, h, remaining, path)
    decreases |path|
  {
    if path != [] {
      var o := path[0].op;
      assert o in order <==> o in ToSet(order);
      assert o in IndexOrder(|p.ops|) <==> o in ToSet(IndexOrder(|p.ops|));
      OrderIsIrrelevant(
        p, reach, supply, order, required, path[0].next, path[0].hold, remaining - {o}, path[1..]);
    }
  }

  lemma OrderHasAll(p: R.Problem, order: seq<nat>)
    requires R.IsOrder(p, order)
    ensures ToSet(order) == UpTo(|p.ops|) && forall i, j :: 0 <= i < j < |order| ==> order[i] != order[j]
  {
    R.IsOrderCovers(p, order);
  }

  /** Searches for one variant in the given order, skipping on the given predecessors. A
      piece window of the wrong size or a supply that breaks its pattern ends it at once. */
  method Exists<H(==, !new)>(
      p: R.Problem, reach: Reachability, supply: Supply<H>, order: seq<nat>, required: seq<set<nat>>, h: H,
      window: CoverSearch.PieceWindow, pattern: bool,
      memo: CompletionMemo.Memo<VariantSearch.MemoKey<BuildState, H>>)
    returns (found: bool)
    requires p.Valid() && memo.Valid() && memo.contents == map[]
    requires ToSet(order) == UpTo(|p.ops|) && forall i, j :: 0 <= i < j < |order| ==> order[i] != order[j]
    requires Safe(SearchProblem(p, reach, supply, order, required), InitialState(p.initial), UpTo(|p.ops|))
    modifies memo, memo.keys, memo.values, memo.stamps
    ensures found <==> |p.ops| != 0 && window.Allows(|p.ops|) && pattern && CanBeBuilt(p, reach, supply, h)
  {
    if |p.ops| == 0 || !window.Allows(|p.ops|) || !pattern {
      return false;
    }
    var P := SearchProblem(p, reach, supply, order, required);
    var st := InitialState(p.initial);
    var count, variants := DagSearch.RunDirect(P, st, h, true, 0, memo);
    ghost var all := UpTo(|p.ops|);
    forall path
      ensures path in Completions(Unpruned(P), st, h, all) <==>
              IsVariant(SearchProblem(p, reach, supply, IndexOrder(|p.ops|), []), st, h, all, path)
    {
      AllVariantsAreMet(P, st, h, all, path);
      OrderIsIrrelevant(p, reach, supply, order, required, st, h, all, path);
    }
    found := count > 0;
    if found {
      assert Completions(Unpruned(P), st, h, all)[0] in Completions(Unpruned(P), st, h, all);
    }
  }

  /** Whether a candidate is accepted: the analysis may drop it, and otherwise its order and
      required predecessors steer the existence search. The answer is exact: neither the
      verdict nor the skipping loses a candidate that can be built, whether or not an
      infeasible verdict is authorised to drop. `pattern` tells whether the supply keeps to
      its pattern. */
  method ConsumePath<H(==, !new)>(
      p: R.Problem, reach: Reachability, supply: Supply<H>, h: H, window: CoverSearch.PieceWindow, pattern: bool,
      ws: Feasibility.Workspace, authorised: bool,
      memo: CompletionMemo.Memo<VariantSearch.MemoKey<BuildState, H>>)
    returns (accepted: bool)
    requires p.Valid() && 0 < |p.ops| && ws.Valid() && memo.Valid() && memo.contents == map[]
    requires {ws, ws.visited, ws.reachable, ws.live} !! {memo, memo.keys, memo.values, memo.stamps}
    modifies ws, ws.visited, ws.reachable, ws.live, memo, memo.keys, memo.values, memo.stamps
    ensures ws.Valid()
    ensures accepted <==> window.Allows(|p.ops|) && pattern && CanBeBuilt(p, reach, supply, h)
  {
    var verdict := Feasibility.Analyze(p, ws);
    if verdict.Infeasible? && authorised {
      NothingToBuild(p, reach, supply, h);
      return false;
    }
    var order, required := Steer(p, reach, supply, verdict);
    accepted := Exists(p, reach, supply, order, required, h, window, pattern, memo);
  }

  /** The order and the predecessors that a verdict hands to the search: its own when it is
      feasible, index order and none otherwise. */
  method Steer<H(==, !new)>(
      p: R.Problem, ghost reach: Reachability, ghost supply: Supply<H>, verdict: Feasibility.Verdict)
    returns (order: seq<nat>, required: seq<set<nat>>)
    requires p.Valid()
    requires verdict.Feasible? ==> p.L.FullRows(p.initial) == {} && R.Buildable(p, verdict.order)
    requires verdict.Feasible? ==> |verdict.required| == |p.ops| && Feasibility.AllBuildsObey(p, verdict.required)
    ensures ToSet(order) == UpTo(|p.ops|) && forall i, j :: 0 <= i < j < |order| ==> order[i] != order[j]
    ensures Safe(SearchProblem(p, reach, supply, order, required), InitialState(p.initial), UpTo(|p.ops|))
  {
    if verdict.Feasible? {
      order, required := verdict.order, verdict.required;
      OrderHasAll(p, order);
      ObeyedPredecessorsAreSafe(p, reach, supply, order, required);
    } else {
      order, required := IndexOrder(|p.ops|), [];
      UnconstrainedIsSafe(
        SearchProblem(p, reach, supply, order, required), InitialState(p.initial), UpTo(|p.ops|));
    }
  }

  lemma NothingToBuild<H(!new)>(p: R.Problem, reach: Reachability, supply: Supply<H>, h: H)
    requires p.Valid() && p.L.FullRows(p.initial) == {} && forall o :: !R.Buildable(p, o)
    ensures !CanBeBuilt(p, reach, supply, h)
  {
    forall path
      ensures !IsVariant(
                SearchProblem(p, reach, supply, IndexOrder(|p.ops|), []), InitialState(p.initial), h,
                UpTo(|p.ops|), path)
    {
      InfeasibleHasNoVariant(p, reach, supply, IndexOrder(|p.ops|), [], h, path);
    }
  }
}
