/** The buildable stream over a concrete queue with hold: which pieces an accepted candidate
    uses, and where they come from. */
module QueueStream {
  import opened Bits
  import opened Folding
  import opened BuildTree
  import opened Variants
  import opened HoldQueue
  import opened Pruning
  import opened Sets
  import R = Realization
  import BuildRun
  import BuildableStream
  import CompletionMemo
  import CoverSearch
  import DagSearch
  import Feasibility
  import VariantSearch

  function StatesOf(branches: seq<Branch>): seq<Hold> {
    seq(|branches|, k requires 0 <= k < |branches| => branches[k].state)
  }

  /** The hold automaton over a queue, as the supply of the build-up search. */
  function QueueSupply(c: Config, piece: nat -> nat): BuildableStream.Supply<Hold> {
    BuildableStream.Supply(piece, (s: Hold, last: bool, wanted: nat) => StatesOf(Ways(c, s, last, wanted)))
  }

  /** Before anything is drawn: nothing held, and the zero key. */
  const START: Hold := Hold(0, 0, true, 0, 0, false)

  lemma StartIsUsable(queue: seq<nat>)
    ensures UsableBag(queue, START)
  {
  }

  function HoldsOf<G>(path: Variant<G, Hold>): (holds: seq<Hold>)
    ensures |holds| == |path|
  {
    if path == [] then [] else [path[0].hold] + HoldsOf(path[1..])
  }

  function PiecesOf<G>(piece: nat -> nat, path: Variant<G, Hold>): (pieces: seq<nat>)
    ensures |pieces| == |path|
  {
    if path == [] then [] else [piece(path[0].op)] + PiecesOf(piece, path[1..])
  }

  lemma HoldIsStep(c: Config, s: Hold, last: bool, wanted: nat, next: Hold)
    requires next in StatesOf(Ways(c, s, last, wanted))
    ensures IsStep(c, s, next, wanted)
  {
    var states := StatesOf(Ways(c, s, last, wanted));
    var k :| 0 <= k < |states| && states[k] == next;
    assert Ways(c, s, last, wanted)[k].state == next;
  }

  lemma RunGrows(c: Config, s: Hold, piece: nat, states: seq<Hold>, pieces: seq<nat>)
    requires IsRun(c, states, pieces) && IsStep(c, s, states[0], piece)
    ensures IsRun(c, [s] + states, [piece] + pieces)
  {
    var more, played := [s] + states, [piece] + pieces;
    forall i | 0 <= i < |played|
      ensures IsStep(c, more[i], more[i + 1], played[i])
    {
      if i > 0 {
        assert IsStep(c, states[i - 1], states[i - 1 + 1], pieces[i - 1]);
      }
    }
  }

  /** The search takes its hold branches from the queue and keeps all of them. */
  ghost predicate DrawsFrom<G>(P: Problem<G, Hold>, c: Config) {
    P.preserve && forall u: nat {:trigger Unfold(u)} :: Unfold(u) ==>
      forall s, last, wanted: nat :: P.branches(s, last, wanted) == StatesOf(Ways(c, s, last, wanted))
  }

  lemma FirstIsStep<G>(
      c: Config, P: Problem<G, Hold>, g: G, h: Hold, remaining: set<nat>, path: Variant<G, Hold>)
    requires DrawsFrom(P, c) && path != [] && IsVariant(P, g, h, remaining, path)
    ensures IsStep(c, h, path[0].hold, P.piece(path[0].op))
  {
    assert Unfold(0);
    HoldIsStep(c, h, |remaining| == 1, P.piece(path[0].op), path[0].hold);
  }

  /** The hold states of a variant are a run of the hold automaton that plays its pieces. */
  lemma {:induction false} VariantIsRun<G>(
      c: Config, P: Problem<G, Hold>, g: G, h: Hold, remaining: set<nat>, path: Variant<G, Hold>)
    requires DrawsFrom(P, c) && IsVariant(P, g, h, remaining, path)
    ensures IsRun(c, [h] + HoldsOf(path), PiecesOf(P.piece, path))
    decreases |path|
  {
    if path != [] {
      var step, rest := path[0], path[1..];
      VariantIsRun(c, P, step.next, step.hold, remaining - {step.op}, rest);
      FirstIsStep(c, P, g, h, remaining, path);
      RunGrows(c, h, P.piece(step.op), [step.hold] + HoldsOf(rest), PiecesOf(P.piece, rest));
    }
  }

  /** What is played, with what is held in the end, is exactly what has been drawn, and the
      bag bookkeeping is exact from the first draw on. */
  ghost predicate UsesQueue<G>(c: Config, piece: nat -> nat, path: Variant<G, Hold>) {
    var end := ([START] + HoldsOf(path))[|path|];
    && Conserves(c.queue, START, end, multiset(PiecesOf(piece, path)))
    && (end.cursor != 0 ==> ExactBag(c.queue, end))
  }

  /** Every variant that is built from a queue takes its pieces from it. */
  lemma VariantUsesQueue(
      p: R.Problem, reach: BuildRun.Reachability, c: Config, piece: nat -> nat, order: seq<nat>,
      required: seq<set<nat>>, path: Variant<BuildRun.BuildState, Hold>)
    requires IsQueue(c.queue)
    requires IsVariant(
               BuildableStream.SearchProblem(p, reach, QueueSupply(c, piece), order, required),
               BuildRun.InitialState(p.initial), START, UpTo(|p.ops|), path)
    ensures UsesQueue(c, piece, path)
  {
    var P := BuildableStream.SearchProblem(p, reach, QueueSupply(c, piece), order, required);
    VariantIsRun(c, P, BuildRun.InitialState(p.initial), START, UpTo(|p.ops|), path);
    var states, pieces := [START] + HoldsOf(path), PiecesOf(piece, path);
    RunsConservePieces(c, states, pieces);
    StartIsUsable(c.queue);
    RunsKeepTheBag(c, states, pieces, |path|);
  }

  /** Counts the variants that build a candidate from a queue: all of them, each taking its
      pieces from the queue. */
  method CountFromQueue(
      p: R.Problem, reach: BuildRun.Reachability, piece: nat -> nat, c: Config, order: seq<nat>,
      required: seq<set<nat>>, limit: nat,
      memo: CompletionMemo.Memo<VariantSearch.MemoKey<BuildRun.BuildState, Hold>>)
    returns (count: nat, variants: seq<Variant<BuildRun.BuildState, Hold>>,
             ghost all: seq<Variant<BuildRun.BuildState, Hold>>)
    requires p.Valid() && IsQueue(c.queue) && memo.Valid() && memo.contents == map[]
    requires ToSet(order) == UpTo(|p.ops|) && forall i, j :: 0 <= i < j < |order| ==> order[i] != order[j]
    requires Safe(
               BuildableStream.SearchProblem(p, reach, QueueSupply(c, piece), order, required),
               BuildRun.InitialState(p.initial), UpTo(|p.ops|))
    modifies memo, memo.keys, memo.values, memo.stamps
    ensures count == |all| && variants == VariantSearch.Take(all, limit)
    ensures forall path :: path in all <==>
              IsVariant(
                BuildableStream.SearchProblem(p, reach, QueueSupply(c, piece), order, required),
                BuildRun.InitialState(p.initial), START, UpTo(|p.ops|), path)
    ensures forall path :: path in all ==> UsesQueue(c, piece, path)
  {
    var P := BuildableStream.SearchProblem(p, reach, QueueSupply(c, piece), order, required);
    var st := BuildRun.InitialState(p.initial);
    count, variants := DagSearch.RunDirect(P, st, START, false, limit, memo);
    all := Completions(Unpruned(P), st, START, UpTo(|p.ops|));
    forall path
      ensures path in all <==> IsVariant(P, st, START, UpTo(|p.ops|), path)
      ensures path in all ==> UsesQueue(c, piece, path)
    {
      AllVariantsAreMet(P, st, START, UpTo(|p.ops|), path);
      if path in all {
        VariantUsesQueue(p, reach, c, piece, order, required, path);
      }
    }
  }

  /** Whether a candidate is accepted from a queue: the piece window admits its size, a queue
      drawn from bags keeps to them, and some order of placements with hold builds it. */
  method ConsumeFromQueue(
      p: R.Problem, reach: BuildRun.Reachability, piece: nat -> nat, c: Config, bagged: bool,
      window: CoverSearch.PieceWindow, ws: Feasibility.Workspace, authorised: bool,
      memo: CompletionMemo.Memo<VariantSearch.MemoKey<BuildRun.BuildState, Hold>>)
    returns (accepted: bool)
    requires p.Valid() && 0 < |p.ops| && ws.Valid() && memo.Valid() && memo.contents == map[]
    requires {ws, ws.visited, ws.reachable, ws.live} !! {memo, memo.keys, memo.values, memo.stamps}
    modifies ws, ws.visited, ws.reachable, ws.live, memo, memo.keys, memo.values, memo.stamps
    ensures ws.Valid()
    ensures accepted <==>
              && window.Allows(|p.ops|)
              && (bagged ==> c.queue != [] && FollowsBags(c.queue, |c.queue|))
              && BuildableStream.CanBeBuilt(p, reach, QueueSupply(c, piece), START)
  {
    var pattern := true;
    if bagged {
      pattern := VerifyBagPattern(c.queue);
    }
    accepted :=
      BuildableStream.ConsumePath(p, reach, QueueSupply(c, piece), START, window, pattern, ws, authorised, memo);
  }
}
