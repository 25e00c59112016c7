/** The step of the build-up search behind its transition cache. */
module CachedStep {
  import opened Options
  import opened Folding
  import opened Frame
  import opened BuildRun
  import opened TransitionCache
  import R = Realization
  import BuildableStream
  import Variants

  /** What a step depends on: not how many pieces have been placed. */
  type Key = (BuildState, Operation)

  function KeyOf(st: BuildState, op: Operation): Key {
    (st.(placedPieces := 0), op)
  }

  function ReasonOf(r: StepResult): nat {
    match r
    case Ok(_) => 0
    case LineClearDependencyImpossible => 4
    case YAdjustmentImpossible => 5
    case NotGrounded => 6
    case ReachabilityImpossible => 7
  }

  /** What the cache keeps of a result. */
  function OutcomeOf(r: StepResult): Outcome<BuildState> {
    if r.Ok? then Outcome.Placed(r.state.(placedPieces := 0)) else Rejected(ReasonOf(r))
  }

  /** What a hit gives back, for a state with so many pieces placed. */
  function ResultOf(outcome: Outcome<BuildState>, placedPieces: nat): StepResult {
    match outcome
    case Placed(state) => Ok(state.(placedPieces := placedPieces + 1))
    case Rejected(reason) =>
      if reason == 4 then LineClearDependencyImpossible
      else if reason == 5 then YAdjustmentImpossible
      else if reason == 6 then NotGrounded
      else ReachabilityImpossible
  }

  /** Every insert was made with the result of the step for its key. */
  ghost predicate Truthful<T>(L: Layout, reach: Reachability, log: seq<Insertion<Key, BuildState, T>>)
    requires L.Valid()
  {
    forall i :: 0 <= i < |log| ==>
      L.Fits(log[i].key.0.board) && log[i].outcome == OutcomeOf(Step(L, reach, log[i].key.0, log[i].key.1))
  }

  /** What the step does after its filters. */
  function Lock(L: Layout, st: BuildState, mask: Board): Option<BuildState> {
    var clear := LineClearOf(L, st.board + mask);
    WithClearedLines(st.(board := clear.board), clear)
  }

  lemma StepIsLock(L: Layout, reach: Reachability, st: BuildState, op: Operation)
    requires L.Valid() && L.Fits(st.board) && Adjusted(L, st, op).Some?
    ensures var (mask, y) := Adjusted(L, st, op).value;
            Step(L, reach, st, op) ==
            if !(st.board !! mask) then LineClearDependencyImpossible
            else if !Grounded(st.board, mask) then NotGrounded
            else if !reach(st.board, op, y) then ReachabilityImpossible
            else if Lock(L, st, mask).None? then YAdjustmentImpossible
            else Ok(Lock(L, st, mask).value.(placedPieces := Lock(L, st, mask).value.placedPieces + 1))
  {
  }

  lemma LockIgnoresCount(L: Layout, st: BuildState, mask: Board)
    ensures var bare, full := Lock(L, st.(placedPieces := 0), mask), Lock(L, st, mask);
            && (bare.Some? <==> full.Some?)
            && (full.Some? ==>
                  bare.value == full.value.(placedPieces := 0) &&
                  full.value.placedPieces == st.placedPieces)
  {
    ClearIgnoresCount(st, LineClearOf(L, st.board + mask));
  }

  lemma ClearIgnoresCount(st: BuildState, clear: LineClear)
    ensures var bare := WithClearedLines(st.(board := clear.board, placedPieces := 0), clear);
            var full := WithClearedLines(st.(board := clear.board), clear);
            && (bare.Some? <==> full.Some?)
            && (full.Some? ==>
                  bare.value == full.value.(placedPieces := 0) &&
                  full.value.placedPieces == st.placedPieces)
  {
  }

  lemma AdjustIgnoresCount(L: Layout, st: BuildState, op: Operation)
    requires L.Valid()
    ensures Adjusted(L, st.(placedPieces := 0), op) == Adjusted(L, st, op)
  {
  }

  /** The step only counts the piece, so what is cached for one count serves all. */
  lemma StepIgnoresCount(L: Layout, reach: Reachability, st: BuildState, op: Operation)
    requires L.Valid() && L.Fits(st.board)
    ensures ResultOf(OutcomeOf(Step(L, reach, st.(placedPieces := 0), op)), st.placedPieces) == Step(L, reach, st, op)
    ensures OutcomeOf(Step(L, reach, st.(placedPieces := 0), op)) == OutcomeOf(Step(L, reach, st, op))
  {
    AdjustIgnoresCount(L, st, op);
    if Adjusted(L, st, op).Some? {
      StepIsLock(L, reach, st, op);
      StepIsLock(L, reach, st.(placedPieces := 0), op);
      LockIgnoresCount(L, st, Adjusted(L, st, op).value.0);
    }
  }

  /** A hit in a truthful cache is the result of the step. */
  lemma HitIsStep<T>(
      L: Layout, reach: Reachability, slot: Key -> nat, traced: Key -> bool,
      log: seq<Insertion<Key, BuildState, T>>, st: BuildState, op: Operation)
    requires L.Valid() && L.Fits(st.board) && Truthful(L, reach, log)
    requires Answer(slot, traced, log, KeyOf(st, op)).Some?
    ensures ResultOf(Answer(slot, traced, log, KeyOf(st, op)).value.outcome, st.placedPieces) == Step(L, reach, st, op)
  {
    AnswerIsFresh(slot, traced, log, KeyOf(st, op));
    StepIgnoresCount(L, reach, st, op);
  }

  /** The cached step is the step, whatever has been inserted and overwritten before; a
      failure of the line-clear bookkeeping is not kept. */
  method StepThroughCache<T(!new)>(
      cache: Cache<Key, BuildState, T>, L: Layout, reach: Reachability, st: BuildState, op: Operation,
      trace: T, roomy: bool)
    returns (r: StepResult)
    requires cache.Valid() && L.Valid() && L.Fits(st.board) && Truthful(L, reach, cache.log)
    requires forall y :: y in st.deletedRows ==> y < 16
    modifies cache, cache.keys, cache.outcomes, cache.epochs, cache.cold, cache.coldEpochs
    ensures cache.Valid() && Truthful(L, reach, cache.log)
    ensures r == Step(L, reach, st, op)
    ensures (cache.cold == old(cache.cold) && cache.coldEpochs == old(cache.coldEpochs)) ||
              (old(cache.cold) == null && fresh(cache.cold) && fresh(cache.coldEpochs))
  {
    var hit := cache.Lookup(KeyOf(st, op));
    if hit.Some? {
      HitIsStep(L, reach, cache.slot, cache.traced, cache.log, st, op);
      return ResultOf(hit.value.outcome, st.placedPieces);
    }
    r := TryOperation(L, reach, st, op);
    if r.YAdjustmentImpossible? && Adjusted(L, st, op).Some? {
      return;
    }
    StepIgnoresCount(L, reach, st, op);
    ghost var before := cache.log;
    ghost var stored := cache.Insert(KeyOf(st, op), Some(OutcomeOf(r)), trace, roomy);
    assert cache.log == before + [Insertion(KeyOf(st, op), OutcomeOf(r), trace, stored)];
  }

  /** The first `k` realizations have been tried and led to `states`. */
  ghost predicate Tried(
    L: Layout, reach: Reachability, st: BuildState, variants: seq<Operation>, k: nat, states: seq<BuildState>)
    requires L.Valid() && L.Fits(st.board)
  {
    k <= |variants| && forall u: nat {:trigger Unfold(u)} :: Unfold(u) ==>
      states + Variants.Results(L, reach, st, variants[k..]) == Variants.Results(L, reach, st, variants)
  }

  lemma NothingTried(L: Layout, reach: Reachability, st: BuildState, variants: seq<Operation>)
    requires L.Valid() && L.Fits(st.board)
    ensures Tried(L, reach, st, variants, 0, [])
  {
    assert variants[0..] == variants;
  }

  lemma OneMoreTried(
      L: Layout, reach: Reachability, st: BuildState, variants: seq<Operation>, k: nat, states: seq<BuildState>)
    requires L.Valid() && L.Fits(st.board) && k < |variants| && Tried(L, reach, st, variants, k, states)
    ensures var r := Step(L, reach, st, variants[k]);
            Tried(L, reach, st, variants, k + 1, if r.Ok? then states + [r.state] else states)
  {
    assert Unfold(0);
    var r, rest := Step(L, reach, st, variants[k]), Variants.Results(L, reach, st, variants[k + 1..]);
    assert variants[k..][1..] == variants[k + 1..];
    if r.Ok? {
      assert states + ([r.state] + rest) == (states + [r.state]) + rest;
    } else {
      assert [] + rest == rest;
    }
  }

  lemma AllTried(
      L: Layout, reach: Reachability, st: BuildState, variants: seq<Operation>, states: seq<BuildState>)
    requires L.Valid() && L.Fits(st.board) && Tried(L, reach, st, variants, |variants|, states)
    ensures states == Variants.Results(L, reach, st, variants)
  {
    assert Unfold(0);
    assert variants[|variants|..] == [];
  }

  /** Lists the realizations of an operation that lock in the clear state and tries each
      through the cache: these are the moves of the build-up search. */
  method MovesThroughCache<H, T(!new)>(
      cache: Cache<Key, BuildState, T>, p: R.Problem, reach: Reachability, ghost supply: BuildableStream.Supply<H>,
      ghost order: seq<nat>, ghost required: seq<set<nat>>, st: BuildState, o: nat, trace: T, roomy: bool)
    returns (states: seq<BuildState>)
    requires cache.Valid() && p.L.Valid() && p.L.Fits(st.board) && Truthful(p.L, reach, cache.log)
    requires forall y :: y in st.deletedRows ==> y < 16
    requires o < |p.ops| && BuildableStream.Numbered(p.ops[o].templates)
    modifies cache, cache.keys, cache.outcomes, cache.epochs, cache.cold, cache.coldEpochs
    ensures cache.Valid() && Truthful(p.L, reach, cache.log)
    ensures states == BuildableStream.SearchProblem(p, reach, supply, order, required).moves(st, o)
  {
    var variants := BuildableStream.RealizationsForClearState(p.L, p.ops[o].templates, st.deletedRows);
    states := [];
    NothingTried(p.L, reach, st, variants);
    for k := 0 to |variants|
      invariant cache.Valid() && Truthful(p.L, reach, cache.log)
      invariant (cache.cold == old(cache.cold) && cache.coldEpochs == old(cache.coldEpochs)) ||
                  (fresh(cache.cold) && fresh(cache.coldEpochs))
      invariant Tried(p.L, reach, st, variants, k, states)
    {
      var r := StepThroughCache(cache, p.L, reach, st, variants[k], trace, roomy);
      OneMoreTried(p.L, reach, st, variants, k, states);
      if r.Ok? {
        states := states + [r.state];
      }
    }
    AllTried(p.L, reach, st, variants, states);
  }
}
