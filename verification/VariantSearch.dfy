/** The direct search over build orders, with its completion memo. */
module VariantSearch {
  import opened Bits
  import opened Folding
  import opened BuildTree
  import CompletionMemo

  type MemoKey<G, H> = (G, H, set<nat>)

  function Take<T>(items: seq<T>, limit: nat): seq<T> {
    if |items| <= limit then items else items[..limit]
  }

  /** The part of a list of variants that is counted: only the first one when the search
      stops after a success. */
  function Found<T>(stop: bool, paths: seq<T>): seq<T> {
    if stop && |paths| > 1 then paths[..1] else paths
  }

  /** Counters and retained variants after further variants have been met. */
  ghost predicate Advanced<T>(
    stop: bool, limit: nat, count0: nat, kept0: seq<T>, paths: seq<T>, count: nat, kept: seq<T>)
  {
    count == count0 + |Found(stop, paths)| && kept == Take(kept0 + Found(stop, paths), limit)
  }

  lemma AdvanceNone<T>(stop: bool, limit: nat, count: nat, kept: seq<T>)
    requires |kept| <= limit
    ensures Advanced(stop, limit, count, kept, [], count, kept)
  {
    assert kept + [] == kept;
  }

  lemma AdvanceTwice<T>(
      stop: bool, limit: nat, count0: nat, kept0: seq<T>, a: seq<T>, count1: nat, kept1: seq<T>, b: seq<T>,
      count2: nat, kept2: seq<T>)
    requires |kept0| <= limit && (stop ==> a == [])
    requires Advanced(stop, limit, count0, kept0, a, count1, kept1) &&
              Advanced(stop, limit, count1, kept1, b, count2, kept2)
    ensures Advanced(stop, limit, count0, kept0, a + b, count2, kept2)
  {
    assert Found(stop, a + b) == Found(stop, a) + Found(stop, b) by {
      if stop {
        assert a + b == b;
      }
    }
    var x, y := Found(stop, a), Found(stop, b);
    assert kept0 + (x + y) == (kept0 + x) + y;
    assert Take(Take(kept0 + x, limit) + y, limit) == Take((kept0 + x) + y, limit);
  }

  /** Stopping early loses nothing that would have been counted. */
  lemma AdvanceStopped<T>(limit: nat, count0: nat, kept0: seq<T>, a: seq<T>, b: seq<T>, count: nat, kept: seq<T>)
    requires Advanced(true, limit, count0, kept0, a, count, kept) && a != []
    ensures Advanced(true, limit, count0, kept0, a + b, count, kept)
  {
    assert Found(true, a + b) == Found(true, a);
  }

  ghost predicate MemoSound<G(!new), H(!new)>(P: Problem<G, H>, contents: map<MemoKey<G, H>, nat>) {
    forall key :: key in contents ==> contents[key] == |Completions(P, key.0, key.1, key.2)|
  }

  lemma NextOperation<G, H>(
      P: Problem<G, H>, g: G, h: H, remaining: set<nat>, i: nat, done: seq<Variant<G, H>>)
    requires i < |P.order|
    ensures done + OverOperations(P, g, h, remaining, i) ==
            done + OverOperation(P, g, h, remaining, P.order[i]) + OverOperations(P, g, h, remaining, i + 1)
  {
  }

  lemma NextBranch<G, H>(
      P: Problem<G, H>, remaining: set<nat>, op: nat, nexts: seq<G>, holds: seq<H>, b: nat, done: seq<Variant<G, H>>)
    requires op in remaining && b < |holds|
    ensures done + OverBranches(P, remaining, op, nexts, holds[b..]) ==
            done + OverMoves(P, remaining, op, nexts, holds[b]) + OverBranches(P, remaining, op, nexts, holds[b + 1..])
  {
    assert holds[b..][0] == holds[b] && holds[b..][1..] == holds[b + 1..];
  }

  lemma NextMove<G, H>(
      P: Problem<G, H>, remaining: set<nat>, op: nat, nexts: seq<G>, hold: H, k: nat, done: seq<Variant<G, H>>)
    requires op in remaining && k < |nexts|
    ensures done + OverMoves(P, remaining, op, nexts[k..], hold) ==
            done + Prepend(Step(op, nexts[k], hold), Completions(P, nexts[k], hold, remaining - {op})) +
            OverMoves(P, remaining, op, nexts[k + 1..], hold)
  {
    assert nexts[k..][0] == nexts[k] && nexts[k..][1..] == nexts[k + 1..];
  }

  class Search<G(==, !new), H(==, !new)> {
    const P: Problem<G, H>
    const stop: bool
    const limit: nat
    const memo: CompletionMemo.Memo<MemoKey<G, H>>
    var enumerated: nat
    var retained: seq<Variant<G, H>>

    /** A search over an empty memo, whatever its hash function and capacity. */
    constructor (P: Problem<G, H>, stop: bool, limit: nat, memo: CompletionMemo.Memo<MemoKey<G, H>>)
      requires P.Valid() && memo.Valid() && memo.contents == map[]
      ensures Valid() && enumerated == 0 && retained == []
      ensures this.P == P && this.stop == stop && this.limit == limit && this.memo == memo
    {
      this.P, this.stop, this.limit, this.memo := P, stop, limit, memo;
      enumerated, retained := 0, [];
    }

    ghost predicate Valid()
      reads this, memo, memo.keys, memo.values, memo.stamps
    {
      && P.Valid() && memo.Valid() && MemoSound(P, memo.contents)
      && |retained| <= limit
    }

    predicate CanShortcut()
      reads this
    {
      !stop && |retained| >= limit
    }

    ghost predicate Met(count0: nat, kept0: seq<Variant<G, H>>, trace: Variant<G, H>, paths: seq<Variant<G, H>>)
      reads this
    {
      MetBy(trace, paths, count0, kept0, enumerated, retained)
    }

    /** The variants met between two readings of the counters. */
    ghost predicate MetBy(
      trace: Variant<G, H>, paths: seq<Variant<G, H>>, count0: nat, kept0: seq<Variant<G, H>>, count: nat,
      kept: seq<Variant<G, H>>)
    {
      forall u: nat {:trigger Unfold(u)} :: Unfold(u) ==>
          Advanced(stop, limit, count0, kept0, After(trace, paths), count, kept)
    }

    method RecordSuccess(trace: Variant<G, H>)
      requires Valid()
      modifies this`enumerated, this`retained
      ensures Valid() && Met(old(enumerated), old(retained), trace, [[]])
    {
      assert trace + [] == trace;
      assert After(trace, [[]]) == [trace];
      enumerated := enumerated + 1;
      if |retained| < limit {
        retained := retained + [trace];
      } else {
        assert Take(retained + [trace], limit) == retained;
      }
    }

    /** Counts the completions of a state and retains the first of them. */
    method SearchOrder(g: G, h: H, remaining: set<nat>, trace: Variant<G, H>)
      requires Valid() && remaining <= ToSet(P.order) && (stop ==> enumerated == 0)
      modifies this`enumerated, this`retained, memo`count, memo`contents, memo.keys, memo.values, memo.stamps
      ensures Valid() && Met(old(enumerated), old(retained), trace, Completions(P, g, h, remaining))
      decreases |remaining|, 3
    {
      if remaining == {} {
        if P.empty(g) {
          RecordSuccess(trace);
        } else {
          AdvanceNone(stop, limit, enumerated, retained);
        }
        return;
      }
      var handled := Recall(g, h, remaining, trace);
      if handled {
        return;
      }
      var before := enumerated;
      ghost var kept := retained;
      SearchOperations(g, h, remaining, trace);
      Remember(g, h, remaining, trace, before, kept);
    }

    /** Answers from the memo: a state without completions is skipped, and once enough
        variants are retained a known count is simply added. The root is never looked up. */
    method Recall(g: G, h: H, remaining: set<nat>, trace: Variant<G, H>) returns (handled: bool)
      requires Valid() && (stop ==> enumerated == 0)
      modifies this`enumerated
      ensures Valid() && (!handled ==> enumerated == old(enumerated))
      ensures handled ==> Met(old(enumerated), retained, trace, Completions(P, g, h, remaining))
    {
      if trace == [] {
        return false;
      }
      var hit := memo.Lookup((g, h, remaining));
      if hit.Some? && hit.value == 0 {
        NothingMet(trace);
        return true;
      }
      if hit.Some? && CanShortcut() {
        enumerated := enumerated + hit.value;
        ghost var paths := After(trace, Completions(P, g, h, remaining));
        assert Take(retained + paths, limit) == retained;
        return true;
      }
      return false;
    }

    /** Files what a finished state has contributed, unless the search was cut short. */
    method Remember(g: G, h: H, remaining: set<nat>, trace: Variant<G, H>, before: nat, ghost kept: seq<Variant<G, H>>)
      requires Valid() && Met(before, kept, trace, Completions(P, g, h, remaining)) && (stop ==> before == 0)
      modifies memo`count, memo`contents, memo.keys, memo.values, memo.stamps
      ensures Valid()
    {
      if stop && enumerated > 0 {
        return;
      }
      if trace != [] && (enumerated == before || CanShortcut()) {
        CountIsExact(before, kept, trace, Completions(P, g, h, remaining));
        memo.Insert((g, h, remaining), enumerated - before);
      }
    }

    /** Tries the eligible operations in order of preference. */
    method SearchOperations(g: G, h: H, remaining: set<nat>, trace: Variant<G, H>)
      requires Valid() && remaining <= ToSet(P.order) && remaining != {} && (stop ==> enumerated == 0)
      modifies this`enumerated, this`retained, memo`count, memo`contents, memo.keys, memo.values, memo.stamps
      ensures Valid() && Met(old(enumerated), old(retained), trace, Completions(P, g, h, remaining))
      decreases |remaining|, 2
    {
      ghost var count0, kept0 := enumerated, retained;
      ghost var done: seq<Variant<G, H>> := [];
      NothingMet(trace);
      for i := 0 to |P.order|
        invariant Valid() && (stop ==> enumerated == 0)
        invariant Completions(P, g, h, remaining) == done + OverOperations(P, g, h, remaining, i)
        invariant Met(count0, kept0, trace, done) && (stop ==> done == [])
      {
        var stopped := SearchNext(g, h, remaining, P.order[i], trace, count0, kept0, done);
        NextOperation(P, g, h, remaining, i, done);
        done := done + OverOperation(P, g, h, remaining, P.order[i]);
        if stopped {
          Stopped(count0, kept0, trace, done, OverOperations(P, g, h, remaining, i + 1));
          return;
        }
      }
      assert done + [] == done;
    }

    /** One more operation, and what has been met after it. */
    method SearchNext(
        g: G, h: H, remaining: set<nat>, op: nat, trace: Variant<G, H>,
        ghost count0: nat, ghost kept0: seq<Variant<G, H>>, ghost done: seq<Variant<G, H>>)
      returns (stopped: bool)
      requires Valid() && remaining <= ToSet(P.order) && |kept0| <= limit
      requires Met(count0, kept0, trace, done) && (stop ==> enumerated == 0 && count0 == 0 && done == [])
      modifies this`enumerated, this`retained, memo`count, memo`contents, memo.keys, memo.values, memo.stamps
      ensures Valid() && Met(count0, kept0, trace, done + OverOperation(P, g, h, remaining, op))
      ensures stopped == (stop && enumerated > 0)
      ensures stop && !stopped ==> enumerated == 0 && done + OverOperation(P, g, h, remaining, op) == []
      decreases |remaining|, 1, 2
    {
      ghost var count1, kept1 := enumerated, retained;
      SearchOperation(g, h, remaining, op, trace);
      Continue(count0, kept0, trace, done, count1, kept1, OverOperation(P, g, h, remaining, op));
      stopped := stop && enumerated > 0;
    }

    method SearchOperation(g: G, h: H, remaining: set<nat>, op: nat, trace: Variant<G, H>)
      requires Valid() && remaining <= ToSet(P.order) && (stop ==> enumerated == 0)
      modifies this`enumerated, this`retained, memo`count, memo`contents, memo.keys, memo.values, memo.stamps
      ensures Valid() && Met(old(enumerated), old(retained), trace, OverOperation(P, g, h, remaining, op))
      decreases |remaining|, 1, 1
    {
      if P.Eligible(g, remaining, op) {
        SearchBranches(remaining, op, P.moves(g, op), P.HoldsFor(h, remaining, op), trace);
      } else {
        NothingMet(trace);
      }
    }

    method SearchBranches(remaining: set<nat>, op: nat, nexts: seq<G>, holds: seq<H>, trace: Variant<G, H>)
      requires Valid() && remaining <= ToSet(P.order) && op in remaining && (stop ==> enumerated == 0)
      modifies this`enumerated, this`retained, memo`count, memo`contents, memo.keys, memo.values, memo.stamps
      ensures Valid() && Met(old(enumerated), old(retained), trace, OverBranches(P, remaining, op, nexts, holds))
      decreases |remaining|, 1, 0
    {
      ghost var count0, kept0 := enumerated, retained;
      ghost var done: seq<Variant<G, H>> := [];
      NothingMet(trace);
      for b := 0 to |holds|
        invariant Valid() && (stop ==> enumerated == 0)
        invariant OverBranches(P, remaining, op, nexts, holds) == done +
                    OverBranches(P, remaining, op, nexts, holds[b..])
        invariant Met(count0, kept0, trace, done) && (stop ==> done == [])
      {
        ghost var count1, kept1 := enumerated, retained;
        ghost var found := OverMoves(P, remaining, op, nexts, holds[b]);
        NextBranch(P, remaining, op, nexts, holds, b, done);
        ghost var rest := OverBranches(P, remaining, op, nexts, holds[b + 1..]);
        SearchMoves(remaining, op, nexts, holds[b], trace);
        Continue(count0, kept0, trace, done, count1, kept1, found);
        done := done + found;
        if stop && enumerated > 0 {
          Stopped(count0, kept0, trace, done, rest);
          return;
        }
      }
      assert done + [] == done;
    }

    method SearchMoves(remaining: set<nat>, op: nat, nexts: seq<G>, hold: H, trace: Variant<G, H>)
      requires Valid() && remaining <= ToSet(P.order) && op in remaining && (stop ==> enumerated == 0)
      modifies this`enumerated, this`retained, memo`count, memo`contents, memo.keys, memo.values, memo.stamps
      ensures Valid() && Met(old(enumerated), old(retained), trace, OverMoves(P, remaining, op, nexts, hold))
      decreases |remaining|, 0
    {
      ghost var count0, kept0 := enumerated, retained;
      ghost var done: seq<Variant<G, H>> := [];
      NothingMet(trace);
      Shrinks(remaining, op);
      for k := 0 to |nexts|
        invariant Valid() && (stop ==> enumerated == 0)
        invariant OverMoves(P, remaining, op, nexts, hold) == done + OverMoves(P, remaining, op, nexts[k..], hold)
        invariant Met(count0, kept0, trace, done) && (stop ==> done == [])
      {
        ghost var count1, kept1 := enumerated, retained;
        var step := Step(op, nexts[k], hold);
        ghost var paths := Completions(P, nexts[k], hold, remaining - {op});
        ghost var found := Prepend(step, paths);
        NextMove(P, remaining, op, nexts, hold, k, done);
        ghost var rest := OverMoves(P, remaining, op, nexts[k + 1..], hold);
        SearchOrder(nexts[k], hold, remaining - {op}, trace + [step]);
        AfterPrepend(trace, step, paths);
        Continue(count0, kept0, trace, done, count1, kept1, found);
        done := done + found;
        if stop && enumerated > 0 {
          Stopped(count0, kept0, trace, done, rest);
          return;
        }
      }
      assert done + [] == done;
    }

    lemma NothingMet(trace: Variant<G, H>)
      requires |retained| <= limit
      ensures Met(enumerated, retained, trace, [])
    {
      AdvanceNone(stop, limit, enumerated, retained);
    }

    lemma CountIsExact(count0: nat, kept0: seq<Variant<G, H>>, trace: Variant<G, H>, paths: seq<Variant<G, H>>)
      requires Met(count0, kept0, trace, paths) && (!stop || enumerated == count0)
      ensures enumerated - count0 == |paths|
    {
      assert Unfold(0);
    }

    lemma Continue(
        count0: nat, kept0: seq<Variant<G, H>>, trace: Variant<G, H>, done: seq<Variant<G, H>>, count1: nat,
        kept1: seq<Variant<G, H>>, found: seq<Variant<G, H>>)
      requires |kept0| <= limit && (stop ==> done == [])
      requires MetBy(trace, done, count0, kept0, count1, kept1)
      requires Met(count1, kept1, trace, found)
      ensures Met(count0, kept0, trace, done + found)
      ensures stop && enumerated == count0 ==> done + found == []
    {
      assert Unfold(0);
      AfterConcat(trace, done, found);
      AdvanceTwice(stop, limit, count0, kept0, After(trace, done), count1, kept1, After(trace, found), enumerated,
          retained);
    }

    lemma Stopped(
        count0: nat, kept0: seq<Variant<G, H>>, trace: Variant<G, H>, done: seq<Variant<G, H>>,
        rest: seq<Variant<G, H>>)
      requires stop && count0 == 0 && enumerated > 0 && Met(count0, kept0, trace, done)
      ensures Met(count0, kept0, trace, done + rest)
    {
      assert Unfold(0);
      AfterConcat(trace, done, rest);
      AdvanceStopped(limit, count0, kept0, After(trace, done), After(trace, rest), enumerated, retained);
    }
  }
}
