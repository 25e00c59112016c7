/** Unions collected in a binary counter of levels, as long chains of families are merged
    in balanced pairs. An empty family marks a free level. */
module Accumulator {
  import opened Bits
  import opened Folding

  type Family = set<set<nat>>

  const LEVELS: nat := 32

  ghost predicate InSome(levels: seq<Family>, S: set<nat>) {
    exists i :: 0 <= i < |levels| && S in levels[i]
  }

  /** The levels in use are the one-bits of the number of families added so far. */
  ghost predicate Counts(levels: seq<Family>, added: nat) {
    forall i :: 0 <= i < |levels| ==> (levels[i] != {} <==> HasBit(added, i))
  }

  /** The low `level` bits are ones. */
  ghost predicate LowOnes(k: nat, level: nat) {
    forall i :: 0 <= i < level ==> HasBit(k, i)
  }

  lemma {:induction false} LowOnesIsLarge(k: nat, level: nat)
    requires LowOnes(k, level)
    ensures Pow2(level) - 1 <= k
  {
    if level != 0 {
      assert HasBit(k, 0);
      forall i | 0 <= i < level - 1
        ensures HasBit(k / 2, i)
      {
        assert HasBit(k, i + 1);
      }
      LowOnesIsLarge(k / 2, level - 1);
    }
  }

  /** Carrying: the first zero bit becomes one and the ones below it become zero. */
  lemma {:induction false} Increment(k: nat, level: nat, i: nat)
    requires LowOnes(k, level) && !HasBit(k, level)
    ensures HasBit(k + 1, i) <==> (if i < level then false else if i == level then true else HasBit(k, i))
  {
    if level == 0 {
      assert k % 2 == 0 && (k + 1) / 2 == k / 2;
    } else {
      assert HasBit(k, 0);
      assert k % 2 == 1 && (k + 1) / 2 == k / 2 + 1;
      forall j | 0 <= j < level - 1
        ensures HasBit(k / 2, j)
      {
        assert HasBit(k, j + 1);
      }
      if i != 0 {
        Increment(k / 2, level - 1, i - 1);
      }
    }
  }

  /** Adds one non-empty family. The counter has room for 2^32 - 1 of them, so the code's
      overflow exit is never taken within that bound. */
  method AddFamily(levels: array<Family>, family: Family, ghost added: nat)
    requires levels.Length == LEVELS && family != {}
    requires Counts(levels[..], added) && added + 1 < Pow2(LEVELS)
    modifies levels
    ensures Counts(levels[..], added + 1)
    ensures forall S :: InSome(levels[..], S) <==> InSome(old(levels[..]), S) || S in family
  {
    ghost var before := levels[..];
    var branch := family;
    var level := 0;
    while level < LEVELS && levels[level] != {}
      invariant 0 <= level <= LEVELS
      invariant branch != {}
      invariant LowOnes(added, level)
      invariant forall i :: 0 <= i < level ==> levels[i] == {}
      invariant forall i :: level <= i < LEVELS ==> levels[i] == before[i]
      invariant Carries(branch, family, before, level)
    {
      CarryOne(branch, family, before, level);
      branch := levels[level] + branch;
      levels[level] := {};
      level := level + 1;
    }
    RoomLeft(before, added, level);
    levels[level] := branch;
    CarryCounts(levels[..], before, added, level);
    CarryUnites(levels[..], before, level, family, branch);
  }

  lemma RoomLeft(before: seq<Family>, added: nat, level: nat)
    requires level <= |before| == LEVELS && LowOnes(added, level) && added + 1 < Pow2(LEVELS)
    ensures level < LEVELS
  {
    if level == LEVELS {
      LowOnesIsLarge(added, LEVELS);
    }
  }

  /** What is carried: the new family and the levels below. */
  ghost predicate Carries(branch: Family, family: Family, before: seq<Family>, level: nat) {
    level <= |before| && forall u: nat {:trigger Unfold(u)} :: Unfold(u) ==>
      forall S :: S in branch <==> S in family || (exists i :: 0 <= i < level && S in before[i])
  }

  lemma CarryOne(branch: Family, family: Family, before: seq<Family>, level: nat)
    requires Carries(branch, family, before, level) && level < |before|
    ensures Carries(before[level] + branch, family, before, level + 1)
  {
    assert Unfold(0);
    forall S
      ensures S in before[level] + branch <==> S in family || (exists i :: 0 <= i < level + 1 && S in before[i])
    {
      if i :| 0 <= i < level + 1 && S in before[i] {
        assert i < level || S in before[level];
      }
    }
  }

  lemma CarryCounts(after: seq<Family>, before: seq<Family>, added: nat, level: nat)
    requires |after| == |before| && level < |after| && LowOnes(added, level) && Counts(before, added) &&
              before[level] == {}
    requires after[level] != {} && forall i :: 0 <= i < level ==> after[i] == {}
    requires forall i :: level < i < |after| ==> after[i] == before[i]
    ensures Counts(after, added + 1)
  {
    forall i | 0 <= i < |after|
      ensures after[i] != {} <==> HasBit(added + 1, i)
    {
      Increment(added, level, i);
    }
  }

  lemma CarryUnites(after: seq<Family>, before: seq<Family>, level: nat, family: Family, branch: Family)
    requires |after| == |before| && level < |after| && before[level] == {} && after[level] == branch
    requires forall i :: 0 <= i < level ==> after[i] == {}
    requires forall i :: level < i < |after| ==> after[i] == before[i]
    requires Carries(branch, family, before, level)
    ensures forall S :: InSome(after, S) <==> InSome(before, S) || S in family
  {
    assert Unfold(0);
    forall S
      ensures InSome(after, S) <==> InSome(before, S) || S in family
    {
      if InSome(before, S) {
        var i :| 0 <= i < |before| && S in before[i];
        assert S in after[if i < level then level else i];
      }
      if S in family {
        assert S in after[level];
      }
      if InSome(after, S) {
        var i :| 0 <= i < |after| && S in after[i];
        assert i == level || (i > level && S in before[i]);
      }
    }
  }

  /** Merges the levels from the highest down. */
  method Finish(levels: array<Family>) returns (family: Family)
    requires levels.Length == LEVELS
    ensures forall S :: S in family <==> InSome(levels[..], S)
  {
    family := {};
    var level := LEVELS;
    while level != 0
      invariant 0 <= level <= LEVELS
      invariant forall S :: S in family <==> exists i :: level <= i < LEVELS && S in levels[i]
    {
      level := level - 1;
      ghost var merged := family;
      var branch := levels[level];
      if branch != {} {
        family := if family == {} then branch else family + branch;
      }
      assert forall S :: S in family <==> S in merged || S in levels[level];
    }
    forall S
      ensures S in family <==> InSome(levels[..], S)
    {
      if S in family {
        var i :| 0 <= i < LEVELS && S in levels[i];
        assert S in levels[..][i];
      }
    }
  }

  lemma EmptyCounts(levels: seq<Family>)
    requires forall i :: 0 <= i < |levels| ==> levels[i] == {}
    ensures Counts(levels, 0) && forall S :: !InSome(levels, S)
  {
    forall i | 0 <= i < |levels|
      ensures !HasBit(0, i)
    {
      ZeroHasNoBit(i);
    }
  }

  /** The levels hold what the first `limit` branches contribute. */
  ghost predicate Unites(levels: seq<Family>, from: (set<nat>, nat) -> bool, limit: nat) {
    forall S :: InSome(levels, S) <==> exists r: nat :: r < limit && from(S, r)
  }

  /** The levels count and hold what the first `limit` branches contribute; empty branches
      are not counted. */
  ghost predicate Collects(levels: seq<Family>, from: (set<nat>, nat) -> bool, limit: nat) {
    |levels| == LEVELS && forall u: nat {:trigger Unfold(u)} :: Unfold(u) ==>
      Unites(levels, from, limit) && exists added: nat :: added <= limit && Counts(levels, added)
  }

  lemma NothingCollected(levels: seq<Family>, from: (set<nat>, nat) -> bool)
    requires |levels| == LEVELS && forall i :: 0 <= i < |levels| ==> levels[i] == {}
    ensures Collects(levels, from, 0)
  {
    EmptyCounts(levels);
  }

  /** Adds the next branch, unless it is empty. */
  method AddBranch(levels: array<Family>, branch: Family, ghost from: (set<nat>, nat) -> bool, ghost index: nat)
    requires levels.Length == LEVELS && index + 1 < Pow2(LEVELS) && Collects(levels[..], from, index)
    requires forall S :: S in branch <==> from(S, index)
    modifies levels
    ensures Collects(levels[..], from, index + 1)
  {
    assert Unfold(0);
    ghost var before := levels[..];
    ghost var added: nat :| added <= index && Counts(levels[..], added);
    if branch != {} {
      AddFamily(levels, branch, added);
      added := added + 1;
    }
    UnitesMore(before, levels[..], from, index, branch);
    assert Counts(levels[..], added);
  }

  /** Everything that was collected. */
  method FinishBranches(levels: array<Family>, ghost from: (set<nat>, nat) -> bool, ghost limit: nat)
    returns (family: Family)
    requires levels.Length == LEVELS && Collects(levels[..], from, limit)
    ensures forall S :: S in family <==> exists r: nat :: r < limit && from(S, r)
  {
    assert Unfold(0);
    family := Finish(levels);
  }

  lemma UnitesMore(
      before: seq<Family>, after: seq<Family>, from: (set<nat>, nat) -> bool, index: nat, branch: Family)
    requires Unites(before, from, index) && forall S :: S in branch <==> from(S, index)
    requires forall S :: InSome(after, S) <==> InSome(before, S) || S in branch
    ensures Unites(after, from, index + 1)
  {
    forall S
      ensures InSome(after, S) <==> exists r: nat :: r < index + 1 && from(S, r)
    {
      if r: nat :| r < index + 1 && from(S, r) {
        assert r < index || S in branch;
      }
    }
  }

  lemma Capacity()
    ensures Pow2(LEVELS) == 0x1_0000_0000
  {
    assert Pow2(8) == 256;
    assert Pow2(16) == 65536;
    assert Pow2(24) == 16777216;
  }
}
