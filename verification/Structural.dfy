/** The structural side of a candidate: which operations must come before a realization,
    and why no buildable order is ever excluded by that.
 */
module Structural {
  import opened Options
  import opened Frame
  import opened Bits
  import opened Realization
  import opened Propagation
  import Closure

  function ContributorsOfRows(p: Problem, rows: set<nat>): set<nat> {
    set row, o | row in rows && o in Contributors(p, row) :: o
  }

  /** What must be placed before a realization: the operation's own predecessors and the
      contributors of every row it needs gone. */
  function RealizationPredecessors(p: Problem, required: seq<set<nat>>, o: nat, k: nat): Option<set<nat>>
    requires o < |p.ops| && o < |required| && k < |p.ops[o].templates|
  {
    var rows := p.ops[o].templates[k].minDeleted;
    if !(rows <= ClearableRows(p)) then None
    else
      var predecessors := required[o] + ContributorsOfRows(p, rows);
      if o in predecessors then None else Some(predecessors)
  }

  predicate Usable(p: Problem, required: seq<set<nat>>, placed: set<nat>, o: nat, k: nat) {
    && p.L.Valid()
    && o < |p.ops| && o < |required| && k < |p.ops[o].templates|
    && var predecessors := RealizationPredecessors(p, required, o, k);
    && predecessors.Some?
    && predecessors.value <= placed
    && Instantiate(p.L, p.ops[o].templates[k], DeletedRows(p, placed)).Some?
  }

  function LatticeOf(p: Problem, required: seq<set<nat>>): Lattice {
    Lattice(
      seq(|p.ops|, o requires 0 <= o < |p.ops| => |p.ops[o].templates|),
      required,
      (placed: set<nat>, o: nat, k: nat) => Usable(p, required, placed, o, k))
  }

  lemma LatticeIsValid(p: Problem, required: seq<set<nat>>)
    requires |required| == |p.ops|
    ensures LatticeOf(p, required).Valid()
  {
  }

  function AllRealizations(p: Problem): Domains {
    seq(|p.ops|, o requires 0 <= o < |p.ops| => UpTo(|p.ops[o].templates|))
  }

  // ------------------------------------------------------------------
  // Required predecessors
  // ------------------------------------------------------------------

  /** The rows that every realization of the skeleton needs gone. */
  function CommonMinimum(templates: seq<Template>): (rows: set<nat>)
    requires templates != []
    ensures forall k :: 0 <= k < |templates| ==> rows <= templates[k].minDeleted
  {
    if |templates| == 1 then templates[0].minDeleted
    else CommonMinimum(templates[..|templates| - 1]) * templates[|templates| - 1].minDeleted
  }

  ghost predicate HasRealizations(p: Problem) {
    forall o :: 0 <= o < |p.ops| ==> p.ops[o].templates != []
  }

  function BaseRequired(p: Problem, o: nat): set<nat>
    requires o < |p.ops| && p.ops[o].templates != []
  {
    ContributorsOfRows(p, CommonMinimum(p.ops[o].templates))
  }

  /** Every operation needs only rows that get cleared, and none that it fills itself. */
  ghost predicate BaseConsistent(p: Problem)
    requires HasRealizations(p)
  {
    forall o :: 0 <= o < |p.ops| ==>
      CommonMinimum(p.ops[o].templates) <= ClearableRows(p) && o !in BaseRequired(p, o)
  }

  ghost function BaseRelation(p: Problem): Closure.Relation
    requires HasRealizations(p)
  {
    seq(|p.ops|, o requires 0 <= o < |p.ops| => BaseRequired(p, o))
  }

  method CompileRequiredPredecessors(p: Problem, required: array<set<nat>>) returns (ok: bool)
    requires HasRealizations(p) && required.Length == |p.ops|
    modifies required
    ensures ok <==> BaseConsistent(p) && !Closure.HasCycle(BaseRelation(p))
    ensures ok ==> forall o, q: nat :: 0 <= o < |p.ops| ==>
              (q in required[o] <==> Closure.Reaches(BaseRelation(p), o, q))
  {
    for operation := 0 to |p.ops|
      invariant forall o :: 0 <= o < operation ==>
                  && CommonMinimum(p.ops[o].templates) <= ClearableRows(p)
                  && o !in BaseRequired(p, o)
                  && required[o] == BaseRequired(p, o)
    {
      var rows := CommonMinimum(p.ops[operation].templates);
      if !(rows <= ClearableRows(p)) {
        return false;
      }
      var predecessors := {};
      var remaining := rows;
      while remaining != {}
        invariant remaining <= rows
        invariant predecessors == ContributorsOfRows(p, rows - remaining)
        decreases remaining
      {
        var row :| row in remaining;
        assert rows - (remaining - {row}) == rows - remaining + {row};
        predecessors := predecessors + Contributors(p, row);
        remaining := remaining - {row};
      }
      assert rows - remaining == rows;
      if operation in predecessors {
        return false;
      }
      required[operation] := predecessors;
    }
    assert required[..] == BaseRelation(p);
    ok := Closure.CloseRequiredPredecessors(required);
  }

  /** Every operation has an active realization, and none needs rows that are never cleared
      or waits for itself. */
  ghost predicate DomainsConsistent(p: Problem, required: seq<set<nat>>, active: Domains)
    requires |active| == |p.ops| == |required|
    requires forall o, k :: 0 <= o < |active| && k in active[o] ==> k < |p.ops[o].templates|
  {
    && (forall o :: 0 <= o < |active| ==> active[o] != {})
    && (forall o, k :: 0 <= o < |active| && k in active[o] ==> RealizationPredecessors(p, required, o, k).Some?)
  }

  /** The predecessors shared by all active realizations, written over the array they are
      read from; refused exactly for an empty or inconsistent domain. */
  method CommonPredecessors(p: Problem, active: Domains, required: array<set<nat>>) returns (ok: bool)
    requires |active| == |p.ops| == required.Length
    requires forall o, k :: 0 <= o < |active| && k in active[o] ==> k < |p.ops[o].templates|
    modifies required
    ensures ok <==> DomainsConsistent(p, old(required[..]), active)
    ensures ok ==> forall o, q: nat :: 0 <= o < |active| ==>
              (q in required[o] <==>
                 forall k :: k in active[o] ==> q in RealizationPredecessors(p, old(required[..]), o, k).value)
  {
    ghost var before := required[..];
    for operation := 0 to |active|
      invariant forall o :: operation <= o < |active| ==> required[o] == before[o]
      invariant forall o :: 0 <= o < operation ==> active[o] != {} && Listed(p, before, active, o)
      invariant forall o :: 0 <= o < operation ==> IsCommon(p, before, active, o, required[o])
    {
      var found := false;
      var common: set<nat> := {};
      var snapshot := required[..];
      for k := 0 to |p.ops[operation].templates|
        invariant found <==> exists j :: j in active[operation] && j < k
        invariant forall j :: j in active[operation] && j < k ==>
                    RealizationPredecessors(p, before, operation, j).Some?
        invariant found ==> forall q: nat :: q in common <==>
                    forall j :: j in active[operation] && j < k ==>
                      q in RealizationPredecessors(p, before, operation, j).value
      {
        if k in active[operation] {
          assert RealizationPredecessors(p, snapshot, operation, k) == RealizationPredecessors(p, before, operation, k);
          var predecessors := RealizationPredecessors(p, snapshot, operation, k);
          if predecessors.None? {
            return false;
          }
          common := if found then common * predecessors.value else predecessors.value;
          found := true;
        }
      }
      if !found {
        assert active[operation] == {};
        return false;
      }
      required[operation] := common;
    }
    assert forall o, k :: 0 <= o < |active| && k in active[o] ==> Listed(p, before, active, o);
    ok := true;
  }

  ghost predicate Listed(p: Problem, before: seq<set<nat>>, active: Domains, o: nat)
    requires |active| == |p.ops| == |before| && o < |active|
    requires forall o, k :: 0 <= o < |active| && k in active[o] ==> k < |p.ops[o].templates|
  {
    forall k :: k in active[o] ==> RealizationPredecessors(p, before, o, k).Some?
  }

  ghost predicate IsCommon(p: Problem, before: seq<set<nat>>, active: Domains, o: nat, common: set<nat>)
    requires |active| == |p.ops| == |before| && o < |active|
    requires forall o, k :: 0 <= o < |active| && k in active[o] ==> k < |p.ops[o].templates|
    requires Listed(p, before, active, o)
  {
    forall q: nat :: q in common <==>
      forall k :: k in active[o] ==> q in RealizationPredecessors(p, before, o, k).value
  }

  // ------------------------------------------------------------------
  // What a buildable order looks like
  // ------------------------------------------------------------------

  ghost predicate InRange(p: Problem, order: seq<nat>) {
    && (forall k :: 0 <= k < |order| ==> order[k] < |p.ops|)
    && (forall i, j :: 0 <= i < j < |order| ==> order[i] != order[j])
  }

  /** The position after a sequence of real placements is determined by the set placed:
      the board shows that set's target board with exactly its full rows deleted. */
  lemma {:induction false} PlayedTracksTarget(p: Problem, order: seq<nat>, choice: seq<nat>)
    requires p.Valid() && p.L.FullRows(p.initial) == {}
    requires InRange(p, order) && Played(p, order, choice).Some?
    ensures var T := Target(p, ToSet(order));
            var pos := Played(p, order, choice).value;
            pos.deleted == p.L.FullRows(T) && pos.board == Compress(T, pos.deleted)
    ensures order != [] ==>
              Target(p, ToSet(order[..|order| - 1])) !! p.ops[order[|order| - 1]].mask
    decreases |order|
  {
    if order == [] {
      assert ToSet(order) == {};
      TargetOfNothing(p);
      CompressNothing(p.initial);
    } else {
      var k := |order| - 1;
      PlayedTracksTarget(p, order[..k], choice[..k]);
      PlaceTracksTarget(p, ToSet(order[..k]), Played(p, order[..k], choice[..k]).value, order[k], choice[k]);
      ToSetSnoc(order);
    }
  }

  lemma PlaceTracksTarget(p: Problem, placed: set<nat>, pos: Position, o: nat, k: nat)
    requires p.Valid() && o < |p.ops| && k < |p.ops[o].templates|
    requires pos.deleted == p.L.FullRows(Target(p, placed))
    requires pos.board == Compress(Target(p, placed), pos.deleted)
    requires Place(p.L, pos, p.ops[o].templates[k]).Some?
    ensures Target(p, placed) !! p.ops[o].mask
    ensures var next := Place(p.L, pos, p.ops[o].templates[k]).value;
            var T := Target(p, placed + {o});
            next.deleted == p.L.FullRows(T) && next.board == Compress(T, next.deleted)
  {
    var T := Target(p, placed);
    var t := p.ops[o].templates[k];
    TargetFits(p, placed);
    InstantiateIsCompression(p.L, t, pos.deleted);
    CompressDisjoint(T, p.ops[o].mask, pos.deleted);
    PlacementKeepsFramesInStep(p.L, T, p.ops[o].mask);
    TargetGrows(p, placed, o);
  }

  lemma {:induction false} PrefixPlays(p: Problem, order: seq<nat>, choice: seq<nat>, k: nat)
    requires p.L.Valid() && Played(p, order, choice).Some? && |choice| == |order| && k <= |order|
    ensures Played(p, order[..k], choice[..k]).Some?
    decreases |order|
  {
    if k == |order| {
      assert order[..k] == order && choice[..k] == choice;
    } else {
      var m := |order| - 1;
      PrefixPlays(p, order[..m], choice[..m], k);
      assert order[..m][..k] == order[..k] && choice[..m][..k] == choice[..k];
    }
  }

  /** One real placement inside a run: what it was, and from where. */
  lemma StepOfRun(p: Problem, order: seq<nat>, choice: seq<nat>, k: nat)
    requires p.Valid() && p.L.FullRows(p.initial) == {}
    requires InRange(p, order) && Played(p, order, choice).Some? && |choice| == |order| && k < |order|
    ensures choice[k] < |p.ops[order[k]].templates|
    ensures var placed := ToSet(order[..k]);
            var T := Target(p, placed);
            var pos := Position(Compress(T, p.L.FullRows(T)), p.L.FullRows(T));
            && Played(p, order[..k], choice[..k]) == Some(pos)
            && Place(p.L, pos, p.ops[order[k]].templates[choice[k]]).Some?
            && T !! p.ops[order[k]].mask
  {
    PrefixIsPlaced(p, order, choice, k);
    PrefixIsInRange(p, order, k);
    PlayedTracksTarget(p, order[..k], choice[..k]);
  }

  lemma PrefixIsInRange(p: Problem, order: seq<nat>, k: nat)
    requires InRange(p, order) && k <= |order|
    ensures InRange(p, order[..k])
  {
  }

  /** The step at `k` was made from where the run stood, onto free cells. */
  ghost predicate PlacedAt(p: Problem, order: seq<nat>, choice: seq<nat>, k: nat)
    requires p.L.Valid()
  {
    && k < |order| == |choice| && order[k] < |p.ops| && choice[k] < |p.ops[order[k]].templates|
    && Played(p, order[..k], choice[..k]).Some?
    && Place(p.L, Played(p, order[..k], choice[..k]).value, p.ops[order[k]].templates[choice[k]]).Some?
    && Target(p, ToSet(order[..k])) !! p.ops[order[k]].mask
  }

  lemma {:induction false} PrefixIsPlaced(p: Problem, order: seq<nat>, choice: seq<nat>, k: nat)
    requires p.Valid() && p.L.FullRows(p.initial) == {}
    requires InRange(p, order) && Played(p, order, choice).Some? && |choice| == |order| && k < |order|
    ensures PlacedAt(p, order, choice, k)
    decreases |order|
  {
    var m := |order| - 1;
    LastIsPlaced(p, order, choice);
    if k == m {
      LastIsApart(p, order, choice);
    } else {
      PrefixIsInRange(p, order, m);
      PrefixIsPlaced(p, order[..m], choice[..m], k);
      PlacedInLonger(p, order, choice, m, k);
    }
  }

  lemma PlacedInLonger(p: Problem, order: seq<nat>, choice: seq<nat>, m: nat, k: nat)
    requires p.L.Valid() && k < m <= |order| == |choice| && PlacedAt(p, order[..m], choice[..m], k)
    ensures PlacedAt(p, order, choice, k)
  {
    assert order[..m][..k] == order[..k] && choice[..m][..k] == choice[..k];
  }

  /** The last step of a run, from where the run stood before it. */
  lemma LastIsPlaced(p: Problem, order: seq<nat>, choice: seq<nat>)
    requires p.L.Valid() && order != [] && |choice| == |order| && Played(p, order, choice).Some?
    ensures var k := |order| - 1;
            && order[k] < |p.ops| && choice[k] < |p.ops[order[k]].templates|
            && Played(p, order[..k], choice[..k]).Some?
            && Place(p.L, Played(p, order[..k], choice[..k]).value, p.ops[order[k]].templates[choice[k]]).Some?
  {
  }

  lemma LastIsApart(p: Problem, order: seq<nat>, choice: seq<nat>)
    requires p.Valid() && p.L.FullRows(p.initial) == {} && order != []
    requires InRange(p, order) && Played(p, order, choice).Some?
    ensures Target(p, ToSet(order[..|order| - 1])) !! p.ops[order[|order| - 1]].mask
  {
    PlayedTracksTarget(p, order, choice);
  }

  /** Of two operations in a run, the earlier one's mask is on the target board when the
      later one is placed. */
  lemma RunSeparatesMasks(p: Problem, order: seq<nat>, choice: seq<nat>, i: nat, j: nat)
    requires p.Valid() && p.L.FullRows(p.initial) == {}
    requires InRange(p, order) && Played(p, order, choice).Some? && |choice| == |order| && i < j < |order|
    ensures p.ops[order[i]].mask !! p.ops[order[j]].mask
  {
    StepOfRun(p, order, choice, j);
    assert order[..j][i] == order[i];
    assert order[i] in ToSet(order[..j]);
    assert p.ops[order[i]].mask <= Target(p, ToSet(order[..j]));
  }

  /** A candidate that can be built at all has disjoint masks. */
  lemma BuildableMasksAreDisjoint(p: Problem, order: seq<nat>, choice: seq<nat>)
    requires p.Valid() && p.L.FullRows(p.initial) == {}
    requires IsOrder(p, order) && Played(p, order, choice).Some? && |choice| == |order|
    ensures MasksDisjoint(p)
  {
    forall o: nat | o < |p.ops|
      ensures p.initial !! p.ops[o].mask
    {
      var k := PlaceInOrder(p, order, o);
      RunSparesInitial(p, order, choice, k);
    }
    forall o: nat, q: nat | o < q < |p.ops|
      ensures p.ops[o].mask !! p.ops[q].mask
    {
      var i := PlaceInOrder(p, order, o);
      var j := PlaceInOrder(p, order, q);
      if i < j {
        RunSeparatesMasks(p, order, choice, i, j);
      } else {
        RunSeparatesMasks(p, order, choice, j, i);
      }
    }
  }

  lemma PlaceInOrder(p: Problem, order: seq<nat>, o: nat) returns (k: nat)
    requires IsOrder(p, order) && o < |p.ops|
    ensures k < |order| && order[k] == o && InRange(p, order)
  {
    IsOrderCovers(p, order);
    assert o in ToSet(order);
    k :| k < |order| && order[k] == o;
  }

  lemma RunSparesInitial(p: Problem, order: seq<nat>, choice: seq<nat>, k: nat)
    requires p.Valid() && p.L.FullRows(p.initial) == {}
    requires InRange(p, order) && Played(p, order, choice).Some? && |choice| == |order| && k < |order|
    ensures p.initial !! p.ops[order[k]].mask
  {
    StepOfRun(p, order, choice, k);
    assert p.initial <= Target(p, ToSet(order[..k]));
  }

  /** In a buildable order each realization stands in the clear state of the formula, so
      the contributors of every row it needs are already placed. */
  lemma StepObeysContributors(p: Problem, order: seq<nat>, choice: seq<nat>, k: nat)
    requires p.Valid() && p.L.FullRows(p.initial) == {}
    requires IsOrder(p, order) && Played(p, order, choice).Some? && |choice| == |order| && k < |order|
    ensures choice[k] < |p.ops[order[k]].templates|
    ensures var placed := ToSet(order[..k]);
            var t := p.ops[order[k]].templates[choice[k]];
            && p.L.FullRows(Target(p, placed)) == DeletedRows(p, placed)
            && Instantiate(p.L, t, DeletedRows(p, placed)).Some?
            && t.minDeleted <= ClearableRows(p)
            && ContributorsOfRows(p, t.minDeleted) <= placed
            && order[k] !in placed
  {
    BuildableMasksAreDisjoint(p, order, choice);
    IsOrderCovers(p, order);
    StepOfRun(p, order, choice, k);
    var placed := ToSet(order[..k]);
    forall o | o in placed
      ensures o in ToSet(order)
    {
      var i :| 0 <= i < k && order[..k][i] == o;
      assert order[i] == o;
    }
    FormulaGivesFullRows(p, placed);
    InstantiateIsCompression(p.L, p.ops[order[k]].templates[choice[k]], DeletedRows(p, placed));
  }

  lemma InPrefix(order: seq<nat>, k: nat, q: nat)
    requires k <= |order|
    ensures q in ToSet(order[..k]) <==> q in order[..k]
  {
  }

  /** A buildable order obeys the base relation, so the compilation of required
      predecessors never rejects a buildable candidate. */
  lemma BuildableOrderObeysBase(p: Problem, order: seq<nat>, choice: seq<nat>)
    requires p.Valid() && HasRealizations(p) && p.L.FullRows(p.initial) == {}
    requires IsOrder(p, order) && Played(p, order, choice).Some? && |choice| == |order|
    ensures BaseConsistent(p)
    ensures Closure.Obeys(BaseRelation(p), order)
    ensures !Closure.HasCycle(BaseRelation(p))
  {
    IsOrderCovers(p, order);
    forall k | 0 <= k < |order|
      ensures CommonMinimum(p.ops[order[k]].templates) <= ClearableRows(p)
      ensures BaseRequired(p, order[k]) <= ToSet(order[..k]) && order[k] !in ToSet(order[..k])
    {
      StepObeysContributors(p, order, choice, k);
    }
    forall o | 0 <= o < |p.ops|
      ensures CommonMinimum(p.ops[o].templates) <= ClearableRows(p) && o !in BaseRequired(p, o)
    {
      assert o in ToSet(order);
      var k :| 0 <= k < |order| && order[k] == o;
    }
    forall k | 0 <= k < |order|
      ensures order[k] < |p.ops| && forall q :: q in BaseRelation(p)[order[k]] ==> q in order[..k]
    {
      forall q | q in BaseRelation(p)[order[k]]
        ensures q in order[..k]
      {
        assert q in BaseRequired(p, order[k]);
        InPrefix(order, k, q);
      }
    }
    forall i | 0 <= i < |p.ops|
      ensures i in order
    {
      assert i in ToSet(order);
    }
    Closure.OrderForbidsCycle(BaseRelation(p), order);
  }

  ghost predicate ObeysAsSets(required: seq<set<nat>>, order: seq<nat>) {
    forall k :: 0 <= k < |order| ==> order[k] < |required| && required[order[k]] <= ToSet(order[..k])
  }

  lemma ClosureKeepsObedience(r: Closure.Relation, required: seq<set<nat>>, order: seq<nat>)
    requires Closure.Obeys(r, order) && |required| == |r|
    requires forall o, q: nat :: 0 <= o < |r| && q in required[o] ==> Closure.Reaches(r, o, q)
    ensures ObeysAsSets(required, order)
  {
    forall k | 0 <= k < |order|
      ensures order[k] < |required| && required[order[k]] <= ToSet(order[..k])
    {
      forall q | q in required[order[k]]
        ensures q in ToSet(order[..k])
      {
        var w :| Closure.WalkFromTo(r, w, order[k], q);
        Closure.OrderObeysWalks(r, order, k, w);
        InPrefix(order, k, q);
      }
    }
  }

  /** Every real placement of a buildable order is a usable realization of the lattice. */
  lemma BuildableStepIsUsable(p: Problem, required: seq<set<nat>>, order: seq<nat>, choice: seq<nat>, k: nat)
    requires p.Valid() && p.L.FullRows(p.initial) == {}
    requires IsOrder(p, order) && Played(p, order, choice).Some? && |choice| == |order| && k < |order|
    requires |required| == |p.ops| && ObeysAsSets(required, order)
    ensures Usable(p, required, ToSet(order[..k]), order[k], choice[k])
  {
    StepObeysContributors(p, order, choice, k);
  }

  /** So a buildable order is a structural order in any domains that keep its choices. */
  lemma BuildableOrderIsStructural(
      p: Problem, required: seq<set<nat>>, active: Domains, order: seq<nat>, choice: seq<nat>)
    requires p.Valid() && p.L.FullRows(p.initial) == {}
    requires IsOrder(p, order) && Played(p, order, choice).Some? && |choice| == |order|
    requires |required| == |p.ops| && ObeysAsSets(required, order)
    requires |active| == |p.ops| && forall i :: 0 <= i < |order| ==> choice[i] in active[order[i]]
    ensures StructuralOrder(LatticeOf(p, required), active, order)
  {
    var lat := LatticeOf(p, required);
    forall k | 0 <= k < |order|
      ensures StructuralStep(lat, active, ToSet(order[..k]), order[k])
    {
      BuildableStepIsUsable(p, required, order, choice, k);
      StepObeysContributors(p, order, choice, k);
      assert lat.uses(ToSet(order[..k]), order[k], choice[k]);
    }
  }
}
