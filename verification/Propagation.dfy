/** Forward and backward propagation over the lattice of placed-operation subsets.

    A state is a number below 2^n whose bits are the placed operations. Placing an
    operation makes the number larger, so one ascending pass settles which states are
    reachable and one descending pass which of them can still be completed.

    The catalog enters only through `uses`: whether a realization of an operation
    supports the transition out of a set of placed operations.
 */
module Propagation {
  import opened Bits
  import opened Folding

  /** For each operation the local indices of the realizations still in its domain. */
  type Domains = seq<set<nat>>

  datatype Lattice = Lattice(
    sizes: seq<nat>, required: seq<set<nat>>, uses: (set<nat>, nat, nat) -> bool)
  {
    function Count(): nat {
      |sizes|
    }

    function Everything(): set<nat> {
      UpTo(|sizes|)
    }

    /** A realization that supports a transition also demands the operation's own
        required predecessors. */
    ghost predicate Valid() {
      && |required| == |sizes|
      && (forall placed: set<nat>, o: nat, k: nat :: uses(placed, o, k) && o < |sizes| ==> required[o] <= placed)
    }
  }

  ghost predicate DomainsFit(lat: Lattice, active: Domains) {
    && |active| == lat.Count()
    && (forall o, k :: 0 <= o < |active| && k in active[o] ==> k < lat.sizes[o])
  }

  ghost predicate Supported(lat: Lattice, active: Domains, placed: set<nat>, o: nat) {
    o < |active| && exists k :: k in active[o] && lat.uses(placed, o, k)
  }

  ghost predicate StructuralStep(lat: Lattice, active: Domains, placed: set<nat>, o: nat) {
    o < lat.Count() && o !in placed && Supported(lat, active, placed, o)
  }

  /** Every operation of the order is placed by a structural step. */
  ghost predicate PathTo(lat: Lattice, active: Domains, order: seq<nat>) {
    order == [] ||
    (var k := |order| - 1;
     PathTo(lat, active, order[..k]) && StructuralStep(lat, active, ToSet(order[..k]), order[k]))
  }

  ghost predicate PathFrom(lat: Lattice, active: Domains, placed: set<nat>, order: seq<nat>)
    decreases |order|
  {
    order == [] ||
    (StructuralStep(lat, active, placed, order[0]) && PathFrom(lat, active, placed + {order[0]}, order[1..]))
  }

  ghost predicate Reaches(lat: Lattice, active: Domains, order: seq<nat>, placed: set<nat>) {
    PathTo(lat, active, order) && ToSet(order) == placed
  }

  ghost predicate Finishes(lat: Lattice, active: Domains, placed: set<nat>, order: seq<nat>) {
    PathFrom(lat, active, placed, order) && lat.Everything() <= placed + ToSet(order)
  }

  /** Some structural order places exactly these operations. */
  ghost predicate Reachable(lat: Lattice, active: Domains, placed: set<nat>) {
    exists order :: Reaches(lat, active, order, placed)
  }

  /** Some structural order places all that is missing. */
  ghost predicate CanFinish(lat: Lattice, active: Domains, placed: set<nat>) {
    exists order :: Finishes(lat, active, placed, order)
  }

  /** The realization takes part in some complete structural order, at this state. */
  ghost predicate LiveUse(lat: Lattice, active: Domains, placed: set<nat>, o: nat, k: nat) {
    && placed <= lat.Everything() && o !in placed
    && o < |active| && k in active[o] && lat.uses(placed, o, k)
    && Reachable(lat, active, placed)
    && CanFinish(lat, active, placed + {o})
  }

  lemma StartIsReachable(lat: Lattice, active: Domains)
    ensures Reachable(lat, active, {})
  {
    assert Reaches(lat, active, [], {});
  }

  lemma EndFinishes(lat: Lattice, active: Domains)
    ensures CanFinish(lat, active, lat.Everything())
  {
    assert Finishes(lat, active, lat.Everything(), []);
  }

  lemma StepForward(lat: Lattice, active: Domains, placed: set<nat>, o: nat)
    requires Reachable(lat, active, placed) && StructuralStep(lat, active, placed, o)
    ensures Reachable(lat, active, placed + {o})
  {
    var order :| Reaches(lat, active, order, placed);
    var longer := order + [o];
    assert longer[..|longer| - 1] == order;
    ToSetSnoc(longer);
    assert Reaches(lat, active, longer, placed + {o});
  }

  lemma LastStep(lat: Lattice, active: Domains, placed: set<nat>) returns (o: nat)
    requires Reachable(lat, active, placed) && placed != {}
    ensures o in placed && Reachable(lat, active, placed - {o}) && StructuralStep(lat, active, placed - {o}, o)
  {
    var order :| Reaches(lat, active, order, placed);
    assert order != [] by {
      assert ToSet([]) == {};
    }
    var k := |order| - 1;
    o := order[k];
    ToSetSnoc(order);
    assert ToSet(order[..k]) == placed - {o};
    assert Reaches(lat, active, order[..k], placed - {o});
  }

  lemma StepBack(lat: Lattice, active: Domains, placed: set<nat>, o: nat)
    requires StructuralStep(lat, active, placed, o) && CanFinish(lat, active, placed + {o})
    ensures CanFinish(lat, active, placed)
  {
    var order :| Finishes(lat, active, placed + {o}, order);
    var longer := [o] + order;
    assert longer[1..] == order;
    ToSetCons(longer);
    assert Finishes(lat, active, placed, longer);
  }

  lemma NextStep(lat: Lattice, active: Domains, placed: set<nat>) returns (o: nat)
    requires CanFinish(lat, active, placed) && !(lat.Everything() <= placed)
    ensures StructuralStep(lat, active, placed, o) && CanFinish(lat, active, placed + {o})
  {
    var order :| Finishes(lat, active, placed, order);
    assert order != [] by {
      assert ToSet([]) == {};
    }
    o := order[0];
    ToSetCons(order);
    assert Finishes(lat, active, placed + {o}, order[1..]);
  }

  /** From a reachable state that can finish, the start can finish. */
  lemma {:induction false} FinishFromStart(lat: Lattice, active: Domains, placed: set<nat>)
    requires Reachable(lat, active, placed) && CanFinish(lat, active, placed)
    ensures CanFinish(lat, active, {})
    decreases placed
  {
    if placed != {} {
      var o := LastStep(lat, active, placed);
      assert placed - {o} + {o} == placed;
      StepBack(lat, active, placed - {o}, o);
      FinishFromStart(lat, active, placed - {o});
    }
  }

  /** From a reachable state that can finish, the end is reachable. */
  lemma {:induction false} ReachTheEnd(lat: Lattice, active: Domains, placed: set<nat>)
    requires placed <= lat.Everything()
    requires Reachable(lat, active, placed) && CanFinish(lat, active, placed)
    ensures Reachable(lat, active, lat.Everything())
    decreases lat.Everything() - placed
  {
    if placed != lat.Everything() {
      var o := NextStep(lat, active, placed);
      assert o in lat.Everything();
      StepForward(lat, active, placed, o);
      ReachTheEnd(lat, active, placed + {o});
    }
  }

  /** On the way to the end every operation still missing is used once. */
  lemma {:induction false} EveryOperationIsUsed(lat: Lattice, active: Domains, placed: set<nat>, o: nat)
      returns (at: set<nat>, k: nat)
    requires placed <= lat.Everything()
    requires Reachable(lat, active, placed) && CanFinish(lat, active, placed)
    requires o < lat.Count() && o !in placed
    ensures LiveUse(lat, active, at, o, k)
    decreases lat.Everything() - placed
  {
    assert o in lat.Everything();
    var next := NextStep(lat, active, placed);
    if next == o {
      k :| k in active[o] && lat.uses(placed, o, k);
      at := placed;
    } else {
      assert next in lat.Everything();
      StepForward(lat, active, placed, next);
      at, k := EveryOperationIsUsed(lat, active, placed + {next}, o);
    }
  }

  ghost predicate StructuralOrder(lat: Lattice, active: Domains, order: seq<nat>) {
    forall k :: 0 <= k < |order| ==> StructuralStep(lat, active, ToSet(order[..k]), order[k])
  }

  /** The states along a complete structural order are reachable and can finish. */
  lemma {:induction false} OrderReaches(lat: Lattice, active: Domains, order: seq<nat>, k: nat)
    requires StructuralOrder(lat, active, order) && k <= |order|
    ensures Reachable(lat, active, ToSet(order[..k]))
  {
    if k == 0 {
      assert ToSet(order[..0]) == {};
      StartIsReachable(lat, active);
    } else {
      OrderReaches(lat, active, order, k - 1);
      StepForward(lat, active, ToSet(order[..k - 1]), order[k - 1]);
      ToSetSnoc(order[..k]);
      assert order[..k][..k - 1] == order[..k - 1];
    }
  }

  lemma {:induction false} OrderFinishes(lat: Lattice, active: Domains, order: seq<nat>, k: nat)
    requires StructuralOrder(lat, active, order) && k <= |order|
    requires ToSet(order) == lat.Everything()
    ensures CanFinish(lat, active, ToSet(order[..k]))
    decreases |order| - k
  {
    if k == |order| {
      assert order[..k] == order;
      EndFinishes(lat, active);
    } else {
      OrderFinishes(lat, active, order, k + 1);
      ToSetSnoc(order[..k + 1]);
      assert order[..k + 1][..k] == order[..k];
      StepBack(lat, active, ToSet(order[..k]), order[k]);
    }
  }

  lemma {:induction false} PathToIsStructural(lat: Lattice, active: Domains, order: seq<nat>)
    requires PathTo(lat, active, order)
    ensures StructuralOrder(lat, active, order)
  {
    if order != [] {
      var m := |order| - 1;
      PathToIsStructural(lat, active, order[..m]);
      forall k | 0 <= k < |order|
        ensures StructuralStep(lat, active, ToSet(order[..k]), order[k])
      {
        if k < m {
          assert order[..m][..k] == order[..k] && order[..m][k] == order[k];
        }
      }
    }
  }

  /** Every step of a complete structural order is a live use of the realization it takes. */
  lemma StepOfOrderIsLiveUse(lat: Lattice, active: Domains, order: seq<nat>, k: nat, j: nat)
    requires StructuralOrder(lat, active, order) && ToSet(order) == lat.Everything()
    requires k < |order| && order[k] < |active| && j in active[order[k]]
    requires lat.uses(ToSet(order[..k]), order[k], j)
    ensures LiveUse(lat, active, ToSet(order[..k]), order[k], j)
  {
    OrderReaches(lat, active, order, k);
    OrderFinishes(lat, active, order, k + 1);
    ToSetSnoc(order[..k + 1]);
    assert order[..k + 1][..k] == order[..k];
    assert StructuralStep(lat, active, ToSet(order[..k]), order[k]);
    PrefixSubset(order, k);
  }

  lemma PrefixSubset(order: seq<nat>, k: nat)
    requires k <= |order|
    ensures ToSet(order[..k]) <= ToSet(order)
  {
    forall o | o in ToSet(order[..k])
      ensures o in ToSet(order)
    {
      var i :| 0 <= i < k && order[..k][i] == o;
      assert order[i] == o;
    }
  }

  // ------------------------------------------------------------------
  // The passes
  // ------------------------------------------------------------------

  /** Scans the active realizations of an operation; with `record` it collects all that
      support the transition, otherwise it stops at the first. */
  method TransitionSupport(lat: Lattice, active: Domains, placed: set<nat>, o: nat, record: bool)
    returns (supported: bool, recorded: set<nat>)
    requires DomainsFit(lat, active) && o < lat.Count()
    ensures supported <==> Supported(lat, active, placed, o)
    ensures record ==> forall k :: k in recorded <==> k in active[o] && lat.uses(placed, o, k)
  {
    supported := false;
    recorded := {};
    for k := 0 to lat.sizes[o]
      invariant supported <==> exists j :: j in active[o] && j < k && lat.uses(placed, o, j)
      invariant !record ==> !supported
      invariant record ==> forall j :: j in recorded <==> j in active[o] && j < k && lat.uses(placed, o, j)
    {
      if k in active[o] && lat.uses(placed, o, k) {
        supported := true;
        if record {
          recorded := recorded + {k};
        } else {
          return;
        }
      }
    }
  }

  /** Stamped by a transition out of a state before `(state, operation)`. */
  ghost predicate Stamped(lat: Lattice, active: Domains, s: nat, state: nat, operation: nat)
    requires DomainsFit(lat, active)
  {
    s == 0 || exists q: nat, o: nat :: StampsFrom(lat, active, s, state, operation, q, o)
  }

  ghost predicate StampsFrom(lat: Lattice, active: Domains, s: nat, state: nat, operation: nat, q: nat, o: nat)
    requires DomainsFit(lat, active)
  {
    && (q < state || (q == state && o < operation))
    && Reachable(lat, active, Members(q, lat.Count()))
    && StructuralStep(lat, active, Members(q, lat.Count()), o)
    && SetBit(q, o) == s
  }

  /** Every transition into `s` leaves a smaller number, so when the pass arrives at `s`
      its stamp is final. */
  lemma StampIsFinal(lat: Lattice, active: Domains, s: nat, state: nat)
    requires DomainsFit(lat, active)
    requires s < Pow2(lat.Count()) && s <= state
    ensures Stamped(lat, active, s, state, 0) <==> Reachable(lat, active, Members(s, lat.Count()))
  {
    var n := lat.Count();
    var placed := Members(s, n);
    ZeroIsEmpty(n);
    StartIsReachable(lat, active);
    if s != 0 && Stamped(lat, active, s, state, 0) {
      var q: nat, o: nat :| StampsFrom(lat, active, s, state, 0, q, o);
      MembersSetBit(q, o, n);
      StepForward(lat, active, Members(q, n), o);
    }
    if s != 0 && Reachable(lat, active, placed) {
      if placed == {} {
        MembersInjective(s, 0, n);
        assert false;
      }
      var o := LastStep(lat, active, placed);
      var q := Encode(placed - {o}, n);
      MembersSetBit(q, o, n);
      SetBitBound(q, o, n);
      assert placed - {o} + {o} == placed;
      MembersInjective(SetBit(q, o), s, n);
      SetBitGrows(q, o);
      assert !HasBit(q, o) by {
        assert o in Members(q, n) <==> HasBit(q, o);
      }
      assert StampsFrom(lat, active, s, state, 0, q, o);
    }
  }

  lemma StampOneMore(lat: Lattice, active: Domains, s: nat, state: nat, operation: nat)
    requires DomainsFit(lat, active)
    ensures Stamped(lat, active, s, state, operation + 1) <==>
              Stamped(lat, active, s, state, operation) ||
                  StampsFrom(lat, active, s, state, operation + 1, state, operation)
  {
    if s != 0 && Stamped(lat, active, s, state, operation + 1) {
      var q: nat, o: nat :| StampsFrom(lat, active, s, state, operation + 1, q, o);
      assert (q == state && o == operation) || StampsFrom(lat, active, s, state, operation, q, o);
    }
    if s != 0 && Stamped(lat, active, s, state, operation) {
      var q: nat, o: nat :| StampsFrom(lat, active, s, state, operation, q, o);
      assert StampsFrom(lat, active, s, state, operation + 1, q, o);
    }
  }

  lemma StampNextState(lat: Lattice, active: Domains, s: nat, state: nat)
    requires DomainsFit(lat, active)
    ensures Stamped(lat, active, s, state + 1, 0) <==> Stamped(lat, active, s, state, lat.Count())
  {
    if s != 0 && Stamped(lat, active, s, state + 1, 0) {
      var q: nat, o: nat :| StampsFrom(lat, active, s, state + 1, 0, q, o);
      assert StampsFrom(lat, active, s, state, lat.Count(), q, o);
    }
    if s != 0 && Stamped(lat, active, s, state, lat.Count()) {
      var q: nat, o: nat :| StampsFrom(lat, active, s, state, lat.Count(), q, o);
      assert StampsFrom(lat, active, s, state + 1, 0, q, o);
    }
  }

  /** The ascending pass stamps exactly the structurally reachable states. */
  method ForwardPass(lat: Lattice, active: Domains, reachable: array<nat>, generation: nat)
    requires lat.Valid() && DomainsFit(lat, active)
    requires Pow2(lat.Count()) <= reachable.Length
    requires forall s :: 0 <= s < reachable.Length ==> reachable[s] != generation
    modifies reachable
    ensures forall s: nat :: s < Pow2(lat.Count()) ==>
              (reachable[s] == generation <==> Reachable(lat, active, Members(s, lat.Count())))
    ensures forall s :: 0 <= s < reachable.Length ==> reachable[s] == generation || reachable[s] == old(reachable[s])
  {
    var n := lat.Count();
    var terminal := Pow2(n) - 1;
    reachable[0] := generation;
    assert forall s: nat, q: nat, o: nat :: !StampsFrom(lat, active, s, 0, 0, q, o);
    for state := 0 to terminal
      invariant forall s: nat :: s < Pow2(n) ==> (reachable[s] == generation <==> Stamped(lat, active, s, state, 0))
      invariant forall s :: 0 <= s < reachable.Length ==>
                  reachable[s] == generation || reachable[s] == old(reachable[s])
    {
      StampIsFinal(lat, active, state, state);
      ForwardFromState(lat, active, reachable, generation, state);
      forall s: nat | s < Pow2(n)
        ensures Stamped(lat, active, s, state + 1, 0) <==> Stamped(lat, active, s, state, n)
      {
        StampNextState(lat, active, s, state);
      }
    }
    forall s: nat | s < Pow2(n)
      ensures Stamped(lat, active, s, terminal, 0) <==> Reachable(lat, active, Members(s, n))
    {
      StampIsFinal(lat, active, s, terminal);
    }
  }

  /** Whether an operation may be placed next: not yet placed, its predecessors in place and
      some active realization usable. */
  method MayStep(lat: Lattice, active: Domains, placed: set<nat>, o: nat) returns (allowed: bool)
    requires lat.Valid() && DomainsFit(lat, active) && o < lat.Count()
    ensures allowed <==> StructuralStep(lat, active, placed, o)
  {
    if o in placed || !(lat.required[o] <= placed) {
      return false;
    }
    var supported, _ := TransitionSupport(lat, active, placed, o, false);
    return supported;
  }

  lemma StampAllOneMore(lat: Lattice, active: Domains, state: nat, operation: nat)
    requires lat.Valid() && DomainsFit(lat, active) && operation < lat.Count()
    ensures var next := operation + 1;
            forall s: nat :: s < Pow2(lat.Count()) ==>
              (Stamped(lat, active, s, state, next) <==>
               Stamped(lat, active, s, state, operation) ||
               (s == SetBit(state, operation) && Reachable(lat, active, Members(state, lat.Count())) &&
                   StructuralStep(lat, active, Members(state, lat.Count()), operation)))
  {
    forall s: nat | s < Pow2(lat.Count())
      ensures Stamped(lat, active, s, state, operation + 1) <==>
              Stamped(lat, active, s, state, operation) ||
              (s == SetBit(state, operation) && Reachable(lat, active, Members(state, lat.Count())) &&
                  StructuralStep(lat, active, Members(state, lat.Count()), operation))
    {
      StampOneMore(lat, active, s, state, operation);
    }
  }

  method ForwardFromState(lat: Lattice, active: Domains, reachable: array<nat>, generation: nat, state: nat)
    requires lat.Valid() && DomainsFit(lat, active)
    requires Pow2(lat.Count()) <= reachable.Length && state < Pow2(lat.Count())
    requires reachable[state] == generation <==> Reachable(lat, active, Members(state, lat.Count()))
    requires forall s: nat :: s < Pow2(lat.Count()) ==>
               (reachable[s] == generation <==> Stamped(lat, active, s, state, 0))
    modifies reachable
    ensures forall s: nat :: s < Pow2(lat.Count()) ==>
              (reachable[s] == generation <==> Stamped(lat, active, s, state, lat.Count()))
    ensures forall s :: 0 <= s < reachable.Length ==> reachable[s] == generation || reachable[s] == old(reachable[s])
  {
    var n := lat.Count();
    var placed := Members(state, n);
    var expand := reachable[state] == generation;
    for operation := 0 to n
      invariant forall s: nat :: s < Pow2(n) ==>
                  (reachable[s] == generation <==> Stamped(lat, active, s, state, operation))
      invariant forall s :: 0 <= s < reachable.Length ==>
                  reachable[s] == generation || reachable[s] == old(reachable[s])
    {
      var allowed := expand;
      if allowed {
        allowed := MayStep(lat, active, placed, operation);
      }
      SetBitBound(state, operation, n);
      StampAllOneMore(lat, active, state, operation);
      if allowed {
        reachable[SetBit(state, operation)] := generation;
      }
    }
  }

  ghost predicate Live(lat: Lattice, active: Domains, s: nat) {
    Reachable(lat, active, Members(s, lat.Count())) && CanFinish(lat, active, Members(s, lat.Count()))
  }

  ghost function LiveStates(lat: Lattice, active: Domains): set<nat> {
    set s | 0 <= s < Pow2(lat.Count()) && Live(lat, active, s)
  }

  /** The realizations of an operation that are used at this state on the way to the end. */
  ghost function UsesAt(lat: Lattice, active: Domains, placed: set<nat>, o: nat): set<nat> {
    if o < |active| then set k | k in active[o] && LiveUse(lat, active, placed, o, k) else {}
  }

  ghost predicate UsedAt(lat: Lattice, active: Domains, low: nat, q: nat, o: nat, k: nat) {
    low <= q < Pow2(lat.Count()) && k in UsesAt(lat, active, Members(q, lat.Count()), o)
  }

  /** The realizations used at some state from `low` upwards. */
  ghost function UsesFrom(lat: Lattice, active: Domains, low: nat, o: nat): set<nat> {
    if o < |active| then set k | k in active[o] && exists q: nat :: UsedAt(lat, active, low, q, o, k)
    else {}
  }

  lemma UsesOneMore(lat: Lattice, active: Domains, low: nat, o: nat)
    requires low < Pow2(lat.Count())
    ensures UsesFrom(lat, active, low, o) ==
              UsesFrom(lat, active, low + 1, o) + UsesAt(lat, active, Members(low, lat.Count()), o)
  {
    if o < |active| {
      forall k | k in UsesFrom(lat, active, low, o)
        ensures k in UsesFrom(lat, active, low + 1, o) + UsesAt(lat, active, Members(low, lat.Count()), o)
      {
        var q: nat :| UsedAt(lat, active, low, q, o, k);
        assert q == low || UsedAt(lat, active, low + 1, q, o, k);
      }
      forall k | k in UsesFrom(lat, active, low + 1, o)
        ensures k in UsesFrom(lat, active, low, o)
      {
        var q: nat :| UsedAt(lat, active, low + 1, q, o, k);
        assert UsedAt(lat, active, low, q, o, k);
      }
      forall k | k in UsesAt(lat, active, Members(low, lat.Count()), o)
        ensures k in UsesFrom(lat, active, low, o)
      {
        assert UsedAt(lat, active, low, low, o, k);
      }
    }
  }

  /** The transition is supported and leads to a state that can finish. */
  ghost predicate LeadsOn(lat: Lattice, active: Domains, placed: set<nat>, o: nat) {
    o !in placed && Supported(lat, active, placed, o) && CanFinish(lat, active, placed + {o})
  }

  /** Above a state exactly the live states carry the stamp. */
  ghost predicate LiveAboveState(lat: Lattice, active: Domains, live: seq<nat>, generation: nat, state: nat) {
    && Pow2(lat.Count()) <= |live|
    && forall s: nat :: state < s < Pow2(lat.Count()) ==> (live[s] == generation <==> s in LiveStates(lat, active))
  }

  /** One transition of the descending pass. */
  method BackwardTransition(
      lat: Lattice, active: Domains, live: seq<nat>, generation: nat, state: nat, operation: nat)
    returns (leads: bool, recorded: set<nat>)
    requires DomainsFit(lat, active) && operation < lat.Count()
    requires Pow2(lat.Count()) <= |live| && state < Pow2(lat.Count())
    requires Reachable(lat, active, Members(state, lat.Count()))
    requires LiveAboveState(lat, active, live, generation, state)
    ensures leads <==> LeadsOn(lat, active, Members(state, lat.Count()), operation)
    ensures recorded == UsesAt(lat, active, Members(state, lat.Count()), operation)
  {
    var n := lat.Count();
    var placed := Members(state, n);
    assert operation in placed <==> HasBit(state, operation);
    if operation in placed {
      return false, {};
    }
    var next := SetBit(state, operation);
    SetBitBound(state, operation, n);
    SetBitGrows(state, operation);
    MembersSetBit(state, operation, n);
    if Supported(lat, active, placed, operation) {
      StepForward(lat, active, placed, operation);
    }
    if live[next] != generation {
      return false, {};
    }
    leads, recorded := TransitionSupport(lat, active, placed, operation, true);
  }

  /** One state of the descending pass: it is live exactly when a supported transition
      leads to a live state; the realizations behind those transitions are recorded. */
  method BackwardAtState(lat: Lattice, active: Domains, live: seq<nat>, generation: nat, state: nat, supported: Domains)
    returns (stateLive: bool, recorded: Domains)
    requires DomainsFit(lat, active) && |supported| == lat.Count()
    requires Pow2(lat.Count()) <= |live| && state + 1 < Pow2(lat.Count())
    requires Reachable(lat, active, Members(state, lat.Count()))
    requires LiveAboveState(lat, active, live, generation, state)
    ensures stateLive <==> state in LiveStates(lat, active)
    ensures |recorded| == lat.Count()
    ensures forall o :: 0 <= o < lat.Count() ==>
              recorded[o] == supported[o] + UsesAt(lat, active, Members(state, lat.Count()), o)
  {
    var n := lat.Count();
    ghost var placed := Members(state, n);
    stateLive := false;
    recorded := supported;
    for operation := 0 to n
      invariant |recorded| == n
      invariant stateLive <==> (exists o :: 0 <= o < operation && LeadsOn(lat, active, placed, o))
      invariant forall o :: operation <= o < n ==> recorded[o] == supported[o]
      invariant forall o :: 0 <= o < operation ==> recorded[o] == supported[o] + UsesAt(lat, active, placed, o)
    {
      var leads, ks := BackwardTransition(lat, active, live, generation, state, operation);
      recorded := recorded[operation := recorded[operation] + ks];
      if leads {
        stateLive := true;
      }
    }
    FinishMeansLead(lat, active, state);
  }

  lemma FinishMeansLead(lat: Lattice, active: Domains, state: nat)
    requires DomainsFit(lat, active) && state + 1 < Pow2(lat.Count())
    ensures CanFinish(lat, active, Members(state, lat.Count())) <==>
              exists o :: 0 <= o < lat.Count() && LeadsOn(lat, active, Members(state, lat.Count()), o)
  {
    var n := lat.Count();
    var placed := Members(state, n);
    AllOnesIsFull(n);
    if lat.Everything() <= placed {
      MembersInjective(state, Pow2(n) - 1, n);
      assert false;
    }
    if CanFinish(lat, active, placed) {
      var o := NextStep(lat, active, placed);
      assert LeadsOn(lat, active, placed, o);
    }
    if o :| 0 <= o < n && LeadsOn(lat, active, placed, o) {
      StepBack(lat, active, placed, o);
    }
  }

  /** The descending pass stamps exactly the reachable states that can still finish, and
      records exactly the realizations used on some complete order. */
  method BackwardPass(lat: Lattice, active: Domains, reachable: array<nat>, live: array<nat>, generation: nat)
    returns (supported: Domains)
    requires DomainsFit(lat, active)
    requires Pow2(lat.Count()) <= reachable.Length && Pow2(lat.Count()) <= live.Length && reachable != live
    requires forall s: nat :: s < Pow2(lat.Count()) ==>
               (reachable[s] == generation <==> Reachable(lat, active, Members(s, lat.Count())))
    requires Reachable(lat, active, lat.Everything())
    requires forall s :: 0 <= s < live.Length ==> live[s] != generation
    modifies live
    ensures forall s: nat :: s < Pow2(lat.Count()) ==> (live[s] == generation <==> s in LiveStates(lat, active))
    ensures forall s :: 0 <= s < live.Length ==> live[s] == generation || live[s] == old(live[s])
    ensures |supported| == lat.Count()
    ensures forall o :: o in lat.Everything() ==> supported[o] == UsesFrom(lat, active, 0, o)
  {
    var n := lat.Count();
    var terminal := Pow2(n) - 1;
    ghost var liveStates := LiveStates(lat, active);
    TerminalIsLive(lat, active);
    live[terminal] := generation;
    supported := seq(n, i => {});
    NothingRecorded(lat, active, supported);
    var state := terminal;
    while state != 0
      invariant state <= terminal
      invariant LiveAbove(live[..], generation, liveStates, state, Pow2(n))
      invariant forall s :: 0 <= s < live.Length ==> live[s] == generation || live[s] == old(live[s])
      invariant UsesRecorded(lat, active, state, supported)
    {
      state := state - 1;
      ghost var before := live[..];
      var stateLive;
      stateLive, supported :=
        BackwardStep(lat, active, live[..], generation, state, reachable[state] == generation, supported);
      if stateLive {
        live[state] := generation;
      }
      LiveOneMore(before, live[..], generation, liveStates, state, Pow2(n));
    }
    assert Unfold(0);
  }

  /** The states from `low` on that carry the stamp are those of the set. */
  ghost predicate LiveAbove(live: seq<nat>, generation: nat, states: set<nat>, low: nat, limit: nat) {
    limit <= |live| && forall u: nat {:trigger Unfold(u)} :: Unfold(u) ==>
      forall s: nat :: s < limit ==> (live[s] == generation <==> low <= s && s in states)
  }

  lemma LiveOneMore(before: seq<nat>, after: seq<nat>, generation: nat, states: set<nat>, low: nat, limit: nat)
    requires LiveAbove(before, generation, states, low + 1, limit) && low < limit
    requires after == if low in states then before[low := generation] else before
    ensures LiveAbove(after, generation, states, low, limit)
  {
    assert Unfold(0);
  }

  /** The realizations used at some state from `low` upwards are recorded. */
  ghost predicate UsesRecorded(lat: Lattice, active: Domains, low: nat, supported: Domains) {
    |supported| == lat.Count() && forall u: nat {:trigger Unfold(u)} :: Unfold(u) ==>
      forall o :: o in lat.Everything() ==> supported[o] == UsesFrom(lat, active, low, o)
  }

  lemma UsesRecordedMore(lat: Lattice, active: Domains, low: nat, supported: Domains, recorded: Domains)
    requires UsesRecorded(lat, active, low + 1, supported) && low < Pow2(lat.Count()) && |recorded| == lat.Count()
    requires forall o :: 0 <= o < lat.Count() ==>
               recorded[o] == supported[o] + UsesAt(lat, active, Members(low, lat.Count()), o)
    ensures UsesRecorded(lat, active, low, recorded)
  {
    assert Unfold(0);
    forall o: nat | o in lat.Everything()
      ensures recorded[o] == UsesFrom(lat, active, low, o)
    {
      UsesOneMore(lat, active, low, o);
    }
  }

  lemma NothingRecorded(lat: Lattice, active: Domains, supported: Domains)
    requires |supported| == lat.Count() && forall o :: 0 <= o < lat.Count() ==> supported[o] == {}
    ensures UsesRecorded(lat, active, Pow2(lat.Count()) - 1, supported)
  {
    forall o | o in lat.Everything()
      ensures UsesFrom(lat, active, Pow2(lat.Count()) - 1, o) == {}
    {
      NoUseAtTheEnd(lat, active, o);
    }
  }

  /** One state of the descending pass; an unreachable one is left alone. */
  method BackwardStep(
      lat: Lattice, active: Domains, live: seq<nat>, generation: nat, state: nat, reached: bool, supported: Domains)
    returns (stateLive: bool, recorded: Domains)
    requires DomainsFit(lat, active) && state + 1 < Pow2(lat.Count())
    requires reached <==> Reachable(lat, active, Members(state, lat.Count()))
    requires LiveAbove(live, generation, LiveStates(lat, active), state + 1, Pow2(lat.Count()))
    requires UsesRecorded(lat, active, state + 1, supported)
    ensures stateLive <==> state in LiveStates(lat, active)
    ensures UsesRecorded(lat, active, state, recorded)
  {
    if reached {
      assert LiveAboveState(lat, active, live, generation, state) by {
        assert Unfold(0);
      }
      stateLive, recorded := BackwardAtState(lat, active, live, generation, state, supported);
    } else {
      NoUseWhenUnreachable(lat, active, Members(state, lat.Count()));
      stateLive, recorded := false, supported;
    }
    UsesRecordedMore(lat, active, state, supported, recorded);
  }

  lemma NoUseWhenUnreachable(lat: Lattice, active: Domains, placed: set<nat>)
    requires !Reachable(lat, active, placed)
    ensures forall o: nat :: UsesAt(lat, active, placed, o) == {}
  {
  }

  lemma NoUseAtTheEnd(lat: Lattice, active: Domains, o: nat)
    requires o in lat.Everything()
    ensures UsesFrom(lat, active, Pow2(lat.Count()) - 1, o) == {}
  {
    var top := Pow2(lat.Count()) - 1;
    AllOnesIsFull(lat.Count());
    assert UsesAt(lat, active, lat.Everything(), o) == {};
    forall q: nat, k: nat
      ensures !UsedAt(lat, active, top, q, o, k)
    {
      assert top <= q < Pow2(lat.Count()) ==> q == top;
    }
  }

  lemma TerminalIsLive(lat: Lattice, active: Domains)
    requires Reachable(lat, active, lat.Everything())
    ensures Pow2(lat.Count()) - 1 in LiveStates(lat, active)
  {
    AllOnesIsFull(lat.Count());
    EndFinishes(lat, active);
  }

  /** The realization is used on some complete structural order. */
  ghost predicate UsedSomewhere(lat: Lattice, active: Domains, o: nat, k: nat) {
    exists placed :: LiveUse(lat, active, placed, o, k)
  }

  lemma RecordedIffUsed(lat: Lattice, active: Domains, o: nat, k: nat)
    ensures k in UsesFrom(lat, active, 0, o) <==> UsedSomewhere(lat, active, o, k)
  {
    if UsedSomewhere(lat, active, o, k) {
      var placed :| LiveUse(lat, active, placed, o, k);
      var q := Encode(placed, lat.Count());
      assert UsedAt(lat, active, 0, q, o, k);
    }
    if k in UsesFrom(lat, active, 0, o) {
      var q: nat :| UsedAt(lat, active, 0, q, o, k);
      assert LiveUse(lat, active, Members(q, lat.Count()), o, k);
    }
  }

  /** Drops the realizations that no complete order uses. */
  method NarrowDomains(lat: Lattice, active: Domains, recorded: Domains) returns (narrowed: Domains)
    requires DomainsFit(lat, active) && |recorded| == lat.Count()
    requires forall o :: o in lat.Everything() ==> recorded[o] == UsesFrom(lat, active, 0, o)
    requires CanFinish(lat, active, {})
    ensures DomainsFit(lat, narrowed)
    ensures forall o: nat, k: nat :: o in lat.Everything() ==>
              (k in narrowed[o] <==> UsedSomewhere(lat, active, o, k))
    ensures forall o :: 0 <= o < lat.Count() ==> narrowed[o] != {} && narrowed[o] <= active[o]
  {
    var n := lat.Count();
    narrowed := active;
    for operation := 0 to n
      invariant |narrowed| == n
      invariant forall o :: operation <= o < n ==> narrowed[o] == active[o]
      invariant forall o :: 0 <= o < operation ==> narrowed[o] == UsesFrom(lat, active, 0, o) && narrowed[o] != {}
    {
      assert operation in lat.Everything();
      assert UsesFrom(lat, active, 0, operation) <= active[operation];
      narrowed := narrowed[operation := active[operation] * recorded[operation]];
      StartIsReachable(lat, active);
      ghost var at, k := EveryOperationIsUsed(lat, active, {}, operation);
      RecordedIffUsed(lat, active, operation, k);
      // The code reports an emptied domain as infeasible; here no domain is emptied.
      assert k in narrowed[operation];
    }
    forall o: nat, k: nat | o in lat.Everything()
      ensures k in narrowed[o] <==> UsedSomewhere(lat, active, o, k)
    {
      RecordedIffUsed(lat, active, o, k);
    }
  }

  /** Both passes and the narrowing of the domains. */
  method Propagate(lat: Lattice, active: Domains, reachable: array<nat>, live: array<nat>, generation: nat)
    returns (supported: bool, narrowed: Domains)
    requires lat.Valid() && DomainsFit(lat, active) && 0 < lat.Count()
    requires Pow2(lat.Count()) <= reachable.Length && Pow2(lat.Count()) <= live.Length && reachable != live
    requires forall s :: 0 <= s < reachable.Length ==> reachable[s] != generation
    requires forall s :: 0 <= s < live.Length ==> live[s] != generation
    modifies reachable, live
    ensures supported <==> CanFinish(lat, active, {})
    ensures forall s: nat :: s < Pow2(lat.Count()) ==>
              (reachable[s] == generation <==> Reachable(lat, active, Members(s, lat.Count())))
    ensures supported ==> forall s: nat :: s < Pow2(lat.Count()) ==>
              (live[s] == generation <==> s in LiveStates(lat, active))
    ensures supported ==> DomainsFit(lat, narrowed)
    ensures supported ==> forall o: nat, k: nat :: o in lat.Everything() ==>
              (k in narrowed[o] <==> UsedSomewhere(lat, active, o, k))
    ensures supported ==> forall o :: 0 <= o < lat.Count() ==> narrowed[o] != {} && narrowed[o] <= active[o]
    ensures forall s :: 0 <= s < reachable.Length ==> reachable[s] == generation || reachable[s] == old(reachable[s])
    ensures forall s :: 0 <= s < live.Length ==> live[s] == generation || live[s] == old(live[s])
  {
    var n := lat.Count();
    var terminal := Pow2(n) - 1;
    narrowed := active;
    ForwardPass(lat, active, reachable, generation);
    AllOnesIsFull(n);
    ZeroIsEmpty(n);
    StartIsReachable(lat, active);
    EndsMeet(lat, active);
    if reachable[terminal] != generation {
      return false, narrowed;
    }
    var recorded := BackwardPass(lat, active, reachable, live, generation);
    narrowed := NarrowDomains(lat, active, recorded);
    supported := live[0] == generation;
  }

  lemma EndsMeet(lat: Lattice, active: Domains)
    requires DomainsFit(lat, active)
    ensures CanFinish(lat, active, {}) <==> Reachable(lat, active, lat.Everything())
  {
    if Reachable(lat, active, lat.Everything()) {
      EndFinishes(lat, active);
      FinishFromStart(lat, active, lat.Everything());
    }
    if CanFinish(lat, active, {}) {
      StartIsReachable(lat, active);
      ReachTheEnd(lat, active, {});
    }
  }
}
