/** The packing search: memoised pivot branching with component composition. */
module ExactCover {
  import opened Folding
  import opened Nibbles
  import opened Cover
  import opened Composition
  import opened Shares
  import Table = ComponentTable
  import Parts = Decomposition

  /** What the pruners make of a state: nothing fits, or branch on a cell over some rows. */
  datatype Decision = Prune | Branch(cell: nat, keep: set<nat>)

  /** Choices that the search takes from code outside this model. The last argument counts
      expanded states, so a choice may differ between visits to the same state. */
  datatype Policy = Policy(
    decide: (set<nat>, Counts, nat) -> Decision,
    analyse: (set<nat>, nat) -> bool,
    authorise: nat -> bool,
    tableFits: nat -> bool,
    memoFits: nat -> bool,
    slot: (nat, nat) -> nat)

  /** A pruned state has no cover, and a kept row set loses no cover through the pivot. */
  ghost predicate SoundDecision(z: Puzzle, cells: set<nat>, counts: Counts, decision: Decision) {
    match decision
    case Prune => forall S :: !IsCover(z, S, cells, counts)
    case Branch(cell, keep) =>
      && cell in cells
      && forall S, r :: IsCover(z, S, cells, counts) && Chooses(z.rows, S, cell, r) ==> r in keep
  }

  ghost predicate SoundPolicy(z: Puzzle, policy: Policy) {
    forall cells, counts, tick: nat :: cells != {} && CanFit(z.rule, counts) ==>
      SoundDecision(z, cells, counts, policy.decide(cells, counts, tick))
  }

  /** Several runs must agree on the pivot of a state. */
  ghost predicate SteadyPivot(policy: Policy, share: Share) {
    share.count != 1 ==>
      forall cells, counts, tick: nat :: policy.decide(cells, counts, tick).Branch? ==>
        policy.decide(cells, counts, tick).cell == share.pivot(cells, counts)
  }

  type Memo = map<(set<nat>, nat), Family>

  ghost predicate Keyed(key: (set<nat>, nat), counts: Counts) {
    Fit(counts) && PackCounts(counts) == key.1
  }

  /** Whatever the memo holds is the answer for every state with that key. */
  ghost predicate MemoSound(z: Puzzle, memo: Memo) {
    forall key, counts :: key in memo && Keyed(key, counts) ==> IsFamily(z, memo[key], key.0, counts)
  }

  /** What the search relies on, folded until a proof asks for it. */
  ghost predicate Trusted(z: Puzzle, policy: Policy, share: Share, memo: Memo) {
    forall u: nat {:trigger Unfold(u)} :: Unfold(u) ==>
      SoundPolicy(z, policy) && SteadyPivot(policy, share) && MemoSound(z, memo)
  }

  lemma MemoStays(z: Puzzle, memo: Memo, cells: set<nat>, counts: Counts, family: Family)
    requires MemoSound(z, memo) && Fit(counts) && IsFamily(z, family, cells, counts)
    ensures MemoSound(z, memo[(cells, PackCounts(counts)) := family])
  {
    var entry := (cells, PackCounts(counts));
    var next := memo[entry := family];
    forall key, other | key in next && Keyed(key, other)
      ensures IsFamily(z, next[key], key.0, other)
    {
      if key == entry {
        PackCountsInjective(counts, other);
      }
    }
  }

  lemma FitsNibbles(z: Puzzle, counts: Counts)
    requires z.Valid() && CanFit(z.rule, counts)
    ensures Fit(counts)
  {
    forall p | 0 <= p < 8
      ensures counts[p] < 16
    {
      assert counts[p] <= z.rule.window[p] <= 15;
    }
  }

  // ------------------------------------------------------------------
  // Pivot branching
  // ------------------------------------------------------------------

  /** Adds one row to every member. */
  function Attach(family: Family, r: nat): Family {
    set S | S in family :: S + {r}
  }

  /** A cover of this run that owns the pivot cell by row `r`. */
  ghost predicate MineVia(
    z: Puzzle, share: Share, S: set<nat>, cells: set<nat>, counts: Counts, depth: nat, hash: nat, cell: nat, r: nat)
    requires share.Valid(z)
  {
    Mine(z, share, S, cells, counts, depth, hash) && Chooses(z.rows, S, cell, r)
  }

  predicate Taken(
    z: Puzzle, share: Share, cells: set<nat>, counts: Counts, active: set<nat>, depth: nat, hash: nat, cell: nat,
    keep: set<nat>, r: nat)
    requires 0 < share.count && r < |z.rows|
  {
    && cell in z.rows[r].cells && r in keep && RowIsFeasible(z, counts, active, r, cells)
    && OwnsPrefix(share, depth + 1, share.mix(hash, r + 1))
  }

  /** A row that is passed over belongs to no cover of this run through the pivot. */
  lemma SkippedRow(
      z: Puzzle, share: Share, cells: set<nat>, counts: Counts, active: set<nat>, depth: nat, hash: nat, cell: nat,
      keep: set<nat>, r: nat, S: set<nat>)
    requires z.Valid() && share.Valid(z) && CanFit(z.rule, counts) && Tracks(z.rule, counts, active)
    requires SoundDecision(z, cells, counts, Branch(cell, keep))
    requires Divides(share, depth) ==> cell == share.pivot(cells, counts)
    requires r < |z.rows| && !Taken(z, share, cells, counts, active, depth, hash, cell, keep, r)
    ensures !MineVia(z, share, S, cells, counts, depth, hash, cell, r)
  {
    if Mine(z, share, S, cells, counts, depth, hash) && Chooses(z.rows, S, cell, r) {
      CoverSplit(z, S, cells, counts, r);
      PartitionSplit(z.rows, S, cells, r);
      FeasibleMeansFits(z, counts, active, r, cells);
      OwnershipStep(z, share, S, cells, counts, depth, hash, r);
    }
  }

  /** A row that is taken contributes exactly the covers of this run through it. */
  lemma TakenRow(
      z: Puzzle, share: Share, cells: set<nat>, counts: Counts, active: set<nat>, depth: nat, hash: nat, cell: nat,
      keep: set<nat>, r: nat, child: Family, S: set<nat>)
    requires z.Valid() && share.Valid(z) && CanFit(z.rule, counts) && Tracks(z.rule, counts, active)
    requires Divides(share, depth) ==> cell == share.pivot(cells, counts)
    requires r < |z.rows| && Taken(z, share, cells, counts, active, depth, hash, cell, keep, r)
    requires Returns(z, share, child, cells - z.rows[r].cells, Add(counts, z.rows[r].piece),
              depth + 1, share.mix(hash, r + 1))
    ensures S in Attach(child, r) <==> MineVia(z, share, S, cells, counts, depth, hash, cell, r)
  {
    assert Unfold(0);
    if S in Attach(child, r) {
      var T :| T in child && S == T + {r};
      JoinedIsMine(z, share, cells, counts, depth, hash, cell, r, T);
    }
    if Mine(z, share, S, cells, counts, depth, hash) && Chooses(z.rows, S, cell, r) {
      OwnershipStep(z, share, S, cells, counts, depth, hash, r);
      assert S - {r} in child;
      assert S == (S - {r}) + {r};
    }
  }

  lemma JoinedIsMine(
      z: Puzzle, share: Share, cells: set<nat>, counts: Counts, depth: nat, hash: nat, cell: nat, r: nat, T: set<nat>)
    requires z.Valid() && share.Valid(z) && r < |z.rows| && IsPiece(z.rows[r].piece)
    requires z.rows[r].cells <= cells && cell in z.rows[r].cells
    requires Divides(share, depth) ==> cell == share.pivot(cells, counts)
    requires OwnsPrefix(share, depth + 1, share.mix(hash, r + 1))
    requires Mine(z, share, T, cells - z.rows[r].cells, Add(counts, z.rows[r].piece), depth + 1, share.mix(hash, r + 1))
    ensures MineVia(z, share, T + {r}, cells, counts, depth, hash, cell, r)
  {
    CoverJoin(z, T, cells, counts, r);
    assert (T + {r}) - {r} == T;
    OwnershipStep(z, share, T + {r}, cells, counts, depth, hash, r);
  }

  lemma EveryCoverChooses(
      z: Puzzle, share: Share, cells: set<nat>, counts: Counts, depth: nat, hash: nat, cell: nat, S: set<nat>)
    requires share.Valid(z) && cell in cells
    ensures Mine(z, share, S, cells, counts, depth, hash) <==>
            exists r: nat :: r < |z.rows| && MineVia(z, share, S, cells, counts, depth, hash, cell, r)
  {
    if Mine(z, share, S, cells, counts, depth, hash) {
      var r := CoverOwnsCell(z, S, cells, counts, cell);
      assert MineVia(z, share, S, cells, counts, depth, hash, cell, r);
    }
  }

  predicate ExactMatch(rule: PieceRule, active: set<nat>, counts: Counts) {
    rule.constrained ==> exists i :: i in active && i < |rule.members| && rule.members[i] == counts
  }

  /** With nothing left to fill, the counts decide. */
  lemma LeafIsExact(z: Puzzle, share: Share, counts: Counts, active: set<nat>, depth: nat, hash: nat)
    requires z.Valid() && share.Valid(z) && CanFit(z.rule, counts) && Tracks(z.rule, counts, active) &&
              depth == Total(counts)
    ensures Returns(z, share, if depth == z.target && ExactMatch(z.rule, active, counts) then {{}}
              else {}, {}, counts, depth, hash)
  {
    assert ExactMatch(z.rule, active, counts) <==> Accepts(z.rule, counts) by {
      if z.rule.constrained && Accepts(z.rule, counts) {
        var i :| 0 <= i < |z.rule.members| && z.rule.members[i] == counts;
        assert i in active;
      }
    }
    forall S
      ensures Mine(z, share, S, {}, counts, depth, hash) <==> S == {} && depth == z.target && Accepts(z.rule, counts)
    {
      CoverOfNothing(z, S, counts);
    }
  }

  // ------------------------------------------------------------------
  // Components
  // ------------------------------------------------------------------

  function RowCells(z: Puzzle): (cells: seq<set<nat>>)
    ensures |cells| == |z.rows|
  {
    seq(|z.rows|, r requires 0 <= r < |z.rows| => z.rows[r].cells)
  }

  /** The rows the decomposition of a state joins cells by. */
  ghost function StateRows(z: Puzzle, cells: set<nat>, counts: Counts, active: set<nat>): set<set<nat>> {
    Parts.JoiningRows(RowCells(z), cells, (r: nat) => RowIsFeasible(z, counts, active, r, cells), |z.rows|)
  }

  lemma CoverRowJoins(z: Puzzle, S: set<nat>, cells: set<nat>, counts: Counts, active: set<nat>, r: nat)
    requires z.Valid() && CanFit(z.rule, counts) && Tracks(z.rule, counts, active)
    requires IsCover(z, S, cells, counts) && r in S
    ensures r < |z.rows| && z.rows[r].cells in StateRows(z, cells, counts, active)
  {
    CoverSplit(z, S, cells, counts, r);
    PartitionSplit(z.rows, S, cells, r);
    FeasibleMeansFits(z, counts, active, r, cells);
    assert RowCells(z)[r] == z.rows[r].cells;
    assert z.rows[r].cells != {};
    assert Parts.Joins(RowCells(z), cells, (q: nat) => RowIsFeasible(z, counts, active, q, cells), r);
  }

  /** A cell that no feasible row reaches leaves the state without a cover. */
  lemma UnsupportedMeansNoCover(z: Puzzle, cells: set<nat>, counts: Counts, active: set<nat>, cell: nat)
    requires z.Valid() && CanFit(z.rule, counts) && Tracks(z.rule, counts, active)
    requires cell in cells && !Parts.Covered(StateRows(z, cells, counts, active), cell)
    ensures forall S :: !IsCover(z, S, cells, counts)
  {
    forall S | IsCover(z, S, cells, counts)
      ensures false
    {
      var r := CoverOwnsCell(z, S, cells, counts, cell);
      CoverRowJoins(z, S, cells, counts, active, r);
    }
  }

  /** Every cover respects a part of the decomposition. */
  lemma CoverSplitsAtPart(
      z: Puzzle, parts: seq<set<nat>>, cells: set<nat>, counts: Counts, active: set<nat>, S: set<nat>, index: nat)
    requires z.Valid() && CanFit(z.rule, counts) && Tracks(z.rule, counts, active)
    requires Parts.IsPartition(parts, cells) && Parts.IsFinest(parts, StateRows(z, cells, counts, active))
    requires index < |parts| && IsCover(z, S, cells, counts)
    ensures parts[index] <= cells && Splits(z.rows, S, cells, parts[index])
  {
    Parts.FlattenHolds(parts, index);
    forall r | r in S
      ensures r < |z.rows| && (z.rows[r].cells <= parts[index] || z.rows[r].cells <= cells - parts[index])
    {
      CoverRowJoins(z, S, cells, counts, active, r);
      Parts.PartSplitsRow(parts, cells, StateRows(z, cells, counts, active), z.rows[r].cells, index);
    }
  }

  /** A part whose size is no multiple of four leaves the state without a cover. */
  lemma OddPartMeansNoCover(
      z: Puzzle, parts: seq<set<nat>>, cells: set<nat>, counts: Counts, active: set<nat>, index: nat)
    requires z.Valid() && CanFit(z.rule, counts) && Tracks(z.rule, counts, active)
    requires Parts.IsPartition(parts, cells) && Parts.IsFinest(parts, StateRows(z, cells, counts, active))
    requires index < |parts| && |parts[index]| % 4 != 0
    ensures forall S :: !IsCover(z, S, cells, counts)
  {
    forall S | IsCover(z, S, cells, counts)
      ensures false
    {
      CoverSplitsAtPart(z, parts, cells, counts, active, S, index);
      RestrictedSize(z, S, cells, counts, parts[index]);
    }
  }

  lemma RestrictedSize(z: Puzzle, S: set<nat>, cells: set<nat>, counts: Counts, component: set<nat>)
    requires z.Valid() && IsCover(z, S, cells, counts) && component <= cells && Splits(z.rows, S, cells, component)
    ensures |component| % 4 == 0
  {
    PartitionRestricts(z, S, cells, component);
    PartitionSize(z, Within(z.rows, S, component), component);
  }

  // ------------------------------------------------------------------
  // Products over signatures
  // ------------------------------------------------------------------

  function Product(left: Family, right: Family): Family {
    set A, B | A in left && B in right :: A + B
  }

  /** The entries are exactly the partitions of the component that fit, by signature. */
  ghost predicate Enumerates(z: Puzzle, entries: seq<Table.Entry>, component: set<nat>, counts: Counts) {
    && Table.WellFormed(entries)
    && forall g, A :: Table.Holds(entries, g, A) <==> Table.Solves(z, A, {}, component, counts, ZERO, g)
  }

  /** `S` is a member of one entry joined with a cover of the rest. */
  ghost predicate FromEntry(z: Puzzle, entry: Table.Entry, S: set<nat>, rest: set<nat>, counts: Counts) {
    exists A, B :: A in entry.family && IsCover(z, B, rest, Sum(counts, Unpack(entry.signature))) && S == A + B
  }

  /** Every member of an entry raises the counts by the entry's signature. */
  lemma EntryCounts(z: Puzzle, entries: seq<Table.Entry>, component: set<nat>, counts: Counts, index: nat, A: set<nat>)
    requires z.Valid() && Enumerates(z, entries, component, counts) && index < |entries| && A in entries[index].family
    ensures Partitions(z.rows, A, component)
    ensures Plus(z.rows, counts, A) == Sum(counts, Unpack(entries[index].signature))
    ensures CanFit(z.rule, Sum(counts, Unpack(entries[index].signature)))
    ensures Total(Unpack(entries[index].signature)) == |A|
    ensures |component| == 4 * |A|
  {
    var g := entries[index].signature;
    assert Table.Holds(entries, g, A);
    assert A - {} == A;
    TallyFits(z, counts, A);
    UnpackOfPack(Tally(z.rows, A));
    PlusIsSum(z.rows, counts, A);
    TotalPlus(z.rows, ZERO, A);
    PartitionSize(z, A, component);
  }

  /** Joining the entries with the covers of the rest gives exactly the covers. */
  lemma ProductsAreCovers(
      z: Puzzle, entries: seq<Table.Entry>, component: set<nat>, cells: set<nat>, counts: Counts, S: set<nat>)
    requires z.Valid() && Enumerates(z, entries, component, counts) && component <= cells
    requires IsCover(z, S, cells, counts) ==> Splits(z.rows, S, cells, component)
    ensures IsCover(z, S, cells, counts) <==>
            exists i: nat :: i < |entries| && FromEntry(z, entries[i], S, cells - component, counts)
  {
    if IsCover(z, S, cells, counts) {
      var i := CoverHasEntry(z, entries, component, cells, counts, S);
    }
    forall i: nat | i < |entries| && FromEntry(z, entries[i], S, cells - component, counts)
      ensures IsCover(z, S, cells, counts)
    {
      EntryGivesCover(z, entries, component, cells, counts, S, i);
    }
  }

  lemma EntryGivesCover(
      z: Puzzle, entries: seq<Table.Entry>, component: set<nat>, cells: set<nat>, counts: Counts, S: set<nat>, i: nat)
    requires z.Valid() && Enumerates(z, entries, component, counts) && component <= cells
    requires i < |entries| && FromEntry(z, entries[i], S, cells - component, counts)
    ensures IsCover(z, S, cells, counts)
  {
    var A, B :| A in entries[i].family &&
        IsCover(z, B, cells - component, Sum(counts, Unpack(entries[i].signature))) && S == A + B;
    EntryCounts(z, entries, component, counts, i, A);
    CoverComposes(z, A, B, cells, component, counts);
  }

  lemma CoverHasEntry(
      z: Puzzle, entries: seq<Table.Entry>, component: set<nat>, cells: set<nat>, counts: Counts, S: set<nat>)
    returns (i: nat)
    requires z.Valid() && Enumerates(z, entries, component, counts) && component <= cells
    requires IsCover(z, S, cells, counts) && Splits(z.rows, S, cells, component)
    ensures i < |entries| && FromEntry(z, entries[i], S, cells - component, counts)
  {
    var A, B := CoverFactors(z, S, cells, component, counts);
    i := PartHasEntry(z, entries, component, counts, A);
    FactorsGiveEntry(z, entries[i], A, B, cells - component, counts);
  }

  lemma CoverFactors(
      z: Puzzle, S: set<nat>, cells: set<nat>, component: set<nat>, counts: Counts)
    returns (A: set<nat>, B: set<nat>)
    requires z.Valid() && component <= cells && IsCover(z, S, cells, counts) && Splits(z.rows, S, cells, component)
    ensures Partitions(z.rows, A, component) && CanFit(z.rule, Plus(z.rows, counts, A))
    ensures IsCover(z, B, cells - component, Plus(z.rows, counts, A)) && S == A + B
  {
    CoverRestricts(z, S, cells, component, counts);
    A := Within(z.rows, S, component);
    B := S - A;
  }

  lemma FactorsGiveEntry(z: Puzzle, entry: Table.Entry, A: set<nat>, B: set<nat>, rest: set<nat>, counts: Counts)
    requires A in entry.family && Plus(z.rows, counts, A) == Sum(counts, Unpack(entry.signature))
    requires IsCover(z, B, rest, Plus(z.rows, counts, A))
    ensures FromEntry(z, entry, A + B, rest, counts)
  {
  }

  lemma PartHasEntry(
      z: Puzzle, entries: seq<Table.Entry>, component: set<nat>, counts: Counts, A: set<nat>)
    returns (i: nat)
    requires z.Valid() && Enumerates(z, entries, component, counts)
    requires Partitions(z.rows, A, component) && CanFit(z.rule, Plus(z.rows, counts, A))
    ensures i < |entries| && A in entries[i].family
    ensures Plus(z.rows, counts, A) == Sum(counts, Unpack(entries[i].signature))
  {
    var g := PackCounts(Tally(z.rows, A));
    assert A - {} == A;
    assert Table.Solves(z, A, {}, component, counts, ZERO, g);
    assert Table.Holds(entries, g, A);
    i :| 0 <= i < |entries| && entries[i].signature == g && A in entries[i].family;
    EntryCounts(z, entries, component, counts, i, A);
  }
}
