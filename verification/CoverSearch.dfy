/** The mutable search object: piece counts, residual memo and state counter. */
module CoverSearch {
  import opened Options
  import opened Bits
  import opened Folding
  import opened Nibbles
  import opened Cover
  import opened Composition
  import opened Shares
  import opened ExactCover
  import Table = ComponentTable
  import NodeIndex
  import Parts = Decomposition
  import opened Sets
  import opened CellSupport
  import Accumulator

  /** The set of the first `count` chosen rows, as a family with one member. */
  method PathFamily(rowIds: array<nat>, count: nat) returns (family: Family)
    requires count <= rowIds.Length
    ensures family == {ToSet(rowIds[..count])}
  {
    family := {{}};
    var index := count;
    assert rowIds[count..count] == [] && ToSet([]) == {};
    while index != 0
      invariant 0 <= index <= count
      invariant family == {ToSet(rowIds[index..count])}
    {
      index := index - 1;
      ToSetCons(rowIds[index..count]);
      assert rowIds[index..count][1..] == rowIds[index + 1..count];
      ghost var tail := ToSet(rowIds[index + 1..count]);
      assert {rowIds[index]} + tail == tail + {rowIds[index]};
      assert Attach({tail}, rowIds[index]) == {tail + {rowIds[index]}};
      family := Attach(family, rowIds[index]);
    }
  }

  lemma StillFits(z: Puzzle, raised: Counts, total: Counts, piece: nat)
    requires z.Valid() && AtMost(raised, total) && IsPiece(piece)
    ensures CanFit(z.rule, total) ==> raised[piece] <= 15 && (z.rule.constrained ==> Active(z.rule, raised) != {})
  {
    if CanFit(z.rule, total) {
      CanFitMonotone(z.rule, raised, total);
      assert raised[piece] <= z.rule.window[piece] <= 15;
    }
  }

  /** The active members after a whole signature is added to the counts. */
  method AdvanceSignature(
      z: Puzzle, counts: Counts, active: set<nat>, signature: nat)
    returns (ok: bool, next: set<nat>)
    requires z.Valid() && Tracks(z.rule, counts, active)
    ensures ok ==> Tracks(z.rule, Sum(counts, Unpack(signature)), next)
    ensures CanFit(z.rule, Sum(counts, Unpack(signature))) ==> ok
  {
    ghost var total := Sum(counts, Unpack(signature));
    ghost var raised: Counts := counts;
    next := active;
    for piece := 1 to 8
      invariant forall q :: 1 <= q < piece ==> raised[q] == total[q]
      invariant forall q :: piece <= q < 8 ==> raised[q] == counts[q]
      invariant Tracks(z.rule, raised, next)
    {
      var count := Nibble(signature, piece - 1);
      assert total[piece] == counts[piece] + count;
      for offset := 1 to count + 1
        invariant raised[piece] == counts[piece] + offset - 1
        invariant forall q :: 1 <= q < piece ==> raised[q] == total[q]
        invariant forall q :: piece < q < 8 ==> raised[q] == counts[q]
        invariant Tracks(z.rule, raised, next)
      {
        AdvanceTracks(z.rule, raised, next, piece);
        raised := Add(raised, piece);
        next := Advance(z.rule, next, piece, counts[piece] + offset);
        StillFits(z, raised, total, piece);
        if counts[piece] + offset > 15 || (z.rule.constrained && next == {}) {
          return false, {};
        }
      }
    }
    assert raised == total;
    return true, next;
  }

  /** The covers that each entry contributes. */
  ghost function FromEntries(z: Puzzle, entries: seq<Table.Entry>, remainder: set<nat>, counts: Counts)
    : (from: (set<nat>, nat) -> bool)
    ensures ComesFrom(from, z, entries, remainder, counts)
  {
    (S: set<nat>, i: nat) => i < |entries| && FromEntry(z, entries[i], S, remainder, counts)
  }

  ghost predicate ComesFrom(
    from: (set<nat>, nat) -> bool, z: Puzzle, entries: seq<Table.Entry>, remainder: set<nat>, counts: Counts)
  {
    forall u: nat {:trigger Unfold(u)} :: Unfold(u) ==>
      forall S, i: nat :: from(S, i) <==> i < |entries| && FromEntry(z, entries[i], S, remainder, counts)
  }

  lemma EntriesUnited(
      from: (set<nat>, nat) -> bool, z: Puzzle, entries: seq<Table.Entry>, remainder: set<nat>, counts: Counts,
      family: Family)
    requires ComesFrom(from, z, entries, remainder, counts)
    requires forall S :: S in family <==> exists i: nat :: i < |entries| && from(S, i)
    ensures forall S :: S in family <==>
              exists i: nat :: i < |entries| && FromEntry(z, entries[i], S, remainder, counts)
  {
    assert Unfold(0);
    forall S
      ensures S in family <==> exists i: nat :: i < |entries| && FromEntry(z, entries[i], S, remainder, counts)
    {
      if S in family {
        var i: nat :| i < |entries| && from(S, i);
        assert FromEntry(z, entries[i], S, remainder, counts);
      }
      if i: nat :| i < |entries| && FromEntry(z, entries[i], S, remainder, counts) {
        assert from(S, i);
      }
    }
  }

  datatype Analysis = NoCover | Connected | Split(owner: set<nat>, remainder: set<nat>)

  /** The first part that rows of four cells cannot fill. */
  method FindOddPart(parts: seq<set<nat>>) returns (index: nat)
    ensures index <= |parts|
    ensures forall i :: 0 <= i < index ==> |parts[i]| % 4 == 0
    ensures index < |parts| ==> |parts[index]| % 4 != 0
  {
    index := 0;
    while index < |parts| && |parts[index]| % 4 == 0
      invariant 0 <= index <= |parts|
      invariant forall i :: 0 <= i < index ==> |parts[i]| % 4 == 0
    {
      index := index + 1;
    }
  }

  class Search {
    const z: Puzzle
    const required: set<nat>
    const policy: Policy
    const share: Share
    const index: Index
    var used: Counts
    var memo: Memo
    var expanded: nat

    constructor (z: Puzzle, required: set<nat>, policy: Policy, share: Share, index: Index)
      requires Indexes(index, RowCells(z), required)
      requires z.Valid() && Parts.InCells(required) && share.Valid(z) && NodeIndex.Proper(policy.slot)
      requires SoundPolicy(z, policy) && SteadyPivot(policy, share)
      ensures Valid() && used == ZERO
      ensures this.z == z && this.required == required && this.policy == policy && this.share == share &&
                this.index == index
    {
      this.z, this.required, this.policy, this.share, this.index := z, required, policy, share, index;
      used, memo, expanded := ZERO, map[], 0;
    }

    ghost predicate Sane() {
      z.Valid() && Parts.InCells(required) && Indexes(index, RowCells(z), required)
    }

    ghost predicate Valid()
      reads this
    {
      && Sane() && share.Valid(z) && NodeIndex.Proper(policy.slot)
      && Trusted(z, policy, share, memo)
    }

    /** The counts can still be completed and the active members belong to them. */
    ghost predicate Ready(active: set<nat>)
      reads this
    {
      CanFit(z.rule, used) && Tracks(z.rule, used, active)
    }

    // ----------------------------------------------------------------
    // Enumerating one component
    // ----------------------------------------------------------------

    method Enumerate(
        cells: set<nat>, depth: nat, signature: nat, active: set<nat>, rowIds: array<nat>, table: Table.SolutionTable,
        ghost local: Counts)
      requires Sane() && Ready(active) && cells <= required
      requires rowIds.Length == 15 && 4 * depth + |cells| <= 60
      requires AtMost(local, used) && signature == PackCounts(local)
      requires CellsOf(z.rows, ToSet(rowIds[..depth])) !! cells
      requires table.Valid()
      modifies this`used, this`expanded, rowIds, table`families, table.index
      ensures used == old(used) && rowIds[..depth] == old(rowIds[..depth])
      ensures table.Valid()
      ensures forall g, S :: Table.Holds(table.Entries(), g, S) <==>
                Table.Holds(old(table.Entries()), g, S) ||
                    Table.Solves(z, S, ToSet(rowIds[..depth]), cells, used, local, g)
      decreases |cells|
    {
      expanded := expanded + 1;
      ghost var path := ToSet(rowIds[..depth]);
      if cells == {} {
        var family := PathFamily(rowIds, depth);
        table.Insert(signature, family, policy.tableFits(expanded));
        forall g, S
          ensures Table.Solves(z, S, path, cells, used, local, g) <==> g == signature && S in family
        {
          Table.SolvesNothing(z, S, path, used, local, g);
        }
        return;
      }
      var found, pivot := Table.SelectPivot(z, used, active, cells);
      if !found {
        forall g, S
          ensures !Table.Solves(z, S, path, cells, used, local, g)
        {
          if Table.Solves(z, S, path, cells, used, local, g) {
            SolutionHasSupport(active, S, path, cells, local, g, pivot);
          }
        }
        return;
      }
      EnumerateRows(cells, depth, signature, active, rowIds, table, pivot, local);
      forall g, S
        ensures Table.Solves(z, S, path, cells, used, local, g) <==>
                SolvesBelow(S, path, cells, local, g, pivot, |SliceOf(index, pivot)|)
      {
        Table.SolvesBranches(z, S, path, cells, used, local, g, pivot);
        SliceSolves(S, path, cells, local, g, pivot);
      }
    }

    /** Solutions whose pivot row is among the first `limit` of the pivot's slice. */
    ghost predicate SolvesBelow(
      S: set<nat>, path: set<nat>, cells: set<nat>, local: Counts, g: nat, pivot: nat, limit: nat)
      reads this`used
    {
      exists k: nat :: k < limit && k < |SliceOf(index, pivot)| &&
        Table.SolvesVia(z, S, path, cells, used, local, g, pivot, SliceOf(index, pivot)[k])
    }

    lemma SliceSolves(S: set<nat>, path: set<nat>, cells: set<nat>, local: Counts, g: nat, pivot: nat)
      requires Sane() && pivot in required
      ensures SolvesBelow(S, path, cells, local, g, pivot, |SliceOf(index, pivot)|) <==>
              exists r: nat :: Table.SolvesVia(z, S, path, cells, used, local, g, pivot, r)
    {
      SliceHas(index, RowCells(z), required, pivot);
      if r: nat :| Table.SolvesVia(z, S, path, cells, used, local, g, pivot, r) {
        assert pivot in RowCells(z)[r];
        var k: nat :| k < |SliceOf(index, pivot)| && SliceOf(index, pivot)[k] == r;
      }
    }

    lemma SolutionHasSupport(
        active: set<nat>, S: set<nat>, path: set<nat>, cells: set<nat>, local: Counts, g: nat, pivot: nat)
      requires Sane() && Ready(active) && pivot in cells && CellsOf(z.rows, path) !! cells
      requires Table.Solves(z, S, path, cells, used, local, g)
      ensures Table.Support(z, used, active, cells, pivot, |z.rows|) != {}
    {
      Table.SolvesBranches(z, S, path, cells, used, local, g, pivot);
      var r: nat :| Table.SolvesVia(z, S, path, cells, used, local, g, pivot, r);
      FeasibleMeansFits(z, used, active, r, cells);
      assert r in Table.Support(z, used, active, cells, pivot, |z.rows|);
    }

    method EnumerateRows(
        cells: set<nat>, depth: nat, signature: nat, active: set<nat>, rowIds: array<nat>, table: Table.SolutionTable,
        pivot: nat, ghost local: Counts)
      requires Sane() && Ready(active) && cells <= required && pivot in cells
      requires rowIds.Length == 15 && 4 * depth + |cells| <= 60
      requires AtMost(local, used) && signature == PackCounts(local)
      requires CellsOf(z.rows, ToSet(rowIds[..depth])) !! cells
      requires table.Valid()
      modifies this`used, this`expanded, rowIds, table`families, table.index
      ensures used == old(used) && rowIds[..depth] == old(rowIds[..depth])
      ensures table.Valid()
      ensures forall g, S :: Table.Holds(table.Entries(), g, S) <==>
                Table.Holds(old(table.Entries()), g, S) ||
                    SolvesBelow(S, ToSet(rowIds[..depth]), cells, local, g, pivot, |SliceOf(index, pivot)|)
      decreases |cells|, 0, 2
    {
      ghost var entries := table.Entries();
      ghost var chosen := rowIds[..depth];
      ghost var path := ToSet(chosen);
      var through := SliceOf(index, pivot);
      SliceHas(index, RowCells(z), required, pivot);
      for k := 0 to |through|
        invariant used == old(used)
        invariant rowIds[..depth] == chosen
        invariant table.Valid()
        invariant forall g, S :: Table.Holds(table.Entries(), g, S) <==>
                    Table.Holds(entries, g, S) || SolvesBelow(S, path, cells, local, g, pivot, k)
      {
        ghost var before := table.Entries();
        EnumerateIfFeasible(cells, depth, signature, active, rowIds, table, through[k], pivot, local);
        forall g, S
          ensures Table.Holds(table.Entries(), g, S) <==>
                  Table.Holds(entries, g, S) || SolvesBelow(S, path, cells, local, g, pivot, k + 1)
        {
          assert Table.Holds(table.Entries(), g, S) <==>
                 Table.Holds(before, g, S) || Table.SolvesVia(z, S, path, cells, used, local, g, pivot, through[k]);
          SolvesNext(S, path, cells, local, g, pivot, k);
        }
      }
    }

    lemma SolvesNext(S: set<nat>, path: set<nat>, cells: set<nat>, local: Counts, g: nat, pivot: nat, k: nat)
      requires k < |SliceOf(index, pivot)|
      ensures SolvesBelow(S, path, cells, local, g, pivot, k + 1) <==>
              SolvesBelow(S, path, cells, local, g, pivot, k) ||
              Table.SolvesVia(z, S, path, cells, used, local, g, pivot, SliceOf(index, pivot)[k])
    {
    }

    /** One row of the slice: skipped unless it is feasible. */
    method EnumerateIfFeasible(
        cells: set<nat>, depth: nat, signature: nat, active: set<nat>, rowIds: array<nat>,
        table: Table.SolutionTable, r: nat, ghost pivot: nat, ghost local: Counts)
      requires Sane() && Ready(active) && cells <= required && pivot in cells
      requires r < |z.rows| && pivot in z.rows[r].cells
      requires rowIds.Length == 15 && 4 * depth + |cells| <= 60
      requires AtMost(local, used) && signature == PackCounts(local)
      requires CellsOf(z.rows, ToSet(rowIds[..depth])) !! cells
      requires table.Valid()
      modifies this`used, this`expanded, rowIds, table`families, table.index
      ensures used == old(used) && rowIds[..depth] == old(rowIds[..depth])
      ensures table.Valid()
      ensures forall g, S :: Table.Holds(table.Entries(), g, S) <==>
                Table.Holds(old(table.Entries()), g, S) ||
                Table.SolvesVia(z, S, ToSet(rowIds[..depth]), cells, used, local, g, pivot, r)
      decreases |cells|, 0, 1
    {
      ghost var path := ToSet(rowIds[..depth]);
      FeasibleMeansFits(z, used, active, r, cells);
      if RowIsFeasible(z, used, active, r, cells) {
        EnumerateRow(cells, depth, signature, active, rowIds, table, r, local);
        assert forall g, S :: Table.SolvesVia(z, S, path, cells, used, local, g, pivot, r) <==>
                 Table.Solves(z, S, path + {r}, cells - z.rows[r].cells,
                              Add(used, z.rows[r].piece), Add(local, z.rows[r].piece), g);
      } else {
        assert forall g, S :: !Table.SolvesVia(z, S, path, cells, used, local, g, pivot, r);
      }
    }

    /** Takes one row: counts and path are changed around the recursive call and restored. */
    method EnumerateRow(
        cells: set<nat>, depth: nat, signature: nat, active: set<nat>, rowIds: array<nat>, table: Table.SolutionTable,
        r: nat, ghost local: Counts)
      requires Sane() && Ready(active) && cells <= required
      requires r < |z.rows| && RowIsFeasible(z, used, active, r, cells)
      requires rowIds.Length == 15 && 4 * depth + |cells| <= 60
      requires AtMost(local, used) && signature == PackCounts(local)
      requires CellsOf(z.rows, ToSet(rowIds[..depth])) !! cells
      requires table.Valid()
      modifies this`used, this`expanded, rowIds, table`families, table.index
      ensures used == old(used) && rowIds[..depth] == old(rowIds[..depth])
      ensures table.Valid()
      ensures forall g, S :: Table.Holds(table.Entries(), g, S) <==>
                Table.Holds(old(table.Entries()), g, S) ||
                Table.Solves(z, S, ToSet(rowIds[..depth]) + {r}, cells - z.rows[r].cells,
                             Add(used, z.rows[r].piece), Add(local, z.rows[r].piece), g)
      decreases |cells|, 0, 0
    {
      var piece := z.rows[r].piece;
      var rest := cells - z.rows[r].cells;
      ghost var chosen := rowIds[..depth];
      RowReady(cells, depth, active, ToSet(chosen), r, local);
      rowIds[depth] := r;
      ToSetSnoc(rowIds[..depth + 1]);
      assert rowIds[..depth + 1][..depth] == chosen;
      var nextActive := Advance(z.rule, active, piece, used[piece] + 1);
      RemoveUndoesAdd(used, piece);
      used := Add(used, piece);
      ghost var extended := rowIds[..depth + 1];
      Enumerate(rest, depth + 1, signature + Pow16(piece - 1), nextActive, rowIds, table, Add(local, piece));
      assert rowIds[..depth] == rowIds[..depth + 1][..depth] == extended[..depth];
      used := Remove(used, piece);
    }

    /** A feasible row keeps the state ready, and its signature field is below fifteen, so
        adding a unit to the signature never carries. */
    lemma RowReady(cells: set<nat>, depth: nat, active: set<nat>, path: set<nat>, r: nat, local: Counts)
      requires Sane() && Ready(active) && AtMost(local, used) && 4 * depth + |cells| <= 60
      requires r < |z.rows| && RowIsFeasible(z, used, active, r, cells) && CellsOf(z.rows, path) !! cells
      ensures var piece := z.rows[r].piece;
              && |cells - z.rows[r].cells| + 4 == |cells| && depth < 15
              && local[piece] < 15
              && CanFit(z.rule, Add(used, piece))
              && Tracks(z.rule, Add(used, piece), Advance(z.rule, active, piece, used[piece] + 1))
              && AtMost(Add(local, piece), Add(used, piece))
              && PackCounts(Add(local, piece)) == PackCounts(local) + Pow16(piece - 1)
              && CellsOf(z.rows, path + {r}) !! cells - z.rows[r].cells
    {
      TakeReady(cells, active, r);
      assert Unfold(0);
      RowFits(cells, r);
      RowCounts(active, cells, r, local);
      CellsOfAdd(z.rows, path, r);
    }

    lemma RowFits(cells: set<nat>, r: nat)
      requires Sane() && r < |z.rows| && z.rows[r].cells <= cells
      ensures |cells - z.rows[r].cells| + 4 == |cells|
    {
      assert cells == (cells - z.rows[r].cells) + z.rows[r].cells;
    }

    lemma RowCounts(active: set<nat>, cells: set<nat>, r: nat, local: Counts)
      requires Sane() && AtMost(local, used) && r < |z.rows| && RowIsFeasible(z, used, active, r, cells)
      ensures var piece := z.rows[r].piece;
              && IsPiece(piece) && local[piece] < 15 && AtMost(Add(local, piece), Add(used, piece))
              && PackCounts(Add(local, piece)) == PackCounts(local) + Pow16(piece - 1)
    {
      var piece := z.rows[r].piece;
      assert local[piece] <= used[piece] < z.rule.window[piece] <= 15;
      PackCountsAdd(local, piece);
    }

    // ----------------------------------------------------------------
    // The recursive search
    // ----------------------------------------------------------------

    /** Whether answers at this depth are complete families. */
    predicate Remembers(depth: nat) {
      share.count == 1 || depth >= share.depth
    }

    /** Stores an answer, if the memo has room for it. */
    method Remember(cells: set<nat>, depth: nat, family: Family, ghost hash: nat)
      requires Valid() && CanFit(z.rule, used) && Returns(z, share, family, cells, used, depth, hash)
      modifies this`memo
      ensures Valid()
    {
      if Remembers(depth) && policy.memoFits(expanded) {
        assert Unfold(0);
        FitsNibbles(z, used);
        assert IsFamily(z, family, cells, used) by {
          assert !Divides(share, depth);
        }
        MemoStays(z, memo, cells, used, family);
        memo := memo[(cells, PackCounts(used)) := family];
      }
    }

    /** Finds the covers of a state that belong to this run. */
    method SearchExactCover(cells: set<nat>, depth: nat, hash: nat, active: set<nat>) returns (family: Family)
      requires Valid() && Ready(active) && cells <= required && depth == Total(used)
      modifies this
      ensures Valid() && used == old(used)
      ensures Returns(z, share, family, cells, used, depth, hash)
      decreases |cells|, 3
    {
      var key := (cells, PackCounts(used));
      if Remembers(depth) && key in memo {
        assert Unfold(0);
        FitsNibbles(z, used);
        assert Keyed(key, used);
        return memo[key];
      }
      expanded := expanded + 1;
      if cells == {} {
        family := if depth == z.target && ExactMatch(z.rule, active, used) then {{}} else {};
        LeafIsExact(z, share, used, active, depth, hash);
        Remember(cells, depth, family, hash);
        return;
      }
      if depth >= z.target || |cells| != 4 * (z.target - depth) {
        family := {};
        assert |cells| > 0;
        WrongSizeMeansNoCover(z, cells, used);
        Remember(cells, depth, family, hash);
        return;
      }
      var applied;
      applied, family := TryComposition(cells, depth, hash, active);
      if !applied {
        family := BranchOrPrune(cells, depth, hash, active);
      }
      Remember(cells, depth, family, hash);
    }

    method BranchOrPrune(cells: set<nat>, depth: nat, hash: nat, active: set<nat>) returns (family: Family)
      requires Valid() && Ready(active) && cells <= required && depth == Total(used) && cells != {}
      modifies this
      ensures Valid() && used == old(used)
      ensures Returns(z, share, family, cells, used, depth, hash)
      decreases |cells|, 2
    {
      var decision := policy.decide(cells, used, expanded);
      assert SoundDecision(z, cells, used, decision) &&
          (Divides(share, depth) && decision.Branch? ==> decision.cell == share.pivot(cells, used)) by {
        assert Unfold(0);
      }
      match decision
      case Prune =>
        family := {};
      case Branch(cell, keep) =>
        family := BranchOnPivot(cells, depth, hash, active, cell, keep);
        forall S
          ensures S in family <==> Mine(z, share, S, cells, used, depth, hash)
        {
          EveryCoverChooses(z, share, cells, used, depth, hash, cell, S);
        }
    }

    /** Tries every row through the pivot, in row order, and unites what they give. */
    method BranchOnPivot(
        cells: set<nat>, depth: nat, hash: nat, active: set<nat>, cell: nat, keep: set<nat>)
      returns (family: Family)
      requires Valid() && Ready(active) && cells <= required && depth == Total(used)
      requires SoundDecision(z, cells, used, Branch(cell, keep))
      requires Divides(share, depth) ==> cell == share.pivot(cells, used)
      modifies this
      ensures Valid() && used == old(used)
      ensures forall S :: S in family <==>
                exists r: nat :: r < |z.rows| && MineVia(z, share, S, cells, used, depth, hash, cell, r)
      decreases |cells|, 1
    {
      var levels := new Family[Accumulator.LEVELS](i => {});
      Accumulator.Capacity();
      ghost var counts := used;
      var through := SliceOf(index, cell);
      SliceHas(index, RowCells(z), required, cell);
      ghost var via := ViaSlice(cells, depth, hash, cell, through);
      Accumulator.NothingCollected(levels[..], via);
      for k := 0 to |through|
        invariant Valid() && used == counts
        invariant Accumulator.Collects(levels[..], via, k)
      {
        ghost var before := levels[..];
        var branch := TryRow(cells, depth, hash, active, cell, keep, through[k]);
        assert levels[..] == before;
        Accumulator.AddBranch(levels, branch, via, k);
      }
      family := Accumulator.FinishBranches(levels, via, |through|);
      SliceIsEnough(cells, depth, hash, cell, through, via, family);
    }

    /** The covers of this run through the `k`-th row of a slice. */
    ghost function ViaSlice(cells: set<nat>, depth: nat, hash: nat, cell: nat, through: seq<nat>)
      : (via: (set<nat>, nat) -> bool)
      requires share.Valid(z)
      reads this`used
      ensures forall S, k: nat :: via(S, k) <==>
                k < |through| && MineVia(z, share, S, cells, used, depth, hash, cell, through[k])
    {
      var puzzle, mine, counts := z, share, used;
      (S: set<nat>, k: nat) =>
        k < |through| && mine.Valid(puzzle) && MineVia(puzzle, mine, S, cells, counts, depth, hash, cell, through[k])
    }

    /** Every row through the pivot is in its slice. */
    lemma SliceIsEnough(
        cells: set<nat>, depth: nat, hash: nat, cell: nat, through: seq<nat>, via: (set<nat>, nat) -> bool,
        family: Family)
      requires share.Valid(z) && via == ViaSlice(cells, depth, hash, cell, through)
      requires forall k :: 0 <= k < |through| ==> through[k] < |z.rows|
      requires forall r: nat :: r < |z.rows| && cell in RowCells(z)[r] ==> r in through
      requires forall S :: S in family <==> exists k: nat :: k < |through| && via(S, k)
      ensures forall S :: S in family <==>
                exists r: nat :: r < |z.rows| && MineVia(z, share, S, cells, used, depth, hash, cell, r)
    {
      forall S, r: nat | r < |z.rows| && MineVia(z, share, S, cells, used, depth, hash, cell, r)
        ensures S in family
      {
        assert cell in RowCells(z)[r];
        var k: nat :| k < |through| && through[k] == r;
        assert via(S, k);
      }
    }

    /** What one row through the pivot contributes. */
    method TryRow(
        cells: set<nat>, depth: nat, hash: nat, active: set<nat>, cell: nat, keep: set<nat>, r: nat)
      returns (branch: Family)
      requires Valid() && Ready(active) && cells <= required && depth == Total(used)
      requires SoundDecision(z, cells, used, Branch(cell, keep))
      requires Divides(share, depth) ==> cell == share.pivot(cells, used)
      requires r < |z.rows|
      modifies this
      ensures Valid() && used == old(used)
      ensures forall S :: S in branch <==> MineVia(z, share, S, cells, used, depth, hash, cell, r)
      decreases |cells|, 0, 1
    {
      if !Taken(z, share, cells, used, active, depth, hash, cell, keep, r) {
        forall S
          ensures !MineVia(z, share, S, cells, used, depth, hash, cell, r)
        {
          SkippedRow(z, share, cells, used, active, depth, hash, cell, keep, r, S);
        }
        return {};
      }
      TakeReady(cells, active, r);
      var next := Advance(z.rule, active, z.rows[r].piece, used[z.rows[r].piece] + 1);
      var child := TakeRow(cells, depth, hash, next, r);
      forall S
        ensures S in Attach(child, r) <==> MineVia(z, share, S, cells, used, depth, hash, cell, r)
      {
        TakenRow(z, share, cells, used, active, depth, hash, cell, keep, r, child, S);
      }
      branch := Attach(child, r);
    }

    /** Ready once the count of a piece is raised. */
    ghost predicate ReadyAfter(piece: nat, next: set<nat>)
      reads this`used
    {
      IsPiece(piece) && forall u: nat {:trigger Unfold(u)} :: Unfold(u) ==>
        CanFit(z.rule, Add(used, piece)) && Tracks(z.rule, Add(used, piece), next)
    }

    lemma TakeReady(cells: set<nat>, active: set<nat>, r: nat)
      requires Sane() && Ready(active) && r < |z.rows| && RowIsFeasible(z, used, active, r, cells)
      ensures var piece := z.rows[r].piece;
              && IsPiece(piece) && |cells - z.rows[r].cells| < |cells|
              && ReadyAfter(piece, Advance(z.rule, active, piece, used[piece] + 1))
    {
      assert cells == (cells - z.rows[r].cells) + z.rows[r].cells;
      FeasibleMeansFits(z, used, active, r, cells);
      AdvanceTracks(z.rule, used, active, z.rows[r].piece);
    }

    /** Searches the rest after one row; the piece count is raised meanwhile. */
    method TakeRow(cells: set<nat>, depth: nat, hash: nat, next: set<nat>, r: nat) returns (child: Family)
      requires Valid() && cells <= required && depth == Total(used) && r < |z.rows|
      requires ReadyAfter(z.rows[r].piece, next) && |cells - z.rows[r].cells| < |cells|
      modifies this
      ensures Valid() && used == old(used)
      ensures Returns(
                z, share, child, cells - z.rows[r].cells, Add(used, z.rows[r].piece), depth + 1, share.mix(hash, r + 1))
      decreases |cells|, 0, 0
    {
      var rest := cells - z.rows[r].cells;
      TotalAdd(used, z.rows[r].piece);
      child := Descend(rest, depth + 1, share.mix(hash, r + 1), next, z.rows[r].piece);
    }

    method Descend(rest: set<nat>, depth: nat, hash: nat, next: set<nat>, piece: nat) returns (child: Family)
      requires Valid() && rest <= required && ReadyAfter(piece, next) && depth == Total(Add(used, piece))
      modifies this
      ensures Valid() && used == old(used)
      ensures Returns(z, share, child, rest, Add(used, piece), depth, hash)
      decreases |rest|, 4
    {
      assert CanFit(z.rule, Add(used, piece)) && Tracks(z.rule, Add(used, piece), next) by {
        assert Unfold(0);
      }
      RemoveUndoesAdd(used, piece);
      used := Add(used, piece);
      child := SearchExactCover(rest, depth, hash, next);
      used := Remove(used, piece);
    }

    // ----------------------------------------------------------------
    // Composition
    // ----------------------------------------------------------------

    /** Looks for independent components among the remaining cells. */
    method AnalyseComponents(cells: set<nat>, active: set<nat>) returns (analysis: Analysis)
      requires Sane() && Ready(active) && cells <= required && cells != {}
      ensures analysis.NoCover? ==> forall S :: !IsCover(z, S, cells, used)
      ensures analysis.Split? ==>
                && analysis.owner != {} && analysis.owner <= cells && analysis.remainder == cells - analysis.owner
                && |analysis.owner| % 4 == 0
                && forall S :: IsCover(z, S, cells, used) ==> Splits(z.rows, S, cells, analysis.owner)
    {
      var puzzle, counts := z, used;
      var components := Parts.Decompose(RowCells(z), required, cells,
          (r: nat) => RowIsFeasible(puzzle, counts, active, r, cells));
      var parts := components.value.parts;
      assert Parts.IsFinest(parts, StateRows(z, cells, used, active));
      if components.value.unsupported != {} {
        ghost var cell: nat :| cell in components.value.unsupported;
        UnsupportedMeansNoCover(z, cells, used, active, cell);
        return NoCover;
      }
      var odd := FindOddPart(parts);
      if odd < |parts| {
        OddPartMeansNoCover(z, parts, cells, used, active, odd);
        return NoCover;
      }
      if |parts| <= 1 {
        return Connected;
      }
      Parts.OrderedIsStepwise(parts);
      var plan := Parts.MakeCompositionPlan(components.value, cells);
      forall S | IsCover(z, S, cells, used)
        ensures Splits(z.rows, S, cells, parts[0])
      {
        CoverSplitsAtPart(z, parts, cells, used, active, S, 0);
      }
      return Split(plan.value.owner, plan.value.remainder);
    }

    /** Solves one component apart from the rest. When it applies, the answer is the same
        as that of branching. */
    method TryComposition(
        cells: set<nat>, depth: nat, hash: nat, active: set<nat>)
      returns (applied: bool, family: Family)
      requires Valid() && Ready(active) && cells <= required && depth == Total(used)
      requires cells != {} && |cells| <= 60
      modifies this
      ensures Valid() && used == old(used)
      ensures applied ==> Returns(z, share, family, cells, used, depth, hash)
      decreases |cells|, 2
    {
      if !policy.analyse(cells, depth) {
        return false, {};
      }
      var analysis := AnalyseComponents(cells, active);
      if analysis.NoCover? {
        return policy.authorise(expanded), {};
      }
      if analysis.Connected? || (share.count != 1 && depth < share.depth) || !policy.tableFits(expanded) {
        return false, {};
      }
      family := Compose(cells, depth, hash, active, analysis.owner, analysis.remainder);
      applied := family != {} || policy.authorise(expanded);
    }

    method Compose(
        cells: set<nat>, depth: nat, hash: nat, active: set<nat>, owner: set<nat>, remainder: set<nat>)
      returns (family: Family)
      requires Valid() && Ready(active) && cells <= required && depth == Total(used) && |cells| <= 60
      requires !Divides(share, depth)
      requires owner != {} && owner <= cells && remainder == cells - owner && |owner| % 4 == 0
      requires forall S :: IsCover(z, S, cells, used) ==> Splits(z.rows, S, cells, owner)
      modifies this
      ensures Valid() && used == old(used)
      ensures Returns(z, share, family, cells, used, depth, hash)
      decreases |cells|, 1
    {
      var rowIds := new nat[15];
      assert rowIds[..0] == [] && ToSet([]) == {} && CellsOf(z.rows, {}) == {};
      PackZeros(ZERO[1..]);
      assert cells == owner + remainder;
      var table := new Table.SolutionTable(policy.slot, 128);
      Enumerate(owner, 0, 0, active, rowIds, table, ZERO);
      var entries := table.Entries();
      assert Enumerates(z, entries, owner, used);
      family := MultiplyEntries(cells, depth, hash, active, owner, remainder, entries);
      forall S
        ensures S in family <==> Mine(z, share, S, cells, used, depth, hash)
      {
        ProductsAreCovers(z, entries, owner, cells, used, S);
      }
    }

    /** Multiplies each entry with the covers of the remainder under the raised counts. */
    method MultiplyEntries(
        cells: set<nat>, depth: nat, hash: nat, active: set<nat>, owner: set<nat>, remainder: set<nat>,
        entries: seq<Table.Entry>)
      returns (family: Family)
      requires Valid() && Ready(active) && cells <= required && depth == Total(used)
      requires !Divides(share, depth)
      requires owner != {} && owner <= cells && remainder == cells - owner
      requires Enumerates(z, entries, owner, used)
      modifies this
      ensures Valid() && used == old(used)
      ensures forall S :: S in family <==>
                exists i: nat :: i < |entries| && FromEntry(z, entries[i], S, remainder, used)
      decreases |cells|, 0
    {
      var levels := new Family[Accumulator.LEVELS](i => {});
      ghost var counts := used;
      ghost var from := FromEntries(z, entries, remainder, used);
      Accumulator.NothingCollected(levels[..], from);
      SignaturesAreFew(z, entries, owner, counts);
      for index := 0 to |entries|
        invariant Valid() && used == counts
        invariant Accumulator.Collects(levels[..], from, index)
      {
        ghost var before := levels[..];
        var product := MultiplyEntry(cells, depth, hash, active, owner, remainder, entries, index, from);
        assert levels[..] == before;
        Accumulator.AddBranch(levels, product, from, index);
      }
      family := Accumulator.FinishBranches(levels, from, |entries|);
      EntriesUnited(from, z, entries, remainder, used, family);
    }

    method MultiplyEntry(
        cells: set<nat>, depth: nat, hash: nat, active: set<nat>, owner: set<nat>, remainder: set<nat>,
        entries: seq<Table.Entry>, index: nat, ghost from: (set<nat>, nat) -> bool)
      returns (product: Family)
      requires ComesFrom(from, z, entries, remainder, used)
      requires Valid() && Ready(active) && cells <= required && depth == Total(used)
      requires !Divides(share, depth)
      requires owner != {} && owner <= cells && remainder == cells - owner
      requires Enumerates(z, entries, owner, used) && index < |entries|
      modifies this
      ensures Valid() && used == old(used)
      ensures forall S :: S in product <==> from(S, index)
      decreases |cells|, 0, 1
    {
      assert Unfold(0);
      var rest := SolveRemainder(cells, depth, hash, active, owner, remainder, entries, index);
      EntryProduct(z, entries[index], rest, remainder, used);
      product := Product(entries[index].family, rest);
    }

    method SolveRemainder(
        cells: set<nat>, depth: nat, hash: nat, active: set<nat>, owner: set<nat>, remainder: set<nat>,
        entries: seq<Table.Entry>, index: nat)
      returns (rest: Family)
      requires Valid() && Ready(active) && cells <= required && depth == Total(used)
      requires !Divides(share, depth)
      requires owner != {} && owner <= cells && remainder == cells - owner
      requires Enumerates(z, entries, owner, used) && index < |entries|
      modifies this
      ensures Valid() && used == old(used)
      ensures IsFamily(z, rest, remainder, Sum(used, Unpack(entries[index].signature)))
      decreases |cells|, 0, 0
    {
      var signature := entries[index].signature;
      ghost var A :| A in entries[index].family;
      EntryCounts(z, entries, owner, used, index, A);
      assert cells == owner + remainder;
      var ok, next := AdvanceSignature(z, used, active, signature);
      var before := used;
      TotalSum(used, Unpack(signature));
      used := Sum(used, Unpack(signature));
      rest := SearchExactCover(remainder, depth + |owner| / 4, share.mix(hash, signature + 1), next);
      assert !Divides(share, depth + |owner| / 4);
      assert Unfold(0);
      SumThenLess(before, Unpack(signature));
      used := Less(used, Unpack(signature));
    }
  }

  /** Taking a signature out of the counts again. */
  function Less(a: Counts, b: Counts): (c: Counts)
    requires AtMost(b, a)
  {
    [0, a[1] - b[1], a[2] - b[2], a[3] - b[3], a[4] - b[4], a[5] - b[5], a[6] - b[6], a[7] - b[7]]
  }

  lemma SumThenLess(a: Counts, b: Counts)
    ensures AtMost(b, Sum(a, b)) && Less(Sum(a, b), b) == a
  {
    var sum := Sum(a, b);
    assert forall p :: 1 <= p < 8 ==> sum[p] == a[p] + b[p];
  }

  lemma TotalSum(a: Counts, b: Counts)
    ensures Total(Sum(a, b)) == Total(a) + Total(b)
  {
  }

  lemma EntryProduct(z: Puzzle, entry: Table.Entry, rest: Family, remainder: set<nat>, counts: Counts)
    requires IsFamily(z, rest, remainder, Sum(counts, Unpack(entry.signature)))
    ensures forall S :: S in Product(entry.family, rest) <==> FromEntry(z, entry, S, remainder, counts)
  {
  }

  /** Signatures have seven four-bit fields, so there are fewer than 2^32 - 1 of them. */
  lemma SignaturesAreFew(z: Puzzle, entries: seq<Table.Entry>, component: set<nat>, counts: Counts)
    requires z.Valid() && Enumerates(z, entries, component, counts)
    ensures |entries| < Pow2(Accumulator.LEVELS) - 1
  {
    var bound := Pow16(7);
    forall i | 0 <= i < |entries|
      ensures entries[i].signature < bound
    {
      var A :| A in entries[i].family;
      assert Table.Holds(entries, entries[i].signature, A);
      assert A - {} == A;
      TallyFits(z, counts, A);
      PackBound(Tally(z.rows, A)[1..]);
    }
    var ids := seq(|entries|, i requires 0 <= i < |entries| => entries[i].signature);
    DistinctBelow(ids, bound);
    Accumulator.Capacity();
    assert Pow16(7) == 268435456;
  }

  // ------------------------------------------------------------------
  // A whole run
  // ------------------------------------------------------------------

  /** How many pieces the problem allows in all. */
  datatype PieceWindow = PieceWindow(exact: Option<nat>, maximum: nat) {
    predicate Allows(count: nat) {
      count <= maximum && (exact.Some? ==> exact.value == count)
    }
  }

  /** A window with fewer pieces than the target admits no cover. */
  lemma WindowTooSmall(z: Puzzle, S: set<nat>, cells: set<nat>)
    requires Total(z.rule.window) < z.target
    ensures !IsCover(z, S, cells, ZERO)
  {
    if IsCover(z, S, cells, ZERO) {
      TotalPlus(z.rows, ZERO, S);
      TotalAtMost(Plus(z.rows, ZERO, S), z.rule.window);
    }
  }

  lemma ZeroIsReady(z: Puzzle)
    requires z.Valid()
    ensures CanFit(z.rule, ZERO) && Active(z.rule, ZERO) == UpTo(|z.rule.members|) && Total(ZERO) == 0
  {
    assert forall i :: 0 <= i < |z.rule.members| ==> AtMost(ZERO, z.rule.members[i]);
    if z.rule.constrained {
      assert Below(0, |z.rule.members|);
      assert 0 in Active(z.rule, ZERO);
    }
    assert forall i :: 0 <= i < |z.rule.members| ==> Below(i, |z.rule.members|);
  }

  /** The answer of one run: the covers of the required cells that belong to it, or none for
      a dividing depth outside the search or for more than fifteen pieces. */
  ghost predicate RunAnswers(
    rows: seq<Row>, rule: PieceRule, window: PieceWindow, required: set<nat>, share: Share, basis: nat,
    result: Option<Family>)
  {
    if required == {} || |required| % 4 != 0 then result == Some({})
    else if |required| / 4 > 15 || share.depth == 0 || share.depth > |required| / 4 then result.None?
    else
      var z := Puzzle(rows, rule, |required| / 4);
      && result.Some? && z.Valid() && share.Valid(z)
      && forall S :: S in result.value <==> window.Allows(z.target) && Mine(z, share, S, required, ZERO, 0, basis)
  }

  method RunSearch(
      rows: seq<Row>, rule: PieceRule, window: PieceWindow, required: set<nat>, policy: Policy, share: Share,
      basis: nat, index: Index)
    returns (result: Option<Family>)
    requires Parts.InCells(required) && share.index < share.count &&
              Indexes(index, RowCells(Puzzle(rows, rule, |required| / 4)), required)
    requires rule.Valid() && |rows| <= 0xFFFF && forall r :: 0 <= r < |rows| ==> |rows[r].cells| == 4
    requires SoundPolicy(Puzzle(rows, rule, |required| / 4), policy) && SteadyPivot(policy, share)
    requires NodeIndex.Proper(policy.slot)
    ensures RunAnswers(rows, rule, window, required, share, basis, result)
  {
    if required == {} || |required| % 4 != 0 {
      return Some({});
    }
    var target := |required| / 4;
    if target > 15 || share.depth == 0 || share.depth > target {
      return None;
    }
    var z := Puzzle(rows, rule, target);
    if !window.Allows(target) {
      return Some({});
    }
    if target > rule.window[1] + rule.window[2] + rule.window[3] + rule.window[4]
                + rule.window[5] + rule.window[6] + rule.window[7] {
      forall S
        ensures !IsCover(z, S, required, ZERO)
      {
        WindowTooSmall(z, S, required);
      }
      return Some({});
    }
    var search := new Search(z, required, policy, share, index);
    ZeroIsReady(z);
    var family := search.SearchExactCover(required, 0, basis, UpTo(|rule.members|));
    assert Unfold(0);
    return Some(family);
  }

  /** Runs 0 to n-1 and one undivided run on the same problem, each with its own pruning:
      either none of them has an answer, or the divided answers are pairwise disjoint and
      together are the undivided one. */
  lemma RunsPartitionTheResult(
      rows: seq<Row>, rule: PieceRule, window: PieceWindow, required: set<nat>, shares: seq<Share>,
      results: seq<Option<Family>>, undivided: Share, whole: Option<Family>, basis: nat)
    requires |shares| == |results| > 0
    requires forall i :: 0 <= i < |shares| ==>
               && shares[i] == shares[0].(index := i) && shares[i].count == |shares|
               && RunAnswers(rows, rule, window, required, shares[i], basis, results[i])
    requires undivided.count == 1 && undivided.index == 0 && undivided.depth == shares[0].depth
    requires RunAnswers(rows, rule, window, required, undivided, basis, whole)
    ensures forall i :: 0 <= i < |results| ==> (results[i].Some? <==> whole.Some?)
    ensures whole.Some? ==>
              && (forall S :: S in whole.value <==> exists i :: 0 <= i < |results| && S in results[i].value)
              && (forall i, j :: 0 <= i < j < |results| ==> results[i].value !! results[j].value)
  {
    if whole.Some? {
      assert results[0].Some?;
      var z := Puzzle(rows, rule, |required| / 4);
      if required != {} && |required| % 4 == 0 && window.Allows(z.target) {
        var families := seq(|results|, i requires 0 <= i < |results| => results[i].value);
        SharesPartitionTheCovers(z, shares, families, whole.value, required, ZERO, basis);
        assert forall i :: 0 <= i < |results| ==> families[i] == results[i].value;
      }
    }
  }
}
