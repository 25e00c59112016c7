/** Solutions of one component, enumerated by pivot branching and filed by signature. */
module ComponentTable {
  import opened Cover
  import opened Composition
  import opened Folding
  import NodeIndex

  datatype Entry = Entry(signature: nat, family: set<set<nat>>)

  /** `S` is filed under `signature`. */
  ghost predicate Holds(entries: seq<Entry>, signature: nat, S: set<nat>) {
    exists i :: 0 <= i < |entries| && entries[i].signature == signature && S in entries[i].family
  }

  /** One entry per signature, none of them empty. */
  ghost predicate WellFormed(entries: seq<Entry>) {
    && (forall i :: 0 <= i < |entries| ==> entries[i].family != {})
    && (forall i, j :: 0 <= i < j < |entries| ==> entries[i].signature != entries[j].signature)
  }

  ghost predicate Filed(before: seq<Entry>, after: seq<Entry>, signature: nat, family: set<set<nat>>) {
    forall g, S :: Holds(after, g, S) <==> Holds(before, g, S) || (g == signature && S in family)
  }

  lemma MergedIsFiled(entries: seq<Entry>, index: nat, family: set<set<nat>>)
    requires index < |entries|
    ensures Filed(entries, entries[index := Entry(entries[index].signature, entries[index].family + family)],
              entries[index].signature, family)
  {
    var next := entries[index := Entry(entries[index].signature, entries[index].family + family)];
    forall g, S
      ensures Holds(next, g, S) <==> Holds(entries, g, S) || (g == entries[index].signature && S in family)
    {
      if Holds(entries, g, S) {
        var i :| 0 <= i < |entries| && entries[i].signature == g && S in entries[i].family;
        assert next[i].signature == g && S in next[i].family;
      }
      if g == entries[index].signature && S in family {
        assert next[index].signature == g && S in next[index].family;
      }
    }
  }

  lemma AppendedIsFiled(entries: seq<Entry>, signature: nat, family: set<set<nat>>)
    ensures Filed(entries, entries + [Entry(signature, family)], signature, family)
  {
    var next := entries + [Entry(signature, family)];
    forall g, S
      ensures Holds(next, g, S) <==> Holds(entries, g, S) || (g == signature && S in family)
    {
      if Holds(entries, g, S) {
        var i :| 0 <= i < |entries| && entries[i].signature == g && S in entries[i].family;
        assert next[i].signature == g && S in next[i].family;
      }
      if g == signature && S in family {
        assert next[|entries|].signature == g && S in next[|entries|].family;
      }
    }
  }

  /** The chained table: an index of signatures and a family for each, in the order of first
      insertion, which is the order it is read back in. */
  class SolutionTable {
    const index: NodeIndex.Index<nat>
    var families: seq<set<set<nat>>>

    constructor (slot: (nat, nat) -> nat, buckets: nat)
      requires buckets > 0 && NodeIndex.Proper(slot)
      ensures Valid() && Entries() == [] && fresh(index)
    {
      index := new NodeIndex.Index(slot, buckets);
      families := [];
    }

    ghost predicate Valid()
      reads this, index
    {
      index.Valid() && |families| == |index.keys| && forall i :: 0 <= i < |families| ==> families[i] != {}
    }

    function Entries(): (entries: seq<Entry>)
      reads this, index
      requires Valid()
      ensures WellFormed(entries)
    {
      assert Unfold(0);
      var keys, sets := index.keys, families;
      seq(|sets|, i requires 0 <= i < |sets| && |sets| == |keys| => Entry(keys[i], sets[i]))
    }

    /** Files a family under its signature, merging it with what is there already. */
    method Insert(signature: nat, family: set<set<nat>>, roomy: bool)
      requires Valid() && family != {}
      modifies this`families, index
      ensures Valid() && Filed(old(Entries()), Entries(), signature, family)
    {
      ghost var before := Entries();
      var i := index.FindOrInsert(signature, roomy);
      if i < |families| {
        MergedIsFiled(before, i, family);
        families := families[i := families[i] + family];
        assert Entries() == before[i := Entry(signature, before[i].family + family)];
      } else {
        AppendedIsFiled(before, signature, family);
        families := families + [family];
        assert Entries() == before + [Entry(signature, family)];
      }
    }
  }

  // ------------------------------------------------------------------
  // Partial solutions of a component
  // ------------------------------------------------------------------

  /** `S` extends the chosen path by a partition of the open cells whose counts still fit,
      and `signature` packs the counts of all its rows. */
  ghost predicate Solves(
    z: Puzzle, S: set<nat>, path: set<nat>, cells: set<nat>, counts: Counts, local: Counts, signature: nat)
  {
    && path <= S
    && Partitions(z.rows, S - path, cells)
    && CanFit(z.rule, Plus(z.rows, counts, S - path))
    && signature == PackCounts(Plus(z.rows, local, S - path))
  }

  lemma SolvesNothing(z: Puzzle, S: set<nat>, path: set<nat>, counts: Counts, local: Counts, signature: nat)
    requires z.Valid() && CanFit(z.rule, counts)
    ensures Solves(z, S, path, {}, counts, local, signature) <==> S == path && signature == PackCounts(local)
  {
    PlusNothing(z.rows, counts);
    PlusNothing(z.rows, local);
    if Solves(z, S, path, {}, counts, local, signature) {
      PartitionSize(z, S - path, {});
      assert S == path + (S - path);
    }
    if S == path {
      assert S - path == {};
      assert CellsOf(z.rows, {}) == {};
    }
  }

  /** Taking row `r` next. */
  ghost predicate SolvesVia(
    z: Puzzle, S: set<nat>, path: set<nat>, cells: set<nat>, counts: Counts, local: Counts, signature: nat, pivot: nat,
    r: nat)
  {
    && r < |z.rows| && IsPiece(z.rows[r].piece) && pivot in z.rows[r].cells && z.rows[r].cells <= cells
    && CanFit(z.rule, Add(counts, z.rows[r].piece))
    && Solves(z, S, path + {r}, cells - z.rows[r].cells, Add(counts, z.rows[r].piece), Add(local, z.rows[r].piece),
        signature)
  }

  /** Every solution takes exactly the rows its pivot allows. */
  lemma SolvesBranches(
      z: Puzzle, S: set<nat>, path: set<nat>, cells: set<nat>, counts: Counts, local: Counts, signature: nat,
      pivot: nat)
    requires z.Valid() && pivot in cells && CellsOf(z.rows, path) !! cells
    ensures Solves(z, S, path, cells, counts, local, signature) <==>
            exists r :: SolvesVia(z, S, path, cells, counts, local, signature, pivot, r)
  {
    if Solves(z, S, path, cells, counts, local, signature) {
      var A := S - path;
      assert pivot in CellsOf(z.rows, A);
      var r :| r in A && r < |z.rows| && pivot in z.rows[r].cells;
      PartitionSplit(z.rows, A, cells, r);
      assert A - {r} == S - (path + {r});
      assert A == (A - {r}) + {r};
      PlusRow(z.rows, counts, A - {r}, r);
      PlusRow(z.rows, local, A - {r}, r);
      PlusGrows(z.rows, Add(counts, z.rows[r].piece), A - {r});
      CanFitMonotone(z.rule, Add(counts, z.rows[r].piece), Plus(z.rows, counts, A));
      assert SolvesVia(z, S, path, cells, counts, local, signature, pivot, r);
    }
    if r :| SolvesVia(z, S, path, cells, counts, local, signature, pivot, r) {
      var B := S - (path + {r});
      PartitionJoin(z.rows, B, cells, r);
      assert r !in path by {
        assert r in path ==> pivot in CellsOf(z.rows, path);
      }
      assert S - path == B + {r};
      PlusRow(z.rows, counts, B, r);
      PlusRow(z.rows, local, B, r);
    }
  }

  // ------------------------------------------------------------------
  // Choosing the pivot
  // ------------------------------------------------------------------

  /** The feasible rows through a cell. */
  ghost function Support(
    z: Puzzle, counts: Counts, active: set<nat>, cells: set<nat>, cell: nat, limit: nat): set<nat>
  {
    set r | 0 <= r < limit && r < |z.rows| && cell in z.rows[r].cells && RowIsFeasible(z, counts, active, r, cells)
  }

  lemma SupportStep(z: Puzzle, counts: Counts, active: set<nat>, cells: set<nat>, cell: nat, r: nat)
    requires r < |z.rows|
    ensures |Support(z, counts, active, cells, cell, r + 1)| == |Support(z, counts, active, cells, cell, r)| +
            if cell in z.rows[r].cells && RowIsFeasible(z, counts, active, r, cells) then 1 else 0
  {
    var before := Support(z, counts, active, cells, cell, r);
    var after := Support(z, counts, active, cells, cell, r + 1);
    var counted := cell in z.rows[r].cells && RowIsFeasible(z, counts, active, r, cells);
    forall q: nat
      ensures q in after <==> q in before || (q == r && counted)
    {
      assert q < r + 1 <==> q < r || q == r;
    }
    assert after == if counted then before + {r} else before;
  }

  method CountSupport(z: Puzzle, counts: Counts, active: set<nat>, cells: set<nat>, cell: nat) returns (count: nat)
    ensures count == |Support(z, counts, active, cells, cell, |z.rows|)|
  {
    count := 0;
    assert Support(z, counts, active, cells, cell, 0) == {};
    for r := 0 to |z.rows|
      invariant count == |Support(z, counts, active, cells, cell, r)|
    {
      SupportStep(z, counts, active, cells, cell, r);
      if cell in z.rows[r].cells && RowIsFeasible(z, counts, active, r, cells) {
        count := count + 1;
      }
    }
  }

  /** The open cell with the fewest feasible rows, the lowest one on ties; a cell without
      any stops the search at once. */
  method SelectPivot(z: Puzzle, counts: Counts, active: set<nat>, cells: set<nat>) returns (found: bool, pivot: nat)
    requires cells != {} && forall c :: c in cells ==> c < 64
    ensures pivot in cells
    ensures found <==> forall c :: c in cells ==> Support(z, counts, active, cells, c, |z.rows|) != {}
    ensures !found ==> Support(z, counts, active, cells, pivot, |z.rows|) == {}
    ensures found ==> forall c :: c in cells ==>
              var here := |Support(z, counts, active, cells, pivot, |z.rows|)|;
              var there := |Support(z, counts, active, cells, c, |z.rows|)|;
              here < there || (here == there && pivot <= c)
  {
    found, pivot := false, 64;
    var best := 0;
    for cell := 0 to 64
      invariant forall c :: c in cells && c < cell ==> Support(z, counts, active, cells, c, |z.rows|) != {}
      invariant !found <==> forall c :: c in cells ==> cell <= c
      invariant found ==> pivot in cells && pivot < cell && best == |Support(z, counts, active, cells, pivot, |z.rows|)|
      invariant found ==> forall c :: c in cells && c < cell ==>
                  var there := |Support(z, counts, active, cells, c, |z.rows|)|;
                  best < there || (best == there && pivot <= c)
    {
      if cell in cells {
        var count := CountSupport(z, counts, active, cells, cell);
        if count == 0 {
          return false, cell;
        }
        if !found || count < best {
          found, pivot, best := true, cell, count;
        }
      }
    }
  }
}
