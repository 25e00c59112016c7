/** Why covers of independent components can be found apart and multiplied. */
module Composition {
  import opened Nibbles
  import opened Cover

  /** The rows of `S` that lie inside a component. */
  ghost function Within(rows: seq<Row>, S: set<nat>, component: set<nat>): set<nat> {
    set r | r in S && r < |rows| && rows[r].cells <= component
  }

  /** No row of `S` crosses the boundary of the component. */
  ghost predicate Splits(rows: seq<Row>, S: set<nat>, cells: set<nat>, component: set<nat>) {
    forall r :: r in S ==> r < |rows| && (rows[r].cells <= component || rows[r].cells <= cells - component)
  }

  /** A partition that respects a component restricts to a partition of it and of the rest. */
  lemma PartitionRestricts(z: Puzzle, S: set<nat>, cells: set<nat>, component: set<nat>)
    requires z.Valid() && Partitions(z.rows, S, cells) && component <= cells
    requires Splits(z.rows, S, cells, component)
    ensures Partitions(z.rows, Within(z.rows, S, component), component)
    ensures Partitions(z.rows, S - Within(z.rows, S, component), cells - component)
  {
    var A := Within(z.rows, S, component);
    var B := S - A;
    forall c | c in component
      ensures c in CellsOf(z.rows, A)
    {
      assert c in CellsOf(z.rows, S);
      var r :| r in S && r < |z.rows| && c in z.rows[r].cells;
      assert r in A;
    }
    forall c | c in cells - component
      ensures c in CellsOf(z.rows, B)
    {
      assert c in CellsOf(z.rows, S);
      var r :| r in S && r < |z.rows| && c in z.rows[r].cells;
      assert r in B;
    }
    assert CellsOf(z.rows, A) <= component;
    assert CellsOf(z.rows, B) <= cells - component;
  }

  lemma PartitionsJoin(z: Puzzle, A: set<nat>, B: set<nat>, cells: set<nat>, component: set<nat>)
    requires z.Valid() && component <= cells
    requires Partitions(z.rows, A, component) && Partitions(z.rows, B, cells - component)
    ensures A !! B && Partitions(z.rows, A + B, cells)
  {
    forall r, q | r in A && q in B
      ensures z.rows[r].cells !! z.rows[q].cells && r != q
    {
      assert z.rows[r].cells <= CellsOf(z.rows, A);
      assert z.rows[q].cells <= CellsOf(z.rows, B);
      assert z.rows[r].cells != {};
    }
    assert CellsOf(z.rows, A + B) == CellsOf(z.rows, A) + CellsOf(z.rows, B);
  }

  lemma PlusUnion(rows: seq<Row>, counts: Counts, A: set<nat>, B: set<nat>)
    requires A !! B
    ensures Plus(rows, counts, A + B) == Plus(rows, Plus(rows, counts, A), B)
  {
    forall p | 1 <= p < 8
      ensures |OfPiece(rows, A + B, p)| == |OfPiece(rows, A, p)| + |OfPiece(rows, B, p)|
    {
      assert OfPiece(rows, A + B, p) == OfPiece(rows, A, p) + OfPiece(rows, B, p);
    }
  }

  lemma {:induction false} TotalPlus(rows: seq<Row>, counts: Counts, S: set<nat>)
    requires forall r :: r in S ==> r < |rows| && IsPiece(rows[r].piece)
    ensures Total(Plus(rows, counts, S)) == Total(counts) + |S|
    decreases S
  {
    if S == {} {
      PlusNothing(rows, counts);
    } else {
      var r :| r in S;
      var rest := S - {r};
      assert S == rest + {r};
      PlusRow(rows, counts, rest, r);
      TotalPlus(rows, Add(counts, rows[r].piece), rest);
      TotalAdd(counts, rows[r].piece);
    }
  }

  /** A cover of the whole is a partition of the component together with a cover of the
      rest under the counts that the component raised. */
  lemma CoverRestricts(z: Puzzle, S: set<nat>, cells: set<nat>, component: set<nat>, counts: Counts)
    requires z.Valid() && component <= cells && IsCover(z, S, cells, counts)
    requires Splits(z.rows, S, cells, component)
    ensures var A := Within(z.rows, S, component);
            && Partitions(z.rows, A, component)
            && CanFit(z.rule, Plus(z.rows, counts, A))
            && IsCover(z, S - A, cells - component, Plus(z.rows, counts, A))
  {
    PartitionRestricts(z, S, cells, component);
    var A := Within(z.rows, S, component);
    assert A + (S - A) == S;
    PlusUnion(z.rows, counts, A, S - A);
    TotalPlus(z.rows, counts, A);
    assert |S| == |A| + |S - A|;
    PlusGrows(z.rows, Plus(z.rows, counts, A), S - A);
    AcceptsCanFit(z.rule, Plus(z.rows, counts, A), Plus(z.rows, counts, S));
  }

  lemma CoverComposes(z: Puzzle, A: set<nat>, B: set<nat>, cells: set<nat>, component: set<nat>, counts: Counts)
    requires z.Valid() && component <= cells && Partitions(z.rows, A, component)
    requires IsCover(z, B, cells - component, Plus(z.rows, counts, A))
    ensures A !! B && IsCover(z, A + B, cells, counts)
  {
    PartitionsJoin(z, A, B, cells, component);
    PlusUnion(z.rows, counts, A, B);
    TotalPlus(z.rows, counts, A);
  }

  // ------------------------------------------------------------------
  // Signatures
  // ------------------------------------------------------------------

  const ZERO: Counts := [0, 0, 0, 0, 0, 0, 0, 0]

  /** The counts in the four-bit fields of a signature, piece 1 in the lowest field. */
  function Unpack(signature: nat): (counts: Counts)
    ensures Fit(counts)
  {
    [0, Nibble(signature, 0), Nibble(signature, 1), Nibble(signature, 2), Nibble(signature, 3),
     Nibble(signature, 4), Nibble(signature, 5), Nibble(signature, 6)]
  }

  function Sum(a: Counts, b: Counts): (c: Counts) {
    [0, a[1] + b[1], a[2] + b[2], a[3] + b[3], a[4] + b[4], a[5] + b[5], a[6] + b[6], a[7] + b[7]]
  }

  function PackCounts(counts: Counts): nat {
    Pack(counts[1..])
  }

  lemma UnpackOfPack(counts: Counts)
    requires Fit(counts)
    ensures Unpack(PackCounts(counts)) == counts
  {
    var tail := counts[1..];
    forall p | 1 <= p < 8
      ensures Nibble(PackCounts(counts), p - 1) == counts[p]
    {
      NibbleOfPack(tail, p - 1);
      assert tail[p - 1] == counts[p];
    }
    assert Unpack(PackCounts(counts))[1] == counts[1];
  }

  lemma PackCountsInjective(a: Counts, b: Counts)
    requires Fit(a) && Fit(b) && PackCounts(a) == PackCounts(b)
    ensures a == b
  {
    UnpackOfPack(a);
    UnpackOfPack(b);
  }

  /** Raising one count adds a unit of its field. That the field has room, so that nothing
      is carried, is proved where the search does it, in `CoverSearch.Search.RowReady`. */
  lemma PackCountsAdd(counts: Counts, piece: nat)
    requires IsPiece(piece)
    ensures PackCounts(Add(counts, piece)) == PackCounts(counts) + Pow16(piece - 1)
  {
    PackAddUnit(counts[1..], piece - 1);
    assert Add(counts, piece)[1..] == counts[1..][piece - 1 := counts[1..][piece - 1] + 1];
  }

  /** The counts of a set of rows, on their own. */
  ghost function Tally(rows: seq<Row>, S: set<nat>): Counts {
    Plus(rows, ZERO, S)
  }

  lemma PlusIsSum(rows: seq<Row>, counts: Counts, S: set<nat>)
    ensures Plus(rows, counts, S) == Sum(counts, Tally(rows, S))
  {
  }

  lemma TallyFits(z: Puzzle, counts: Counts, S: set<nat>)
    requires z.Valid() && CanFit(z.rule, Plus(z.rows, counts, S))
    ensures Fit(Tally(z.rows, S))
  {
    var plus := Plus(z.rows, counts, S);
    var tally := Tally(z.rows, S);
    forall p | 0 <= p < 8
      ensures tally[p] < 16
    {
      assert tally[p] <= plus[p] <= z.rule.window[p] <= 15;
    }
  }
}
