/** Exact covers: what the packing search is asked for, stated without the search. */
module Cover {
  /** A skeleton row of the catalog: the cells one piece owns in the target frame. */
  datatype Row = Row(piece: nat, cells: set<nat>)

  /** Piece kinds are 1 to 7; field 0 of a count vector is unused and stays zero. */
  type Counts = c: seq<nat> | |c| == 8 && c[0] == 0 witness [0, 0, 0, 0, 0, 0, 0, 0]

  predicate IsPiece(piece: nat) {
    1 <= piece <= 7
  }

  /** How many pieces of each kind may be used: at most the window, and, when a family of
      multisets is given, exactly one of its members. */
  datatype PieceRule = PieceRule(window: Counts, constrained: bool, members: seq<Counts>) {
    ghost predicate Valid() {
      && (forall p :: 0 <= p < 8 ==> window[p] <= 15)
      && (constrained ==> members != [])
    }
  }

  datatype Puzzle = Puzzle(rows: seq<Row>, rule: PieceRule, target: nat) {
    /** The catalog keeps at most 65535 rows of four cells each. */
    ghost predicate Valid() {
      && rule.Valid()
      && target <= 15
      && |rows| <= 0xFFFF
      && (forall r :: 0 <= r < |rows| ==> |rows[r].cells| == 4)
    }
  }

  function Add(counts: Counts, piece: nat): Counts
    requires IsPiece(piece)
  {
    counts[piece := counts[piece] + 1]
  }

  function Remove(counts: Counts, piece: nat): Counts
    requires IsPiece(piece) && counts[piece] > 0
  {
    counts[piece := counts[piece] - 1]
  }

  lemma RemoveUndoesAdd(counts: Counts, piece: nat)
    requires IsPiece(piece)
    ensures Add(counts, piece)[piece] > 0 && Remove(Add(counts, piece), piece) == counts
  {
  }

  predicate AtMost(a: Counts, b: Counts) {
    forall p :: 0 <= p < 8 ==> a[p] <= b[p]
  }

  /** The members that still have at least the used count of every piece. */
  function Active(rule: PieceRule, counts: Counts): set<nat> {
    set i | 0 <= i < |rule.members| && AtMost(counts, rule.members[i])
  }

  /** The counts can still be completed as far as the rule is concerned. */
  predicate CanFit(rule: PieceRule, counts: Counts) {
    AtMost(counts, rule.window) && (rule.constrained ==> Active(rule, counts) != {})
  }

  /** The final counts are allowed. */
  predicate Accepts(rule: PieceRule, counts: Counts) {
    && AtMost(counts, rule.window)
    && (rule.constrained ==> exists i :: 0 <= i < |rule.members| && rule.members[i] == counts)
  }

  lemma AcceptsCanFit(rule: PieceRule, counts: Counts, final: Counts)
    requires Accepts(rule, final) && AtMost(counts, final)
    ensures CanFit(rule, counts)
  {
    if rule.constrained {
      var i :| 0 <= i < |rule.members| && rule.members[i] == final;
      assert i in Active(rule, counts);
    }
  }

  lemma CanFitMonotone(rule: PieceRule, counts: Counts, more: Counts)
    requires CanFit(rule, more) && AtMost(counts, more)
    ensures CanFit(rule, counts)
  {
    if rule.constrained {
      var i :| i in Active(rule, more);
      assert i in Active(rule, counts);
    }
  }

  // ------------------------------------------------------------------
  // Covers
  // ------------------------------------------------------------------

  ghost function CellsOf(rows: seq<Row>, S: set<nat>): set<nat> {
    set r, c | r in S && r < |rows| && c in rows[r].cells :: c
  }

  /** The rows in `S` are disjoint and together own exactly `cells`. */
  ghost predicate Partitions(rows: seq<Row>, S: set<nat>, cells: set<nat>) {
    && (forall r :: r in S ==> r < |rows| && IsPiece(rows[r].piece))
    && (forall r, q :: r in S && q in S && r != q ==> rows[r].cells !! rows[q].cells)
    && CellsOf(rows, S) == cells
  }

  ghost function OfPiece(rows: seq<Row>, S: set<nat>, piece: nat): set<nat> {
    set r | r in S && r < |rows| && rows[r].piece == piece
  }

  /** The counts once the rows in `S` are used as well. */
  ghost function Plus(rows: seq<Row>, counts: Counts, S: set<nat>): (final: Counts) {
    var f := seq(8, p requires 0 <= p < 8 => if p == 0 then 0 else counts[p] + |OfPiece(rows, S, p)|);
    f
  }

  ghost function Total(counts: Counts): nat {
    counts[1] + counts[2] + counts[3] + counts[4] + counts[5] + counts[6] + counts[7]
  }

  /** `S` completes the state: it partitions the remaining cells, has as many rows as
      pieces are missing, and the final counts are allowed. */
  ghost predicate IsCover(z: Puzzle, S: set<nat>, cells: set<nat>, counts: Counts) {
    && Partitions(z.rows, S, cells)
    && |S| + Total(counts) == z.target
    && Accepts(z.rule, Plus(z.rows, counts, S))
  }

  type Family = set<set<nat>>

  ghost predicate IsFamily(z: Puzzle, F: Family, cells: set<nat>, counts: Counts) {
    forall S :: S in F <==> IsCover(z, S, cells, counts)
  }

  lemma PlusNothing(rows: seq<Row>, counts: Counts)
    ensures Plus(rows, counts, {}) == counts
  {
    assert forall p: nat :: OfPiece(rows, {}, p) == {};
  }

  lemma PlusRow(rows: seq<Row>, counts: Counts, S: set<nat>, r: nat)
    requires r < |rows| && IsPiece(rows[r].piece) && r !in S
    ensures Plus(rows, counts, S + {r}) == Plus(rows, Add(counts, rows[r].piece), S)
  {
    forall p | 1 <= p < 8
      ensures |OfPiece(rows, S + {r}, p)| == |OfPiece(rows, S, p)| + (if p == rows[r].piece then 1 else 0)
    {
      if p == rows[r].piece {
        assert OfPiece(rows, S + {r}, p) == OfPiece(rows, S, p) + {r};
      } else {
        assert OfPiece(rows, S + {r}, p) == OfPiece(rows, S, p);
      }
    }
  }

  lemma PlusGrows(rows: seq<Row>, counts: Counts, S: set<nat>)
    ensures AtMost(counts, Plus(rows, counts, S))
  {
  }

  lemma TotalAdd(counts: Counts, piece: nat)
    requires IsPiece(piece)
    ensures Total(Add(counts, piece)) == Total(counts) + 1
  {
  }

  lemma TotalAtMost(a: Counts, b: Counts)
    requires AtMost(a, b)
    ensures Total(a) <= Total(b)
  {
    assert a[1] <= b[1] && a[2] <= b[2] && a[3] <= b[3] && a[4] <= b[4] && a[5] <= b[5] && a[6] <= b[6] && a[7] <= b[7];
  }

  lemma CellsOfAdd(rows: seq<Row>, S: set<nat>, r: nat)
    requires r < |rows|
    ensures CellsOf(rows, S + {r}) == CellsOf(rows, S) + rows[r].cells
  {
  }

  /** Taking one row out of a partition leaves a partition of the cells it does not own. */
  lemma PartitionSplit(rows: seq<Row>, S: set<nat>, cells: set<nat>, r: nat)
    requires Partitions(rows, S, cells) && r in S
    ensures Partitions(rows, S - {r}, cells - rows[r].cells)
    ensures rows[r].cells <= cells
  {
    CellsOfAdd(rows, S - {r}, r);
    assert S - {r} + {r} == S;
    assert CellsOf(rows, S - {r}) !! rows[r].cells;
  }

  lemma PartitionJoin(rows: seq<Row>, S: set<nat>, cells: set<nat>, r: nat)
    requires r < |rows| && IsPiece(rows[r].piece) && rows[r].cells <= cells && rows[r].cells != {}
    requires Partitions(rows, S, cells - rows[r].cells)
    ensures r !in S && Partitions(rows, S + {r}, cells)
  {
    assert r !in S by {
      var c :| c in rows[r].cells;
      assert r in S ==> c in CellsOf(rows, S);
    }
    CellsOfAdd(rows, S, r);
    forall q | q in S
      ensures rows[q].cells !! rows[r].cells
    {
      assert rows[q].cells <= CellsOf(rows, S);
    }
  }

  /** Exactly one row of a cover owns a given cell; without it the rest is a cover of the
      residual state, and the row passes the feasibility test. */
  lemma CoverSplit(z: Puzzle, S: set<nat>, cells: set<nat>, counts: Counts, r: nat)
    requires IsCover(z, S, cells, counts) && r in S
    ensures r < |z.rows| && IsPiece(z.rows[r].piece)
    ensures IsCover(z, S - {r}, cells - z.rows[r].cells, Add(counts, z.rows[r].piece))
    ensures CanFit(z.rule, Add(counts, z.rows[r].piece))
  {
    PartitionSplit(z.rows, S, cells, r);
    assert S - {r} + {r} == S;
    PlusRow(z.rows, counts, S - {r}, r);
    TotalAdd(counts, z.rows[r].piece);
    var final := Plus(z.rows, counts, S);
    PlusGrows(z.rows, Add(counts, z.rows[r].piece), S - {r});
    AcceptsCanFit(z.rule, Add(counts, z.rows[r].piece), final);
  }

  lemma CoverJoin(z: Puzzle, S: set<nat>, cells: set<nat>, counts: Counts, r: nat)
    requires r < |z.rows| && IsPiece(z.rows[r].piece)
    requires z.rows[r].cells <= cells && z.rows[r].cells != {}
    requires IsCover(z, S, cells - z.rows[r].cells, Add(counts, z.rows[r].piece))
    ensures r !in S && IsCover(z, S + {r}, cells, counts)
  {
    PartitionJoin(z.rows, S, cells, r);
    PlusRow(z.rows, counts, S, r);
    TotalAdd(counts, z.rows[r].piece);
  }

  lemma CoverOwnsCell(z: Puzzle, S: set<nat>, cells: set<nat>, counts: Counts, cell: nat) returns (r: nat)
    requires IsCover(z, S, cells, counts) && cell in cells
    ensures r in S && r < |z.rows| && cell in z.rows[r].cells
  {
    assert cell in CellsOf(z.rows, S);
    r :| r in S && r < |z.rows| && cell in z.rows[r].cells;
  }

  /** Four cells to a row. */
  lemma {:induction false} PartitionSize(z: Puzzle, S: set<nat>, cells: set<nat>)
    requires z.Valid() && Partitions(z.rows, S, cells)
    ensures |cells| == 4 * |S|
  {
    if S == {} {
      assert cells == {};
    } else {
      var r :| r in S;
      PartitionSplit(z.rows, S, cells, r);
      PartitionSize(z, S - {r}, cells - z.rows[r].cells);
      assert cells == (cells - z.rows[r].cells) + z.rows[r].cells;
    }
  }

  /** With no cells left the only candidate is the empty cover. */
  lemma CoverOfNothing(z: Puzzle, S: set<nat>, counts: Counts)
    requires z.Valid()
    ensures IsCover(z, S, {}, counts) <==> S == {} && Total(counts) == z.target && Accepts(z.rule, counts)
  {
    PlusNothing(z.rows, counts);
    if IsCover(z, S, {}, counts) {
      PartitionSize(z, S, {});
    }
    assert CellsOf(z.rows, {}) == {};
  }

  /** A state whose cell count does not fit the missing pieces has no cover. */
  lemma WrongSizeMeansNoCover(z: Puzzle, cells: set<nat>, counts: Counts)
    requires z.Valid()
    requires z.target < Total(counts) || |cells| != 4 * (z.target - Total(counts))
    ensures forall S :: !IsCover(z, S, cells, counts)
  {
    forall S | IsCover(z, S, cells, counts)
      ensures false
    {
      PartitionSize(z, S, cells);
    }
  }

  // ------------------------------------------------------------------
  // The feasibility test of the search
  // ------------------------------------------------------------------

  /** The members left after using one more of a piece. */
  function Advance(rule: PieceRule, active: set<nat>, piece: nat, count: nat): set<nat>
    requires IsPiece(piece)
  {
    if !rule.constrained then active
    else set i | i in active && i < |rule.members| && count <= rule.members[i][piece]
  }

  predicate RowIsFeasible(z: Puzzle, counts: Counts, active: set<nat>, r: nat, cells: set<nat>) {
    && r < |z.rows|
    && z.rows[r].cells != {} && z.rows[r].cells <= cells
    && IsPiece(z.rows[r].piece)
    && counts[z.rows[r].piece] < z.rule.window[z.rows[r].piece]
    && (z.rule.constrained ==> Advance(z.rule, active, z.rows[r].piece, counts[z.rows[r].piece] + 1) != {})
  }

  /** The active members are those of the counts. */
  ghost predicate Tracks(rule: PieceRule, counts: Counts, active: set<nat>) {
    rule.constrained ==> active == Active(rule, counts)
  }

  lemma AdvanceTracks(rule: PieceRule, counts: Counts, active: set<nat>, piece: nat)
    requires IsPiece(piece) && Tracks(rule, counts, active)
    ensures Tracks(rule, Add(counts, piece), Advance(rule, active, piece, counts[piece] + 1))
  {
    if rule.constrained {
      var next := Advance(rule, active, piece, counts[piece] + 1);
      var added := Add(counts, piece);
      forall i | 0 <= i < |rule.members|
        ensures AtMost(added, rule.members[i]) <==>
                  AtMost(counts, rule.members[i]) && counts[piece] + 1 <= rule.members[i][piece]
      {
        if AtMost(added, rule.members[i]) {
          assert added[piece] == counts[piece] + 1;
          forall p | 0 <= p < 8
            ensures counts[p] <= rule.members[i][p]
          {
            assert counts[p] <= added[p];
          }
        }
      }
      assert next == Active(rule, added);
    }
  }

  /** The incremental test decides whether the counts can still fit. */
  lemma FeasibleMeansFits(z: Puzzle, counts: Counts, active: set<nat>, r: nat, cells: set<nat>)
    requires Tracks(z.rule, counts, active) && CanFit(z.rule, counts)
    ensures RowIsFeasible(z, counts, active, r, cells) <==>
              && r < |z.rows| && z.rows[r].cells != {} && z.rows[r].cells <= cells
              && IsPiece(z.rows[r].piece)
              && CanFit(z.rule, Add(counts, z.rows[r].piece))
  {
    if r < |z.rows| && IsPiece(z.rows[r].piece) {
      var piece := z.rows[r].piece;
      AdvanceTracks(z.rule, counts, active, piece);
      var added := Add(counts, piece);
      assert added[piece] == counts[piece] + 1;
      assert AtMost(added, z.rule.window) <==> counts[piece] < z.rule.window[piece];
    }
  }
}
