/** The two coordinate frames of a build run.

    In the target frame a row keeps its original index for the whole run. In the
    compressed frame the deleted rows are gone and the rows above them have moved
    down. A board mask is the set of its occupied cells; the cell (x, y) is bit
    `y * width + x` of the mask, bottom-left first.
 */
module Frame {

  datatype Cell = Cell(x: nat, y: nat)

  type Board = set<Cell>

  datatype Layout = Layout(width: nat, height: nat) {
    predicate Valid() {
      0 < width && 0 < height && width * height <= 64
    }

    predicate Holds(c: Cell) {
      c.x < width && c.y < height
    }

    /** The mask has no bit outside `all_cells_mask`. */
    predicate Fits(b: Board) {
      forall c :: c in b ==> Holds(c)
    }

    predicate Full(b: Board, y: nat) {
      forall x :: 0 <= x < width ==> Cell(x, y) in b
    }

    function FullRows(b: Board): set<nat> {
      set y | 0 <= y < height && Full(b, y)
    }
  }

  /** The columns occupied in one row: `(board & row_mask) >> (y * width)`. */
  function RowOf(b: Board, y: nat): set<nat> {
    set c | c in b && c.y == y :: c.x
  }

  predicate IsFullRow(row: set<nat>, width: nat) {
    forall x :: 0 <= x < width ==> x in row
  }

  /** `row << (y * width)`. */
  function AtRow(row: set<nat>, y: nat): Board {
    set x | x in row :: Cell(x, y)
  }

  function BelowCells(b: Board, y: nat): Board {
    set c | c in b && c.y < y
  }

  function BelowRow(rows: set<nat>, y: nat): set<nat> {
    set r | r in rows && r < y
  }

  function RowsUsed(b: Board): set<nat> {
    set c | c in b :: c.y
  }

  // ------------------------------------------------------------------
  // Renumbering rows
  // ------------------------------------------------------------------

  /** How many rows below `y` survive the deletion of `deleted`: the index that
      row `y` has in the compressed frame. */
  function Rank(deleted: set<nat>, y: nat): (r: nat)
    ensures r <= y
  {
    if y == 0 then 0
    else Rank(deleted, y - 1) + (if y - 1 in deleted then 0 else 1)
  }

  function Compress(b: Board, deleted: set<nat>): Board {
    set c | c in b && c.y !in deleted :: Cell(c.x, Rank(deleted, c.y))
  }

  function RankImage(deleted: set<nat>, rows: set<nat>): set<nat> {
    set y | y in rows :: Rank(deleted, y)
  }

  lemma {:induction false} RankMonotone(deleted: set<nat>, y: nat, z: nat)
    requires y <= z
    ensures Rank(deleted, y) <= Rank(deleted, z)
    ensures y < z && y !in deleted ==> Rank(deleted, y) < Rank(deleted, z)
    decreases z
  {
    if y < z {
      RankMonotone(deleted, y, z - 1);
    }
  }

  lemma RankInjective(deleted: set<nat>, y: nat, z: nat)
    requires y !in deleted && z !in deleted
    requires Rank(deleted, y) == Rank(deleted, z)
    ensures y == z
  {
    if y < z {
      RankMonotone(deleted, y, z);
    } else if z < y {
      RankMonotone(deleted, z, y);
    }
  }

  /** The popcount that the code takes below a row is what `Rank` leaves out. */
  lemma {:induction false} RankCountsBelow(deleted: set<nat>, y: nat)
    ensures |BelowRow(deleted, y)| + Rank(deleted, y) == y
  {
    var below := BelowRow(deleted, y);
    if y == 0 {
      assert below == {};
    } else {
      RankCountsBelow(deleted, y - 1);
      var previous := BelowRow(deleted, y - 1);
      if y - 1 in deleted {
        assert below == previous + {y - 1};
      } else {
        assert below == previous;
      }
    }
  }

  /** Deleting `deleted` and then the renumbered `more` renumbers a row exactly as
      deleting both at once. */
  lemma {:induction false} RankCompose(deleted: set<nat>, more: set<nat>, y: nat)
    requires deleted !! more
    ensures Rank(deleted + more, y) == Rank(RankImage(deleted, more), Rank(deleted, y))
  {
    if y != 0 {
      RankCompose(deleted, more, y - 1);
      var image := RankImage(deleted, more);
      if y - 1 !in deleted {
        assert y - 1 in more <==> Rank(deleted, y - 1) in image by {
          if Rank(deleted, y - 1) in image {
            var z :| z in more && Rank(deleted, z) == Rank(deleted, y - 1);
            RankInjective(deleted, z, y - 1);
          }
        }
      }
    }
  }

  lemma CompressMember(b: Board, deleted: set<nat>, c: Cell)
    requires c.y !in deleted
    ensures Cell(c.x, Rank(deleted, c.y)) in Compress(b, deleted) <==> c in b
  {
    if Cell(c.x, Rank(deleted, c.y)) in Compress(b, deleted) {
      var d :| d in b && d.y !in deleted && Cell(d.x, Rank(deleted, d.y)) == Cell(c.x, Rank(deleted, c.y));
      RankInjective(deleted, c.y, d.y);
      assert c == d;
    }
  }

  lemma CompressCompose(b: Board, deleted: set<nat>, more: set<nat>)
    requires deleted !! more
    ensures Compress(Compress(b, deleted), RankImage(deleted, more)) == Compress(b, deleted + more)
  {
    var image := RankImage(deleted, more);
    forall c | c in b && c.y !in deleted
      ensures Rank(deleted, c.y) in image <==> c.y in more
      ensures Rank(image, Rank(deleted, c.y)) == Rank(deleted + more, c.y)
    {
      RankCompose(deleted, more, c.y);
      if Rank(deleted, c.y) in image {
        var z :| z in more && Rank(deleted, z) == Rank(deleted, c.y);
        RankInjective(deleted, z, c.y);
      }
    }
    var twice := Compress(Compress(b, deleted), image);
    var once := Compress(b, deleted + more);
    forall d | d in twice
      ensures d in once
    {
      var m :| m in Compress(b, deleted) && m.y !in image && d == Cell(m.x, Rank(image, m.y));
      var c :| c in b && c.y !in deleted && m == Cell(c.x, Rank(deleted, c.y));
      assert c.y !in deleted + more;
    }
    forall d | d in once
      ensures d in twice
    {
      var c :| c in b && c.y !in deleted + more && d == Cell(c.x, Rank(deleted + more, c.y));
      var m := Cell(c.x, Rank(deleted, c.y));
      assert m in Compress(b, deleted) && m.y !in image;
    }
  }

  lemma CompressUnion(a: Board, b: Board, deleted: set<nat>)
    ensures Compress(a + b, deleted) == Compress(a, deleted) + Compress(b, deleted)
  {
  }

  /** Compression separates boards: two masks without a cell in a deleted row collide
      in the compressed frame exactly when they overlap in the target frame. */
  lemma CompressDisjoint(a: Board, b: Board, deleted: set<nat>)
    requires RowsUsed(b) !! deleted
    ensures Compress(a, deleted) !! Compress(b, deleted) <==> a !! b
  {
    forall c | c in b
      ensures c in a <==> Cell(c.x, Rank(deleted, c.y)) in Compress(a, deleted)
    {
      assert c.y in RowsUsed(b);
      CompressMember(a, deleted, c);
    }
    if !(a !! b) {
      var c :| c in a && c in b;
      assert Cell(c.x, Rank(deleted, c.y)) in Compress(b, deleted) by {
        assert c.y in RowsUsed(b);
      }
    }
    if !(Compress(a, deleted) !! Compress(b, deleted)) {
      var m :| m in Compress(a, deleted) && m in Compress(b, deleted);
      var c :| c in b && c.y !in deleted && m == Cell(c.x, Rank(deleted, c.y));
      assert c in a;
    }
  }

  lemma CompressFits(L: Layout, b: Board, deleted: set<nat>)
    requires L.Fits(b)
    ensures L.Fits(Compress(b, deleted))
    ensures forall c :: c in Compress(b, deleted) ==> c.y < Rank(deleted, L.height)
  {
    forall c | c in b && c.y !in deleted
      ensures Rank(deleted, c.y) < Rank(deleted, L.height)
    {
      RankMonotone(deleted, c.y, L.height);
    }
  }

  lemma CompressNothing(b: Board)
    ensures Compress(b, {}) == b
  {
    forall y: nat
      ensures Rank({}, y) == y
    {
      RankOfNothing(y);
    }
  }

  lemma {:induction false} RankOfNothing(y: nat)
    ensures Rank({}, y) == y
  {
    if y != 0 {
      RankOfNothing(y - 1);
    }
  }

  /** A surviving row is full in one frame exactly when it is full in the other. */
  lemma FullRowsCompress(L: Layout, b: Board, deleted: set<nat>)
    requires L.Valid() && L.Fits(b)
    ensures L.FullRows(Compress(b, deleted)) == RankImage(deleted, L.FullRows(b) - deleted)
  {
    var compressed := Compress(b, deleted);
    var image := RankImage(deleted, L.FullRows(b) - deleted);
    CompressFits(L, b, deleted);
    forall y | 0 <= y < L.height && y !in deleted
      ensures L.Full(b, y) <==> L.Full(compressed, Rank(deleted, y))
    {
      forall x | 0 <= x < L.width
        ensures Cell(x, y) in b <==> Cell(x, Rank(deleted, y)) in compressed
      {
        CompressMember(b, deleted, Cell(x, y));
      }
    }
    forall r | r in L.FullRows(compressed)
      ensures r in image
    {
      assert Cell(0, r) in compressed;
      var c :| c in b && c.y !in deleted && Cell(0, r) == Cell(c.x, Rank(deleted, c.y));
      assert c.y in L.FullRows(b) - deleted;
    }
    forall r | r in image
      ensures r in L.FullRows(compressed)
    {
      var y :| y in L.FullRows(b) - deleted && r == Rank(deleted, y);
    }
  }

  // ------------------------------------------------------------------
  // From a compressed row back to its target row
  // ------------------------------------------------------------------

  /** The target row below `height` that has index `r` once `deleted` is gone. */
  function Unrank(deleted: set<nat>, r: nat, height: nat): (y: nat)
    requires r < Rank(deleted, height)
    ensures y < height && y !in deleted && Rank(deleted, y) == r
  {
    if height - 1 !in deleted && Rank(deleted, height - 1) == r then height - 1
    else Unrank(deleted, r, height - 1)
  }

  lemma UnrankOfRank(deleted: set<nat>, y: nat, height: nat)
    requires y < height && y !in deleted
    ensures Rank(deleted, y) < Rank(deleted, height)
    ensures Unrank(deleted, Rank(deleted, y), height) == y
  {
    RankMonotone(deleted, y, height);
    RankInjective(deleted, Unrank(deleted, Rank(deleted, y), height), y);
  }

  function UnrankImage(deleted: set<nat>, rows: set<nat>, height: nat): set<nat>
    requires forall r :: r in rows ==> r < Rank(deleted, height)
  {
    set r | r in rows :: Unrank(deleted, r, height)
  }

  lemma UnrankImageOfRankImage(deleted: set<nat>, rows: set<nat>, height: nat)
    requires rows !! deleted && forall y :: y in rows ==> y < height
    ensures forall r :: r in RankImage(deleted, rows) ==> r < Rank(deleted, height)
    ensures UnrankImage(deleted, RankImage(deleted, rows), height) == rows
  {
    forall y | y in rows
      ensures Rank(deleted, y) < Rank(deleted, height)
      ensures Unrank(deleted, Rank(deleted, y), height) == y
    {
      UnrankOfRank(deleted, y, height);
    }
    forall y | y in rows
      ensures y in UnrankImage(deleted, RankImage(deleted, rows), height)
    {
      assert Rank(deleted, y) in RankImage(deleted, rows);
    }
  }

  /** Scans the target rows upwards and counts the surviving ones. */
  method TargetRowForCurrentRow(height: nat, deleted: set<nat>, current: nat)
    returns (found: bool, row: nat)
    ensures found <==> current < Rank(deleted, height)
    ensures found ==> row == Unrank(deleted, current, height)
  {
    var visible := 0;
    for target := 0 to height
      invariant visible == Rank(deleted, target) <= current
    {
      if target !in deleted {
        if visible == current {
          UnrankOfRank(deleted, target, height);
          return true, target;
        }
        visible := visible + 1;
      }
    }
    return false, 0;
  }

  /** Adds the rows just cleared, given by their compressed index, to the deleted
      target rows; fails when a row has no surviving target row. */
  method MergeDeletedRows(height: nat, previous: set<nat>, cleared: set<nat>)
    returns (ok: bool, merged: set<nat>)
    requires forall r :: r in cleared ==> r < height
    ensures ok <==> forall r :: r in cleared ==> r < Rank(previous, height)
    ensures ok ==> merged == previous + UnrankImage(previous, cleared, height)
  {
    var original := {};
    for current := 0 to height
      invariant forall r :: r in cleared && r < current ==> r < Rank(previous, height)
      invariant original == UnrankImage(previous, BelowRow(cleared, current), height)
    {
      if current in cleared {
        var found, row := TargetRowForCurrentRow(height, previous, current);
        if !found {
          return false, {};
        }
        original := original + {row};
      }
    }
    assert BelowRow(cleared, height) == cleared;
    return true, previous + original;
  }

  // ------------------------------------------------------------------
  // Line clears
  // ------------------------------------------------------------------

  datatype LineClear = LineClear(board: Board, deletedRows: set<nat>, clearedLines: nat)

  /** What a line clear leaves: the full rows gone, the rest moved down, the full
      rows below 16 recorded, all of them counted. */
  function LineClearOf(L: Layout, b: Board): LineClear {
    var full := L.FullRows(b);
    LineClear(Compress(b, full), BelowRow(full, 16), |full|)
  }

  lemma RowIsFull(L: Layout, b: Board, y: nat)
    ensures IsFullRow(RowOf(b, y), L.width) <==> L.Full(b, y)
  {
    forall x: nat
      ensures Cell(x, y) in b <==> x in RowOf(b, y)
    {
    }
  }

  /** The read/write cursor loop over the rows, bottom row first. */
  method ClearLines(L: Layout, board: Board) returns (result: LineClear)
    requires L.Valid() && L.Fits(board)
    ensures result == LineClearOf(L, board)
  {
    ghost var full := L.FullRows(board);
    var compacted: Board := {};
    var writeY := 0;
    var clearedLines := 0;
    var deletedRows: set<nat> := {};
    for readY := 0 to L.height
      invariant compacted == Compress(BelowCells(board, readY), full)
      invariant writeY == Rank(full, readY)
      invariant deletedRows == BelowRow(BelowRow(full, 16), readY)
      invariant clearedLines == readY - writeY
    {
      var row := RowOf(board, readY);
      RowIsFull(L, board, readY);
      if IsFullRow(row, L.width) {
        clearedLines := clearedLines + 1;
        if readY < 16 {
          deletedRows := deletedRows + {readY};
        }
        SkipFullRow(board, full, readY);
      } else {
        CopyRow(board, full, readY);
        compacted := compacted + AtRow(row, writeY);
        writeY := writeY + 1;
      }
      GrowBelow(full, readY);
    }
    assert BelowCells(board, L.height) == board;
    assert BelowRow(full, L.height) == full;
    RankCountsBelow(full, L.height);
    result := LineClear(compacted, deletedRows, clearedLines);
  }

  lemma GrowBelow(full: set<nat>, y: nat)
    ensures BelowRow(BelowRow(full, 16), y + 1)
         == if y in full && y < 16 then BelowRow(BelowRow(full, 16), y) + {y} else BelowRow(BelowRow(full, 16), y)
  {
  }

  lemma SkipFullRow(board: Board, full: set<nat>, y: nat)
    requires y in full
    ensures Compress(BelowCells(board, y + 1), full) == Compress(BelowCells(board, y), full)
  {
  }

  lemma CopyRow(board: Board, full: set<nat>, y: nat)
    requires y !in full
    ensures Compress(BelowCells(board, y + 1), full)
         == Compress(BelowCells(board, y), full) + AtRow(RowOf(board, y), Rank(full, y))
  {
    var upper := Compress(BelowCells(board, y + 1), full);
    var lower := Compress(BelowCells(board, y), full);
    var copied := AtRow(RowOf(board, y), Rank(full, y));
    forall d | d in upper
      ensures d in lower + copied
    {
      var c :| c in board && c.y < y + 1 && c.y !in full && d == Cell(c.x, Rank(full, c.y));
      if c.y == y {
        assert c.x in RowOf(board, y);
      }
    }
    forall d | d in copied
      ensures d in upper
    {
      var c :| c in board && c.y == y && c.x == d.x;
    }
  }

  /** One placement in step with both frames. If the compressed board shows the target
      board `T` with its full rows deleted, then placing the compressed mask and
      clearing lines shows `T + mask` with its full rows deleted. */
  lemma PlacementKeepsFramesInStep(L: Layout, T: Board, mask: Board)
    requires L.Valid() && L.height <= 16 && L.Fits(T) && L.Fits(mask)
    requires RowsUsed(mask) !! L.FullRows(T)
    ensures var deleted := L.FullRows(T);
            var clear := LineClearOf(L, Compress(T, deleted) + Compress(mask, deleted));
            && clear.board == Compress(T + mask, L.FullRows(T + mask))
            && clear.deletedRows == RankImage(deleted, L.FullRows(T + mask) - deleted)
            && (forall r :: r in clear.deletedRows ==> r < Rank(deleted, L.height))
            && deleted + UnrankImage(deleted, clear.deletedRows, L.height) == L.FullRows(T + mask)
            && |clear.deletedRows| == clear.clearedLines
            && |L.FullRows(T + mask)| == |deleted| + clear.clearedLines
  {
    var deleted := L.FullRows(T);
    var after := L.FullRows(T + mask);
    var added := after - deleted;
    assert deleted <= after;
    CompressUnion(T, mask, deleted);
    var placed := Compress(T + mask, deleted);
    FullRowsCompress(L, T + mask, deleted);
    CompressCompose(T + mask, deleted, added);
    assert deleted + added == after;
    UnrankImageOfRankImage(deleted, added, L.height);
    var clear := LineClearOf(L, placed);
    assert clear.deletedRows == RankImage(deleted, added);
    RankImageSize(deleted, added);
    assert |after| == |deleted| + |added|;
  }

  lemma {:induction false} RankImageSize(deleted: set<nat>, rows: set<nat>)
    requires rows !! deleted
    ensures |RankImage(deleted, rows)| == |rows|
  {
    if rows != {} {
      var y :| y in rows;
      var rest := rows - {y};
      RankImageSize(deleted, rest);
      assert RankImage(deleted, rows) == RankImage(deleted, rest) + {Rank(deleted, y)};
      if Rank(deleted, y) in RankImage(deleted, rest) {
        var z :| z in rest && Rank(deleted, z) == Rank(deleted, y);
        RankInjective(deleted, y, z);
      }
    }
  }
}
