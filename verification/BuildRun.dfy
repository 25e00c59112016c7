/** One step of a build run and whole runs of it: adjust an operation to the rows
    already cleared, filter it, place it, clear lines and renumber.

    Reachability search is a parameter: it may reject a placement and does nothing
    else to the state.
 */
module BuildRun {
  import opened Options
  import opened Frame

  /** A placement in the target frame. `offsets` is the rotated shape, normalised so
      that its bounding box starts at (0, 0). */
  datatype Operation = Operation(
    id: nat, offsets: set<(nat, nat)>, x: int, y: int, requiredDeletedRows: set<nat>, mask: Board)

  datatype BuildState = BuildState(
    board: Board, deletedRows: set<nat>, deletedCount: nat, clearedLines: nat, placedPieces: nat)

  datatype StepResult =
    | Ok(state: BuildState)
    | YAdjustmentImpossible
    | LineClearDependencyImpossible
    | NotGrounded
    | ReachabilityImpossible

  type Reachability = (Board, Operation, nat) -> bool

  function CandidateMask(L: Layout, op: Operation, y: int): Option<Board> {
    if op.x < 0 || y < 0 then None
    else
      var cells := set o | o in op.offsets :: Cell(op.x + o.0, y + o.1);
      if L.Fits(cells) then Some(cells) else None
  }

  predicate MatchesClearState(st: BuildState, op: Operation) {
    op.requiredDeletedRows == st.deletedRows
  }

  /** The mask and anchor of an operation in the current, compressed frame. */
  function Adjusted(L: Layout, st: BuildState, op: Operation): (r: Option<(Board, nat)>)
    requires L.Valid()
    ensures r.Some? ==> r.value.0 == Compress(op.mask, st.deletedRows)
    ensures r.Some? ==> RowsUsed(op.mask) !! st.deletedRows
    ensures r.Some? ==> L.Fits(r.value.0)
  {
    if || !L.Fits(op.mask)
       || st.clearedLines != st.deletedCount
       || st.deletedCount != |st.deletedRows|
       || !MatchesClearState(st, op)
       || op.y < 0
    then None
    else if st.deletedRows == {} then
      CompressNothing(op.mask);
      if CandidateMask(L, op, op.y) == Some(op.mask) then Some((op.mask, op.y)) else None
    else if exists c :: c in op.mask && (16 <= c.y || c.y in st.deletedRows) then None
    else
      var y := Rank(st.deletedRows, op.y);
      var mask := Compress(op.mask, st.deletedRows);
      CompressFits(L, op.mask, st.deletedRows);
      if CandidateMask(L, op, y) == Some(mask) then Some((mask, y)) else None
  }

  /** One more cell moves down by the deleted rows below it, inside the layout and away from
      the cells moved before. */
  lemma RenumberCell(L: Layout, mask: Board, done: Board, deleted: set<nat>, cell: Cell)
    requires L.Valid() && L.Fits(mask) && cell in mask && cell !in done && cell.y !in deleted
    ensures |BelowRow(deleted, cell.y)| <= cell.y
    ensures var moved := Cell(cell.x, cell.y - |BelowRow(deleted, cell.y)|);
            && L.Holds(moved) && moved !in Compress(done, deleted)
            && Compress(done + {cell}, deleted) == Compress(done, deleted) + {moved}
  {
    RankCountsBelow(deleted, cell.y);
    CompressMember(done, deleted, cell);
    CompressUnion(done, {cell}, deleted);
    CompressOne(cell, deleted);
  }

  lemma CompressOne(cell: Cell, deleted: set<nat>)
    requires cell.y !in deleted
    ensures Compress({cell}, deleted) == {Cell(cell.x, Rank(deleted, cell.y))}
  {
  }

  /** Moves the cells of the mask down one at a time. */
  method AdjustOperation(L: Layout, st: BuildState, op: Operation)
    returns (r: Option<(Board, nat)>)
    requires L.Valid()
    requires forall y :: y in st.deletedRows ==> y < 16
    ensures r == Adjusted(L, st, op)
  {
    if !L.Fits(op.mask) || st.clearedLines != st.deletedCount
       || st.deletedCount != |st.deletedRows|
       || !MatchesClearState(st, op) || op.y < 0 {
      return None;
    }
    if st.deletedRows == {} {
      return if CandidateMask(L, op, op.y) == Some(op.mask) then Some((op.mask, op.y)) else None;
    }
    RankCountsBelow(st.deletedRows, op.y);
    var anchorY := op.y - |BelowRow(st.deletedRows, op.y)|;
    var adjusted: Board := {};
    var remaining := op.mask;
    while remaining != {}
      invariant remaining <= op.mask
      invariant forall c :: c in op.mask - remaining ==> c.y < 16 && c.y !in st.deletedRows
      invariant adjusted == Compress(op.mask - remaining, st.deletedRows)
      decreases remaining
    {
      var cell :| cell in remaining;
      ghost var done := op.mask - remaining;
      remaining := remaining - {cell};
      assert op.mask - remaining == done + {cell};
      if 16 <= cell.y || cell.y in st.deletedRows {
        return None;
      }
      // The code also rejects a cell that leaves the layout or is already taken;
      // renumbering is injective, so neither happens.
      RenumberCell(L, op.mask, done, st.deletedRows, cell);
      adjusted := adjusted + {Cell(cell.x, cell.y - |BelowRow(st.deletedRows, cell.y)|)};
    }
    assert op.mask - remaining == op.mask;
    return if CandidateMask(L, op, anchorY) == Some(adjusted) then Some((adjusted, anchorY)) else None;
  }

  /** On the floor row, or directly above an occupied cell. */
  predicate Grounded(board: Board, mask: Board) {
    || (exists c :: c in mask && c.y == 0)
    || (exists c :: c in mask && 0 < c.y && Cell(c.x, c.y - 1) in board)
  }

  /** Folds the rows just cleared into the line-clear state. */
  function WithClearedLines(st: BuildState, clear: LineClear): (r: Option<BuildState>) {
    if clear.clearedLines == 0 then Some(st)
    else if clear.clearedLines != |clear.deletedRows| then None
    else if exists row :: row in clear.deletedRows && Rank(st.deletedRows, 16) <= row then None
    else
      var next := st.(
        deletedRows := st.deletedRows + UnrankImage(st.deletedRows, clear.deletedRows, 16),
        deletedCount := st.deletedCount + clear.clearedLines,
        clearedLines := st.clearedLines + clear.clearedLines);
      if next.deletedCount == |next.deletedRows| then Some(next) else None
  }

  method UpdateLineClearState(st: BuildState, clear: LineClear) returns (r: Option<BuildState>)
    requires forall row :: row in clear.deletedRows ==> row < 16
    ensures r == WithClearedLines(st, clear)
  {
    if clear.clearedLines == 0 {
      return Some(st);
    }
    if clear.clearedLines != |clear.deletedRows| {
      return None;
    }
    var ok, merged := MergeDeletedRows(16, st.deletedRows, clear.deletedRows);
    if !ok {
      return None;
    }
    var next := st.(deletedRows := merged,
                    deletedCount := st.deletedCount + clear.clearedLines,
                    clearedLines := st.clearedLines + clear.clearedLines);
    return if next.deletedCount == |next.deletedRows| then Some(next) else None;
  }

  /** The step, as a function of the state: the composition of its filters. */
  function Step(L: Layout, reach: Reachability, st: BuildState, op: Operation): StepResult
    requires L.Valid() && L.Fits(st.board)
  {
    match Adjusted(L, st, op)
    case None => YAdjustmentImpossible
    case Some((mask, y)) =>
      if !(st.board !! mask) then LineClearDependencyImpossible
      else if !Grounded(st.board, mask) then NotGrounded
      else if !reach(st.board, op, y) then ReachabilityImpossible
      else
        var clear := LineClearOf(L, st.board + mask);
        match WithClearedLines(st.(board := clear.board), clear)
        case None => YAdjustmentImpossible
        case Some(next) => Ok(next.(placedPieces := next.placedPieces + 1))
  }

  method TryOperation(L: Layout, reach: Reachability, state: BuildState, op: Operation)
    returns (r: StepResult)
    requires L.Valid() && L.Fits(state.board)
    requires forall y :: y in state.deletedRows ==> y < 16
    ensures r == Step(L, reach, state, op)
  {
    var st := state;
    var adjusted := AdjustOperation(L, st, op);
    if adjusted.None? {
      return YAdjustmentImpossible;
    }
    var (mask, y) := adjusted.value;
    if !(st.board !! mask) {
      return LineClearDependencyImpossible;
    }
    if !Grounded(st.board, mask) {
      return NotGrounded;
    }
    if !reach(st.board, op, y) {
      return ReachabilityImpossible;
    }
    var clear := ClearLines(L, st.board + mask);
    st := st.(board := clear.board);
    var updated := UpdateLineClearState(st, clear);
    if updated.None? {
      return YAdjustmentImpossible;
    }
    st := updated.value;
    st := st.(placedPieces := st.placedPieces + 1);
    return Ok(st);
  }

  // ------------------------------------------------------------------
  // The run invariant
  // ------------------------------------------------------------------

  /** The state shows the target board `T`: exactly the full rows of `T` are deleted,
      the board is what is left, and both counters agree with the deleted rows. */
  ghost predicate Tracks(L: Layout, T: Board, st: BuildState) {
    && L.Valid() && L.height <= 16 && L.Fits(T)
    && st.deletedRows == L.FullRows(T)
    && st.board == Compress(T, st.deletedRows)
    && st.deletedCount == st.clearedLines == |st.deletedRows|
  }

  lemma TracksFits(L: Layout, T: Board, st: BuildState)
    requires Tracks(L, T, st)
    ensures L.Fits(st.board) && forall y :: y in st.deletedRows ==> y < 16
  {
    CompressFits(L, T, st.deletedRows);
  }

  lemma UnrankIgnoresSpareRows(deleted: set<nat>, rows: set<nat>, low: nat, high: nat)
    requires low <= high
    requires forall r :: r in rows ==> r < Rank(deleted, low)
    ensures forall r :: r in rows ==> r < Rank(deleted, high)
    ensures UnrankImage(deleted, rows, low) == UnrankImage(deleted, rows, high)
  {
    RankMonotone(deleted, low, high);
    forall r | r in rows
      ensures Unrank(deleted, r, low) == Unrank(deleted, r, high)
    {
      RankInjective(deleted, Unrank(deleted, r, low), Unrank(deleted, r, high));
    }
  }

  /** A successful step places a mask that is disjoint from everything placed before
      it, and the new state shows the enlarged target board. On a tracked state the
      only reasons to reject are the four filters. */
  lemma StepTracks(L: Layout, reach: Reachability, T: Board, st: BuildState, op: Operation)
    requires Tracks(L, T, st)
    requires L.Fits(st.board)
    ensures Step(L, reach, st, op).Ok? ==>
              && T !! op.mask
              && L.Fits(op.mask)
              && Tracks(L, T + op.mask, Step(L, reach, st, op).state)
              && Step(L, reach, st, op).state.placedPieces == st.placedPieces + 1
    ensures Step(L, reach, st, op).Ok? <==>
              && Adjusted(L, st, op).Some?
              && T !! op.mask
              && Grounded(st.board, Adjusted(L, st, op).value.0)
              && reach(st.board, op, Adjusted(L, st, op).value.1)
  {
    match Adjusted(L, st, op)
    case None =>
    case Some((mask, y)) =>
      CompressDisjoint(T, op.mask, st.deletedRows);
      ClearTracks(L, T, st, op.mask);
  }

  /** Clearing after a placement keeps the frames in step and never fails. */
  lemma ClearTracks(L: Layout, T: Board, st: BuildState, mask: Board)
    requires Tracks(L, T, st) && L.Fits(mask) && RowsUsed(mask) !! st.deletedRows
    ensures var clear := LineClearOf(L, st.board + Compress(mask, st.deletedRows));
            var next := WithClearedLines(st.(board := clear.board), clear);
            next.Some? && next.value.placedPieces == st.placedPieces && Tracks(L, T + mask, next.value)
  {
    var clear := LineClearOf(L, st.board + Compress(mask, st.deletedRows));
    PlacementKeepsFramesInStep(L, T, mask);
    UnrankIgnoresSpareRows(st.deletedRows, clear.deletedRows, L.height, 16);
    ClearedLinesAreAdded(st.(board := clear.board), clear, L.FullRows(T + mask));
  }

  lemma ClearedLinesAreAdded(st: BuildState, clear: LineClear, after: set<nat>)
    requires clear.clearedLines == |clear.deletedRows| && forall row :: row in clear.deletedRows ==>
              row < Rank(st.deletedRows, 16)
    requires after == st.deletedRows + UnrankImage(st.deletedRows, clear.deletedRows, 16)
    requires st.deletedCount == |st.deletedRows| && |after| == |st.deletedRows| + clear.clearedLines
    ensures WithClearedLines(st, clear) ==
            Some(st.(deletedRows := after, deletedCount := |after|,
                     clearedLines := st.clearedLines + clear.clearedLines))
  {
    if clear.clearedLines == 0 {
      assert clear.deletedRows == {};
      assert after == st.deletedRows;
    }
  }

  function Run(L: Layout, reach: Reachability, st: BuildState, ops: seq<Operation>): Option<BuildState>
    requires L.Valid()
    decreases |ops|
  {
    if ops == [] then Some(st)
    else if !L.Fits(st.board) then None
    else
      match Step(L, reach, st, ops[0])
      case Ok(next) => Run(L, reach, next, ops[1..])
      case _ => None
  }

  ghost function Placed(T: Board, ops: seq<Operation>): Board
    decreases |ops|
  {
    if ops == [] then T else Placed(T + ops[0].mask, ops[1..])
  }

  ghost predicate Disjoint(T: Board, ops: seq<Operation>)
    decreases |ops|
  {
    ops != [] ==> T !! ops[0].mask && Disjoint(T + ops[0].mask, ops[1..])
  }

  ghost function MaskSizes(ops: seq<Operation>): nat {
    if ops == [] then 0 else |ops[0].mask| + MaskSizes(ops[1..])
  }

  /** Safety over whole runs: after any sequence of successful steps the board is the
      compression of the initial cells plus all placed target masks by exactly the rows
      they fill, both counters equal the number of those rows, and the masks are
      pairwise disjoint. */
  lemma {:induction false} RunTracks(
      L: Layout, reach: Reachability, T: Board, st: BuildState, ops: seq<Operation>)
    requires Tracks(L, T, st)
    requires Run(L, reach, st, ops).Some?
    ensures Tracks(L, Placed(T, ops), Run(L, reach, st, ops).value)
    ensures Disjoint(T, ops)
    ensures Run(L, reach, st, ops).value.placedPieces == st.placedPieces + |ops|
    decreases |ops|
  {
    if ops != [] {
      TracksFits(L, T, st);
      StepTracks(L, reach, T, st, ops[0]);
      RunTracks(L, reach, T + ops[0].mask, Step(L, reach, st, ops[0]).state, ops[1..]);
    }
  }

  function InitialState(board: Board): BuildState {
    BuildState(board, {}, 0, 0, 0)
  }

  lemma InitialTracks(L: Layout, board: Board)
    requires L.Valid() && L.height <= 16 && L.Fits(board)
    ensures Tracks(L, board, InitialState(board)) <==> L.FullRows(board) == {}
  {
    CompressNothing(board);
  }

  /** No surviving row is full at any point of a run that starts without a full row. */
  lemma NoSurvivingRowIsFull(L: Layout, T: Board, st: BuildState)
    requires Tracks(L, T, st)
    ensures L.FullRows(st.board) == {}
  {
    FullRowsCompress(L, T, st.deletedRows);
    assert L.FullRows(T) - st.deletedRows == {};
  }

  // ------------------------------------------------------------------
  // Conservation of cells in an accepted run
  // ------------------------------------------------------------------

  ghost function FilledRows(L: Layout, rows: set<nat>): Board {
    set x, y | 0 <= x < L.width && y in rows :: Cell(x, y)
  }

  lemma {:induction false} FilledRowSize(y: nat, width: nat)
    ensures |set x | 0 <= x < width :: Cell(x, y)| == width
  {
    var row := set x | 0 <= x < width :: Cell(x, y);
    if width == 0 {
      assert row == {};
    } else {
      FilledRowSize(y, width - 1);
      assert row == (set x | 0 <= x < width - 1 :: Cell(x, y)) + {Cell(width - 1, y)};
    }
  }

  lemma FilledRowsSplit(L: Layout, rows: set<nat>, y: nat)
    requires y in rows
    ensures |FilledRows(L, rows)| == |FilledRows(L, rows - {y})| + L.width
  {
    FilledRowSize(y, L.width);
    var row := set x | 0 <= x < L.width :: Cell(x, y);
    assert FilledRows(L, rows) == FilledRows(L, rows - {y}) + row;
    assert FilledRows(L, rows - {y}) !! row;
  }

  lemma {:induction false} FilledRowsSize(L: Layout, rows: set<nat>)
    ensures |FilledRows(L, rows)| == L.width * |rows|
  {
    if rows == {} {
      assert FilledRows(L, rows) == {};
    } else {
      var y :| y in rows;
      FilledRowsSize(L, rows - {y});
      FilledRowsSplit(L, rows, y);
      OneMoreRow(L.width, |rows - {y}|, |rows|);
    }
  }

  lemma OneMoreRow(width: nat, fewer: nat, rows: nat)
    requires rows == fewer + 1
    ensures width * rows == width * fewer + width
  {
  }

  lemma {:induction false} PlacedSize(T: Board, ops: seq<Operation>)
    requires Disjoint(T, ops)
    ensures |Placed(T, ops)| == |T| + MaskSizes(ops)
    decreases |ops|
  {
    if ops != [] {
      PlacedSize(T + ops[0].mask, ops[1..]);
    }
  }

  /** The goal is met exactly when every placed cell lies in a filled row. */
  lemma EmptyBoardMeansFilledRows(L: Layout, T: Board, st: BuildState)
    requires Tracks(L, T, st)
    ensures st.board == {} <==> T == FilledRows(L, st.deletedRows)
  {
    assert FilledRows(L, st.deletedRows) <= T;
    if st.board == {} {
      forall c | c in T
        ensures c.y in st.deletedRows
      {
        assert c.y !in st.deletedRows ==> Cell(c.x, Rank(st.deletedRows, c.y)) in Compress(T, st.deletedRows);
      }
      assert T <= FilledRows(L, st.deletedRows);
    } else {
      var m :| m in st.board;
      var c :| c in T && c.y !in st.deletedRows && m == Cell(c.x, Rank(st.deletedRows, c.y));
      assert c !in FilledRows(L, st.deletedRows);
    }
  }

  lemma UnrankNothing(rows: set<nat>, height: nat)
    requires forall r :: r in rows ==> r < height
    ensures forall r :: r in rows ==> r < Rank({}, height)
    ensures UnrankImage({}, rows, height) == rows
  {
    forall y: nat
      ensures Rank({}, y) == y
    {
      RankCountsBelow({}, y);
      assert BelowRow({}, y) == {};
    }
    forall r | r in rows
      ensures Unrank({}, r, height) == r
    {
      assert Rank({}, Unrank({}, r, height)) == r;
    }
  }

  lemma FirstClearTracks(L: Layout, board: Board, T: Board)
    requires L.Valid() && L.height <= 16 && L.Fits(T)
    ensures var clear := LineClearOf(L, T);
            var next := WithClearedLines(InitialState(board).(board := clear.board), clear);
            next.Some? && Tracks(L, T, next.value)
  {
    var clear := LineClearOf(L, T);
    assert clear.deletedRows == L.FullRows(T);
    UnrankNothing(clear.deletedRows, 16);
    assert {} + UnrankImage({}, clear.deletedRows, 16) == clear.deletedRows;
    ClearedLinesAreAdded(InitialState(board).(board := clear.board), clear, clear.deletedRows);
  }

  lemma FirstMaskIsUnchanged(L: Layout, board: Board, op: Operation)
    requires L.Valid() && Adjusted(L, InitialState(board), op).Some?
    ensures Adjusted(L, InitialState(board), op).value.0 == op.mask && L.Fits(op.mask)
  {
    CompressNothing(op.mask);
  }

  /** The first placement clears every row that was full from the start, so whatever the
      initial board, the state after it shows a target board. */
  lemma FirstStepTracks(L: Layout, reach: Reachability, board: Board, op: Operation)
    requires L.Valid() && L.height <= 16 && L.Fits(board)
    requires Step(L, reach, InitialState(board), op).Ok?
    ensures board !! op.mask && Tracks(L, board + op.mask, Step(L, reach, InitialState(board), op).state)
  {
    FirstMaskIsUnchanged(L, board, op);
    FirstClearTracks(L, board, board + op.mask);
  }

  lemma RunTracksFromAnyBoard(L: Layout, reach: Reachability, board: Board, ops: seq<Operation>)
    requires L.Valid() && L.height <= 16 && L.Fits(board)
    requires Run(L, reach, InitialState(board), ops).Some? && (ops != [] || L.FullRows(board) == {})
    ensures Tracks(L, Placed(board, ops), Run(L, reach, InitialState(board), ops).value)
    ensures Disjoint(board, ops)
  {
    if ops == [] {
      InitialTracks(L, board);
    } else {
      FirstStepTracks(L, reach, board, ops[0]);
      RunTracks(L, reach, board + ops[0].mask, Step(L, reach, InitialState(board), ops[0]).state, ops[1..]);
    }
  }

  lemma {:induction false} PlacedContains(T: Board, ops: seq<Operation>)
    ensures T <= Placed(T, ops)
    decreases |ops|
  {
    if ops != [] {
      PlacedContains(T + ops[0].mask, ops[1..]);
    }
  }

  /** A run that places something changes the target board. */
  lemma RunPlaces(L: Layout, reach: Reachability, board: Board, ops: seq<Operation>)
    requires L.Valid() && L.height <= 16 && L.Fits(board)
    requires Run(L, reach, InitialState(board), ops).Some? && ops != []
    ensures Placed(board, ops) != board
  {
    FirstStepTracks(L, reach, board, ops[0]);
    FirstMaskIsUnchanged(L, board, ops[0]);
    var c :| c in ops[0].mask;
    PlacedContains(board + ops[0].mask, ops[1..]);
  }

  /** Two runs from the same board that place the same cells end in the same board and
      clear state, in whatever order they place them. */
  lemma OrderDoesNotMatter(
      L: Layout, reach: Reachability, reach': Reachability, board: Board,
      ops: seq<Operation>, ops': seq<Operation>)
    requires L.Valid() && L.height <= 16 && L.Fits(board)
    requires Run(L, reach, InitialState(board), ops).Some?
    requires Run(L, reach', InitialState(board), ops').Some?
    requires Placed(board, ops) == Placed(board, ops')
    ensures var a := Run(L, reach, InitialState(board), ops).value;
            var b := Run(L, reach', InitialState(board), ops').value;
            a.board == b.board && a.deletedRows == b.deletedRows
            && a.deletedCount == b.deletedCount && a.clearedLines == b.clearedLines
  {
    if ops != [] && ops' != [] {
      RunTracksFromAnyBoard(L, reach, board, ops);
      RunTracksFromAnyBoard(L, reach', board, ops');
    } else if ops != [] {
      RunPlaces(L, reach, board, ops);
    } else if ops' != [] {
      RunPlaces(L, reach', board, ops');
    }
  }

  /** Conservation: an accepted run fills exactly the rows it clears, so the width times
      the cleared lines is the initial cell count plus the sizes of all masks. */
  lemma AcceptedRunConservesCells(
      L: Layout, reach: Reachability, board: Board, ops: seq<Operation>)
    requires L.Valid() && L.height <= 16 && L.Fits(board)
    requires Run(L, reach, InitialState(board), ops).Some?
    requires Run(L, reach, InitialState(board), ops).value.board == {}
    ensures var end := Run(L, reach, InitialState(board), ops).value;
            && Disjoint(board, ops)
            && Placed(board, ops) == FilledRows(L, end.deletedRows)
            && L.width * end.clearedLines == |board| + MaskSizes(ops)
  {
    var end := Run(L, reach, InitialState(board), ops).value;
    if ops == [] {
      assert forall y :: y in L.FullRows(board) ==> Cell(0, y) in board;
    }
    RunTracksFromAnyBoard(L, reach, board, ops);
    EmptyBoardMeansFilledRows(L, Placed(board, ops), end);
    FilledRowsSize(L, end.deletedRows);
    PlacedSize(board, ops);
  }
}
