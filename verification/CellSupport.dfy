/** The index the cover search branches over: for every cell, the rows through it. */
module CellSupport {
  import opened Folding

  /** The rows below `limit` that contain a cell, in row order. */
  ghost function RowsThrough(rows: seq<set<nat>>, cell: nat, limit: nat): seq<nat>
    requires limit <= |rows|
  {
    if limit == 0 then []
    else RowsThrough(rows, cell, limit - 1) + (if cell in rows[limit - 1] then [limit - 1] else [])
  }

  lemma {:induction false} RowsThroughGrow(rows: seq<set<nat>>, cell: nat, low: nat, high: nat)
    requires low <= high <= |rows|
    ensures |RowsThrough(rows, cell, low)| <= |RowsThrough(rows, cell, high)|
    ensures low < high && cell in rows[low] ==> |RowsThrough(rows, cell, low)| < |RowsThrough(rows, cell, high)|
    decreases high
  {
    if low + 1 < high {
      RowsThroughGrow(rows, cell, low, high - 1);
    }
  }

  /** The list names exactly the rows through the cell. */
  lemma {:induction false} RowsThroughHas(rows: seq<set<nat>>, cell: nat, limit: nat, r: nat)
    requires limit <= |rows|
    ensures r in RowsThrough(rows, cell, limit) <==> r < limit && cell in rows[r]
    decreases limit
  {
    if limit != 0 {
      RowsThroughHas(rows, cell, limit - 1, r);
    }
  }

  ghost predicate InBoard(rows: seq<set<nat>>, cells: nat) {
    forall r, c :: 0 <= r < |rows| && c in rows[r] ==> c < cells
  }

  /** Rows each cell has seen when row `r` is done up to cell `x`. */
  function Seen(r: nat, x: nat, cell: nat): nat {
    if cell < x then r + 1 else r
  }

  /** First pass: how many rows go through each cell. Fails if a row leaves the board. */
  method CountSupport(rows: seq<set<nat>>, cells: nat) returns (ok: bool, counts: array<nat>)
    requires forall r, c :: 0 <= r < |rows| && c in rows[r] ==> c < 64
    ensures ok <==> InBoard(rows, cells)
    ensures fresh(counts) && counts.Length == cells
    ensures ok ==> forall c: nat :: c < cells ==> counts[c] == |RowsThrough(rows, c, |rows|)|
  {
    counts := new nat[cells](i => 0);
    for r := 0 to |rows|
      invariant forall q, c :: 0 <= q < r && c in rows[q] ==> c < cells
      invariant forall c: nat :: c < cells ==> counts[c] == |RowsThrough(rows, c, r)|
    {
      for x := 0 to 64
        invariant forall c :: c in rows[r] && c < x ==> c < cells
        invariant forall c: nat :: c < cells ==> counts[c] == |RowsThrough(rows, c, Seen(r, x, c))|
      {
        if x in rows[r] {
          if x >= cells {
            return false, counts;
          }
          counts[x] := counts[x] + 1;
        }
      }
      assert forall c :: c in rows[r] ==> c < cells;
      forall c: nat | c < cells
        ensures counts[c] == |RowsThrough(rows, c, r + 1)|
      {
        if c >= 64 {
          assert c !in rows[r];
        }
      }
    }
    ok := true;
  }

  /** Where the list of each cell begins, and the total. */
  method Offsets(counts: seq<nat>) returns (offsets: seq<nat>)
    ensures |offsets| == |counts| + 1 && offsets[0] == 0
    ensures forall c :: 0 <= c < |counts| ==> offsets[c + 1] == offsets[c] + counts[c]
  {
    offsets := [0];
    for c := 0 to |counts|
      invariant |offsets| == c + 1 && offsets[0] == 0
      invariant forall d :: 0 <= d < c ==> offsets[d + 1] == offsets[d] + counts[d]
    {
      offsets := offsets + [offsets[c] + counts[c]];
    }
  }

  lemma {:induction false} OffsetsAscend(offsets: seq<nat>, a: nat, b: nat)
    requires a <= b < |offsets| && forall c :: 0 <= c < |offsets| - 1 ==> offsets[c] <= offsets[c + 1]
    ensures offsets[a] <= offsets[b]
    decreases b
  {
    if a < b {
      OffsetsAscend(offsets, a, b - 1);
      assert offsets[b - 1] <= offsets[b - 1 + 1];
    }
  }

  /** The lists lie one after the other, each with room for all rows through its cell. */
  ghost predicate LaidOut(rows: seq<set<nat>>, offsets: seq<nat>) {
    && |offsets| > 0
    && (forall a, b :: 0 <= a <= b < |offsets| ==> offsets[a] <= offsets[b])
    && (forall c: nat :: c < |offsets| - 1 ==> offsets[c + 1] == offsets[c] + |RowsThrough(rows, c, |rows|)|)
  }

  /** The part of a list that is written when `n` rows have been seen. */
  ghost predicate Written(ids: seq<nat>, rows: seq<set<nat>>, offsets: seq<nat>, c: nat, n: nat)
    requires LaidOut(rows, offsets) && c < |offsets| - 1 && n <= |rows| && |ids| == offsets[|offsets| - 1]
  {
    var list := RowsThrough(rows, c, n);
    offsets[c] + |list| <= |ids| && ids[offsets[c]..offsets[c] + |list|] == list
  }

  ghost predicate WrittenAt(ids: seq<nat>, rows: seq<set<nat>>, offsets: seq<nat>, c: nat, r: nat, x: nat)
    requires LaidOut(rows, offsets) && c < |offsets| - 1 && r < |rows| && |ids| == offsets[|offsets| - 1]
  {
    Written(ids, rows, offsets, c, Seen(r, x, c))
  }

  /** All lists, when row `r` is done up to cell `x`. */
  ghost predicate AllWritten(ids: seq<nat>, rows: seq<set<nat>>, offsets: seq<nat>, r: nat, x: nat)
    requires LaidOut(rows, offsets) && r < |rows| && |ids| == offsets[|offsets| - 1]
  {
    forall u: nat {:trigger Unfold(u)} :: Unfold(u) ==>
      forall c: nat :: c < |offsets| - 1 ==> WrittenAt(ids, rows, offsets, c, r, x)
  }

  /** Writing the next row of one cell leaves the other lists alone. */
  lemma WriteNext(ids: seq<nat>, rows: seq<set<nat>>, offsets: seq<nat>, r: nat, x: nat, c: nat)
    requires LaidOut(rows, offsets) && x < |offsets| - 1 && r < |rows| && x in rows[r] &&
              |ids| == offsets[|offsets| - 1]
    requires c < |offsets| - 1 && WrittenAt(ids, rows, offsets, c, r, x)
    ensures var at := offsets[x] + |RowsThrough(rows, x, r)|;
            at < |ids| && WrittenAt(ids[at := r], rows, offsets, c, r, x + 1)
  {
    var at := offsets[x] + |RowsThrough(rows, x, r)|;
    RowsThroughGrow(rows, x, r, |rows|);
    assert at < offsets[x + 1] <= offsets[|offsets| - 1];
    var next := ids[at := r];
    var n := Seen(r, x, c);
    var list := RowsThrough(rows, c, n);
    RowsThroughGrow(rows, c, n, |rows|);
    if c == x {
      WriteAtEnd(ids, offsets[c], at, r);
    } else {
      ListsAreApart(rows, offsets, x, c);
      WriteElsewhere(ids, offsets[c], offsets[c] + |list|, at, r);
    }
  }

  lemma WriteAtEnd(ids: seq<nat>, low: nat, at: nat, r: nat)
    requires low <= at < |ids|
    ensures ids[at := r][low..at + 1] == ids[low..at] + [r]
  {
  }

  lemma WriteElsewhere(ids: seq<nat>, low: nat, high: nat, at: nat, r: nat)
    requires low <= high <= |ids| && at < |ids| && (at < low || high <= at)
    ensures ids[at := r][low..high] == ids[low..high]
  {
  }

  lemma ListsAreApart(rows: seq<set<nat>>, offsets: seq<nat>, x: nat, c: nat)
    requires LaidOut(rows, offsets) && x < |offsets| - 1 && c < |offsets| - 1 && x != c
    ensures offsets[c + 1] <= offsets[x] || offsets[x + 1] <= offsets[c]
    ensures offsets[c + 1] == offsets[c] + |RowsThrough(rows, c, |rows|)|
  {
  }

  lemma WriteCell(ids: seq<nat>, rows: seq<set<nat>>, offsets: seq<nat>, r: nat, x: nat)
    requires LaidOut(rows, offsets) && x < |offsets| - 1 && r < |rows| && x in rows[r] &&
              |ids| == offsets[|offsets| - 1]
    requires AllWritten(ids, rows, offsets, r, x)
    ensures var at := offsets[x] + |RowsThrough(rows, x, r)|;
            at < |ids| && AllWritten(ids[at := r], rows, offsets, r, x + 1)
  {
    assert Unfold(0);
    WriteNext(ids, rows, offsets, r, x, x);
    var y, next := x + 1, ids[offsets[x] + |RowsThrough(rows, x, r)| := r];
    forall c: nat | c < |offsets| - 1
      ensures WrittenAt(next, rows, offsets, c, r, y)
    {
      WriteNext(ids, rows, offsets, r, x, c);
    }
  }

  lemma SkipCell(ids: seq<nat>, rows: seq<set<nat>>, offsets: seq<nat>, r: nat, x: nat)
    requires LaidOut(rows, offsets) && r < |rows| && x !in rows[r] && |ids| == offsets[|offsets| - 1]
    requires AllWritten(ids, rows, offsets, r, x)
    ensures AllWritten(ids, rows, offsets, r, x + 1)
  {
    assert Unfold(0);
    var y := x + 1;
    forall c: nat | c < |offsets| - 1
      ensures WrittenAt(ids, rows, offsets, c, r, y)
    {
      assert WrittenAt(ids, rows, offsets, c, r, x);
    }
  }

  /** The lists after a whole row are those before the next one. */
  lemma RowDone(ids: seq<nat>, rows: seq<set<nat>>, offsets: seq<nat>, r: nat)
    requires LaidOut(rows, offsets) && r < |rows| && |ids| == offsets[|offsets| - 1]
    ensures AllWritten(ids, rows, offsets, r, 0) <==> forall c: nat :: c < |offsets| - 1 ==>
              Written(ids, rows, offsets, c, r)
    ensures var done := r + 1;
            AllWritten(ids, rows, offsets, r, |offsets| - 1) <==> forall c: nat :: c < |offsets| - 1 ==>
                Written(ids, rows, offsets, c, done)
  {
    assert Unfold(0);
    var cells, done := |offsets| - 1, r + 1;
    assert forall c: nat :: c < cells ==>
        (WrittenAt(ids, rows, offsets, c, r, 0) <==> Written(ids, rows, offsets, c, r));
    assert forall c: nat :: c < cells ==>
        (WrittenAt(ids, rows, offsets, c, r, cells) <==> Written(ids, rows, offsets, c, done));
  }

  /** Files one row under each of its cells. */
  method FillRow(ids: array<nat>, cursors: array<nat>, rows: seq<set<nat>>, offsets: seq<nat>, r: nat)
    requires LaidOut(rows, offsets) && r < |rows| && ids != cursors
    requires ids.Length == offsets[|offsets| - 1] && cursors.Length == |offsets| - 1
    requires AllWritten(ids[..], rows, offsets, r, 0)
    requires forall c: nat :: c < |offsets| - 1 ==> cursors[c] == offsets[c] + |RowsThrough(rows, c, r)|
    modifies ids, cursors
    ensures AllWritten(ids[..], rows, offsets, r, |offsets| - 1)
    ensures forall c: nat :: c < |offsets| - 1 ==>
              cursors[c] == offsets[c] + |RowsThrough(rows, c, Seen(r, |offsets| - 1, c))|
  {
    for x := 0 to |offsets| - 1
      invariant AllWritten(ids[..], rows, offsets, r, x)
      invariant forall c: nat :: c < |offsets| - 1 ==> cursors[c] == offsets[c] + |RowsThrough(rows, c, Seen(r, x, c))|
    {
      ghost var before := ids[..];
      if x in rows[r] {
        WriteCell(before, rows, offsets, r, x);
        ids[cursors[x]] := r;
        assert ids[..] == before[offsets[x] + |RowsThrough(rows, x, r)| := r];
        cursors[x] := cursors[x] + 1;
      } else {
        SkipCell(before, rows, offsets, r, x);
      }
    }
  }

  /** Second pass: files every row under each of its cells. */
  method Fill(rows: seq<set<nat>>, offsets: seq<nat>) returns (ids: array<nat>)
    requires LaidOut(rows, offsets)
    ensures fresh(ids) && ids.Length == offsets[|offsets| - 1]
    ensures forall c: nat :: c < |offsets| - 1 ==> Written(ids[..], rows, offsets, c, |rows|)
  {
    var cells := |offsets| - 1;
    ids := new nat[offsets[cells]](i => 0);
    var cursors := new nat[cells](c requires 0 <= c < cells => offsets[c]);
    forall c: nat | c < cells
      ensures Written(ids[..], rows, offsets, c, 0)
    {
      assert ids[..][offsets[c]..offsets[c]] == [];
    }
    for r := 0 to |rows|
      invariant forall c: nat :: c < cells ==> Written(ids[..], rows, offsets, c, r)
      invariant forall c: nat :: c < cells ==> cursors[c] == offsets[c] + |RowsThrough(rows, c, r)|
    {
      RowDone(ids[..], rows, offsets, r);
      FillRow(ids, cursors, rows, offsets, r);
      RowDone(ids[..], rows, offsets, r);
    }
  }

  /** The list of a cell in the finished index. */
  ghost predicate Lists(rows: seq<set<nat>>, offsets: seq<nat>, ids: seq<nat>, c: nat)
    requires c < |offsets| - 1
  {
    offsets[c] <= offsets[c + 1] <= |ids| && ids[offsets[c]..offsets[c + 1]] == RowsThrough(rows, c, |rows|)
  }

  datatype Index = Index(offsets: seq<nat>, ids: seq<nat>)

  /** The rows that the search visits for a cell. */
  function SliceOf(index: Index, c: nat): seq<nat> {
    if c + 1 < |index.offsets| && index.offsets[c] <= index.offsets[c + 1] <= |index.ids|
    then index.ids[index.offsets[c]..index.offsets[c + 1]]
    else []
  }

  /** The index knows the rows through every one of the cells. */
  ghost predicate Indexes(index: Index, rows: seq<set<nat>>, cells: set<nat>) {
    forall u: nat {:trigger Unfold(u)} :: Unfold(u) ==>
      forall c :: c in cells ==> SliceOf(index, c) == RowsThrough(rows, c, |rows|)
  }

  lemma BuiltIndexIndexes(rows: seq<set<nat>>, index: Index, count: nat, cells: set<nat>)
    requires |index.offsets| == count + 1 && forall c: nat :: c < count ==> Lists(rows, index.offsets, index.ids, c)
    requires forall c :: c in cells ==> c < count
    ensures Indexes(index, rows, cells)
  {
    forall c | c in cells
      ensures SliceOf(index, c) == RowsThrough(rows, c, |rows|)
    {
      assert Lists(rows, index.offsets, index.ids, c);
    }
  }

  /** The slice of a cell holds exactly the rows through it. */
  lemma SliceHas(index: Index, rows: seq<set<nat>>, cells: set<nat>, c: nat)
    requires Indexes(index, rows, cells) && c in cells
    ensures |SliceOf(index, c)| <= |rows|
    ensures forall k :: 0 <= k < |SliceOf(index, c)| ==>
              SliceOf(index, c)[k] < |rows| && c in rows[SliceOf(index, c)[k]]
    ensures forall r: nat :: r < |rows| && c in rows[r] ==> r in SliceOf(index, c)
  {
    assert Unfold(0);
    RowsThroughSize(rows, c, |rows|);
    forall r: nat
      ensures r in RowsThrough(rows, c, |rows|) <==> r < |rows| && c in rows[r]
    {
      RowsThroughHas(rows, c, |rows|, r);
    }
    var slice := SliceOf(index, c);
    forall k | 0 <= k < |slice|
      ensures slice[k] < |rows| && c in rows[slice[k]]
    {
      assert slice[k] in RowsThrough(rows, c, |rows|);
    }
  }

  lemma {:induction false} RowsThroughSize(rows: seq<set<nat>>, cell: nat, limit: nat)
    requires limit <= |rows|
    ensures |RowsThrough(rows, cell, limit)| <= limit
    decreases limit
  {
    if limit != 0 {
      RowsThroughSize(rows, cell, limit - 1);
    }
  }

  /** For every cell of the board one contiguous list of exactly the rows through it, in row
      order; no index if a row leaves the board. */
  method BuildCellSupport(rows: seq<set<nat>>, cells: nat) returns (ok: bool, offsets: seq<nat>, ids: seq<nat>)
    requires forall r, c :: 0 <= r < |rows| && c in rows[r] ==> c < 64
    ensures ok <==> InBoard(rows, cells)
    ensures ok ==> |offsets| == cells + 1 && offsets[cells] == |ids|
    ensures ok ==> forall c: nat :: c < cells ==> Lists(rows, offsets, ids, c)
    ensures ok ==> forall board: set<nat> :: (forall c :: c in board ==> c < cells) ==>
              Indexes(Index(offsets, ids), rows, board)
  {
    var counts;
    ok, counts := CountSupport(rows, cells);
    if !ok {
      return false, [], [];
    }
    offsets := Offsets(counts[..]);
    forall a, b | 0 <= a <= b < |offsets|
      ensures offsets[a] <= offsets[b]
    {
      OffsetsAscend(offsets, a, b);
    }
    var table := Fill(rows, offsets);
    ids := table[..];
    forall c: nat | c < cells
      ensures Lists(rows, offsets, ids, c)
    {
      assert Written(ids, rows, offsets, c, |rows|);
    }
    forall board: set<nat> | forall c :: c in board ==> c < cells
      ensures Indexes(Index(offsets, ids), rows, board)
    {
      BuiltIndexIndexes(rows, Index(offsets, ids), cells, board);
    }
  }
}
