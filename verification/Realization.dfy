/** Realizations of a candidate's skeleton rows: which clear states they support, what
    one placement does to the board, and which rows are gone once a set of operations
    has been placed.
 */
module Realization {
  import opened Options
  import opened Frame
  import opened Bits
  import opened Sets
  import BuildRun

  /** A shape, anchored in the target frame, that owns `canonical` once the rows in
      `minDeleted` are gone. */
  datatype Template = Template(
    id: nat, offsets: set<(nat, nat)>, x: int, anchorY: int, minDeleted: set<nat>, canonical: Board)

  /** A skeleton row of the catalog with the realizations grouped under it. */
  datatype Skeleton = Skeleton(mask: Board, templates: seq<Template>)

  datatype Problem = Problem(L: Layout, initial: Board, ops: seq<Skeleton>) {
    predicate Valid() {
      && L.Valid() && L.height <= 16
      && L.Fits(initial)
      && |ops| <= 15
      && (forall o :: 0 <= o < |ops| ==> L.Fits(ops[o].mask))
      && (forall o, k :: 0 <= o < |ops| && 0 <= k < |ops[o].templates| ==>
            ops[o].templates[k].canonical == ops[o].mask)
    }

    function Count(): nat {
      |ops|
    }
  }

  /** The cells of the shape where it locks, in the compressed frame. */
  function LockCells(t: Template, lockY: nat): Board
    requires 0 <= t.x
  {
    set o | o in t.offsets :: Cell(t.x + o.0, lockY + o.1)
  }

  /** The same cells carried back to the target frame. */
  function ProjectedCells(t: Template, lockY: nat, deleted: set<nat>, height: nat): Board
    requires 0 <= t.x
    requires forall c :: c in LockCells(t, lockY) ==> c.y < Rank(deleted, height)
  {
    set c | c in LockCells(t, lockY) :: Cell(c.x, Unrank(deleted, c.y, height))
  }

  /** Locks the template in a clear state; fails unless the locked shape owns exactly
      the canonical cells. */
  function Instantiate(L: Layout, t: Template, deleted: set<nat>): (r: Option<Board>)
    requires L.Valid()
  {
    if || (exists y :: y in deleted && L.height <= y)
       || !(t.minDeleted <= deleted)
       || !(RowsUsed(t.canonical) !! deleted)
       || t.x < 0 || t.anchorY < 0
    then None
    else
      var lockY := Rank(deleted, t.anchorY);
      if Rank(deleted, L.height) <= lockY then None
      else
        var cells := LockCells(t, lockY);
        if !L.Fits(cells) || exists c :: c in cells && Rank(deleted, L.height) <= c.y then None
        else if || ProjectedCells(t, lockY, deleted, L.height) != t.canonical
                || Unrank(deleted, lockY, L.height) != t.anchorY
        then None
        else Some(cells)
  }

  /** The locked cells are the compression of the owned cells, and the clear state
      contains the template's minimum. */
  lemma InstantiateIsCompression(L: Layout, t: Template, deleted: set<nat>)
    requires L.Valid() && Instantiate(L, t, deleted).Some?
    ensures Instantiate(L, t, deleted).value == Compress(t.canonical, deleted)
    ensures L.Fits(Instantiate(L, t, deleted).value)
    ensures t.minDeleted <= deleted && RowsUsed(t.canonical) !! deleted
  {
    var lockY := Rank(deleted, t.anchorY);
    var cells := LockCells(t, lockY);
    var projected := ProjectedCells(t, lockY, deleted, L.height);
    forall c | c in cells
      ensures c in Compress(projected, deleted)
    {
      var up := Cell(c.x, Unrank(deleted, c.y, L.height));
      assert up in projected && up.y !in deleted && c == Cell(up.x, Rank(deleted, up.y));
    }
    forall d | d in Compress(projected, deleted)
      ensures d in cells
    {
      var up :| up in projected && up.y !in deleted && d == Cell(up.x, Rank(deleted, up.y));
      var c :| c in cells && up == Cell(c.x, Unrank(deleted, c.y, L.height));
      assert d == c;
    }
  }

  // ------------------------------------------------------------------
  // Row contributors
  // ------------------------------------------------------------------

  function MasksOf(p: Problem, placed: set<nat>): Board {
    set o, c | o in placed && o < |p.ops| && c in p.ops[o].mask :: c
  }

  /** The target board once the operations in `placed` are down. */
  function Target(p: Problem, placed: set<nat>): Board {
    p.initial + MasksOf(p, placed)
  }

  function Contributors(p: Problem, row: nat): set<nat> {
    set o | 0 <= o < |p.ops| && row in RowsUsed(p.ops[o].mask)
  }

  function ClearableRows(p: Problem): set<nat> {
    p.L.FullRows(Target(p, UpTo(|p.ops|)))
  }

  /** The contributor formula: a row is gone once all of its contributors are placed. */
  function DeletedRows(p: Problem, placed: set<nat>): set<nat> {
    set row | row in ClearableRows(p) && Contributors(p, row) <= placed
  }

  lemma TargetGrows(p: Problem, placed: set<nat>, o: nat)
    requires o < |p.ops|
    ensures Target(p, placed + {o}) == Target(p, placed) + p.ops[o].mask
  {
    var after := MasksOf(p, placed + {o});
    assert after == MasksOf(p, placed) + p.ops[o].mask;
  }

  lemma TargetFits(p: Problem, placed: set<nat>)
    requires p.Valid()
    ensures p.L.Fits(Target(p, placed))
  {
  }

  lemma TargetOfNothing(p: Problem)
    ensures Target(p, {}) == p.initial
  {
    assert MasksOf(p, {}) == {};
  }

  ghost predicate MasksDisjoint(p: Problem) {
    && (forall o :: 0 <= o < |p.ops| ==> p.initial !! p.ops[o].mask)
    && (forall o, q :: 0 <= o < q < |p.ops| ==> p.ops[o].mask !! p.ops[q].mask)
  }

  /** For disjoint masks the full rows of a partial target board are what the formula
      says, so the clear state depends on which operations are placed and on nothing
      else. */
  lemma FormulaGivesFullRows(p: Problem, placed: set<nat>)
    requires p.Valid() && MasksDisjoint(p)
    requires placed <= UpTo(|p.ops|)
    ensures DeletedRows(p, placed) == p.L.FullRows(Target(p, placed))
  {
    var all := UpTo(|p.ops|);
    var board := Target(p, placed);
    assert board <= Target(p, all);
    forall row | row in DeletedRows(p, placed)
      ensures p.L.Full(board, row)
    {
      forall x | 0 <= x < p.L.width
        ensures Cell(x, row) in board
      {
        var c := Cell(x, row);
        assert c in Target(p, all);
        if c !in p.initial {
          var o :| o in all && o < |p.ops| && c in p.ops[o].mask;
          assert row in RowsUsed(p.ops[o].mask);
          assert o in Contributors(p, row);
        }
      }
    }
    forall row | row in p.L.FullRows(board)
      ensures row in DeletedRows(p, placed)
    {
      assert p.L.Full(Target(p, all), row);
      forall o | o in Contributors(p, row)
        ensures o in placed
      {
        var c :| c in p.ops[o].mask && c.y == row;
        assert p.L.Holds(c);
        assert c == Cell(c.x, row) && c in board;
      }
    }
  }

  /** A clearable row that is not full to begin with has a contributor. */
  lemma ClearableRowHasContributor(p: Problem, row: nat)
    requires p.Valid() && row in ClearableRows(p) && !p.L.Full(p.initial, row)
    ensures Contributors(p, row) != {}
  {
    var x :| 0 <= x < p.L.width && Cell(x, row) !in p.initial;
    var c := Cell(x, row);
    assert c in Target(p, UpTo(|p.ops|));
    var o :| o in UpTo(|p.ops|) && o < |p.ops| && c in p.ops[o].mask;
    assert row in RowsUsed(p.ops[o].mask);
    assert o in Contributors(p, row);
  }

  lemma NothingDeletedAtStart(p: Problem)
    requires p.Valid() && p.L.FullRows(p.initial) == {}
    ensures DeletedRows(p, {}) == {}
  {
    forall row | row in ClearableRows(p)
      ensures Contributors(p, row) != {}
    {
      assert row !in p.L.FullRows(p.initial);
      ClearableRowHasContributor(p, row);
    }
  }

  method FinalBoard(p: Problem) returns (board: Board)
    ensures board == Target(p, UpTo(|p.ops|))
  {
    board := p.initial;
    TargetOfNothing(p);
    assert UpTo(0) == {};
    for operation := 0 to |p.ops|
      invariant board == Target(p, UpTo(operation))
    {
      TargetGrows(p, UpTo(operation), operation);
      assert UpTo(operation + 1) == UpTo(operation) + {operation};
      board := board + p.ops[operation].mask;
    }
  }

  method CompileContributors(p: Problem, row: nat) returns (contributors: set<nat>)
    ensures contributors == Contributors(p, row)
  {
    contributors := {};
    for operation := 0 to |p.ops|
      invariant contributors == set o | 0 <= o < operation && row in RowsUsed(p.ops[o].mask)
    {
      if row in RowsUsed(p.ops[operation].mask) {
        contributors := contributors + {operation};
      }
    }
  }

  /** Compiles the contributor mask of every clearable row; gives up exactly when a row
      is full before anything is placed. */
  method CompileRowContributors(p: Problem)
    returns (ok: bool, contributors: seq<set<nat>>, clearable: set<nat>)
    requires p.Valid()
    ensures ok <==> p.L.FullRows(p.initial) == {}
    ensures ok ==> clearable == ClearableRows(p)
    ensures ok ==> |contributors| == 16
    ensures ok ==> forall row :: row in clearable ==> row < 16 && contributors[row] == Contributors(p, row)
  {
    contributors := seq(16, i => {});
    clearable := {};
    var board := FinalBoard(p);
    ghost var rows := ClearableRows(p);
    for row := 0 to p.L.height
      invariant |contributors| == 16
      invariant forall r :: r in clearable ==> r < row && r in rows && contributors[r] == Contributors(p, r)
      invariant forall r :: 0 <= r < row && r in rows ==> r in clearable
      invariant forall r :: 0 <= r < row ==> !p.L.Full(p.initial, r)
    {
      if p.L.Full(p.initial, row) {
        assert row in p.L.FullRows(p.initial);
        return false, contributors, clearable;
      }
      assert row in rows <==> p.L.Full(board, row);
      if p.L.Full(board, row) {
        var rowContributors := CompileContributors(p, row);
        // The code gives up on a clearable row without contributors; there is none.
        assert rowContributors != {} by {
          ClearableRowHasContributor(p, row);
        }
        clearable := clearable + {row};
        contributors := contributors[row := rowContributors];
      }
    }
    assert clearable == rows;
    ok := true;
  }

  /** The rows that are gone in one state of the lattice. */
  method DeletedRowsForState(
      contributors: seq<set<nat>>, clearable: set<nat>, placed: set<nat>)
    returns (deleted: set<nat>)
    requires |contributors| == 16 && forall row :: row in clearable ==> row < 16
    ensures deleted == set row | row in clearable && contributors[row] <= placed
  {
    deleted := {};
    var remaining := clearable;
    while remaining != {}
      invariant remaining <= clearable
      invariant deleted == set row | row in clearable - remaining && contributors[row] <= placed
      decreases remaining
    {
      var row :| row in remaining;
      if contributors[row] <= placed {
        deleted := deleted + {row};
      }
      remaining := remaining - {row};
    }
  }

  // ------------------------------------------------------------------
  // What a placement really does: the reference semantics
  // ------------------------------------------------------------------

  /** The board a player sees, with the target rows already cleared. */
  datatype Position = Position(board: Board, deleted: set<nat>)

  /** Lock a realization on the current board: it must exist in this clear state, rest
      on something and not collide; then full lines are cleared. */
  function Place(L: Layout, pos: Position, t: Template): Option<Position>
    requires L.Valid()
  {
    match Instantiate(L, t, pos.deleted)
    case None => None
    case Some(world) =>
      if !BuildRun.Grounded(pos.board, world) || !(pos.board !! world) then None
      else
        var clear := LineClearOf(L, pos.board + world);
        if exists r :: r in clear.deletedRows && Rank(pos.deleted, L.height) <= r then None
        else Some(Position(clear.board, pos.deleted + UnrankImage(pos.deleted, clear.deletedRows, L.height)))
  }

  /** The position after placing `order`, each operation with its chosen realization. */
  ghost function Played(p: Problem, order: seq<nat>, choice: seq<nat>): Option<Position>
    requires p.L.Valid()
    decreases |order|
  {
    if order == [] then Some(Position(p.initial, {}))
    else
      var k := |order| - 1;
      if || |choice| != |order|
         || |p.ops| <= order[k]
         || |p.ops[order[k]].templates| <= choice[k]
      then None
      else
        match Played(p, order[..k], choice[..k])
        case None => None
        case Some(pos) => Place(p.L, pos, p.ops[order[k]].templates[choice[k]])
  }

  ghost predicate IsOrder(p: Problem, order: seq<nat>) {
    && |order| == |p.ops|
    && (forall k :: 0 <= k < |order| ==> order[k] < |p.ops|)
    && (forall i, j :: 0 <= i < j < |order| ==> order[i] != order[j])
  }

  /** The candidate can be built in this order. */
  ghost predicate Buildable(p: Problem, order: seq<nat>)
    requires p.L.Valid()
  {
    IsOrder(p, order) && exists choice :: Played(p, order, choice).Some?
  }

  lemma IsOrderCovers(p: Problem, order: seq<nat>)
    requires IsOrder(p, order)
    ensures ToSet(order) == UpTo(|p.ops|)
  {
    DistinctSize(order);
    UpToSize(|p.ops|);
    SubsetOfSameSize(ToSet(order), UpTo(|p.ops|));
  }
}
