/** Splitting the remaining cells into independent components by union-find. */
module Decomposition {
  import opened Options
  import opened Folding

  const CELLS: nat := 64

  // ------------------------------------------------------------------
  // Union-find with path compression
  // ------------------------------------------------------------------

  /** Parents never point upwards, so every chain ends. */
  ghost predicate WellFormed(parent: seq<nat>) {
    |parent| == CELLS && forall c :: 0 <= c < CELLS ==> parent[c] <= c
  }

  ghost function Root(parent: seq<nat>, cell: nat): (root: nat)
    requires WellFormed(parent) && cell < CELLS
    ensures root <= cell && parent[root] == root
    decreases cell
  {
    if parent[cell] == cell then cell else Root(parent, parent[cell])
  }

  /** Redirecting a cell straight to its root changes no root. */
  lemma {:induction false} CompressionKeepsRoots(parent: seq<nat>, cell: nat, other: nat)
    requires WellFormed(parent) && cell < CELLS && other < CELLS
    ensures WellFormed(parent[cell := Root(parent, cell)])
    ensures Root(parent[cell := Root(parent, cell)], other) == Root(parent, other)
    decreases other
  {
    var root := Root(parent, cell);
    var next := parent[cell := root];
    assert next[root] == root;
    if other != cell && parent[other] != other {
      CompressionKeepsRoots(parent, cell, parent[other]);
    }
  }

  method FindRoot(parent: array<nat>, cell: nat) returns (root: nat)
    requires WellFormed(parent[..]) && cell < CELLS
    modifies parent
    ensures WellFormed(parent[..])
    ensures root == Root(old(parent[..]), cell)
    ensures forall c: nat :: c < CELLS ==> Root(parent[..], c) == Root(old(parent[..]), c)
  {
    ghost var before := parent[..];
    root := cell;
    while parent[root] != root
      invariant root <= cell && parent[..] == before
      invariant Root(before, root) == Root(before, cell)
      decreases root
    {
      root := parent[root];
    }
    var cursor: nat := cell;
    while parent[cursor] != cursor
      invariant cursor <= cell && WellFormed(parent[..])
      invariant forall c: nat :: c < CELLS ==> Root(parent[..], c) == Root(before, c)
      invariant Root(parent[..], cursor) == root
      decreases cursor
    {
      var next := parent[cursor];
      ghost var current := parent[..];
      assert Root(current, next) == root;
      parent[cursor] := root;
      assert parent[..] == current[cursor := Root(current, cursor)];
      forall c: nat | c < CELLS
        ensures WellFormed(parent[..]) && Root(parent[..], c) == Root(current, c)
      {
        CompressionKeepsRoots(current, cursor, c);
      }
      cursor := next;
    }
  }

  /** The root of a cell after the classes of two roots are merged. */
  function Merged(root: nat, low: nat, high: nat): nat {
    if root == high then low else root
  }

  lemma {:induction false} LinkMergesClasses(parent: seq<nat>, low: nat, high: nat, cell: nat)
    requires WellFormed(parent) && low < high < CELLS && cell < CELLS
    requires parent[low] == low && parent[high] == high
    ensures WellFormed(parent[high := low])
    ensures Root(parent[high := low], cell) == Merged(Root(parent, cell), low, high)
    decreases cell
  {
    if cell != high && parent[cell] != cell {
      LinkMergesClasses(parent, low, high, parent[cell]);
    }
  }

  /** Merges two classes under the smaller of their roots. */
  method UnionCells(parent: array<nat>, left: nat, right: nat)
    requires WellFormed(parent[..]) && left < CELLS && right < CELLS
    modifies parent
    ensures WellFormed(parent[..])
    ensures var l := Root(old(parent[..]), left);
            var r := Root(old(parent[..]), right);
            forall c: nat :: c < CELLS ==>
              Root(parent[..], c) == Merged(Root(old(parent[..]), c), if l < r then l else r, if l < r then r else l)
  {
    ghost var before := parent[..];
    var leftRoot := FindRoot(parent, left);
    var rightRoot := FindRoot(parent, right);
    if leftRoot == rightRoot {
      return;
    }
    if rightRoot < leftRoot {
      leftRoot, rightRoot := rightRoot, leftRoot;
    }
    ghost var current := parent[..];
    assert Root(current, left) == Root(before, left) && Root(current, right) == Root(before, right);
    parent[rightRoot] := leftRoot;
    assert parent[..] == current[rightRoot := leftRoot];
    forall c: nat | c < CELLS
      ensures WellFormed(parent[..]) && Root(parent[..], c) == Merged(Root(current, c), leftRoot, rightRoot)
    {
      LinkMergesClasses(current, leftRoot, rightRoot, c);
    }
  }

  // ------------------------------------------------------------------
  // Classes generated by rows
  // ------------------------------------------------------------------

  /** No row straddles the boundary of `P`. */
  ghost predicate Respects(rows: set<set<nat>>, P: set<nat>) {
    forall row :: row in rows ==> row <= P || row !! P
  }

  /** The classes are the finest ones that keep every row in one class: rows stay
      together, and a set that no row straddles is a union of classes. */
  ghost predicate Generated(parent: seq<nat>, rows: set<set<nat>>)
    requires WellFormed(parent)
  {
    forall u: nat {:trigger Unfold(u)} :: Unfold(u) ==> GeneratedBy(parent, rows)
  }

  ghost predicate GeneratedBy(parent: seq<nat>, rows: set<set<nat>>)
    requires WellFormed(parent)
  {
    && (forall row, a, b :: row in rows && a in row && b in row && a < CELLS && b < CELLS ==>
        Root(parent, a) == Root(parent, b))
    && (forall P: set<nat>, c: nat :: Respects(rows, P) && c < CELLS ==> (c in P <==> Root(parent, c) in P))
  }

  ghost predicate InCells(row: set<nat>) {
    forall c :: c in row ==> c < CELLS
  }

  predicate IsLowest(cells: set<nat>, low: nat) {
    low in cells && forall c :: c in cells ==> low <= c
  }

  lemma {:induction false} LowestExists(cells: set<nat>)
    requires cells != {}
    ensures exists low :: IsLowest(cells, low)
  {
    var x :| x in cells;
    var rest := cells - {x};
    if rest == {} {
      assert cells == {x};
      assert IsLowest(cells, x);
    } else {
      LowestExists(rest);
      var low :| IsLowest(rest, low);
      assert IsLowest(cells, if x < low then x else low) by {
        assert forall c :: c in cells ==> c == x || c in rest;
      }
    }
  }

  lemma RespectsMonotone(rows: set<set<nat>>, row: set<nat>)
    ensures forall P :: Respects(rows + {row}, P) ==> Respects(rows, P)
  {
    forall P | Respects(rows + {row}, P)
      ensures Respects(rows, P)
    {
      forall r | r in rows
        ensures r <= P || r !! P
      {
        assert r in rows + {row};
      }
    }
  }

  /** The cells in `done` share a class, earlier rows stay together, and a set that no row
      straddles is still a union of classes. */
  ghost predicate Uniting(parent: seq<nat>, rows: set<set<nat>>, row: set<nat>, first: nat, done: set<nat>)
    requires WellFormed(parent) && first < CELLS && InCells(done)
  {
    forall u: nat {:trigger Unfold(u)} :: Unfold(u) ==>
      && (forall c :: c in done ==> Root(parent, c) == Root(parent, first))
      && (forall r, a, b :: r in rows && a in r && b in r && a < CELLS && b < CELLS ==>
          Root(parent, a) == Root(parent, b))
      && (forall P: set<nat>, c: nat :: Respects(rows + {row}, P) && c < CELLS ==> (c in P <==> Root(parent, c) in P))
  }

  lemma StartUniting(parent: seq<nat>, rows: set<set<nat>>, row: set<nat>, first: nat)
    requires WellFormed(parent) && Generated(parent, rows) && first < CELLS
    ensures Uniting(parent, rows, row, first, {first})
  {
    assert Unfold(0);
    RespectsMonotone(rows, row);
  }

  lemma StepUniting(
      before: seq<nat>, after: seq<nat>, rows: set<set<nat>>, row: set<nat>, first: nat, done: set<nat>, cell: nat,
      low: nat, high: nat)
    requires WellFormed(before) && WellFormed(after) && InCells(row) && InCells(done) && first in row && cell in row
    requires Uniting(before, rows, row, first, done)
    requires low < CELLS && high < CELLS &&
              ((low == Root(before, first) && high == Root(before, cell)) ||
              (low == Root(before, cell) && high == Root(before, first)))
    requires forall c: nat :: c < CELLS ==> Root(after, c) == Merged(Root(before, c), low, high)
    ensures Uniting(after, rows, row, first, done + {cell})
  {
    assert Unfold(0);
    forall P: set<nat>, c: nat | Respects(rows + {row}, P) && c < CELLS
      ensures c in P <==> Root(after, c) in P
    {
      assert first in P <==> cell in P by {
        assert row <= P || row !! P;
      }
    }
  }

  lemma EndUniting(parent: seq<nat>, rows: set<set<nat>>, row: set<nat>, first: nat)
    requires WellFormed(parent) && InCells(row) && first in row && Uniting(parent, rows, row, first, row)
    ensures Generated(parent, rows + {row})
  {
    assert Unfold(0);
  }

  /** Unites the cells of one row with its first cell. */
  method UniteRow(parent: array<nat>, row: set<nat>, ghost rows: set<set<nat>>)
    requires WellFormed(parent[..]) && Generated(parent[..], rows)
    requires row != {} && InCells(row)
    modifies parent
    ensures WellFormed(parent[..]) && Generated(parent[..], rows + {row})
  {
    LowestExists(row);
    var first :| IsLowest(row, first);
    var rest := row - {first};
    ghost var done := {first};
    StartUniting(parent[..], rows, row, first);
    while rest != {}
      invariant WellFormed(parent[..])
      invariant rest <= row && done == row - rest
      invariant Uniting(parent[..], rows, row, first, done)
      decreases rest
    {
      LowestExists(rest);
      var cell :| IsLowest(rest, cell);
      ghost var before := parent[..];
      ghost var l, r := Root(before, first), Root(before, cell);
      UnionCells(parent, first, cell);
      StepUniting(before, parent[..], rows, row, first, done, cell, if l < r then l else r, if l < r then r else l);
      rest := rest - {cell};
      done := done + {cell};
    }
    assert done == row;
    EndUniting(parent[..], rows, row, first);
  }

  // ------------------------------------------------------------------
  // The decomposition
  // ------------------------------------------------------------------

  datatype Components = Components(parts: seq<set<nat>>, unsupported: set<nat>, feasible: nat)

  /** Pairwise disjoint and nonempty. */
  ghost predicate Separate(parts: seq<set<nat>>) {
    && (forall i :: 0 <= i < |parts| ==> parts[i] != {})
    && (forall i, j :: 0 <= i < j < |parts| ==> parts[i] !! parts[j])
  }

  ghost function Flatten(parts: seq<set<nat>>): (cells: set<nat>)
    decreases |parts|
  {
    if parts == [] then {} else Flatten(parts[..|parts| - 1]) + parts[|parts| - 1]
  }

  lemma {:induction false} FlattenHas(parts: seq<set<nat>>, c: nat)
    ensures c in Flatten(parts) <==> exists i :: 0 <= i < |parts| && c in parts[i]
    decreases |parts|
  {
    if parts != [] {
      var last := |parts| - 1;
      FlattenHas(parts[..last], c);
      if i :| 0 <= i < |parts| && c in parts[i] {
        assert i < last ==> c in parts[..last][i];
      }
    }
  }

  ghost predicate IsPartition(parts: seq<set<nat>>, cells: set<nat>) {
    Separate(parts) && Flatten(parts) == cells
  }

  /** Each row lies inside one part, and any set that no row straddles is a union of
      parts: no finer partition keeps the rows whole. */
  ghost predicate IsFinest(parts: seq<set<nat>>, rows: set<set<nat>>) {
    && (forall row :: row in rows ==> exists part :: part in parts && row <= part)
    && (forall part, P :: part in parts && Respects(rows, P) ==> part <= P || part !! P)
  }

  /** Fewer cells first; the lower lowest cell breaks ties. */
  predicate Precedes(left: set<nat>, right: set<nat>) {
    |left| < |right| || (|left| == |right| && exists a :: a in left && forall b :: b in right ==> a < b)
  }

  /** The root of every cell. */
  ghost function Roots(parent: seq<nat>): (roots: seq<nat>)
    requires WellFormed(parent)
    ensures IsRooted(roots)
  {
    var roots := seq(CELLS, c requires 0 <= c < CELLS => Root(parent, c));
    assert forall c :: 0 <= c < CELLS ==> Root(parent, roots[c]) == roots[c];
    roots
  }

  ghost predicate IsRooted(roots: seq<nat>) {
    |roots| == CELLS && forall c :: 0 <= c < CELLS ==> roots[c] <= c && roots[roots[c]] == roots[c]
  }

  /** The cells of a class below `limit`. */
  ghost function ClassBelow(roots: seq<nat>, cells: set<nat>, root: nat, limit: nat): set<nat>
    requires IsRooted(roots) && InCells(cells)
  {
    set c | c in cells && c < limit && roots[c] == root
  }

  /** The parts hold the cells below `limit`, one class each, in order of their roots. */
  ghost predicate Collected(parts: seq<set<nat>>, lows: seq<nat>, roots: seq<nat>, cells: set<nat>, limit: nat)
    requires IsRooted(roots) && InCells(cells)
  {
    forall u: nat {:trigger Unfold(u)} :: Unfold(u) ==> CollectedBy(parts, lows, roots, cells, limit)
  }

  ghost predicate CollectedBy(parts: seq<set<nat>>, lows: seq<nat>, roots: seq<nat>, cells: set<nat>, limit: nat)
    requires IsRooted(roots) && InCells(cells)
  {
    && |lows| == |parts|
    && (forall i :: 0 <= i < |parts| ==> i <= lows[i] < limit)
    && (forall i :: 0 <= i < |parts| ==> lows[i] in parts[i])
    && (forall i, j :: 0 <= i < j < |parts| ==> lows[i] < lows[j])
    && (forall i :: 0 <= i < |parts| ==> parts[i] == ClassBelow(roots, cells, lows[i], limit))
    && (forall c :: c in cells && c < limit ==> roots[c] in lows)
  }

  lemma LowestIsRoot(
      parts: seq<set<nat>>, lows: seq<nat>, roots: seq<nat>, cells: set<nat>, limit: nat, index: nat, root: nat)
    requires IsRooted(roots) && InCells(cells) && Collected(parts, lows, roots, cells, limit) &&
              index < |parts| == |lows|
    ensures IsLowest(parts[index], root) <==> lows[index] == root
  {
    assert Unfold(0);
  }

  lemma CollectNew(parts: seq<set<nat>>, lows: seq<nat>, roots: seq<nat>, cells: set<nat>, cell: nat)
    requires IsRooted(roots) && InCells(cells) && Collected(parts, lows, roots, cells, cell) && cell in cells
    requires forall c :: c in cells ==> roots[c] in cells
    requires roots[cell] !in lows
    ensures |parts| < CELLS && Collected(parts + [{cell}], lows + [cell], roots, cells, cell + 1)
  {
    assert Unfold(0);
    assert roots[cell] in cells && roots[roots[cell]] == roots[cell];
    assert roots[cell] == cell;
    if |parts| > 0 {
      assert |parts| - 1 <= lows[|parts| - 1] < cell;
    }
    assert forall c :: c in cells && c < cell ==> roots[c] != cell;
    assert ClassBelow(roots, cells, cell, cell + 1) == {cell};
    forall i | 0 <= i < |parts|
      ensures parts[i] == ClassBelow(roots, cells, lows[i], cell + 1)
    {
      assert ClassBelow(roots, cells, lows[i], cell + 1) == ClassBelow(roots, cells, lows[i], cell);
    }
  }

  lemma CollectGrow(parts: seq<set<nat>>, lows: seq<nat>, roots: seq<nat>, cells: set<nat>, cell: nat, index: nat)
    requires IsRooted(roots) && InCells(cells) && Collected(parts, lows, roots, cells, cell) && cell in cells
    requires index < |parts| == |lows| && lows[index] == roots[cell]
    ensures Collected(parts[index := parts[index] + {cell}], lows, roots, cells, cell + 1)
  {
    assert Unfold(0);
    var next := parts[index := parts[index] + {cell}];
    forall i | 0 <= i < |parts|
      ensures next[i] == ClassBelow(roots, cells, lows[i], cell + 1)
    {
      var before := ClassBelow(roots, cells, lows[i], cell);
      if i == index {
        assert ClassBelow(roots, cells, lows[i], cell + 1) == before + {cell};
      } else {
        assert ClassBelow(roots, cells, lows[i], cell + 1) == before;
      }
    }
  }

  lemma CollectSkip(parts: seq<set<nat>>, lows: seq<nat>, roots: seq<nat>, cells: set<nat>, cell: nat)
    requires IsRooted(roots) && InCells(cells) && Collected(parts, lows, roots, cells, cell) && cell !in cells
    ensures Collected(parts, lows, roots, cells, cell + 1)
  {
    assert Unfold(0);
    forall i | 0 <= i < |parts|
      ensures parts[i] == ClassBelow(roots, cells, lows[i], cell + 1)
    {
      assert ClassBelow(roots, cells, lows[i], cell) == ClassBelow(roots, cells, lows[i], cell + 1);
    }
  }

  /** The part whose lowest cell is `root`, or the number of parts. */
  method FindPart(parts: seq<set<nat>>, root: nat) returns (index: nat)
    ensures index <= |parts|
    ensures forall i :: 0 <= i < index ==> !IsLowest(parts[i], root)
    ensures index < |parts| ==> IsLowest(parts[index], root)
  {
    index := 0;
    while index < |parts| && !IsLowest(parts[index], root)
      invariant 0 <= index <= |parts|
      invariant forall i :: 0 <= i < index ==> !IsLowest(parts[i], root)
    {
      index := index + 1;
    }
  }

  /** Collects the classes, lowest cell first. The limit of 64 parts is never met. */
  method CollectParts(parent: array<nat>, cells: set<nat>) returns (parts: seq<set<nat>>, ghost lows: seq<nat>)
    requires WellFormed(parent[..]) && InCells(cells)
    requires forall c :: c in cells ==> Root(parent[..], c) in cells
    modifies parent
    ensures |parts| <= CELLS
    ensures Collected(parts, lows, Roots(old(parent[..])), cells, CELLS)
  {
    ghost var roots := Roots(parent[..]);
    parts, lows := [], [];
    for cell := 0 to CELLS
      invariant WellFormed(parent[..]) && Roots(parent[..]) == roots
      invariant |parts| == |lows| <= CELLS
      invariant Collected(parts, lows, roots, cells, cell)
    {
      if cell in cells {
        assert Root(parent[..], cell) == roots[cell];
        ghost var before := parent[..];
        var root := FindRoot(parent, cell);
        assert Roots(parent[..]) == Roots(before);
        var index := FindPart(parts, root);
        forall i: nat | i < |parts|
          ensures IsLowest(parts[i], root) <==> lows[i] == root
        {
          LowestIsRoot(parts, lows, roots, cells, cell, i, root);
        }
        if index == |parts| {
          CollectNew(parts, lows, roots, cells, cell);
          parts, lows := parts + [{cell}], lows + [cell];
        } else {
          CollectGrow(parts, lows, roots, cells, cell, index);
          parts := parts[index := parts[index] + {cell}];
        }
      } else {
        CollectSkip(parts, lows, roots, cells, cell);
      }
    }
  }

  // ------------------------------------------------------------------
  // Sorting the parts
  // ------------------------------------------------------------------

  lemma PrecedesTotal(left: set<nat>, right: set<nat>)
    requires left != {} && right != {} && left !! right
    ensures Precedes(left, right) != Precedes(right, left)
  {
    LowestExists(left);
    LowestExists(right);
    var l: nat :| IsLowest(left, l);
    var r: nat :| IsLowest(right, r);
    assert l != r;
    if |left| == |right| {
      if l < r {
        assert l in left && forall b :: b in right ==> l < b;
      } else {
        assert r in right && forall b :: b in left ==> r < b;
      }
    }
  }

  lemma PrecedesTransitive(a: set<nat>, b: set<nat>, c: set<nat>)
    requires b != {} && Precedes(a, b) && Precedes(b, c)
    ensures Precedes(a, c)
  {
    if |a| == |c| {
      var x :| x in a && forall y :: y in b ==> x < y;
      var y :| y in b && forall z :: z in c ==> y < z;
      assert x < y;
      assert x in a && forall z :: z in c ==> x < z;
    }
  }

  ghost predicate Ordered(parts: seq<set<nat>>) {
    forall i, j :: 0 <= i < j < |parts| ==> Precedes(parts[i], parts[j])
  }

  /** The element at `index` moved down to `place`. */
  ghost function Moved<T>(items: seq<T>, index: nat, place: nat): seq<T>
    requires place <= index < |items|
  {
    items[..place] + [items[index]] + items[place..index] + items[index + 1..]
  }

  lemma MoveIsPermutation<T>(items: seq<T>, index: nat, place: nat)
    requires place <= index < |items|
    ensures multiset(Moved(items, index, place)) == multiset(items)
  {
    assert items == items[..place] + items[place..index] + [items[index]] + items[index + 1..];
  }

  lemma MoveKeepsSeparate(parts: seq<set<nat>>, index: nat, place: nat)
    requires place <= index < |parts| && Separate(parts)
    ensures Separate(Moved(parts, index, place))
  {
    var moved := Moved(parts, index, place);
    forall i, j | 0 <= i < j < |moved|
      ensures moved[i] !! moved[j]
    {
      var x := if i < place then i else if i == place then index else if i <= index then i - 1 else i;
      var y := if j < place then j else if j == place then index else if j <= index then j - 1 else j;
      assert moved[i] == parts[x] && moved[j] == parts[y] && x != y;
      if x < y {
        assert parts[x] !! parts[y];
      } else {
        assert parts[y] !! parts[x];
      }
    }
  }

  lemma MoveOrders(parts: seq<set<nat>>, index: nat, place: nat)
    requires place <= index < |parts| && Separate(parts) && Ordered(parts[..index])
    requires forall j :: place <= j < index ==> Precedes(parts[index], parts[j])
    requires place != 0 ==> !Precedes(parts[index], parts[place - 1])
    ensures Ordered(Moved(parts, index, place)[..index + 1])
  {
    var value := parts[index];
    var prefix := parts[..index];
    if place != 0 {
      PrecedesTotal(parts[place - 1], value);
      forall i | 0 <= i < place - 1
        ensures Precedes(parts[i], value)
      {
        assert Precedes(prefix[i], prefix[place - 1]);
        PrecedesTransitive(parts[i], parts[place - 1], value);
      }
    }
    var moved := Moved(parts, index, place)[..index + 1];
    forall i, j | 0 <= i < j < |moved|
      ensures Precedes(moved[i], moved[j])
    {
      if i == place {
        assert moved[j] == parts[j - 1];
      } else if j == place {
        assert moved[i] == parts[i];
      } else {
        assert Precedes(prefix[if i < place then i else i - 1], prefix[if j < place then j else j - 1]);
      }
    }
  }

  /** Shifts larger elements up until the element at `index` has found its place. */
  method ShiftDown<T>(items: array<T>, index: nat, less: (T, T) -> bool) returns (place: nat)
    requires index < items.Length
    modifies items
    ensures place <= index && items[..] == Moved(old(items[..]), index, place)
    ensures forall j :: place <= j < index ==> less(old(items[index]), old(items[j]))
    ensures place != 0 ==> !less(old(items[index]), old(items[place - 1]))
  {
    ghost var before := items[..];
    var value := items[index];
    place := index;
    while place != 0 && less(value, items[place - 1])
      invariant 0 <= place <= index
      invariant forall j :: 0 <= j < place ==> items[j] == before[j]
      invariant forall j :: place < j <= index ==> items[j] == before[j - 1]
      invariant forall j :: index < j < items.Length ==> items[j] == before[j]
      invariant forall j :: place <= j < index ==> less(value, before[j])
    {
      items[place] := items[place - 1];
      place := place - 1;
    }
    items[place] := value;
    MovedPointwise(before, items[..], index, place);
  }

  lemma MovedPointwise<T>(before: seq<T>, after: seq<T>, index: nat, place: nat)
    requires place <= index < |before| == |after| && after[place] == before[index]
    requires forall j :: 0 <= j < place ==> after[j] == before[j]
    requires forall j :: place < j <= index ==> after[j] == before[j - 1]
    requires forall j :: index < j < |before| ==> after[j] == before[j]
    ensures after == Moved(before, index, place)
  {
  }

  /** Moves the part at `index` down to its place among the sorted parts before it. */
  method InsertPart(parts: array<set<nat>>, index: nat)
    requires index < parts.Length
    requires Separate(parts[..]) && Ordered(parts[..index])
    modifies parts
    ensures Separate(parts[..]) && Ordered(parts[..index + 1])
    ensures multiset(parts[..]) == old(multiset(parts[..]))
  {
    ghost var before := parts[..];
    var place := ShiftDown(parts, index, Precedes);
    MoveIsPermutation(before, index, place);
    MoveKeepsSeparate(before, index, place);
    MoveOrders(before, index, place);
    assert parts[..index + 1] == parts[..][..index + 1];
  }

  method SortParts(parts: array<set<nat>>)
    requires Separate(parts[..])
    modifies parts
    ensures Separate(parts[..]) && Ordered(parts[..])
    ensures multiset(parts[..]) == old(multiset(parts[..]))
  {
    var index := 1;
    while index < parts.Length
      invariant 1 <= index
      invariant Separate(parts[..]) && Ordered(parts[..if index < parts.Length then index else parts.Length])
      invariant multiset(parts[..]) == old(multiset(parts[..]))
    {
      InsertPart(parts, index);
      index := index + 1;
    }
    assert parts[..parts.Length] == parts[..];
  }

  // ------------------------------------------------------------------
  // The whole decomposition
  // ------------------------------------------------------------------

  predicate Joins(rows: seq<set<nat>>, remaining: set<nat>, feasible: nat -> bool, id: nat)
    requires id < |rows|
  {
    rows[id] != {} && rows[id] <= remaining && feasible(id)
  }

  /** The feasible rows among the first `count`. */
  ghost function JoiningRows(rows: seq<set<nat>>, remaining: set<nat>, feasible: nat -> bool, count: nat): set<set<nat>>
    requires count <= |rows|
  {
    set id: nat | id < count && Joins(rows, remaining, feasible, id) :: rows[id]
  }

  ghost function JoiningIds(rows: seq<set<nat>>, remaining: set<nat>, feasible: nat -> bool, count: nat): set<nat>
    requires count <= |rows|
  {
    set id: nat | id < count && Joins(rows, remaining, feasible, id)
  }

  ghost predicate Covered(rows: set<set<nat>>, c: nat) {
    exists row :: row in rows && c in row
  }

  /** Unites the cells of every feasible row, in the order of the rows. */
  method UniteRows(parent: array<nat>, rows: seq<set<nat>>, remaining: set<nat>, feasible: nat -> bool)
    returns (supported: set<nat>, count: nat)
    requires InCells(remaining)
    requires parent.Length == CELLS && forall c :: 0 <= c < CELLS ==> parent[c] == c
    modifies parent
    ensures WellFormed(parent[..]) && Generated(parent[..], JoiningRows(rows, remaining, feasible, |rows|))
    ensures forall c :: c in supported <==> Covered(JoiningRows(rows, remaining, feasible, |rows|), c)
    ensures count == |JoiningIds(rows, remaining, feasible, |rows|)|
  {
    supported, count := {}, 0;
    assert JoiningRows(rows, remaining, feasible, 0) == {};
    assert JoiningIds(rows, remaining, feasible, 0) == {};
    for id := 0 to |rows|
      invariant WellFormed(parent[..]) && Generated(parent[..], JoiningRows(rows, remaining, feasible, id))
      invariant forall c :: c in supported <==> Covered(JoiningRows(rows, remaining, feasible, id), c)
      invariant count == |JoiningIds(rows, remaining, feasible, id)|
    {
      JoiningRowsStep(rows, remaining, feasible, id);
      JoiningIdsStep(rows, remaining, feasible, id);
      if Joins(rows, remaining, feasible, id) {
        CoveredByOneMore(JoiningRows(rows, remaining, feasible, id), rows[id]);
        UniteRow(parent, rows[id], JoiningRows(rows, remaining, feasible, id));
        supported := supported + rows[id];
        count := count + 1;
      }
    }
  }

  lemma JoiningRowsStep(rows: seq<set<nat>>, remaining: set<nat>, feasible: nat -> bool, id: nat)
    requires id < |rows|
    ensures JoiningRows(rows, remaining, feasible, id + 1) ==
            JoiningRows(rows, remaining, feasible, id) +
                (if Joins(rows, remaining, feasible, id) then {rows[id]} else {})
  {
    var before, after := JoiningRows(rows, remaining, feasible, id), JoiningRows(rows, remaining, feasible, id + 1);
    forall row | row in after
      ensures row in before || (Joins(rows, remaining, feasible, id) && row == rows[id])
    {
      var k: nat :| k < id + 1 && Joins(rows, remaining, feasible, k) && rows[k] == row;
    }
    assert before <= after;
  }

  lemma JoiningIdsStep(rows: seq<set<nat>>, remaining: set<nat>, feasible: nat -> bool, id: nat)
    requires id < |rows|
    ensures |JoiningIds(rows, remaining, feasible, id + 1)| ==
            |JoiningIds(rows, remaining, feasible, id)| + if Joins(rows, remaining, feasible, id) then 1 else 0
  {
    var ids, more := JoiningIds(rows, remaining, feasible, id), JoiningIds(rows, remaining, feasible, id + 1);
    assert id !in ids;
    forall x: nat
      ensures x in more <==> x in ids || (x == id && Joins(rows, remaining, feasible, id))
    {
    }
    assert more == if Joins(rows, remaining, feasible, id) then ids + {id} else ids;
  }

  lemma CoveredByOneMore(rows: set<set<nat>>, row: set<nat>)
    ensures forall c :: Covered(rows + {row}, c) <==> Covered(rows, c) || c in row
  {
    var more := rows + {row};
    assert row in more;
    forall c: nat
      ensures Covered(more, c) <==> Covered(rows, c) || c in row
    {
      if Covered(rows, c) {
        var other :| other in rows && c in other;
        assert other in more;
      }
    }
  }

  /** A class stays inside the remaining cells, because every row does. */
  lemma RootsRemain(parent: seq<nat>, rows: set<set<nat>>, remaining: set<nat>)
    requires WellFormed(parent) && Generated(parent, rows) && InCells(remaining)
    requires forall row :: row in rows ==> row <= remaining
    ensures forall c :: c in remaining ==> Root(parent, c) in remaining
  {
    assert Unfold(0);
    assert Respects(rows, remaining);
  }

  lemma CollectedIsPartition(parts: seq<set<nat>>, lows: seq<nat>, roots: seq<nat>, cells: set<nat>)
    requires IsRooted(roots) && InCells(cells) && Collected(parts, lows, roots, cells, CELLS)
    ensures IsPartition(parts, cells)
  {
    assert Unfold(0);
    forall c: nat
      ensures c in Flatten(parts) <==> c in cells
    {
      FlattenHas(parts, c);
      if c in cells {
        var i :| 0 <= i < |lows| && lows[i] == roots[c];
        assert c in parts[i];
      }
    }
  }

  lemma CollectedIsFinest(parts: seq<set<nat>>, lows: seq<nat>, parent: seq<nat>, cells: set<nat>, rows: set<set<nat>>)
    requires WellFormed(parent) && InCells(cells) && Collected(parts, lows, Roots(parent), cells, CELLS)
    requires Generated(parent, rows)
    requires forall row :: row in rows ==> row != {} && row <= cells
    ensures IsFinest(parts, rows)
  {
    assert Unfold(0);
    var roots := Roots(parent);
    forall row | row in rows
      ensures exists part :: part in parts && row <= part
    {
      var c :| c in row;
      assert roots[c] in lows;
      var i :| 0 <= i < |lows| && lows[i] == roots[c];
      forall d | d in row
        ensures d in parts[i]
      {
        assert Root(parent, d) == Root(parent, c);
      }
      assert parts[i] in parts && row <= parts[i];
    }
    forall part, P | part in parts && Respects(rows, P)
      ensures part <= P || part !! P
    {
      var i :| 0 <= i < |parts| && parts[i] == part;
      forall c | c in part
        ensures c in P <==> lows[i] in P
      {
        assert c < CELLS && Root(parent, c) == roots[c] == lows[i];
      }
    }
  }

  lemma SameMembers(a: seq<set<nat>>, b: seq<set<nat>>)
    requires multiset(a) == multiset(b)
    ensures forall part :: part in a <==> part in b
  {
    forall part
      ensures part in a <==> part in b
    {
      assert part in a <==> part in multiset(a);
      assert part in b <==> part in multiset(b);
    }
  }

  /** Being a finest partition does not depend on the order of the parts. */
  lemma OrderIsIrrelevant(a: seq<set<nat>>, b: seq<set<nat>>, cells: set<nat>, rows: set<set<nat>>)
    requires IsPartition(a, cells) && IsFinest(a, rows) && Separate(b)
    requires multiset(a) == multiset(b)
    ensures IsPartition(b, cells) && IsFinest(b, rows) && |a| == |b|
  {
    SameMembers(a, b);
    SameFlatten(a, b);
    assert |a| == |multiset(a)| && |b| == |multiset(b)|;
  }

  lemma SameFlatten(a: seq<set<nat>>, b: seq<set<nat>>)
    requires forall part :: part in a <==> part in b
    ensures Flatten(a) == Flatten(b)
  {
    forall c: nat
      ensures c in Flatten(a) <==> c in Flatten(b)
    {
      FlattenHas(a, c);
      FlattenHas(b, c);
      if i :| 0 <= i < |a| && c in a[i] {
        assert a[i] in b;
      }
      if i :| 0 <= i < |b| && c in b[i] {
        assert b[i] in a;
      }
    }
  }

  /** The rows within the remaining cells that the caller finds feasible decide the parts:
      the result is the finest partition of the remaining cells that keeps those rows
      whole, sorted by size and lowest cell. */
  method Decompose(rows: seq<set<nat>>, required: set<nat>, remaining: set<nat>, feasible: nat -> bool)
    returns (result: Option<Components>)
    requires InCells(required)
    ensures result.Some? <==> remaining <= required
    ensures result.Some? ==>
              var joining := JoiningRows(rows, remaining, feasible, |rows|);
              && IsPartition(result.value.parts, remaining)
              && Ordered(result.value.parts)
              && |result.value.parts| <= CELLS
              && IsFinest(result.value.parts, joining)
              && result.value.feasible == |JoiningIds(rows, remaining, feasible, |rows|)|
              && (forall c :: c in result.value.unsupported <==> c in remaining && !Covered(joining, c))
  {
    if !(remaining <= required) {
      return None;
    }
    if remaining == {} {
      assert JoiningIds(rows, remaining, feasible, |rows|) == {};
      assert JoiningRows(rows, remaining, feasible, |rows|) == {};
      return Some(Components([], {}, 0));
    }
    ghost var joining := JoiningRows(rows, remaining, feasible, |rows|);
    var parent := new nat[CELLS](c => c);
    var supported, count := UniteRows(parent, rows, remaining, feasible);
    ghost var classes := parent[..];
    RootsRemain(classes, joining, remaining);
    var parts, lows := CollectParts(parent, remaining);
    CollectedIsPartition(parts, lows, Roots(classes), remaining);
    CollectedIsFinest(parts, lows, classes, remaining, joining);
    var masks := new set<nat>[|parts|](i requires 0 <= i < |parts| => parts[i]);
    assert masks[..] == parts;
    SortParts(masks);
    OrderIsIrrelevant(parts, masks[..], remaining, joining);
    return Some(Components(masks[..], remaining - supported, count));
  }

  // ------------------------------------------------------------------
  // The composition plan
  // ------------------------------------------------------------------

  datatype Plan = Plan(owner: set<nat>, remainder: set<nat>, count: nat)

  ghost predicate OrderedSteps(parts: seq<set<nat>>) {
    forall i :: 0 < i < |parts| ==> Precedes(parts[i - 1], parts[i])
  }

  /** A plan splits off the first part. It is refused unless there are several parts, every
      cell is supported and the parts are an ordered partition of the remaining cells. */
  method MakeCompositionPlan(components: Components, remaining: set<nat>) returns (plan: Option<Plan>)
    ensures plan.Some? <==>
              && remaining != {} && components.unsupported == {} && |components.parts| > 1
              && IsPartition(components.parts, remaining) && OrderedSteps(components.parts)
    ensures plan.Some? ==>
              && plan.value == Plan(components.parts[0], remaining - components.parts[0], |components.parts|)
              && plan.value.owner != {} && plan.value.remainder != {}
              && plan.value.owner !! plan.value.remainder && plan.value.owner + plan.value.remainder == remaining
  {
    var parts := components.parts;
    if remaining == {} || components.unsupported != {} || |parts| <= 1 {
      return None;
    }
    var partition: set<nat> := {};
    for index := 0 to |parts|
      invariant Separate(parts[..index]) && OrderedSteps(parts[..index])
      invariant partition == Flatten(parts[..index]) && partition <= remaining
    {
      var part := parts[index];
      PlanStep(parts, index);
      if part == {} || !(part <= remaining) || !(partition !! part) ||
          (index != 0 && !Precedes(parts[index - 1], part)) {
        FlattenHolds(parts, index);
        return None;
      }
      partition := partition + part;
    }
    assert parts[..|parts|] == parts;
    if partition != remaining {
      return None;
    }
    FirstPartSplits(parts);
    return Some(Plan(parts[0], remaining - parts[0], |parts|));
  }

  /** What one more part adds to the checks. */
  lemma PlanStep(parts: seq<set<nat>>, index: nat)
    requires index < |parts|
    ensures Flatten(parts[..index + 1]) == Flatten(parts[..index]) + parts[index]
    ensures Separate(parts[..index]) ==>
              (Separate(parts[..index + 1]) <==> parts[index] != {} && Flatten(parts[..index]) !! parts[index])
    ensures OrderedSteps(parts[..index]) ==>
              (OrderedSteps(parts[..index + 1]) <==> index == 0 || Precedes(parts[index - 1], parts[index]))
    ensures Separate(parts) ==> Separate(parts[..index + 1])
    ensures OrderedSteps(parts) ==> OrderedSteps(parts[..index + 1])
  {
    assert parts[..index + 1][..index] == parts[..index];
    PrefixMeets(parts, index);
  }

  lemma FlattenHolds(parts: seq<set<nat>>, index: nat)
    requires index < |parts|
    ensures parts[index] <= Flatten(parts)
  {
    forall c | c in parts[index]
      ensures c in Flatten(parts)
    {
      FlattenHas(parts, c);
    }
  }

  lemma FirstPartSplits(parts: seq<set<nat>>)
    requires |parts| > 1 && Separate(parts)
    ensures parts[0] != {} && Flatten(parts) - parts[0] != {} &&
              parts[0] + (Flatten(parts) - parts[0]) == Flatten(parts)
  {
    FlattenHolds(parts, 0);
    FlattenHolds(parts, 1);
  }

  lemma PrefixMeets(parts: seq<set<nat>>, index: nat)
    requires index < |parts|
    ensures Flatten(parts[..index]) !! parts[index] <==> forall i :: 0 <= i < index ==> parts[i] !! parts[index]
  {
    var prefix := parts[..index];
    forall c | c in parts[index]
      ensures c in Flatten(prefix) <==> exists i :: 0 <= i < index && c in parts[i]
    {
      FlattenHas(prefix, c);
      if i :| 0 <= i < index && c in parts[i] {
        assert c in prefix[i];
      }
    }
  }

  /** Every feasible row lies wholly in a part or wholly outside it. */
  lemma PartSplitsRow(parts: seq<set<nat>>, remaining: set<nat>, rows: set<set<nat>>, row: set<nat>, index: nat)
    requires index < |parts| && IsPartition(parts, remaining) && IsFinest(parts, rows) && row in rows
    ensures row <= parts[index] || row <= remaining - parts[index]
  {
    var part :| part in parts && row <= part;
    var i: nat :| i < |parts| && parts[i] == part;
    FlattenHolds(parts, i);
    if i != index {
      assert parts[if i < index then i else index] !! parts[if i < index then index else i];
    }
  }

  lemma OrderedIsStepwise(parts: seq<set<nat>>)
    requires Ordered(parts)
    ensures OrderedSteps(parts)
  {
  }
}
