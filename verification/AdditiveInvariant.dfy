/** Pruning by signatures that add up modulo 64 over disjoint rows. */
module AdditiveInvariant {
  import opened Bits
  import opened Folding
  import opened Cover
  import opened Composition
  import ExactCover

  const MODULUS: nat := 64

  type Signatures = set<nat>

  /** Addition of signatures below 64, modulo 64. */
  function Wrap(a: nat, b: nat): nat {
    if a + b < MODULUS then a + b else a + b - MODULUS
  }

  // ------------------------------------------------------------------
  // Signatures of cells
  // ------------------------------------------------------------------

  const COLUMN_WEIGHTS: seq<nat> := [1, 2, 4, 8, 16, 32, 3, 6, 12, 24, 48, 33, 5, 10, 20, 40]
  const FOUR_COLOR_WEIGHTS: seq<nat> := [1, 5, 17, 29]

  function CellWeight(bank: nat, x: nat, y: nat): nat {
    if bank == 0 then (if (x + y) % 2 == 0 then 1 else 63)
    else if bank == 1 then COLUMN_WEIGHTS[x % 16]
    else FOUR_COLOR_WEIGHTS[x % 2 + 2 * (y % 2)]
  }

  function Weight(bank: nat, width: nat, cell: nat): nat
    requires width > 0
  {
    CellWeight(bank, cell % width, cell / width)
  }

  /** The sum of the weights of the cells below `limit`. */
  ghost function WeightSum(weight: nat -> nat, cells: set<nat>, limit: nat): nat {
    if limit == 0 then 0
    else WeightSum(weight, cells, limit - 1) + (if limit - 1 in cells then weight(limit - 1) else 0)
  }

  /** The signature of a set of cells of the board. */
  ghost function Signature(weight: nat -> nat, cells: set<nat>): (s: nat)
    ensures s < MODULUS
  {
    WeightSum(weight, cells, 64) % MODULUS
  }

  /** Weights add over disjoint cells. */
  lemma {:induction false} WeightSumAdds(weight: nat -> nat, a: set<nat>, b: set<nat>, limit: nat)
    requires a !! b
    ensures WeightSum(weight, a + b, limit) == WeightSum(weight, a, limit) + WeightSum(weight, b, limit)
  {
    if limit != 0 {
      WeightSumAdds(weight, a, b, limit - 1);
    }
  }

  lemma SignatureAdds(weight: nat -> nat, a: set<nat>, b: set<nat>)
    requires a !! b
    ensures Signature(weight, a + b) == Wrap(Signature(weight, a), Signature(weight, b))
  {
    WeightSumAdds(weight, a, b, 64);
    ModAdd(WeightSum(weight, a, 64), WeightSum(weight, b, 64));
  }

  lemma ModAdd(x: nat, y: nat)
    ensures (x + y) % MODULUS == (x % MODULUS + y % MODULUS) % MODULUS
  {
  }

  lemma {:induction false} NothingWeighsNothing(weight: nat -> nat, limit: nat)
    ensures WeightSum(weight, {}, limit) == 0
  {
    if limit != 0 {
      NothingWeighsNothing(weight, limit - 1);
    }
  }

  /** Adds up the weights cell by cell, keeping the sum below 64 all along. */
  method MaskSignature(weight: nat -> nat, cells: set<nat>) returns (signature: nat)
    ensures signature == Signature(weight, cells)
  {
    signature := 0;
    for cell := 0 to 64
      invariant signature == WeightSum(weight, cells, cell) % MODULUS
    {
      if cell in cells {
        ModAddLeft(WeightSum(weight, cells, cell), weight(cell));
        signature := (signature + weight(cell)) % MODULUS;
      }
    }
  }

  lemma ModAddLeft(x: nat, y: nat)
    ensures (x % MODULUS + y) % MODULUS == (x + y) % MODULUS
  {
  }

  // ------------------------------------------------------------------
  // Sets of signatures
  // ------------------------------------------------------------------

  /** A 64-bit word of flags shifted up: what leaves the word is lost. */
  function ShiftUp(values: Signatures, amount: nat): Signatures {
    set v | v in values && v + amount < 64 :: v + amount
  }

  function ShiftDown(values: Signatures, amount: nat): Signatures {
    set v | v in values && v >= amount :: v - amount
  }

  /** Rotating the word by joining the two shifts. */
  function RotateSignatureSet(values: Signatures, amount: nat): Signatures {
    var a := amount % 64;
    if a == 0 then values else ShiftUp(values, a) + ShiftDown(values, 64 - a)
  }

  ghost predicate InRange(values: Signatures) {
    forall v :: v in values ==> v < MODULUS
  }

  /** Rotation adds a constant modulo 64 to every flagged value. */
  lemma RotateAdds(values: Signatures, amount: nat, v: nat)
    requires InRange(values) && amount < MODULUS
    ensures v in RotateSignatureSet(values, amount) <==> exists u :: u in values && v == Wrap(u, amount)
  {
    if v in RotateSignatureSet(values, amount) {
      if amount == 0 {
        assert v == Wrap(v, amount);
      } else if v in ShiftUp(values, amount) {
        var u :| u in values && u + amount < 64 && v == u + amount;
        assert v == Wrap(u, amount);
      } else {
        var u :| u in values && u >= 64 - amount && v == u - (64 - amount);
        assert v == Wrap(u, amount);
      }
    }
  }

  /** All sums modulo 64 of a value from each set. */
  ghost function Sumset(left: Signatures, right: Signatures): (sums: Signatures) {
    set a, b | a in left && b in right :: Wrap(a, b)
  }

  /** The sums whose right value is below `limit`. */
  ghost function SumsetBelow(left: Signatures, right: Signatures, limit: nat): Signatures {
    set a, b | a in left && b in right && b < limit :: Wrap(a, b)
  }

  lemma SumsetStep(left: Signatures, right: Signatures, shift: nat)
    requires InRange(left) && shift < MODULUS
    ensures SumsetBelow(left, right, shift + 1) ==
            SumsetBelow(left, right, shift) + (if shift in right then RotateSignatureSet(left, shift) else {})
  {
    forall v
      ensures v in RotateSignatureSet(left, shift) <==> exists a :: a in left && v == Wrap(a, shift)
    {
      RotateAdds(left, shift, v);
    }
  }

  /** Joins one rotation for every flag of the right word. */
  method SignatureSumset(left: Signatures, right: Signatures) returns (result: Signatures)
    requires InRange(left) && InRange(right)
    ensures result == Sumset(left, right)
  {
    result := {};
    for shift := 0 to 64
      invariant result == SumsetBelow(left, right, shift)
    {
      SumsetStep(left, right, shift);
      if shift in right {
        result := result + RotateSignatureSet(left, shift);
      }
    }
    assert SumsetBelow(left, right, 64) == Sumset(left, right);
  }

  // ------------------------------------------------------------------
  // Tables
  // ------------------------------------------------------------------

  /** The totals of `count` values of a set, repetitions allowed. */
  ghost function Repeated(values: Signatures, count: nat): (totals: Signatures)
    requires InRange(values)
    ensures InRange(totals)
  {
    if count == 0 then {0} else Sumset(Repeated(values, count - 1), values)
  }

  ghost predicate AllInRange(values: seq<Signatures>) {
    forall p :: 0 <= p < |values| ==> InRange(values[p])
  }

  /** What the first `piece` kinds reach with `total` rows in all, when each kind may be
      used only as often as allowed. */
  ghost function Reach(values: seq<Signatures>, allowed: seq<set<nat>>, piece: nat, total: nat): (reached: Signatures)
    requires |values| == |allowed| == 8 && piece <= 7 && AllInRange(values)
    decreases piece, 0
  {
    if piece == 0 then (if total == 0 then {0} else {})
    else ReachBelow(values, allowed, piece, total, total + 1)
  }

  /** With fewer than `t` rows of the earlier kinds. */
  ghost function ReachBelow(values: seq<Signatures>, allowed: seq<set<nat>>, piece: nat, total: nat, t: nat): Signatures
    requires |values| == |allowed| == 8 && 0 < piece <= 7 && AllInRange(values)
    decreases piece - 1, t + 1
  {
    if t == 0 then {}
    else ReachBelow(values, allowed, piece, total, t - 1) +
         if t - 1 <= total && total - (t - 1) in allowed[piece]
         then Sumset(Reach(values, allowed, piece - 1, t - 1), Repeated(values[piece], total - (t - 1)))
         else {}
  }

  /** One table row: what `total` rows reach when fewer than `t` of them are of earlier kinds. */
  ghost function Joined(
    reachable: seq<Signatures>, repeated: seq<Signatures>, allowed: set<nat>, total: nat, t: nat): Signatures
    requires |reachable| == |repeated| && total < |reachable| && t <= |reachable|
  {
    if t == 0 then {}
    else Joined(reachable, repeated, allowed, total, t - 1) +
         if t - 1 <= total && total - (t - 1) in allowed
         then Sumset(reachable[t - 1], repeated[total - (t - 1)])
         else {}
  }

  method FillRepeated(values: Signatures, limit: nat) returns (repeated: seq<Signatures>)
    requires InRange(values)
    ensures |repeated| == limit + 1
    ensures forall c :: 0 <= c <= limit ==> repeated[c] == Repeated(values, c)
  {
    repeated := [{0}];
    for count := 1 to limit + 1
      invariant |repeated| == count
      invariant forall c :: 0 <= c < count ==> repeated[c] == Repeated(values, c)
    {
      var sums := SignatureSumset(repeated[count - 1], values);
      assert sums == Repeated(values, count);
      repeated := repeated + [sums];
    }
  }

  /** One more kind of piece. */
  method Extend(
      reachable: seq<Signatures>, repeated: seq<Signatures>, allowed: set<nat>, limit: nat, processed: nat)
    returns (next: seq<Signatures>)
    requires |reachable| == |repeated| == limit + 1
    requires AllInRange(reachable) && AllInRange(repeated)
    requires forall i :: processed < i <= limit ==> reachable[i] == {}
    ensures |next| == limit + 1
    ensures forall total: nat :: total <= limit ==>
              next[total] == Joined(reachable, repeated, allowed, total, limit + 1)
  {
    next := seq(limit + 1, i => {});
    var total := 0;
    while total <= processed && total <= limit
      invariant 0 <= total <= limit + 1 && |next| == limit + 1
      invariant forall k: nat :: k <= limit ==> next[k] == Joined(reachable, repeated, allowed, k, total)
      decreases limit + 1 - total
    {
      if reachable[total] != {} {
        next := ExtendFrom(next, reachable, repeated, allowed, limit, total);
      } else {
        assert forall b :: Sumset({}, b) == {};
      }
      total := total + 1;
    }
    forall k: nat | k <= limit
      ensures Joined(reachable, repeated, allowed, k, total) == Joined(reachable, repeated, allowed, k, limit + 1)
    {
      JoinedSkips(reachable, repeated, allowed, k, total, limit + 1);
    }
  }

  lemma {:induction false} JoinedSkips(
      reachable: seq<Signatures>, repeated: seq<Signatures>, allowed: set<nat>, k: nat, low: nat, high: nat)
    requires |reachable| == |repeated| && k < |reachable| && low <= high <= |reachable|
    requires forall i :: low <= i < high ==> reachable[i] == {}
    ensures Joined(reachable, repeated, allowed, k, low) == Joined(reachable, repeated, allowed, k, high)
    decreases high
  {
    if low < high {
      JoinedSkips(reachable, repeated, allowed, k, low, high - 1);
      assert forall b :: Sumset({}, b) == {};
    }
  }

  method ExtendFrom(
      table: seq<Signatures>, reachable: seq<Signatures>, repeated: seq<Signatures>, allowed: set<nat>, limit: nat,
      total: nat)
    returns (next: seq<Signatures>)
    requires |reachable| == |repeated| == |table| == limit + 1 && total <= limit
    requires AllInRange(reachable) && AllInRange(repeated)
    ensures |next| == limit + 1
    ensures forall k: nat :: k <= limit ==>
              next[k] == table[k] + (if total <= k && k - total in allowed
                  then Sumset(reachable[total], repeated[k - total]) else {})
  {
    next := table;
    var count := 0;
    while count + total <= limit
      invariant 0 <= count && count + total <= limit + 1 && |next| == limit + 1
      invariant forall k: nat :: k <= limit ==>
                  next[k] == table[k] + (if total <= k < total + count && k - total in allowed
                      then Sumset(reachable[total], repeated[k - total]) else {})
    {
      if count in allowed && repeated[count] != {} {
        var sums := SignatureSumset(reachable[total], repeated[count]);
        next := next[total + count := next[total + count] + sums];
      } else {
        assert count in allowed ==> Sumset(reachable[total], repeated[count]) == {};
      }
      count := count + 1;
    }
  }

  // ------------------------------------------------------------------
  // The test of one bank of weights
  // ------------------------------------------------------------------

  /** How often a piece may still be used. Without a family of multisets the code admits
      only the number that empties the window. */
  function AllowedCounts(rule: PieceRule, active: set<nat>, piece: nat, current: nat): set<nat>
    requires IsPiece(piece)
  {
    if current > rule.window[piece] || rule.window[piece] > 15 then {}
    else if !rule.constrained then {rule.window[piece] - current}
    else
      set i | i in active && i < |rule.members| && current <= rule.members[i][piece] <= rule.window[piece] ::
        rule.members[i][piece] - current
  }

  ghost function AllAllowed(rule: PieceRule, active: set<nat>, counts: Counts): (allowed: seq<set<nat>>)
    ensures |allowed| == 8
  {
    seq(8, p requires 0 <= p < 8 => if p == 0 then {} else AllowedCounts(rule, active, p, counts[p]))
  }

  /** The signatures of the feasible rows of a piece among the first `limit` rows. */
  ghost function RowSignatures(
    z: Puzzle, weight: nat -> nat, counts: Counts, active: set<nat>, cells: set<nat>, piece: nat, limit: nat)
    : (values: Signatures)
    ensures InRange(values)
  {
    set r: nat | r < limit && r < |z.rows| && z.rows[r].piece == piece && RowIsFeasible(z, counts, active, r, cells) ::
        Signature(weight, z.rows[r].cells)
  }

  ghost function AllSignatures(
    z: Puzzle, weight: nat -> nat, counts: Counts, active: set<nat>, cells: set<nat>, limit: nat)
    : (values: seq<Signatures>)
    ensures |values| == 8 && AllInRange(values)
  {
    seq(8, p requires 0 <= p < 8 => RowSignatures(z, weight, counts, active, cells, p, limit))
  }

  lemma SignaturesStep(z: Puzzle, weight: nat -> nat, counts: Counts, active: set<nat>, cells: set<nat>, r: nat, p: nat)
    requires r < |z.rows|
    ensures RowSignatures(z, weight, counts, active, cells, p, r + 1) ==
            RowSignatures(z, weight, counts, active, cells, p, r) +
            (if z.rows[r].piece == p && RowIsFeasible(z, counts, active, r, cells)
                then {Signature(weight, z.rows[r].cells)} else {})
  {
  }

  method CollectSignatures(
      z: Puzzle, ghost weight: nat -> nat, signatures: seq<nat>, counts: Counts, active: set<nat>, cells: set<nat>)
    returns (values: seq<Signatures>)
    requires |signatures| == |z.rows|
    requires forall r :: 0 <= r < |z.rows| ==> signatures[r] == Signature(weight, z.rows[r].cells)
    ensures values == AllSignatures(z, weight, counts, active, cells, |z.rows|)
  {
    values := seq(8, p => {});
    for r := 0 to |z.rows|
      invariant |values| == 8
      invariant forall p: nat :: p < 8 ==> values[p] == RowSignatures(z, weight, counts, active, cells, p, r)
    {
      forall p: nat | p < 8
        ensures RowSignatures(z, weight, counts, active, cells, p, r + 1) ==
                RowSignatures(z, weight, counts, active, cells, p, r) +
                (if z.rows[r].piece == p && RowIsFeasible(z, counts, active, r, cells) then {signatures[r]} else {})
      {
        SignaturesStep(z, weight, counts, active, cells, r, p);
      }
      if RowIsFeasible(z, counts, active, r, cells) {
        var piece := z.rows[r].piece;
        values := values[piece := values[piece] + {signatures[r]}];
      }
    }
  }

  /** A state passes a bank when the signature of its cells can be reached. */
  ghost predicate Passes(z: Puzzle, weight: nat -> nat, counts: Counts, active: set<nat>, cells: set<nat>, count: nat) {
    Signature(weight, cells) in
      Reach(AllSignatures(z, weight, counts, active, cells, |z.rows|), AllAllowed(z.rule, active, counts), 7, count)
  }

  method BankReachesTarget(
      z: Puzzle, weight: nat -> nat, signatures: seq<nat>, counts: Counts, active: set<nat>, cells: set<nat>,
      count: nat)
    returns (reaches: bool)
    requires |signatures| == |z.rows|
    requires forall r :: 0 <= r < |z.rows| ==> signatures[r] == Signature(weight, z.rows[r].cells)
    ensures reaches <==> Passes(z, weight, counts, active, cells, count)
  {
    var values := CollectSignatures(z, weight, signatures, counts, active, cells);
    ghost var allowed := AllAllowed(z.rule, active, counts);
    var reachable: seq<Signatures> := seq(count + 1, t => if t == 0 then {0} else {});
    var processed := 0;
    for piece := 1 to 8
      invariant |reachable| == count + 1 && AllInRange(reachable)
      invariant forall t: nat :: t <= count ==> reachable[t] == Reach(values, allowed, piece - 1, t)
      invariant processed == if piece == 1 then 0 else count
    {
      var counted := AllowedCounts(z.rule, active, piece, counts[piece]);
      assert counted == allowed[piece];
      if counted == {} {
        NothingAllowed(values, allowed, piece, 7, count);
        return false;
      }
      reachable := NextPiece(values, allowed, piece, reachable, counted, count, processed);
      processed := count;
    }
    var target := MaskSignature(weight, cells);
    reaches := target in reachable[count];
  }

  /** The table of reachable totals after one more kind of piece. */
  method NextPiece(
      values: seq<Signatures>, ghost allowed: seq<set<nat>>, piece: nat, reachable: seq<Signatures>, counted: set<nat>,
      count: nat, processed: nat)
    returns (next: seq<Signatures>)
    requires |values| == |allowed| == 8 && 0 < piece <= 7 && AllInRange(values) && counted == allowed[piece]
    requires |reachable| == count + 1 && AllInRange(reachable)
    requires forall t: nat :: t <= count ==> reachable[t] == Reach(values, allowed, piece - 1, t)
    requires forall t: nat :: processed < t <= count ==> reachable[t] == {}
    ensures |next| == count + 1 && AllInRange(next)
    ensures forall t: nat :: t <= count ==> next[t] == Reach(values, allowed, piece, t)
  {
    var repeated := FillRepeated(values[piece], count);
    next := Extend(reachable, repeated, counted, count, processed);
    forall t: nat | t <= count
      ensures next[t] == Reach(values, allowed, piece, t) && InRange(next[t])
    {
      JoinedIsReach(values, allowed, piece, reachable, repeated, t, count + 1);
      ReachStops(values, allowed, piece, t, count + 1);
      ReachInRange(values, allowed, piece, t, t + 1);
    }
  }

  lemma JoinedUnrolls(
      reachable: seq<Signatures>, repeated: seq<Signatures>, allowed: set<nat>, total: nat, last: nat, rest: nat)
    requires |reachable| == |repeated| && total < |reachable| && last < |reachable|
    requires rest == if last <= total then total - last else 0
    ensures Joined(reachable, repeated, allowed, total, last + 1) ==
            Joined(reachable, repeated, allowed, total, last) +
            if last <= total && rest in allowed then Sumset(reachable[last], repeated[rest]) else {}
  {
  }

  lemma ReachUnrolls(
      values: seq<Signatures>, allowed: seq<set<nat>>, piece: nat, total: nat, last: nat, rest: nat,
      earlier: Signatures, repeated: Signatures)
    requires |values| == |allowed| == 8 && 0 < piece <= 7 && AllInRange(values)
    requires rest == if last <= total then total - last else 0
    requires earlier == Reach(values, allowed, piece - 1, last) && repeated == Repeated(values[piece], rest)
    ensures ReachBelow(values, allowed, piece, total, last + 1) ==
            ReachBelow(values, allowed, piece, total, last) +
            if last <= total && rest in allowed[piece] then Sumset(earlier, repeated) else {}
  {
  }

  lemma {:induction false} JoinedIsReach(
      values: seq<Signatures>, allowed: seq<set<nat>>, piece: nat, reachable: seq<Signatures>,
      repeated: seq<Signatures>, total: nat, t: nat)
    requires |values| == |allowed| == 8 && 0 < piece <= 7 && AllInRange(values)
    requires |reachable| == |repeated| && total < |reachable| && t <= |reachable|
    requires forall i: nat :: i < |reachable| ==> reachable[i] == Reach(values, allowed, piece - 1, i)
    requires forall i: nat :: i < |reachable| ==> repeated[i] == Repeated(values[piece], i)
    ensures Joined(reachable, repeated, allowed[piece], total, t) == ReachBelow(values, allowed, piece, total, t)
    decreases t
  {
    if t != 0 {
      var last := t - 1;
      JoinedIsReach(values, allowed, piece, reachable, repeated, total, last);
      var rest := if last <= total then total - last else 0;
      JoinedUnrolls(reachable, repeated, allowed[piece], total, last, rest);
      ReachUnrolls(values, allowed, piece, total, last, rest, reachable[last], repeated[rest]);
    }
  }

  lemma {:induction false} ReachStops(values: seq<Signatures>, allowed: seq<set<nat>>, piece: nat, total: nat, t: nat)
    requires |values| == |allowed| == 8 && 0 < piece <= 7 && AllInRange(values) && total < t
    ensures ReachBelow(values, allowed, piece, total, t) == Reach(values, allowed, piece, total)
    decreases t
  {
    if total + 1 < t {
      ReachStops(values, allowed, piece, total, t - 1);
    }
  }

  lemma {:induction false} ReachInRange(values: seq<Signatures>, allowed: seq<set<nat>>, piece: nat, total: nat, t: nat)
    requires |values| == |allowed| == 8 && 0 < piece <= 7 && AllInRange(values)
    ensures InRange(ReachBelow(values, allowed, piece, total, t))
    decreases piece, t
  {
    if t != 0 {
      ReachInRange(values, allowed, piece, total, t - 1);
      if piece > 1 {
        ReachInRange(values, allowed, piece - 1, t - 1, t);
      }
      assert InRange(Reach(values, allowed, piece - 1, t - 1));
    }
  }

  /** A piece that may not be used in any number leaves nothing reachable. */
  lemma {:induction false} NothingAllowed(
      values: seq<Signatures>, allowed: seq<set<nat>>, piece: nat, last: nat, total: nat)
    requires |values| == |allowed| == 8 && 0 < piece <= last <= 7 && AllInRange(values) && allowed[piece] == {}
    ensures Reach(values, allowed, last, total) == {}
    decreases last
  {
    NothingAllowedBelow(values, allowed, piece, last, total, total + 1);
  }

  lemma {:induction false} NothingAllowedBelow(
      values: seq<Signatures>, allowed: seq<set<nat>>, piece: nat, last: nat, total: nat, t: nat)
    requires |values| == |allowed| == 8 && 0 < piece <= last <= 7 && AllInRange(values) && allowed[piece] == {}
    ensures ReachBelow(values, allowed, last, total, t) == {}
    decreases last, 0, t
  {
    if t != 0 {
      NothingAllowedBelow(values, allowed, piece, last, total, t - 1);
      if piece < last {
        NothingAllowed(values, allowed, piece, last - 1, t - 1);
        assert forall b :: Sumset({}, b) == {};
      }
    }
  }

  // ------------------------------------------------------------------
  // Soundness
  // ------------------------------------------------------------------

  /** Disjoint rows whose signatures are all listed add up to a listed total. */
  lemma {:induction false} RowsAreRepeated(z: Puzzle, weight: nat -> nat, values: Signatures, T: set<nat>)
    requires InRange(values) && Partitions(z.rows, T, CellsOf(z.rows, T))
    requires forall r :: r in T ==> Signature(weight, z.rows[r].cells) in values
    ensures Signature(weight, CellsOf(z.rows, T)) in Repeated(values, |T|)
    decreases T
  {
    if T == {} {
      assert CellsOf(z.rows, T) == {};
      NothingWeighsNothing(weight, 64);
    } else {
      var r :| r in T;
      var rest := T - {r};
      PartitionSplit(z.rows, T, CellsOf(z.rows, T), r);
      CellsOfAdd(z.rows, rest, r);
      assert rest + {r} == T;
      RowsAreRepeated(z, weight, values, rest);
      assert CellsOf(z.rows, rest) !! z.rows[r].cells;
      SignatureAdds(weight, CellsOf(z.rows, rest), z.rows[r].cells);
      assert |T| == |rest| + 1;
    }
  }

  /** A total that uses `t` earlier rows and an allowed number of the next kind is reached. */
  lemma {:induction false} ReachHas(
      values: seq<Signatures>, allowed: seq<set<nat>>, piece: nat, total: nat, t: nat, a: nat, b: nat, limit: nat)
    requires |values| == |allowed| == 8 && 0 < piece <= 7 && AllInRange(values)
    requires t <= total && total - t in allowed[piece] && t < limit
    requires a in Reach(values, allowed, piece - 1, t) && b in Repeated(values[piece], total - t)
    ensures Wrap(a, b) in ReachBelow(values, allowed, piece, total, limit)
    decreases limit
  {
    if t + 1 < limit {
      ReachHas(values, allowed, piece, total, t, a, b, limit - 1);
    }
  }

  /** The rows of `S` of the first `piece` kinds. */
  ghost function UpToPiece(rows: seq<Row>, S: set<nat>, piece: nat): set<nat> {
    set r | r in S && r < |rows| && 1 <= rows[r].piece <= piece
  }

  lemma SubsetPartitions(rows: seq<Row>, S: set<nat>, cells: set<nat>, T: set<nat>)
    requires Partitions(rows, S, cells) && T <= S
    ensures Partitions(rows, T, CellsOf(rows, T))
  {
  }

  /** A partition whose rows have listed signatures and whose pieces come in allowed numbers. */
  ghost predicate Listed(
    z: Puzzle, weight: nat -> nat, values: seq<Signatures>, allowed: seq<set<nat>>, S: set<nat>, cells: set<nat>)
  {
    |values| == |allowed| == 8 && AllInRange(values) && forall u: nat {:trigger Unfold(u)} :: Unfold(u) ==>
      && Partitions(z.rows, S, cells)
      && (forall r :: r in S ==> Signature(weight, z.rows[r].cells) in values[z.rows[r].piece])
      && (forall p :: 1 <= p < 8 ==> |OfPiece(z.rows, S, p)| in allowed[p])
  }

  /** The rows of the first kinds split into those of the earlier kinds and of the last one. */
  lemma SplitByPiece(
      z: Puzzle, weight: nat -> nat, values: seq<Signatures>, allowed: seq<set<nat>>, S: set<nat>, cells: set<nat>,
      piece: nat)
    requires 0 < piece <= 7 && Listed(z, weight, values, allowed, S, cells)
    ensures var before, now := UpToPiece(z.rows, S, piece - 1), OfPiece(z.rows, S, piece);
            var T := UpToPiece(z.rows, S, piece);
            && |T| == |before| + |now|
            && CellsOf(z.rows, T) == CellsOf(z.rows, before) + CellsOf(z.rows, now)
            && CellsOf(z.rows, before) !! CellsOf(z.rows, now)
  {
    assert Unfold(0);
    var before, now := UpToPiece(z.rows, S, piece - 1), OfPiece(z.rows, S, piece);
    assert UpToPiece(z.rows, S, piece) == before + now;
    CellsOfParts(z.rows, S, cells, before, now);
  }

  lemma CellsOfParts(rows: seq<Row>, S: set<nat>, cells: set<nat>, before: set<nat>, now: set<nat>)
    requires Partitions(rows, S, cells) && before <= S && now <= S && before !! now
    ensures CellsOf(rows, before + now) == CellsOf(rows, before) + CellsOf(rows, now)
    ensures CellsOf(rows, before) !! CellsOf(rows, now)
  {
  }

  lemma PieceIsRepeated(
      z: Puzzle, weight: nat -> nat, values: seq<Signatures>, allowed: seq<set<nat>>, S: set<nat>, cells: set<nat>,
      piece: nat)
    requires 0 < piece <= 7 && Listed(z, weight, values, allowed, S, cells)
    ensures var now := OfPiece(z.rows, S, piece);
            && |now| in allowed[piece]
            && Signature(weight, CellsOf(z.rows, now)) in Repeated(values[piece], |now|)
  {
    assert Unfold(0);
    var now := OfPiece(z.rows, S, piece);
    SubsetPartitions(z.rows, S, cells, now);
    RowsAreRepeated(z, weight, values[piece], now);
  }

  /** The signature is a reachable total of so many rows of the first kinds. */
  ghost predicate Reached(values: seq<Signatures>, allowed: seq<set<nat>>, piece: nat, total: nat, signature: nat)
    requires |values| == |allowed| == 8 && piece <= 7 && AllInRange(values)
  {
    forall u: nat {:trigger Unfold(u)} :: Unfold(u) ==> signature in Reach(values, allowed, piece, total)
  }

  lemma NothingIsReached(values: seq<Signatures>, allowed: seq<set<nat>>)
    requires |values| == |allowed| == 8 && AllInRange(values)
    ensures Reached(values, allowed, 0, 0, 0)
  {
  }

  lemma {:induction false} CoverIsReached(
      z: Puzzle, weight: nat -> nat, values: seq<Signatures>, allowed: seq<set<nat>>, S: set<nat>, cells: set<nat>,
      piece: nat)
    requires piece <= 7 && Listed(z, weight, values, allowed, S, cells)
    ensures var T := UpToPiece(z.rows, S, piece);
            Reached(values, allowed, piece, |T|, Signature(weight, CellsOf(z.rows, T)))
  {
    if piece == 0 {
      NoPieceNoCells(z.rows, S, weight);
      NothingIsReached(values, allowed);
    } else {
      CoverIsReached(z, weight, values, allowed, S, cells, piece - 1);
      OneMorePiece(z, weight, values, allowed, S, cells, piece);
    }
  }

  lemma NoPieceNoCells(rows: seq<Row>, S: set<nat>, weight: nat -> nat)
    ensures |UpToPiece(rows, S, 0)| == 0 && Signature(weight, CellsOf(rows, UpToPiece(rows, S, 0))) == 0
  {
    assert UpToPiece(rows, S, 0) == {};
    assert CellsOf(rows, {}) == {};
    NothingWeighsNothing(weight, 64);
  }

  lemma OneMorePiece(
      z: Puzzle, weight: nat -> nat, values: seq<Signatures>, allowed: seq<set<nat>>, S: set<nat>, cells: set<nat>,
      piece: nat)
    requires 0 < piece <= 7 && Listed(z, weight, values, allowed, S, cells)
    requires var before := UpToPiece(z.rows, S, piece - 1);
             Reached(values, allowed, piece - 1, |before|, Signature(weight, CellsOf(z.rows, before)))
    ensures var T := UpToPiece(z.rows, S, piece);
            Reached(values, allowed, piece, |T|, Signature(weight, CellsOf(z.rows, T)))
  {
    var before, now := UpToPiece(z.rows, S, piece - 1), OfPiece(z.rows, S, piece);
    var x, y := CellsOf(z.rows, before), CellsOf(z.rows, now);
    PieceIsRepeated(z, weight, values, allowed, S, cells, piece);
    SplitByPiece(z, weight, values, allowed, S, cells, piece);
    JoinSignatures(weight, values, allowed, piece, x, y, |before|, |now|);
  }

  lemma JoinSignatures(
      weight: nat -> nat, values: seq<Signatures>, allowed: seq<set<nat>>, piece: nat, x: set<nat>, y: set<nat>,
      before: nat, now: nat)
    requires |values| == |allowed| == 8 && 0 < piece <= 7 && AllInRange(values) && x !! y && now in allowed[piece]
    requires Reached(values, allowed, piece - 1, before, Signature(weight, x))
    requires Signature(weight, y) in Repeated(values[piece], now)
    ensures Reached(values, allowed, piece, before + now, Signature(weight, x + y))
  {
    SignatureAdds(weight, x, y);
    ReachJoins(values, allowed, piece, before, now, Signature(weight, x), Signature(weight, y));
  }

  lemma ReachJoins(
      values: seq<Signatures>, allowed: seq<set<nat>>, piece: nat, before: nat, now: nat, a: nat, b: nat)
    requires |values| == |allowed| == 8 && 0 < piece <= 7 && AllInRange(values) && now in allowed[piece]
    requires Reached(values, allowed, piece - 1, before, a) && b in Repeated(values[piece], now)
    ensures Reached(values, allowed, piece, before + now, Wrap(a, b))
  {
    assert Unfold(0);
    var total := before + now;
    assert total - before == now;
    ReachHas(values, allowed, piece, total, before, a, b, total + 1);
  }

  lemma EqualTotals(a: Counts, b: Counts)
    requires AtMost(a, b) && Total(a) == Total(b)
    ensures a == b
  {
    assert a[1] <= b[1] && a[2] <= b[2] && a[3] <= b[3] && a[4] <= b[4] && a[5] <= b[5] && a[6] <= b[6] && a[7] <= b[7];
  }

  /** The code's count restriction loses no cover: a family is given, or the window is used
      up by the target. */
  ghost predicate CountsAreExact(rule: PieceRule, target: nat) {
    rule.constrained || Total(rule.window) <= target
  }

  lemma CoverCountsAllowed(z: Puzzle, S: set<nat>, cells: set<nat>, counts: Counts, active: set<nat>, p: nat)
    requires z.Valid() && Tracks(z.rule, counts, active) && IsCover(z, S, cells, counts)
    requires CountsAreExact(z.rule, z.target) && IsPiece(p)
    ensures |OfPiece(z.rows, S, p)| in AllAllowed(z.rule, active, counts)[p]
  {
    var final := Plus(z.rows, counts, S);
    assert final[p] == counts[p] + |OfPiece(z.rows, S, p)|;
    assert final[p] <= z.rule.window[p];
    if z.rule.constrained {
      var i :| 0 <= i < |z.rule.members| && z.rule.members[i] == final;
      PlusGrows(z.rows, counts, S);
      assert i in active;
    } else {
      TotalPlus(z.rows, counts, S);
      TotalAtMost(final, z.rule.window);
      EqualTotals(final, z.rule.window);
    }
  }

  lemma CoverSignatureListed(
      z: Puzzle, weight: nat -> nat, S: set<nat>, cells: set<nat>, counts: Counts, active: set<nat>, r: nat)
    requires z.Valid() && CanFit(z.rule, counts) && Tracks(z.rule, counts, active) && IsCover(z, S, cells, counts) &&
              r in S
    ensures r < |z.rows| && Signature(weight, z.rows[r].cells) in RowSignatures(z, weight, counts, active, cells,
              z.rows[r].piece, |z.rows|)
  {
    CoverSplit(z, S, cells, counts, r);
    PartitionSplit(z.rows, S, cells, r);
    FeasibleMeansFits(z, counts, active, r, cells);
    assert z.rows[r].cells != {};
  }

  /** A state with a cover passes every bank, whatever the weights. */
  lemma CoverPasses(z: Puzzle, weight: nat -> nat, S: set<nat>, cells: set<nat>, counts: Counts, active: set<nat>)
    requires z.Valid() && CanFit(z.rule, counts) && Tracks(z.rule, counts, active) && IsCover(z, S, cells, counts)
    requires CountsAreExact(z.rule, z.target)
    ensures Passes(z, weight, counts, active, cells, z.target - Total(counts))
  {
    var values := AllSignatures(z, weight, counts, active, cells, |z.rows|);
    var allowed := AllAllowed(z.rule, active, counts);
    CoverSignaturesListed(z, weight, S, cells, counts, active);
    CoverCountsAllAllowed(z, S, cells, counts, active);
    WholeCoverIsReached(z, weight, values, allowed, S, cells);
  }

  lemma WholeCoverIsReached(
      z: Puzzle, weight: nat -> nat, values: seq<Signatures>, allowed: seq<set<nat>>, S: set<nat>, cells: set<nat>)
    requires |values| == |allowed| == 8 && AllInRange(values) && Partitions(z.rows, S, cells)
    requires forall r :: r in S ==> Signature(weight, z.rows[r].cells) in values[z.rows[r].piece]
    requires forall p :: 1 <= p < 8 ==> |OfPiece(z.rows, S, p)| in allowed[p]
    ensures Signature(weight, cells) in Reach(values, allowed, 7, |S|)
  {
    CoverIsReached(z, weight, values, allowed, S, cells, 7);
    assert UpToPiece(z.rows, S, 7) == S;
    assert Unfold(0);
  }

  lemma CoverSignaturesListed(
      z: Puzzle, weight: nat -> nat, S: set<nat>, cells: set<nat>, counts: Counts, active: set<nat>)
    requires z.Valid() && CanFit(z.rule, counts) && Tracks(z.rule, counts, active) && IsCover(z, S, cells, counts)
    ensures var values := AllSignatures(z, weight, counts, active, cells, |z.rows|);
            forall r :: r in S ==> Signature(weight, z.rows[r].cells) in values[z.rows[r].piece]
  {
    var values := AllSignatures(z, weight, counts, active, cells, |z.rows|);
    forall r | r in S
      ensures Signature(weight, z.rows[r].cells) in values[z.rows[r].piece]
    {
      CoverSignatureListed(z, weight, S, cells, counts, active, r);
    }
  }

  lemma CoverCountsAllAllowed(z: Puzzle, S: set<nat>, cells: set<nat>, counts: Counts, active: set<nat>)
    requires z.Valid() && Tracks(z.rule, counts, active) && IsCover(z, S, cells, counts) &&
              CountsAreExact(z.rule, z.target)
    ensures forall p :: 1 <= p < 8 ==> |OfPiece(z.rows, S, p)| in AllAllowed(z.rule, active, counts)[p]
  {
    forall p | 1 <= p < 8
      ensures |OfPiece(z.rows, S, p)| in AllAllowed(z.rule, active, counts)[p]
    {
      CoverCountsAllowed(z, S, cells, counts, active, p);
    }
  }

  // ------------------------------------------------------------------
  // Where the test is not sound
  // ------------------------------------------------------------------

  /** What the window still holds of the first kinds. */
  ghost function Surplus(rule: PieceRule, counts: Counts, piece: nat): int
    requires piece <= 7
  {
    if piece == 0 then 0 else Surplus(rule, counts, piece - 1) + rule.window[piece] - counts[piece]
  }

  /** Without a family only one total can be reached at all. */
  lemma {:induction false} OneTotalOnly(
      rule: PieceRule, values: seq<Signatures>, active: set<nat>, counts: Counts, piece: nat, total: nat)
    requires |values| == 8 && piece <= 7 && AllInRange(values) && !rule.constrained
    ensures total != Surplus(rule, counts, piece) ==>
              Reach(values, AllAllowed(rule, active, counts), piece, total) == {}
    decreases piece, 1
  {
    if piece != 0 && total != Surplus(rule, counts, piece) {
      OneTotalOnlyBelow(rule, values, active, counts, piece, total, total + 1);
    }
  }

  lemma {:induction false} OneTotalOnlyBelow(
      rule: PieceRule, values: seq<Signatures>, active: set<nat>, counts: Counts, piece: nat, total: nat, t: nat)
    requires |values| == 8 && 0 < piece <= 7 && AllInRange(values) && !rule.constrained
    requires total != Surplus(rule, counts, piece)
    ensures ReachBelow(values, AllAllowed(rule, active, counts), piece, total, t) == {}
    decreases piece, 0, t
  {
    if t != 0 {
      OneTotalOnlyBelow(rule, values, active, counts, piece, total, t - 1);
      OneTotalOnly(rule, values, active, counts, piece - 1, t - 1);
      assert forall b :: Sumset({}, b) == {};
    }
  }

  lemma SurplusIsTotal(rule: PieceRule, counts: Counts)
    ensures Surplus(rule, counts, 7) == Total(rule.window) - Total(counts)
  {
    assert Surplus(rule, counts, 1) == Surplus(rule, counts, 0) + rule.window[1] - counts[1];
    assert Surplus(rule, counts, 2) == Surplus(rule, counts, 1) + rule.window[2] - counts[2];
    assert Surplus(rule, counts, 3) == Surplus(rule, counts, 2) + rule.window[3] - counts[3];
    assert Surplus(rule, counts, 4) == Surplus(rule, counts, 3) + rule.window[4] - counts[4];
    assert Surplus(rule, counts, 5) == Surplus(rule, counts, 4) + rule.window[5] - counts[5];
    assert Surplus(rule, counts, 6) == Surplus(rule, counts, 5) + rule.window[6] - counts[6];
  }

  /** Without a family and with pieces to spare, no state passes any bank. */
  lemma SurplusNeverPasses(z: Puzzle, weight: nat -> nat, cells: set<nat>, counts: Counts, active: set<nat>)
    requires !CountsAreExact(z.rule, z.target) && Total(counts) <= z.target
    ensures !Passes(z, weight, counts, active, cells, z.target - Total(counts))
  {
    SurplusIsTotal(z.rule, counts);
    OneTotalOnly(z.rule, AllSignatures(z, weight, counts, active, cells, |z.rows|), active, counts, 7,
        z.target - Total(counts));
  }

  /** Rows of four consecutive cells that fill the board from the bottom. */
  function FourFrom(i: nat): set<nat> {
    {4 * i, 4 * i + 1, 4 * i + 2, 4 * i + 3}
  }

  /** Any pieces to spare admit a puzzle with a cover of any size up to them. */
  lemma {:induction false} SparePiecesFill(rule: PieceRule, counts: Counts, n: nat) returns (rows: seq<Row>)
    requires !rule.constrained && AtMost(counts, rule.window) && Total(counts) + n <= Total(rule.window)
    ensures |rows| == n && forall r :: 0 <= r < n ==> rows[r].cells == FourFrom(r) && IsPiece(rows[r].piece)
    ensures AtMost(Plus(rows, counts, UpTo(n)), rule.window)
  {
    if n == 0 {
      rows := [];
      assert UpTo(0) == {};
      PlusNothing(rows, counts);
    } else {
      var fewer := SparePiecesFill(rule, counts, n - 1);
      var piece := RoomForOneMore(rule, counts, fewer);
      rows := fewer + [Row(piece, FourFrom(n - 1))];
      OneMoreRow(rule, counts, fewer, piece, FourFrom(n - 1));
    }
  }

  lemma RoomForOneMore(rule: PieceRule, counts: Counts, rows: seq<Row>) returns (piece: nat)
    requires forall r :: 0 <= r < |rows| ==> IsPiece(rows[r].piece)
    requires AtMost(Plus(rows, counts, UpTo(|rows|)), rule.window) && Total(counts) + |rows| < Total(rule.window)
    ensures IsPiece(piece) && Plus(rows, counts, UpTo(|rows|))[piece] < rule.window[piece]
  {
    UpToSize(|rows|);
    TotalPlus(rows, counts, UpTo(|rows|));
    piece := SparePiece(Plus(rows, counts, UpTo(|rows|)), rule.window);
  }

  lemma OneMoreRow(rule: PieceRule, counts: Counts, fewer: seq<Row>, piece: nat, cells: set<nat>)
    requires AtMost(Plus(fewer, counts, UpTo(|fewer|)), rule.window) && IsPiece(piece)
    requires Plus(fewer, counts, UpTo(|fewer|))[piece] < rule.window[piece]
    ensures AtMost(Plus(fewer + [Row(piece, cells)], counts, UpTo(|fewer| + 1)), rule.window)
  {
    var k := |fewer|;
    var rows := fewer + [Row(piece, cells)];
    assert UpTo(k + 1) == UpTo(k) + {k} by {
      assert Below(k, k + 1);
    }
    LongerRowsAgree(fewer, rows, counts, UpTo(k));
    PlusRow(rows, counts, UpTo(k), k);
    PlusAdd(rows, counts, piece, UpTo(k));
  }

  lemma SparePiece(counts: Counts, window: Counts) returns (piece: nat)
    requires AtMost(counts, window) && Total(counts) < Total(window)
    ensures IsPiece(piece) && counts[piece] < window[piece]
  {
    piece := if counts[1] < window[1] then 1 else if counts[2] < window[2] then 2 else if counts[3] < window[3] then 3
             else if counts[4] < window[4] then 4 else if counts[5] < window[5] then 5
                 else if counts[6] < window[6] then 6 else 7;
  }

  lemma LongerRowsAgree(fewer: seq<Row>, rows: seq<Row>, counts: Counts, S: set<nat>)
    requires |fewer| <= |rows| && fewer == rows[..|fewer|] && forall r :: r in S ==> r < |fewer|
    ensures Plus(fewer, counts, S) == Plus(rows, counts, S)
  {
    forall p: nat | p < 8
      ensures OfPiece(fewer, S, p) == OfPiece(rows, S, p)
    {
    }
  }

  lemma PlusAdd(rows: seq<Row>, counts: Counts, piece: nat, S: set<nat>)
    requires IsPiece(piece)
    ensures Plus(rows, Add(counts, piece), S) == Add(Plus(rows, counts, S), piece)
  {
  }

  lemma FillingIsCover(rows: seq<Row>, rule: PieceRule, counts: Counts)
    requires !rule.constrained && forall r :: 0 <= r < |rows| ==> rows[r].cells == FourFrom(r) && IsPiece(rows[r].piece)
    requires AtMost(Plus(rows, counts, UpTo(|rows|)), rule.window)
    ensures IsCover(Puzzle(rows, rule, Total(counts) + |rows|), UpTo(|rows|), CellsOf(rows, UpTo(|rows|)), counts)
  {
    UpToSize(|rows|);
    forall r, q | r in UpTo(|rows|) && q in UpTo(|rows|) && r != q
      ensures rows[r].cells !! rows[q].cells
    {
      FoursAreApart(r, q);
    }
  }

  lemma FoursAreApart(i: nat, j: nat)
    requires i != j
    ensures FourFrom(i) !! FourFrom(j)
  {
    assert forall x :: x in FourFrom(i) ==> 4 * i <= x < 4 * i + 4;
    assert forall x :: x in FourFrom(j) ==> 4 * j <= x < 4 * j + 4;
  }

  /** The three banks of the code. */
  function BankWeight(bank: nat, width: nat): nat -> nat
    requires width > 0
  {
    (cell: nat) => Weight(bank, width, cell)
  }

  ghost predicate Impossible(z: Puzzle, width: nat, counts: Counts, active: set<nat>, cells: set<nat>)
    requires width > 0 && Total(counts) <= z.target
  {
    exists bank: nat :: bank < 3 && !Passes(z, BankWeight(bank, width), counts, active, cells, z.target - Total(counts))
  }

  /** An IMPOSSIBLE verdict is right about every puzzle under a piece rule. */
  ghost predicate SoundFor(rule: PieceRule, counts: Counts, target: nat) {
    forall rows, width: nat, active, cells, S ::
      Puzzle(rows, rule, target).Valid() && width > 0 && Total(counts) <= target
      && Tracks(rule, counts, active) && Impossible(Puzzle(rows, rule, target), width, counts, active, cells)
      ==> !IsCover(Puzzle(rows, rule, target), S, cells, counts)
  }

  lemma VerdictIsSound(z: Puzzle, width: nat, counts: Counts, active: set<nat>, cells: set<nat>, S: set<nat>)
    requires z.Valid() && width > 0 && Total(counts) <= z.target && CanFit(z.rule, counts) &&
              Tracks(z.rule, counts, active)
    requires Impossible(z, width, counts, active, cells) && CountsAreExact(z.rule, z.target)
    ensures !IsCover(z, S, cells, counts)
  {
    if IsCover(z, S, cells, counts) {
      forall bank: nat | bank < 3
        ensures Passes(z, BankWeight(bank, width), counts, active, cells, z.target - Total(counts))
      {
        CoverPasses(z, BankWeight(bank, width), S, cells, counts, active);
      }
    }
  }

  /** With pieces to spare there is a puzzle that has a cover and is called impossible. */
  lemma VerdictCanBeWrong(
      rule: PieceRule, counts: Counts, target: nat)
    returns (z: Puzzle, cells: set<nat>, S: set<nat>)
    requires rule.Valid() && CanFit(rule, counts) && Total(counts) < target <= 15 && !CountsAreExact(rule, target)
    ensures z.Valid() && z.rule == rule && z.target == target
    ensures Impossible(z, 10, counts, {}, cells) && IsCover(z, S, cells, counts)
  {
    var rows := SparePiecesFill(rule, counts, target - Total(counts));
    FillingIsCover(rows, rule, counts);
    z := Puzzle(rows, rule, target);
    S := UpTo(|rows|);
    cells := CellsOf(rows, S);
    FourFromSize(rows);
    SurplusNeverPasses(z, BankWeight(0, 10), cells, counts, {});
  }

  /** Without a family and with pieces to spare every state is called impossible, on boards
      of every width and whatever rows the catalog holds: every cover there is gets lost. */
  lemma SurplusIsCalledImpossible(z: Puzzle, width: nat, counts: Counts, active: set<nat>, cells: set<nat>)
    requires width > 0 && !CountsAreExact(z.rule, z.target) && Total(counts) <= z.target
    ensures Impossible(z, width, counts, active, cells)
  {
    SurplusNeverPasses(z, BankWeight(0, width), cells, counts, active);
  }

  /** Four lines of width four, one horizontal I piece each, five I pieces in the window. */
  function FourLines(): (z: Puzzle)
    ensures |z.rows| == 4 && forall r :: 0 <= r < 4 ==> z.rows[r] == Row(1, FourFrom(r))
    ensures !z.rule.constrained && z.rule.window == [0, 5, 0, 0, 0, 0, 0, 0] && z.target == 4
  {
    Puzzle(
      [Row(1, FourFrom(0)), Row(1, FourFrom(1)), Row(1, FourFrom(2)), Row(1, FourFrom(3))],
      PieceRule([0, 5, 0, 0, 0, 0, 0, 0], false, []),
      4)
  }

  lemma FourLinesCount(S: set<nat>)
    requires S == UpTo(4)
    ensures AtMost(Plus(FourLines().rows, ZERO, S), FourLines().rule.window)
  {
    var rows := FourLines().rows;
    UpToSize(4);
    forall p: nat | p < 8
      ensures |OfPiece(rows, S, p)| == if p == 1 then 4 else 0
    {
      assert OfPiece(rows, S, p) == if p == 1 then S else {};
    }
  }

  /** The lines are covered by their four I pieces. */
  lemma FourLinesHaveACover()
    ensures FourLines().Valid()
    ensures IsCover(FourLines(), UpTo(4), CellsOf(FourLines().rows, UpTo(4)), ZERO)
  {
    var z := FourLines();
    FourFromSize(z.rows);
    FourLinesCount(UpTo(4));
    FillingIsCover(z.rows, z.rule, ZERO);
  }

  /** And yet the verdict is that there is none. Four pieces are missing, so the search does
      ask. */
  lemma FourLinesAreCalledImpossible()
    ensures Impossible(FourLines(), 4, ZERO, {}, CellsOf(FourLines().rows, UpTo(4)))
  {
    SurplusIsCalledImpossible(FourLines(), 4, ZERO, {}, CellsOf(FourLines().rows, UpTo(4)));
  }

  /** What materialising a candidate accepts: with a family any member of it, without one
      only the whole window. */
  ghost predicate Materialises(z: Puzzle, S: set<nat>, cells: set<nat>, counts: Counts) {
    IsCover(z, S, cells, counts) && (!z.rule.constrained ==> Plus(z.rows, counts, S) == z.rule.window)
  }

  /** Under every rule an impossible state has no cover that could become a candidate. */
  lemma NoCandidateIsLost(z: Puzzle, width: nat, counts: Counts, active: set<nat>, cells: set<nat>, S: set<nat>)
    requires z.Valid() && width > 0 && Total(counts) <= z.target
    requires CanFit(z.rule, counts) && Tracks(z.rule, counts, active)
    requires Impossible(z, width, counts, active, cells)
    ensures !Materialises(z, S, cells, counts)
  {
    if Materialises(z, S, cells, counts) {
      TotalPlus(z.rows, counts, S);
      VerdictIsSound(z, width, counts, active, cells, S);
    }
  }

  /** The verdict can be trusted exactly when a family of multisets is given or the window
      holds no more pieces than the target: a caller can see this before asking. */
  lemma SoundExactlyWhenCountsAreExact(rule: PieceRule, counts: Counts, target: nat)
    requires rule.Valid() && CanFit(rule, counts) && Total(counts) < target <= 15
    ensures SoundFor(rule, counts, target) <==> CountsAreExact(rule, target)
  {
    if CountsAreExact(rule, target) {
      forall rows, width: nat, active, cells, S |
        Puzzle(rows, rule, target).Valid() && width > 0 && Total(counts) <= target
        && Tracks(rule, counts, active) && Impossible(Puzzle(rows, rule, target), width, counts, active, cells)
        ensures !IsCover(Puzzle(rows, rule, target), S, cells, counts)
      {
        VerdictIsSound(Puzzle(rows, rule, target), width, counts, active, cells, S);
      }
    } else {
      var z, cells, S := VerdictCanBeWrong(rule, counts, target);
      assert z == Puzzle(z.rows, rule, target);
    }
  }

  lemma FourFromSize(rows: seq<Row>)
    requires forall r :: 0 <= r < |rows| ==> rows[r].cells == FourFrom(r)
    ensures forall r :: 0 <= r < |rows| ==> |rows[r].cells| == 4
  {
    forall r | 0 <= r < |rows|
      ensures |rows[r].cells| == 4
    {
      assert |FourFrom(r)| == 4;
    }
  }

  // ------------------------------------------------------------------
  // All banks
  // ------------------------------------------------------------------

  datatype Verdict = Invalid | ImpossibleAt(bank: nat) | Supported

  /** Signatures of every row in one bank. */
  method CompileSignatures(rows: seq<Row>, weight: nat -> nat) returns (signatures: seq<nat>)
    ensures |signatures| == |rows|
    ensures forall r :: 0 <= r < |rows| ==> signatures[r] == Signature(weight, rows[r].cells)
  {
    signatures := [];
    for r := 0 to |rows|
      invariant |signatures| == r
      invariant forall q :: 0 <= q < r ==> signatures[q] == Signature(weight, rows[q].cells)
    {
      var signature := MaskSignature(weight, rows[r].cells);
      signatures := signatures + [signature];
    }
  }

  /** The first bank that the state does not pass decides. */
  method PropagateInvariant(
      z: Puzzle, width: nat, counts: Counts, active: set<nat>, cells: set<nat>, count: nat)
    returns (verdict: Verdict)
    requires width > 0
    ensures verdict.Invalid? <==> cells == {} || count == 0 || count > 15
    ensures verdict.ImpossibleAt? ==>
              && verdict.bank < 3 && !Passes(z, BankWeight(verdict.bank, width), counts, active, cells, count)
              && forall b: nat :: b < verdict.bank ==> Passes(z, BankWeight(b, width), counts, active, cells, count)
    ensures verdict.Supported? ==> forall b: nat :: b < 3 ==>
              Passes(z, BankWeight(b, width), counts, active, cells, count)
    ensures !verdict.Invalid? && count + Total(counts) == z.target ==>
              (verdict.ImpossibleAt? <==> Impossible(z, width, counts, active, cells))
  {
    if cells == {} || count == 0 || count > 15 {
      return Invalid;
    }
    for bank := 0 to 3
      invariant forall b: nat :: b < bank ==> Passes(z, BankWeight(b, width), counts, active, cells, count)
    {
      var passes := PassesBank(z, BankWeight(bank, width), counts, active, cells, count);
      if !passes {
        return ImpossibleAt(bank);
      }
    }
    return Supported;
  }

  method PassesBank(
      z: Puzzle, weight: nat -> nat, counts: Counts, active: set<nat>, cells: set<nat>, count: nat)
    returns (passes: bool)
    ensures passes <==> Passes(z, weight, counts, active, cells, count)
  {
    var signatures := CompileSignatures(z.rows, weight);
    passes := BankReachesTarget(z, weight, signatures, counts, active, cells, count);
  }

  /** Pruning on the verdict is a sound decision of the cover search. */
  lemma PruningIsSound(z: Puzzle, width: nat, counts: Counts, active: set<nat>, cells: set<nat>)
    requires z.Valid() && width > 0 && Total(counts) <= z.target
    requires CanFit(z.rule, counts) && Tracks(z.rule, counts, active)
    requires Impossible(z, width, counts, active, cells) && CountsAreExact(z.rule, z.target)
    ensures ExactCover.SoundDecision(z, cells, counts, ExactCover.Prune)
  {
    forall S
      ensures !IsCover(z, S, cells, counts)
    {
      VerdictIsSound(z, width, counts, active, cells, S);
    }
  }

  /** A sound decision stays sound when the verdict may overrule it, as the search lets it
      from four missing pieces on where it pays to ask. */
  method DecideWithInvariant(
      z: Puzzle, width: nat, counts: Counts, active: set<nat>, cells: set<nat>, decision: ExactCover.Decision,
      asks: bool)
    returns (final: ExactCover.Decision)
    requires z.Valid() && width > 0 && Total(counts) <= z.target && cells != {}
    requires CanFit(z.rule, counts) && Tracks(z.rule, counts, active) && CountsAreExact(z.rule, z.target)
    requires ExactCover.SoundDecision(z, cells, counts, decision)
    ensures ExactCover.SoundDecision(z, cells, counts, final)
    ensures final == decision || final.Prune?
    ensures 4 <= z.target - Total(counts) && asks && Impossible(z, width, counts, active, cells) ==> final.Prune?
  {
    var count := z.target - counts[1] - counts[2] - counts[3] - counts[4] - counts[5] - counts[6] - counts[7];
    assert count == z.target - Total(counts);
    if count < 4 || !asks {
      return decision;
    }
    var verdict := PropagateInvariant(z, width, counts, active, cells, count);
    if verdict.ImpossibleAt? {
      PruningIsSound(z, width, counts, active, cells);
      return ExactCover.Prune;
    }
    return decision;
  }
}
