/** Dividing the covers among independent runs by the rows chosen first. */
module Shares {
  import opened Cover
  import opened Folding

  type Family = set<set<nat>>

  /** One run of several. `mix` folds a chosen row into the prefix hash and `pivot` is the
      cell the search branches on, as a function of the residual state. */
  datatype Share = Share(index: nat, count: nat, depth: nat, mix: (nat, nat) -> nat, pivot: (set<nat>, Counts) -> nat) {
    ghost predicate Valid(z: Puzzle) {
      0 < count && index < count && 0 < depth <= z.target
    }
  }

  /** Row `r` of `S` owns `cell`. */
  ghost predicate Chooses(rows: seq<Row>, S: set<nat>, cell: nat, r: nat) {
    r in S && r < |rows| && IsPiece(rows[r].piece) && cell in rows[r].cells
  }

  lemma ChoiceIsUnique(z: Puzzle, S: set<nat>, cells: set<nat>, counts: Counts, cell: nat, r: nat, q: nat)
    requires IsCover(z, S, cells, counts) && Chooses(z.rows, S, cell, r) && Chooses(z.rows, S, cell, q)
    ensures r == q
  {
  }

  /** Following the pivots of `S` down to the dividing depth gives the number of the run
      that produces `S`. */
  ghost function Owner(
    z: Puzzle, share: Share, S: set<nat>, cells: set<nat>, counts: Counts, depth: nat, hash: nat): (owner: nat)
    requires share.Valid(z)
    ensures owner < share.count
    decreases share.depth - depth
  {
    if depth >= share.depth then hash % share.count
    else
      var cell := share.pivot(cells, counts);
      if exists r :: Chooses(z.rows, S, cell, r) then
        var r: nat :| Chooses(z.rows, S, cell, r);
        Owner(z, share, S - {r}, cells - z.rows[r].cells, Add(counts, z.rows[r].piece),
            depth + 1, share.mix(hash, r + 1))
      else 0
  }

  /** Below the dividing depth nothing is filtered any more. */
  ghost predicate Divides(share: Share, depth: nat) {
    share.count != 1 && depth < share.depth
  }

  ghost predicate Mine(z: Puzzle, share: Share, S: set<nat>, cells: set<nat>, counts: Counts, depth: nat, hash: nat)
    requires share.Valid(z)
  {
    && IsCover(z, S, cells, counts)
    && (Divides(share, depth) ==> Owner(z, share, S, cells, counts, depth, hash) == share.index)
  }

  /** What a search from a state returns: the covers of the state that belong to this run. */
  ghost predicate Returns(
    z: Puzzle, share: Share, family: Family, cells: set<nat>, counts: Counts, depth: nat, hash: nat)
    requires share.Valid(z)
  {
    forall u: nat {:trigger Unfold(u)} :: Unfold(u) ==>
      forall S :: S in family <==> Mine(z, share, S, cells, counts, depth, hash)
  }

  predicate OwnsPrefix(share: Share, nextDepth: nat, nextHash: nat)
    requires 0 < share.count
  {
    share.count == 1 || nextDepth != share.depth || nextHash % share.count == share.index
  }

  /** Choosing the pivot row hands the rest of the cover to the same run, and only the
      prefix test at the dividing depth turns covers away. */
  lemma OwnershipStep(
      z: Puzzle, share: Share, S: set<nat>, cells: set<nat>, counts: Counts, depth: nat, hash: nat, r: nat)
    requires share.Valid(z) && IsCover(z, S, cells, counts)
    requires Divides(share, depth) ==> Chooses(z.rows, S, share.pivot(cells, counts), r)
    requires r in S && r < |z.rows| && IsPiece(z.rows[r].piece)
    ensures var next := share.mix(hash, r + 1);
            Mine(z, share, S, cells, counts, depth, hash) <==>
            OwnsPrefix(share, depth + 1, next)
            && Mine(z, share, S - {r}, cells - z.rows[r].cells, Add(counts, z.rows[r].piece), depth + 1, next)
  {
    CoverSplit(z, S, cells, counts, r);
    assert (S - {r}) + {r} == S;
    if Divides(share, depth) {
      OwnerStep(z, share, S, cells, counts, depth, hash, r);
    }
  }

  lemma OwnerStep(z: Puzzle, share: Share, S: set<nat>, cells: set<nat>, counts: Counts, depth: nat, hash: nat, r: nat)
    requires share.Valid(z) && IsCover(z, S, cells, counts) && depth < share.depth
    requires Chooses(z.rows, S, share.pivot(cells, counts), r)
    ensures Owner(z, share, S, cells, counts, depth, hash)
         == Owner(z, share, S - {r}, cells - z.rows[r].cells, Add(counts, z.rows[r].piece),
             depth + 1, share.mix(hash, r + 1))
  {
    var cell := share.pivot(cells, counts);
    forall q | Chooses(z.rows, S, cell, q)
      ensures q == r
    {
      ChoiceIsUnique(z, S, cells, counts, cell, r, q);
    }
  }

  /** The runs 0, 1, …, n-1 find pairwise disjoint families that together are exactly the
      family of the undivided search. */
  lemma SharesPartitionTheCovers(
      z: Puzzle, shares: seq<Share>, families: seq<Family>, whole: Family, cells: set<nat>, counts: Counts, hash: nat)
    requires |shares| == |families| > 0
    requires forall i :: 0 <= i < |shares| ==>
               && shares[i].Valid(z) && shares[i] == shares[0].(index := i) && shares[i].count == |shares|
               && Returns(z, shares[i], families[i], cells, counts, 0, hash)
    requires IsFamily(z, whole, cells, counts)
    ensures forall S :: S in whole <==> exists i :: 0 <= i < |families| && S in families[i]
    ensures forall i, j :: 0 <= i < j < |families| ==> families[i] !! families[j]
  {
    assert Unfold(0);
    forall S, i | 0 <= i < |shares| && IsCover(z, S, cells, counts)
      ensures S in families[i] <==> Owner(z, shares[0], S, cells, counts, 0, hash) == i
    {
      OwnerIgnoresIndex(z, shares[0], i, S, cells, counts, 0, hash);
      if shares[i].count == 1 {
        assert i == 0;
      }
    }
    forall S | S in whole
      ensures exists i :: 0 <= i < |families| && S in families[i]
    {
      var owner := Owner(z, shares[0], S, cells, counts, 0, hash);
      assert shares[owner].Valid(z);
      assert S in families[owner];
    }
  }

  lemma {:induction false} OwnerIgnoresIndex(
      z: Puzzle, share: Share, index: nat, S: set<nat>, cells: set<nat>, counts: Counts, depth: nat, hash: nat)
    requires share.Valid(z) && index < share.count
    ensures Owner(z, share.(index := index), S, cells, counts, depth, hash) ==
              Owner(z, share, S, cells, counts, depth, hash)
    decreases share.depth - depth
  {
    if depth < share.depth {
      var cell := share.pivot(cells, counts);
      forall r: nat | Chooses(z.rows, S, cell, r)
        ensures Owner(z, share.(index := index), S - {r}, cells - z.rows[r].cells, Add(counts, z.rows[r].piece),
                  depth + 1, share.mix(hash, r + 1))
             == Owner(z, share, S - {r}, cells - z.rows[r].cells, Add(counts, z.rows[r].piece),
                 depth + 1, share.mix(hash, r + 1))
      {
        OwnerIgnoresIndex(z, share, index, S - {r}, cells - z.rows[r].cells, Add(counts, z.rows[r].piece),
            depth + 1, share.mix(hash, r + 1));
      }
    }
  }
}
