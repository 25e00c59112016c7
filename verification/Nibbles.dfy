/** Small counters packed into one word, four bits each. */
module Nibbles {

  function Pow16(i: nat): (r: nat)
    ensures 0 < r
  {
    if i == 0 then 1 else 16 * Pow16(i - 1)
  }

  /** The counter in field `i`. */
  function Nibble(word: nat, i: nat): (r: nat)
    ensures r < 16
  {
    if i == 0 then word % 16 else Nibble(word / 16, i - 1)
  }

  /** Packs counters, the first one in the lowest field. */
  function Pack(counts: seq<nat>): nat {
    if counts == [] then 0 else counts[0] + 16 * Pack(counts[1..])
  }

  predicate Fit(counts: seq<nat>) {
    forall i :: 0 <= i < |counts| ==> counts[i] < 16
  }

  lemma {:induction false} NibbleOfPack(counts: seq<nat>, i: nat)
    requires Fit(counts)
    ensures Nibble(Pack(counts), i) == if i < |counts| then counts[i] else 0
  {
    if counts == [] {
      ZeroNibble(i);
    } else {
      assert Pack(counts) % 16 == counts[0] && Pack(counts) / 16 == Pack(counts[1..]);
      if i != 0 {
        NibbleOfPack(counts[1..], i - 1);
      }
    }
  }

  lemma {:induction false} ZeroNibble(i: nat)
    ensures Nibble(0, i) == 0
  {
    if i != 0 {
      ZeroNibble(i - 1);
    }
  }

  /** Raising one counter adds a unit of its field to the pack. */
  lemma {:induction false} PackAddUnit(counts: seq<nat>, i: nat)
    requires i < |counts|
    ensures Pack(counts[i := counts[i] + 1]) == Pack(counts) + Pow16(i)
  {
    if i == 0 {
      assert counts[0 := counts[0] + 1][1..] == counts[1..];
    } else {
      PackAddUnit(counts[1..], i - 1);
      assert counts[i := counts[i] + 1][1..] == counts[1..][i - 1 := counts[1..][i - 1] + 1];
    }
  }

  lemma {:induction false} PackZeros(counts: seq<nat>)
    requires forall i :: 0 <= i < |counts| ==> counts[i] == 0
    ensures Pack(counts) == 0
  {
    if counts != [] {
      PackZeros(counts[1..]);
    }
  }

  lemma {:induction false} PackBound(counts: seq<nat>)
    requires Fit(counts)
    ensures Pack(counts) < Pow16(|counts|)
  {
    if counts != [] {
      PackBound(counts[1..]);
    }
  }

  /** A word with a unit in some field is at least that unit. */
  lemma {:induction false} NibbleMeansLarge(word: nat, i: nat)
    requires Nibble(word, i) != 0
    ensures word >= Pow16(i)
  {
    if i != 0 {
      NibbleMeansLarge(word / 16, i - 1);
    }
  }
}
