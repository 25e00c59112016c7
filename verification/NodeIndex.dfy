/** A hash index with bucket chains over an arena of keys, grown and reset in place. */
module NodeIndex {
  import opened Folding
  import opened Sets

  /** Maps every key to a bucket of a table of any size. */
  ghost predicate Proper<Key(!new)>(slot: (Key, nat) -> nat) {
    forall k: Key, n: nat :: n > 0 ==> slot(k, n) < n
  }

  ghost predicate Distinct<T>(items: seq<T>) {
    forall i, j :: 0 <= i < j < |items| ==> items[i] != items[j]
  }

  /** Every key is in the chain of its bucket, and chains hold nothing else. */
  ghost predicate Indexed<Key>(slot: (Key, nat) -> nat, keys: seq<Key>, chains: seq<seq<nat>>) {
    && |chains| > 0
    && (forall i :: 0 <= i < |keys| ==> slot(keys[i], |chains|) < |chains| && i in chains[slot(keys[i], |chains|)])
    && (forall b :: 0 <= b < |chains| ==> Belongs(slot, keys, chains[b], b, |chains|))
  }

  /** The members of a chain are keys of its bucket. */
  ghost predicate Belongs<Key>(slot: (Key, nat) -> nat, keys: seq<Key>, chain: seq<nat>, b: nat, size: nat) {
    forall j :: 0 <= j < |chain| ==> chain[j] < |keys| && slot(keys[chain[j]], size) == b
  }

  /** The list of touched buckets names each bucket in use once. */
  ghost predicate Touches(chains: seq<seq<nat>>, touched: seq<nat>) {
    && Distinct(touched)
    && (forall b :: 0 <= b < |chains| ==> (chains[b] != [] <==> b in touched))
    && (forall b :: b in touched ==> b < |chains|)
  }

  /** The invariant of the index, folded until a proof asks for it. */
  ghost predicate Sound<Key>(slot: (Key, nat) -> nat, keys: seq<Key>, chains: seq<seq<nat>>, touched: seq<nat>) {
    forall u: nat {:trigger Unfold(u)} :: Unfold(u) ==>
      Distinct(keys) && Indexed(slot, keys, chains) && Touches(chains, touched)
  }

  lemma LinkKeepsIndexed<Key>(slot: (Key, nat) -> nat, keys: seq<Key>, chains: seq<seq<nat>>, key: Key)
    requires Indexed(slot, keys, chains) && slot(key, |chains|) < |chains|
    ensures var b := slot(key, |chains|);
            Indexed(slot, keys + [key], chains[b := [|keys|] + chains[b]])
  {
    var b := slot(key, |chains|);
    var after := chains[b := [|keys|] + chains[b]];
    forall i | 0 <= i < |keys| + 1
      ensures i in after[slot((keys + [key])[i], |chains|)]
    {
      if i == |keys| {
        assert after[b][0] == i;
      } else {
        assert i in chains[slot(keys[i], |chains|)];
        assert after[b][1..] == chains[b];
      }
    }
    forall c | 0 <= c < |after|
      ensures Belongs(slot, keys + [key], after[c], c, |chains|)
    {
      assert Belongs(slot, keys, chains[c], c, |chains|);
    }
  }

  lemma LinkKeepsTouches(chains: seq<seq<nat>>, touched: seq<nat>, b: nat, entry: nat)
    requires Touches(chains, touched) && b < |chains|
    ensures Touches(chains[b := [entry] + chains[b]], if chains[b] == [] then touched + [b] else touched)
    ensures chains[b] == [] ==> |touched| < |chains|
  {
    if chains[b] == [] {
      assert forall i :: 0 <= i < |touched| ==> touched[i] in touched;
      DistinctBelow(touched + [b], |chains|);
    }
  }

  /** Links every key of the arena, in order, into empty chains. */
  method Rebuild<Key(
      !new)>(slot: (Key, nat) -> nat, keys: seq<Key>, size: nat) returns (chains: seq<seq<nat>>, touched: seq<nat>)
    requires Proper(slot) && size > 0
    ensures |chains| == size && Indexed(slot, keys, chains) && Touches(chains, touched)
  {
    chains := seq(size, i => []);
    touched := [];
    for i := 0 to |keys|
      invariant |chains| == size
      invariant Indexed(slot, keys[..i], chains) && Touches(chains, touched)
    {
      var b := slot(keys[i], size);
      LinkKeepsIndexed(slot, keys[..i], chains, keys[i]);
      LinkKeepsTouches(chains, touched, b, i);
      assert keys[..i + 1] == keys[..i] + [keys[i]];
      if chains[b] == [] {
        touched := touched + [b];
      }
      chains := chains[b := [i] + chains[b]];
    }
    assert keys[..|keys|] == keys;
  }

  class Index<Key(==, !new)> {
    const slot: (Key, nat) -> nat
    var keys: seq<Key>
    var chains: seq<seq<nat>>
    var touched: seq<nat>
    var growthDisabled: bool

    ghost predicate Valid()
      reads this
    {
      Proper(slot) && |chains| > 0 && Sound(slot, keys, chains, touched)
    }

    constructor (slot: (Key, nat) -> nat, buckets: nat)
      requires buckets > 0 && Proper(slot)
      ensures Valid() && keys == []
    {
      this.slot := slot;
      keys, touched, growthDisabled := [], [], false;
      chains := seq(buckets, i => []);
    }

    /** Empties only the buckets that were used; that empties the whole index. */
    method Reset()
      requires Valid()
      modifies this
      ensures Valid() && keys == [] && forall b :: 0 <= b < |chains| ==> chains[b] == []
    {
      assert Unfold(0);
      var before := touched;
      for t := 0 to |before|
        invariant |chains| == old(|chains|)
        invariant forall b :: 0 <= b < |chains| ==> (chains[b] != [] <==> b in before[t..])
        modifies this`chains
      {
        assert before[t] in before;
        assert before[t..] == [before[t]] + before[t + 1..];
        chains := chains[before[t] := []];
      }
      keys, touched := [], [];
    }

    /** Doubles the table when it is three quarters full. Growing is optional: without room
        the index stays as it is and does not try again. */
    method GrowBestEffort(roomy: bool)
      requires Valid()
      modifies this`chains, this`touched, this`growthDisabled
      ensures Valid()
    {
      if growthDisabled || |keys| < |chains| / 4 * 3 {
        return;
      }
      if !roomy {
        growthDisabled := true;
        return;
      }
      assert Unfold(0);
      chains, touched := Rebuild(slot, keys, |chains| * 2);
    }

    /** The position of a key, if it is in the index. */
    method Find(key: Key) returns (found: bool, index: nat)
      requires Valid()
      ensures found <==> key in keys
      ensures found ==> index < |keys| && keys[index] == key
    {
      assert Unfold(0);
      var chain := chains[slot(key, |chains|)];
      assert Belongs(slot, keys, chain, slot(key, |chains|), |chains|);
      for j := 0 to |chain|
        invariant forall i :: 0 <= i < j ==> keys[chain[i]] != key
      {
        if keys[chain[j]] == key {
          return true, chain[j];
        }
      }
      return false, 0;
    }

    /** The position of a key, appended to the arena first if it is new. */
    method FindOrInsert(key: Key, roomy: bool) returns (index: nat)
      requires Valid()
      modifies this
      ensures Valid() && index < |keys| && keys[index] == key
      ensures keys == if key in old(keys) then old(keys) else old(keys) + [key]
    {
      var found;
      found, index := Find(key);
      if found {
        return;
      }
      GrowBestEffort(roomy);
      assert Unfold(0);
      var b := slot(key, |chains|);
      LinkKeepsIndexed(slot, keys, chains, key);
      LinkKeepsTouches(chains, touched, b, |keys|);
      index := |keys|;
      if chains[b] == [] {
        touched := touched + [b];
      }
      chains := chains[b := [index] + chains[b]];
      keys := keys + [key];
    }
  }
}
