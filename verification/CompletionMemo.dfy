/** The completion memo: open addressing with generation stamps in reusable storage. */
module CompletionMemo {
  import opened Options
  import opened Bits
  import opened Folding
  import opened Sets

  const MAX_GENERATION: nat := 0xFFFF

  // ------------------------------------------------------------------
  // Probe sequences
  // ------------------------------------------------------------------

  /** Bucket of the given probe. */
  function Bucket(hash: nat, probe: nat, capacity: nat): (bucket: nat)
    requires capacity > 0
    ensures bucket < capacity
  {
    (hash + probe) % capacity
  }

  lemma Times(k: int, n: int)
    requires k >= 1 && n >= 0
    ensures k * n >= n
  {
  }

  /** Two probes of one key never meet. */
  lemma ProbesAreDistinct(hash: nat, capacity: nat, p: nat, q: nat)
    requires p < capacity && q < capacity && Bucket(hash, p, capacity) == Bucket(hash, q, capacity)
    ensures p == q
  {
    var a, b := (hash + p) / capacity, (hash + q) / capacity;
    assert hash + p == a * capacity + (hash + p) % capacity;
    assert hash + q == b * capacity + (hash + q) % capacity;
    assert q - p == (b - a) * capacity;
    if b > a {
      Times(b - a, capacity);
    } else if a > b {
      assert p - q == (a - b) * capacity;
      Times(a - b, capacity);
    }
  }

  /** Every key visits distinct buckets. */
  ghost predicate Proper<Key(!new)>(bucket: (Key, nat) -> nat, capacity: nat) {
    && (forall k: Key, p: nat :: p < capacity ==> bucket(k, p) < capacity)
    && (forall k: Key, p: nat, q: nat :: p < q < capacity ==> bucket(k, p) != bucket(k, q))
  }

  lemma HashIsProper<Key(!new)>(hash: Key -> nat, capacity: nat)
    requires capacity > 0
    ensures Proper((k: Key, p: nat) => Bucket(hash(k), p, capacity), capacity)
  {
    forall k: Key, p: nat, q: nat | p < q < capacity
      ensures Bucket(hash(k), p, capacity) != Bucket(hash(k), q, capacity)
    {
      if Bucket(hash(k), p, capacity) == Bucket(hash(k), q, capacity) {
        ProbesAreDistinct(hash(k), capacity, p, q);
      }
    }
  }

  // ------------------------------------------------------------------
  // Tables as values
  // ------------------------------------------------------------------

  datatype Table<!Key(!new)> = Table(bucket: (Key, nat) -> nat, keys: seq<Key>, values: seq<nat>, stamps: seq<nat>,
      generation: nat) {
    ghost predicate Shaped() {
      0 < |keys| == |values| == |stamps|
    }

    ghost predicate Live(b: nat) {
      b < |stamps| && stamps[b] == generation
    }

    /** The first `d` probes of the key are taken. */
    ghost predicate Taken(key: Key, d: nat) {
      forall p: nat :: p < d ==> Live(bucket(key, p))
    }

    /** A taken bucket lies at the end of a chain of taken buckets. */
    ghost predicate Chained(b: nat)
      requires Shaped() && Live(b)
    {
      exists d: nat :: d < |keys| && bucket(keys[b], d) == b && Taken(keys[b], d)
    }

    ghost function LiveBuckets(): set<nat> {
      set b: nat | b < |stamps| && Live(b)
    }

    ghost predicate Holds(key: Key, b: nat)
      requires Shaped()
    {
      Live(b) && keys[b] == key
    }
  }

  ghost predicate Sound<Key(!new)>(t: Table<Key>, contents: map<Key, nat>) {
    && t.Shaped() && Proper(t.bucket, |t.keys|)
    && (forall b: nat :: t.Live(b) ==> t.Chained(b))
    && (forall b: nat, c: nat :: t.Live(b) && t.Live(c) && t.keys[b] == t.keys[c] ==> b == c)
    && (forall b: nat :: t.Live(b) ==> t.keys[b] in contents && contents[t.keys[b]] == t.values[b])
    && (forall k :: k in contents ==> exists b: nat :: t.Holds(k, b))
  }

  /** A key of the memo lies at the end of a chain of taken buckets. */
  lemma KeyHasChain<Key(!new)>(t: Table<Key>, contents: map<Key, nat>, key: Key) returns (d: nat)
    requires Sound(t, contents) && key in contents
    ensures d < |t.keys| && t.Taken(key, d) && t.Holds(key, t.bucket(key, d))
    ensures contents[key] == t.values[t.bucket(key, d)]
  {
    var b: nat :| t.Holds(key, b);
    assert t.Chained(b);
    d :| d < |t.keys| && t.bucket(t.keys[b], d) == b && t.Taken(t.keys[b], d);
  }

  /** A key whose every probe is taken would need all buckets. */
  lemma AllProbesTaken<Key(!new)>(t: Table<Key>, key: Key)
    requires t.Shaped() && Proper(t.bucket, |t.keys|) && t.Taken(key, |t.keys|)
    ensures |t.keys| <= |t.LiveBuckets()|
  {
    var n := |t.keys|;
    var chain: seq<nat> := seq(n, p requires 0 <= p < n => t.bucket(key, p));
    DistinctSize(chain);
    forall b | b in ToSet(chain)
      ensures b in t.LiveBuckets()
    {
      var p: nat :| p < n && chain[p] == b;
      assert t.Live(t.bucket(key, p));
    }
    assert t.LiveBuckets() == ToSet(chain) + (t.LiveBuckets() - ToSet(chain));
  }

  ghost function Filled<Key(!new)>(t: Table<Key>, key: Key, value: nat, b: nat): Table<Key>
    requires t.Shaped() && b < |t.keys|
  {
    t.(keys := t.keys[b := key], values := t.values[b := value], stamps := t.stamps[b := t.generation])
  }

  lemma FillKeepsChains<Key(!new)>(t: Table<Key>, contents: map<Key, nat>, key: Key, value: nat, d: nat, c: nat)
    requires Sound(t, contents) && d < |t.keys| && t.Taken(key, d) && !t.Live(t.bucket(key, d))
    requires t.Live(c) || c == t.bucket(key, d)
    ensures var next := Filled(t, key, value, t.bucket(key, d));
            next.Live(c) && next.Chained(c)
  {
    var b := t.bucket(key, d);
    var next := Filled(t, key, value, b);
    assert forall x: nat :: t.Live(x) ==> next.Live(x);
    if c == b {
      assert next.keys[c] == key && next.bucket(next.keys[c], d) == c && next.Taken(next.keys[c], d);
    } else {
      assert t.Chained(c);
      var e: nat :| e < |t.keys| && t.bucket(t.keys[c], e) == c && t.Taken(t.keys[c], e);
      assert next.keys[c] == t.keys[c] && next.bucket(next.keys[c], e) == c && next.Taken(next.keys[c], e);
    }
  }

  lemma FillKeepsKeys<Key(!new)>(t: Table<Key>, contents: map<Key, nat>, key: Key, value: nat, b: nat)
    requires Sound(t, contents) && b < |t.keys| && !t.Live(b)
    ensures var after := contents[key := value];
            forall k :: k in after ==> exists c: nat :: Filled(t, key, value, b).Holds(k, c)
  {
    var next := Filled(t, key, value, b);
    var after := contents[key := value];
    forall k | k in after
      ensures exists c: nat :: next.Holds(k, c)
    {
      if k == key {
        assert next.Holds(k, b);
      } else {
        var c: nat :| t.Holds(k, c);
        assert next.Holds(k, c);
      }
    }
  }

  /** Filling the first free bucket of a chain. */
  lemma FillKeepsSound<Key(!new)>(t: Table<Key>, contents: map<Key, nat>, key: Key, value: nat, d: nat)
    requires Sound(t, contents) && key !in contents
    requires d < |t.keys| && t.Taken(key, d) && !t.Live(t.bucket(key, d))
    ensures var b := t.bucket(key, d);
            Sound(Filled(t, key, value, b), contents[key := value])
            && Filled(t, key, value, b).LiveBuckets() == t.LiveBuckets() + {b} && b !in t.LiveBuckets()
  {
    var b := t.bucket(key, d);
    var next := Filled(t, key, value, b);
    assert forall c: nat :: next.Live(c) <==> t.Live(c) || c == b;
    forall c: nat | next.Live(c)
      ensures next.Chained(c)
    {
      FillKeepsChains(t, contents, key, value, d, c);
    }
    FillKeepsKeys(t, contents, key, value, b);
  }

  lemma OverwriteKeepsSound<Key(!new)>(t: Table<Key>, contents: map<Key, nat>, key: Key, value: nat, b: nat)
    requires Sound(t, contents) && t.Holds(key, b)
    ensures Sound(t.(values := t.values[b := value]), contents[key := value])
    ensures t.(values := t.values[b := value]).LiveBuckets() == t.LiveBuckets()
  {
    var next := t.(values := t.values[b := value]);
    assert forall c: nat :: next.Live(c) <==> t.Live(c);
    forall c: nat | next.Live(c)
      ensures next.Chained(c)
    {
      assert t.Chained(c);
      var e: nat :| e < |t.keys| && t.bucket(t.keys[c], e) == c && t.Taken(t.keys[c], e);
      assert next.Taken(next.keys[c], e);
    }
    var after := contents[key := value];
    forall k | k in after
      ensures exists c: nat :: next.Holds(k, c)
    {
      assert k in contents;
      var c: nat :| t.Holds(k, c);
      assert next.Holds(k, c);
    }
  }

  /** No bucket is stamped: nothing is held. */
  lemma EmptyIsSound<Key(!new)>(t: Table<Key>)
    requires t.Shaped() && Proper(t.bucket, |t.keys|) && forall b :: 0 <= b < |t.stamps| ==> t.stamps[b] != t.generation
    ensures Sound(t, map[]) && t.LiveBuckets() == {}
  {
  }

  /** The table invariant, folded until a proof asks for it. */
  ghost predicate Folded<Key(!new)>(t: Table<Key>, contents: map<Key, nat>) {
    forall u: nat {:trigger Unfold(u)} :: Unfold(u) ==> Sound(t, contents)
  }

  lemma Open<Key(!new)>(t: Table<Key>, contents: map<Key, nat>)
    requires Folded(t, contents)
    ensures Sound(t, contents)
  {
    assert Unfold(0);
  }

  lemma Close<Key(!new)>(t: Table<Key>, contents: map<Key, nat>)
    requires Sound(t, contents)
    ensures Folded(t, contents)
  {
  }

  lemma FillKeepsFolded<Key(!new)>(t: Table<Key>, contents: map<Key, nat>, key: Key, value: nat, d: nat)
    requires t.Shaped() && Folded(t, contents) && key !in contents
    requires d < |t.keys| && t.bucket(key, d) < |t.keys| && t.Taken(key, d) && !t.Live(t.bucket(key, d))
    ensures Folded(Filled(t, key, value, t.bucket(key, d)), contents[key := value])
    ensures |Filled(t, key, value, t.bucket(key, d)).LiveBuckets()| == |t.LiveBuckets()| + 1
  {
    Open(t, contents);
    FillKeepsSound(t, contents, key, value, d);
    Close(Filled(t, key, value, t.bucket(key, d)), contents[key := value]);
  }

  lemma OverwriteKeepsFolded<Key(!new)>(t: Table<Key>, contents: map<Key, nat>, key: Key, value: nat, b: nat)
    requires t.Shaped() && Folded(t, contents) && t.Holds(key, b)
    ensures Folded(t.(values := t.values[b := value]), contents[key := value])
    ensures t.(values := t.values[b := value]).LiveBuckets() == t.LiveBuckets()
  {
    Open(t, contents);
    OverwriteKeepsSound(t, contents, key, value, b);
    Close(t.(values := t.values[b := value]), contents[key := value]);
  }

  // ------------------------------------------------------------------
  // The memo
  // ------------------------------------------------------------------

  class Memo<Key(==, !new)> {
    const bucket: (Key, nat) -> nat
    const keys: array<Key>
    const values: array<nat>
    const stamps: array<nat>
    var generation: nat
    var count: nat
    ghost var contents: map<Key, nat>

    ghost function Value(): Table<Key>
      reads this, keys, values, stamps
    {
      Table(bucket, keys[..], values[..], stamps[..], generation)
    }

    /** At most three quarters of the buckets are filled. */
    function MaxLoad(): nat {
      keys.Length * 3 / 4
    }

    ghost predicate Valid()
      reads this, keys, values, stamps
    {
      && values != stamps && (keys as object) != values && (keys as object) != stamps
      && 0 < keys.Length == values.Length == stamps.Length
      && Folded(Value(), contents)
      && 0 < generation <= MAX_GENERATION
      && (forall b :: 0 <= b < stamps.Length ==> stamps[b] <= generation)
      && count == |Value().LiveBuckets()| && count <= MaxLoad()
    }

    /** Fresh storage, all stamps zero, first generation. */
    constructor (hash: Key -> nat, capacity: nat, blank: Key)
      requires capacity > 0
      ensures Valid() && contents == map[]
      ensures fresh(keys) && fresh(values) && fresh(stamps)
    {
      bucket := (k: Key, p: nat) => Bucket(hash(k), p, capacity);
      keys := new Key[capacity](i => blank);
      values := new nat[capacity](i => 0);
      stamps := new nat[capacity](i => 0);
      generation, count, contents := 1, 0, map[];
      new;
      HashIsProper(hash, capacity);
      EmptyIsSound(Value());
      Close(Value(), map[]);
    }

    /** The bucket of the key, or the first free one of its chain. */
    method Probe(key: Key) returns (b: nat, ghost d: nat)
      requires Valid()
      ensures d < keys.Length && b == bucket(key, d) && Value().Taken(key, d)
      ensures b < keys.Length && (stamps[b] == generation <==> key in contents)
      ensures stamps[b] == generation ==> keys[b] == key && contents[key] == values[b]
    {
      ghost var t := Value();
      Open(t, contents);
      ghost var end := 0;
      if key in contents {
        end := KeyHasChain(t, contents, key);
      }
      var probe := 0;
      while probe < keys.Length
        invariant 0 <= probe <= keys.Length
        invariant key in contents ==> probe <= end
        invariant t.Taken(key, probe)
      {
        b, d := bucket(key, probe), probe;
        if stamps[b] != generation || keys[b] == key {
          assert t.Live(b) <==> stamps[b] == generation;
          return;
        }
        assert t.Live(b);
        probe := probe + 1;
      }
      AllProbesTaken(t, key);
      assert false;
    }

    /** Exactly the value last stored for this key in this generation, or nothing. */
    method Lookup(key: Key) returns (found: Option<nat>)
      requires Valid()
      ensures found == if key in contents then Some(contents[key]) else None
    {
      var b, d := Probe(key);
      return if stamps[b] == generation then Some(values[b]) else None;
    }

    /** Stores the value; a saturated memo is left unchanged instead. */
    method Insert(key: Key, value: nat)
      requires Valid()
      modifies this`count, this`contents, keys, values, stamps
      ensures Valid()
      ensures contents == if old(count) >= MaxLoad() then old(contents) else old(contents)[key := value]
    {
      if count >= MaxLoad() {
        return;
      }
      var b, d := Probe(key);
      if stamps[b] != generation {
        Fill(key, value, b, d);
      } else {
        Overwrite(key, value, b);
      }
    }

    method Fill(key: Key, value: nat, b: nat, ghost d: nat)
      requires Valid() && count < MaxLoad() && key !in contents
      requires d < keys.Length && b == bucket(key, d) && Value().Taken(key, d)
      requires b < keys.Length && stamps[b] != generation
      modifies this`count, this`contents, keys, values, stamps
      ensures Valid() && contents == old(contents)[key := value]
    {
      ghost var t := Value();
      FillKeepsFolded(t, contents, key, value, d);
      keys[b] := key;
      values[b] := value;
      stamps[b] := generation;
      count := count + 1;
      contents := contents[key := value];
      assert keys[..] == t.keys[b := key] && values[..] == t.values[b := value] &&
          stamps[..] == t.stamps[b := t.generation];
      assert Value() == Filled(t, key, value, b);
    }

    method Overwrite(key: Key, value: nat, b: nat)
      requires Valid() && b < keys.Length && stamps[b] == generation && keys[b] == key
      modifies this`contents, values
      ensures Valid() && contents == old(contents)[key := value]
    {
      ghost var t := Value();
      OverwriteKeepsFolded(t, contents, key, value, b);
      values[b] := value;
      contents := contents[key := value];
      assert Value() == t.(values := t.values[b := value]);
    }

    /** Starts a new generation in the same storage: the memo is empty again. When the
        16-bit stamp wraps, all stamps are cleared first, so none can be mistaken. */
    /** Makes every stamp stale; storage is only cleared when the counter wraps. */
    method AdvanceStamp()
      requires 0 < generation <= MAX_GENERATION && forall b :: 0 <= b < stamps.Length ==> stamps[b] <= generation
      modifies this`generation, stamps
      ensures generation == if old(generation) == MAX_GENERATION then 1 else old(generation) + 1
      ensures forall b :: 0 <= b < stamps.Length ==> stamps[b] < generation
    {
      generation := (generation + 1) % (MAX_GENERATION + 1);
      if generation == 0 {
        forall b | 0 <= b < stamps.Length {
          stamps[b] := 0;
        }
        generation := 1;
      }
    }

    method NextGeneration()
      requires Valid()
      modifies this`generation, this`count, this`contents, stamps
      ensures Valid() && contents == map[]
      ensures generation == if old(generation) == MAX_GENERATION then 1 else old(generation) + 1
    {
      Open(Value(), contents);
      AdvanceStamp();
      count := 0;
      contents := map[];
      EmptyIsSound(Value());
      Close(Value(), map[]);
    }
  }
}
