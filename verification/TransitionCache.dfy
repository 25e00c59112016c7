/** The geometry transition cache: direct-mapped hot entries stamped with an epoch, and a
    sidecar of cold traces that is allocated on first use. */
module TransitionCache {
  import opened Options

  const MAX_EPOCH: nat := 0xFFFF_FFFF

  datatype Outcome<R> = Placed(state: R) | Rejected(reason: nat)

  datatype Hit<R, T> = Hit(outcome: Outcome<R>, trace: Option<T>)

  /** One accepted insert. `stored` tells whether there was room for its trace. */
  datatype Insertion<K, R, T> = Insertion(key: K, outcome: Outcome<R>, trace: T, stored: bool)

  /** The last insert into a slot. */
  ghost function Last<K, R, T>(slot: K -> nat, log: seq<Insertion<K, R, T>>, b: nat): Option<Insertion<K, R, T>>
    decreases |log|
  {
    if log == [] then None
    else
      var top := log[|log| - 1];
      if slot(top.key) == b then Some(top) else Last(slot, log[..|log| - 1], b)
  }

  /** Whether a lookup must return a trace. */
  predicate NeedsTrace<K, R>(traced: K -> bool, key: K, outcome: Outcome<R>) {
    traced(key) && outcome.Placed?
  }

  /** What a lookup should find, given everything inserted since the last reset: only the
      latest insert into the slot of the key counts, only if it was for this very key, and a
      trace comes from that same insert. */
  ghost function Answer<K, R, T>(
    slot: K -> nat, traced: K -> bool, log: seq<Insertion<K, R, T>>, key: K): Option<Hit<R, T>>
  {
    match Last(slot, log, slot(key))
    case None => None
    case Some(entry) =>
      if entry.key != key then None
      else if !NeedsTrace(traced, key, entry.outcome) then Some(Hit(entry.outcome, None))
      else if entry.stored then Some(Hit(entry.outcome, Some(entry.trace)))
      else None
  }

  /** The latest insert into a slot is also the latest one for its key. */
  lemma {:induction false} LastIsLatest<K, R, T>(slot: K -> nat, log: seq<Insertion<K, R, T>>, b: nat)
    requires Last(slot, log, b).Some?
    ensures exists i :: 0 <= i < |log| && log[i] == Last(slot, log, b).value && slot(log[i].key) == b
                        && forall j :: i < j < |log| ==> slot(log[j].key) != b
    decreases |log|
  {
    var n := |log| - 1;
    if slot(log[n].key) == b {
      assert log[n] == Last(slot, log, b).value;
    } else {
      var rest := log[..n];
      LastIsLatest(slot, rest, b);
      var i :| 0 <= i < |rest| && rest[i] == Last(slot, rest, b).value && slot(rest[i].key) == b
               && forall j :: i < j < |rest| ==> slot(rest[j].key) != b;
      assert log[i] == Last(slot, log, b).value;
      forall j | i < j < |log|
        ensures slot(log[j].key) != b
      {
        assert j < n ==> log[j] == rest[j];
      }
    }
  }

  /** No stale answer: a hit repeats the most recent insert made for its key since the last
      reset, and its trace is of the same insert. */
  lemma AnswerIsFresh<K, R, T>(slot: K -> nat, traced: K -> bool, log: seq<Insertion<K, R, T>>, key: K)
    requires Answer(slot, traced, log, key).Some?
    ensures exists i :: 0 <= i < |log| && log[i].key == key
                        && (forall j :: i < j < |log| ==> log[j].key != key)
                        && Answer(slot, traced, log, key).value.outcome == log[i].outcome
                        && (Answer(slot, traced, log, key).value.trace.Some? ==>
                            Answer(slot, traced, log, key).value.trace.value == log[i].trace)
  {
    LastIsLatest(slot, log, slot(key));
    var i :| 0 <= i < |log| && log[i] == Last(slot, log, slot(key)).value && slot(log[i].key) == slot(key)
             && forall j :: i < j < |log| ==> slot(log[j].key) != slot(key);
    assert log[i].key == key;
  }

  class Cache<K(==, !new), R(!new), T(!new)> {
    const slot: K -> nat
    const traced: K -> bool
    const keys: array<K>
    const outcomes: array<Outcome<R>>
    const epochs: array<nat>
    var cold: array?<T>
    var coldEpochs: array?<nat>
    var epoch: nat
    ghost var log: seq<Insertion<K, R, T>>

    ghost predicate Separate()
      reads this
    {
      && (keys as object) != outcomes && (keys as object) != epochs && (outcomes as object) != epochs
      && (cold != null ==> (cold as object) !in {keys as object, outcomes, epochs})
      && (coldEpochs != null ==> (coldEpochs as object) !in {keys as object, outcomes, epochs})
      && (cold != null && coldEpochs != null ==> (cold as object) != coldEpochs)
    }

    /** A slot in use in this epoch holds the key and outcome of the last insert into it, and
        its cold stamp is current exactly if the trace of that insert was kept. */
    ghost predicate SlotOk(b: nat)
      reads this, keys, outcomes, epochs, cold, coldEpochs
      requires keys.Length == outcomes.Length == epochs.Length && b < keys.Length
      requires (cold == null <==> coldEpochs == null) &&
                (cold != null ==> cold.Length == coldEpochs.Length == keys.Length)
    {
      var entry := Last(slot, log, b);
      && (epochs[b] == epoch <==> entry.Some?)
      && (entry.Some? ==>
            && keys[b] == entry.value.key && outcomes[b] == entry.value.outcome
            && (cold == null ==> !(NeedsTrace(traced, entry.value.key, entry.value.outcome) && entry.value.stored))
            && (cold != null ==>
                  && (coldEpochs[b] == epoch <==>
                      NeedsTrace(traced, entry.value.key, entry.value.outcome) && entry.value.stored)
                  && (coldEpochs[b] == epoch ==> cold[b] == entry.value.trace)))
    }

    ghost predicate Valid()
      reads this, keys, outcomes, epochs, cold, coldEpochs
    {
      && 0 < keys.Length == outcomes.Length == epochs.Length && Separate()
      && (cold == null <==> coldEpochs == null) && (cold != null ==> cold.Length == coldEpochs.Length == keys.Length)
      && (forall k :: slot(k) < keys.Length)
      && 0 < epoch <= MAX_EPOCH
      && (forall b :: 0 <= b < epochs.Length ==> epochs[b] <= epoch)
      && (forall b: nat :: b < keys.Length ==> SlotOk(b))
    }

    constructor (slot: K -> nat, traced: K -> bool, capacity: nat, blankKey: K, blankState: R)
      requires capacity > 0 && forall k :: slot(k) < capacity
      ensures Valid() && log == [] && this.slot == slot && this.traced == traced
    {
      this.slot, this.traced := slot, traced;
      keys := new K[capacity](i => blankKey);
      outcomes := new Outcome<R>[capacity](i => Placed(blankState));
      epochs := new nat[capacity](i => 0);
      cold, coldEpochs, epoch, log := null, null, 1, [];
    }

    method Lookup(key: K) returns (hit: Option<Hit<R, T>>)
      requires Valid()
      ensures hit == Answer(slot, traced, log, key)
    {
      var b := slot(key);
      assert SlotOk(b);
      if epochs[b] != epoch || keys[b] != key {
        return None;
      }
      if !NeedsTrace(traced, key, outcomes[b]) {
        return Some(Hit(outcomes[b], None));
      }
      if cold == null || coldEpochs == null || coldEpochs[b] != epoch {
        return None;
      }
      return Some(Hit(outcomes[b], Some(cold[b])));
    }

    /** A new epoch forgets every entry. When the 32-bit epoch wraps only the hot stamps are
        cleared; a cold stamp is never read without a current hot one. */
    method AdvanceEpoch()
      requires Valid()
      modifies this`epoch, this`log, epochs
      ensures Valid() && log == []
      ensures epoch == if old(epoch) == MAX_EPOCH then 1 else old(epoch) + 1
    {
      epoch := (epoch + 1) % (MAX_EPOCH + 1);
      log := [];
      if epoch == 0 {
        forall b | 0 <= b < epochs.Length {
          epochs[b] := 0;
        }
        epoch := 1;
      }
    }

    /** Allocates the cold sidecar with all stamps zero, if there is room. */
    method EnsureCold(roomy: bool, blank: T) returns (present: bool)
      requires Valid()
      modifies this`cold, this`coldEpochs
      ensures Valid() && log == old(log) && (present <==> cold != null) && (roomy ==> present)
      ensures (cold == old(cold) && coldEpochs == old(coldEpochs)) ||
                (old(cold) == null && fresh(cold) && fresh(coldEpochs))
    {
      if cold != null {
        return true;
      }
      if !roomy {
        return false;
      }
      ghost var before := log;
      var traces := new T[keys.Length](i => blank);
      var stamps := new nat[keys.Length](i => 0);
      cold, coldEpochs := traces, stamps;
      forall b: nat | b < keys.Length
        ensures SlotOk(b)
      {
        assert old(SlotOk(b));
      }
      return true;
    }

    /** Overwrites the slot of the key. Incomplete or fatal results are not kept. Every insert
        settles the cold stamp of its slot as well, so old traces cannot reappear. */
    method Insert(key: K, outcome: Option<Outcome<R>>, trace: T, roomy: bool) returns (ghost stored: bool)
      requires Valid()
      modifies this`cold, this`coldEpochs, this`log, keys, outcomes, epochs, cold, coldEpochs
      ensures Valid() && epoch == old(epoch)
      ensures log == if outcome.None? then old(log) else old(log) + [Insertion(key, outcome.value, trace, stored)]
      ensures roomy && outcome.Some? && NeedsTrace(traced, key, outcome.value) ==> stored
      ensures (cold == old(cold) && coldEpochs == old(coldEpochs)) ||
                (old(cold) == null && fresh(cold) && fresh(coldEpochs))
    {
      stored := false;
      if outcome.None? {
        return;
      }
      var present := false;
      if NeedsTrace(traced, key, outcome.value) {
        present := EnsureCold(roomy, trace);
      }
      stored := present;
      Write(slot(key), key, outcome.value, trace, present);
    }

    method Write(b: nat, key: K, outcome: Outcome<R>, trace: T, present: bool)
      requires Valid() && b == slot(key)
      requires present ==> cold != null && NeedsTrace(traced, key, outcome)
      modifies this`log, keys, outcomes, epochs, cold, coldEpochs
      ensures Valid()
      ensures log == old(log) + [Insertion(key, outcome, trace, present)]
    {
      ghost var before := log;
      keys[b] := key;
      outcomes[b] := outcome;
      if present {
        cold[b] := trace;
        coldEpochs[b] := epoch;
      } else if coldEpochs != null {
        coldEpochs[b] := 0;
      }
      epochs[b] := epoch;
      log := log + [Insertion(key, outcome, trace, present)];
      assert log[..|log| - 1] == before;
      forall c: nat | c < keys.Length
        ensures SlotOk(c)
      {
        assert old(SlotOk(c));
      }
    }

    /** Between problems: either the entries stay or a new epoch begins. */
    method Prepare(reset: bool)
      requires Valid()
      modifies this`epoch, this`log, epochs
      ensures Valid() && log == if reset then [] else old(log)
    {
      if reset {
        AdvanceEpoch();
      }
    }
  }
}
