/** The hold automaton over a concrete queue and its incremental bag bookkeeping. */
module HoldQueue {
  import opened Options
  import opened Folding
  import opened Nibbles

  const BAG: nat := 7

  /** A queue of pieces 1 to 7; the reader holds at most 64 of them. */
  ghost predicate IsQueue(queue: seq<nat>) {
    |queue| <= 64 && forall i :: 0 <= i < |queue| ==> 1 <= queue[i] <= 7
  }

  // ------------------------------------------------------------------
  // What is left of the current bag
  // ------------------------------------------------------------------

  /** How many of a piece stand at positions `low` to `high` of the queue. */
  function CountIn(queue: seq<nat>, low: nat, high: nat, piece: nat): nat
    decreases high - low
  {
    if low >= high || low >= |queue| then 0
    else (if queue[low] == piece then 1 else 0) + CountIn(queue, low + 1, high, piece)
  }

  /** The first position of the next bag, in 16 bits as the code computes it. */
  function BagEnd(cursor: nat): nat {
    (cursor / BAG + 1) * BAG % 0x1_0000
  }

  /** The counts of the pieces left in the bag at `cursor`. */
  function Left(queue: seq<nat>, cursor: nat): (counts: seq<nat>)
    ensures |counts| == 8
  {
    seq(8, p requires 0 <= p < 8 => CountIn(queue, cursor, BagEnd(cursor), p))
  }

  function Key(queue: seq<nat>, cursor: nat): nat {
    Pack(Left(queue, cursor))
  }

  lemma {:induction false} CountBound(queue: seq<nat>, low: nat, high: nat, piece: nat)
    ensures CountIn(queue, low, high, piece) <= if low <= high then high - low else 0
    decreases high - low
  {
    if low < high && low < |queue| {
      CountBound(queue, low + 1, high, piece);
    }
  }

  lemma {:induction false} CountPastEnd(queue: seq<nat>, low: nat, high: nat, piece: nat)
    requires |queue| <= low
    ensures CountIn(queue, low, high, piece) == 0
  {
  }

  lemma BagEndIsNear(cursor: nat)
    requires cursor < 64
    ensures cursor < BagEnd(cursor) <= cursor + BAG
    ensures (cursor + 1) % BAG != 0 ==> BagEnd(cursor + 1) == BagEnd(cursor) && (cursor + 1) / BAG == cursor / BAG
  {
  }

  /** Fields never overflow: a bag holds at most seven of a piece. */
  lemma LeftFits(queue: seq<nat>, cursor: nat)
    requires IsQueue(queue)
    ensures Fit(Left(queue, cursor))
  {
    forall p | 0 <= p < 8
      ensures Left(queue, cursor)[p] < 16
    {
      if cursor < |queue| {
        BagEndIsNear(cursor);
        CountBound(queue, cursor, BagEnd(cursor), p);
      } else {
        CountPastEnd(queue, cursor, BagEnd(cursor), p);
      }
    }
  }

  // ------------------------------------------------------------------
  // Recomputing from the queue
  // ------------------------------------------------------------------

  /** Adds one piece to a key unless it is no piece. */
  function KeyWithPiece(key: nat, piece: nat): nat {
    if piece > 7 then key else key + Pow16(piece)
  }

  ghost function LeftUntil(queue: seq<nat>, low: nat, high: nat): (counts: seq<nat>)
    ensures |counts| == 8
  {
    seq(8, p requires 0 <= p < 8 => CountIn(queue, low, high, p))
  }

  lemma {:induction false} CountExtends(queue: seq<nat>, low: nat, high: nat, piece: nat)
    requires low <= high < |queue|
    ensures CountIn(queue, low, high + 1, piece) == CountIn(queue, low, high, piece) +
              (if queue[high] == piece then 1 else 0)
    decreases high - low
  {
    if low < high {
      CountExtends(queue, low + 1, high, piece);
    }
  }

  lemma {:induction false} CountStops(queue: seq<nat>, low: nat, high: nat, more: nat, piece: nat)
    requires low <= high <= more && |queue| <= high
    ensures CountIn(queue, low, more, piece) == CountIn(queue, low, high, piece)
    decreases high - low
  {
    if low < high && low < |queue| {
      CountStops(queue, low + 1, high, more, piece);
    }
  }

  lemma KeyExtends(queue: seq<nat>, low: nat, high: nat)
    requires IsQueue(queue) && low <= high < |queue|
    ensures Pack(LeftUntil(queue, low, high + 1)) == Pack(LeftUntil(queue, low, high)) + Pow16(queue[high])
  {
    var before, after := LeftUntil(queue, low, high), LeftUntil(queue, low, high + 1);
    forall p | 0 <= p < 8
      ensures after[p] == before[p] + (if p == queue[high] then 1 else 0)
    {
      CountExtends(queue, low, high, p);
    }
    assert after == before[queue[high] := before[queue[high]] + 1];
    PackAddUnit(before, queue[high]);
  }

  /** Reads the rest of the bag from the queue. */
  method RefreshBag(queue: seq<nat>, cursor: nat) returns (epoch: nat, key: nat)
    requires IsQueue(queue)
    ensures epoch == cursor / BAG && key == Key(queue, cursor)
  {
    epoch, key := cursor / BAG, 0;
    var end := BagEnd(cursor);
    var position := cursor;
    assert forall p :: 0 <= p < 8 ==> LeftUntil(queue, cursor, cursor)[p] == 0;
    PackZeros(LeftUntil(queue, cursor, cursor));
    while position < end
      invariant cursor <= position && (position <= end || position == cursor)
      invariant key == Pack(LeftUntil(queue, cursor, position))
    {
      if position >= |queue| {
        forall p | 0 <= p < 8
          ensures LeftUntil(queue, cursor, position)[p] == Left(queue, cursor)[p]
        {
          CountStops(queue, cursor, position, end, p);
        }
        assert LeftUntil(queue, cursor, position) == Left(queue, cursor);
        return;
      }
      KeyExtends(queue, cursor, position);
      key := KeyWithPiece(key, queue[position]);
      position := position + 1;
    }
    if position == end {
      assert LeftUntil(queue, cursor, position) == Left(queue, cursor);
    } else {
      assert forall p :: 0 <= p < 8 ==> LeftUntil(queue, cursor, position)[p] == Left(queue, cursor)[p];
      assert LeftUntil(queue, cursor, position) == Left(queue, cursor);
    }
  }

  // ------------------------------------------------------------------
  // Taking pieces out
  // ------------------------------------------------------------------

  function TakePiece(key: nat, piece: nat): Option<nat> {
    if piece < 1 || piece > 7 || Nibble(key, piece) == 0 then None
    else NibbleMeansLarge(key, piece); Some(key - Pow16(piece))
  }

  /** From the exact key the next piece can be taken, and unless the bag ends the result is
      the exact key one position on. */
  lemma TakeIsExact(queue: seq<nat>, cursor: nat)
    requires IsQueue(queue) && cursor < |queue|
    ensures TakePiece(Key(queue, cursor), queue[cursor]).Some?
    ensures (cursor + 1) % BAG != 0 ==> TakePiece(Key(queue, cursor), queue[cursor]).value == Key(queue, cursor + 1)
  {
    var piece := queue[cursor];
    var counts := Left(queue, cursor);
    LeftFits(queue, cursor);
    NibbleOfPack(counts, piece);
    BagEndIsNear(cursor);
    assert counts[piece] == 1 + CountIn(queue, cursor + 1, BagEnd(cursor), piece);
    var rest := counts[piece := counts[piece] - 1];
    PackAddUnit(rest, piece);
    assert rest[piece := rest[piece] + 1] == counts;
    if (cursor + 1) % BAG != 0 {
      assert forall p :: 0 <= p < 8 ==> Left(queue, cursor + 1)[p] == rest[p];
      assert Left(queue, cursor + 1) == rest;
    }
  }

  lemma TakeFromZero(piece: nat)
    requires 1 <= piece <= 7
    ensures TakePiece(0, piece) == None
  {
    ZeroNibble(piece);
  }

  /** Epoch and key of the bag. */
  type Bag = (nat, nat)

  function Recomputed(queue: seq<nat>, cursor: nat): Bag {
    (cursor / BAG, Key(queue, cursor))
  }

  /** Takes the piece at `position` out of the bag, which is read again from the queue if the
      piece is not in it, or if this piece was the last of its bag. */
  function TakeNext(queue: seq<nat>, position: nat, bag: Bag): Option<Bag>
    requires position < |queue|
  {
    var piece := queue[position];
    var usable := if TakePiece(bag.1, piece).Some? then bag else Recomputed(queue, position);
    match TakePiece(usable.1, piece)
    case None => None
    case Some(key) => Some(if (position + 1) % BAG == 0 then Recomputed(queue, position + 1) else (usable.0, key))
  }

  function TakeMany(queue: seq<nat>, position: nat, bag: Bag, draws: nat): Option<Bag>
    requires position + draws <= |queue|
    decreases draws
  {
    if draws == 0 then Some(bag)
    else
      match TakeNext(queue, position, bag)
      case None => None
      case Some(next) => TakeMany(queue, position + 1, next, draws - 1)
  }

  /** The incremental update after some draws; a stale epoch is recomputed first. */
  function Consumed(queue: seq<nat>, cursor: nat, bag: Bag, draws: nat): Option<Bag>
    requires cursor + draws <= |queue|
  {
    TakeMany(queue, cursor, if bag.0 != cursor / BAG then Recomputed(queue, cursor) else bag, draws)
  }

  lemma TakeNextIsExact(queue: seq<nat>, position: nat, bag: Bag)
    requires IsQueue(queue) && position < |queue| && bag.0 == position / BAG
    requires bag.1 == Key(queue, position) || bag.1 == 0
    ensures TakeNext(queue, position, bag) == Some(Recomputed(queue, position + 1))
  {
    TakeIsExact(queue, position);
    TakeFromZero(queue[position]);
    BagEndIsNear(position);
  }

  lemma {:induction false} TakeManyIsExact(queue: seq<nat>, position: nat, draws: nat)
    requires IsQueue(queue) && position + draws <= |queue|
    ensures TakeMany(queue, position, Recomputed(queue, position), draws) == Some(Recomputed(queue, position + draws))
    decreases draws
  {
    if draws != 0 {
      TakeNextIsExact(queue, position, Recomputed(queue, position));
      TakeManyIsExact(queue, position + 1, draws - 1);
    }
  }

  /** From an exact key, a zero key or a stale epoch the incremental update gives what a
      recomputation at the new cursor gives, across the ends of bags and of the queue. */
  lemma ConsumedIsExact(queue: seq<nat>, cursor: nat, bag: Bag, draws: nat)
    requires IsQueue(queue) && 1 <= draws && cursor + draws <= |queue|
    requires bag.0 != cursor / BAG || bag.1 == Key(queue, cursor) || bag.1 == 0
    ensures Consumed(queue, cursor, bag, draws) == Some(Recomputed(queue, cursor + draws))
  {
    var start := if bag.0 != cursor / BAG then Recomputed(queue, cursor) else bag;
    TakeNextIsExact(queue, cursor, start);
    TakeManyIsExact(queue, cursor + 1, draws - 1);
  }

  /** A draw from inside the queue always succeeds: a piece that a wrong key lacks is found
      when the bag is read again. */
  lemma {:induction false} TakeManySucceeds(queue: seq<nat>, position: nat, bag: Bag, draws: nat)
    requires IsQueue(queue) && position + draws <= |queue|
    ensures TakeMany(queue, position, bag, draws).Some?
    decreases draws
  {
    if draws != 0 {
      TakeIsExact(queue, position);
      TakeManySucceeds(queue, position + 1, TakeNext(queue, position, bag).value, draws - 1);
    }
  }

  /** The update that follows a draw of one or two pieces, from whatever key. */
  method ConsumeBag(queue: seq<nat>, cursor: nat, bag: Bag, draws: nat) returns (result: Option<Bag>)
    requires IsQueue(queue) && 1 <= draws <= 2 && cursor + draws <= |queue|
    ensures result == Consumed(queue, cursor, bag, draws) && result.Some?
  {
    TakeManySucceeds(
      queue, cursor, if bag.0 != cursor / BAG then Recomputed(queue, cursor) else bag, draws);
    var epoch, key := bag.0, bag.1;
    var position := cursor;
    if epoch != position / BAG {
      epoch, key := RefreshBag(queue, position);
    }
    for index := 0 to draws
      invariant position == cursor + index
      invariant TakeMany(queue, position, (epoch, key), draws - index) == Consumed(queue, cursor, bag, draws)
    {
      var taken := TakePiece(key, queue[position]);
      if taken.None? {
        epoch, key := RefreshBag(queue, position);
        taken := TakePiece(key, queue[position]);
        if taken.None? {
          return None;
        }
      }
      key := taken.value;
      position := position + 1;
      if position % BAG == 0 {
        epoch, key := RefreshBag(queue, position);
      }
    }
    return Some((epoch, key));
  }

  // ------------------------------------------------------------------
  // Hold branches
  // ------------------------------------------------------------------

  datatype Hold = Hold(cursor: nat, piece: nat, empty: bool, epoch: nat, key: nat, released: bool)

  datatype Kind = Current | SwapHeld | StoreCurrent | ReleaseHeld

  datatype Branch = Branch(state: Hold, kind: Kind)

  /** `releases` lets the held piece be played once after the end of the queue. */
  datatype Config = Config(queue: seq<nat>, holds: bool, releases: bool)

  ghost predicate ExactBag(queue: seq<nat>, s: Hold) {
    s.epoch == s.cursor / BAG && s.key == Key(queue, s.cursor)
  }

  /** The bookkeeping a step may start from. */
  ghost predicate UsableBag(queue: seq<nat>, s: Hold) {
    s.epoch != s.cursor / BAG || s.key == Key(queue, s.cursor) || s.key == 0
  }

  /** The branch that draws pieces, with its bag updated incrementally. */
  function Drawn(
    queue: seq<nat>, s: Hold, draws: nat, piece: nat, empty: bool, kind: Kind): (branches: seq<Branch>)
    requires s.cursor + draws <= |queue|
    ensures forall b :: b in branches ==> b.kind == kind && b.state.cursor == s.cursor + draws
    ensures forall b :: b in branches ==> b.state.piece == piece && b.state.empty == empty
  {
    match Consumed(queue, s.cursor, (s.epoch, s.key), draws)
    case None => []
    case Some(bag) => [Branch(Hold(s.cursor + draws, piece, empty, bag.0, bag.1, s.released), kind)]
  }

  /** Playing the current piece. */
  function CurrentWays(c: Config, s: Hold, piece: nat): seq<Branch> {
    if s.cursor < |c.queue| && c.queue[s.cursor] == piece then Drawn(c.queue, s, 1, s.piece, s.empty, Current) else []
  }

  /** Playing the held piece in exchange for the current one, the next one while the current
      one is stored, or at the very end the held one alone. */
  function HoldWays(c: Config, s: Hold, last: bool, piece: nat): seq<Branch> {
    var has := s.cursor < |c.queue|;
    if !c.holds then []
    else if !s.empty then
      if has && s.piece == piece then Drawn(c.queue, s, 1, c.queue[s.cursor], false, SwapHeld)
      else if !has && last && c.releases && !s.released && s.cursor == |c.queue| && s.piece == piece
      then [Branch(s.(piece := 0, empty := true, released := true), ReleaseHeld)]
      else []
    else if has && s.cursor + 1 < |c.queue| && c.queue[s.cursor + 1] == piece
    then Drawn(c.queue, s, 2, c.queue[s.cursor], false, StoreCurrent)
    else []
  }

  /** Every way to play a given piece next. */
  function Ways(c: Config, s: Hold, last: bool, piece: nat): seq<Branch> {
    CurrentWays(c, s, piece) + HoldWays(c, s, last, piece)
  }

  type Table = t: seq<seq<Branch>> | |t| == 8 witness [[], [], [], [], [], [], [], []]

  /** Appends the branch of one transition to its piece, with the bag updated in place. */
  method AppendBranch(
      c: Config, s: Hold, draws: nat, used: nat, piece: nat, empty: bool, kind: Kind, table: Table)
    returns (next: Table)
    requires IsQueue(c.queue) && 1 <= draws <= 2 && s.cursor + draws <= |c.queue| && used < 8
    ensures next == table[used := table[used] + Drawn(c.queue, s, draws, piece, empty, kind)]
  {
    var bag := ConsumeBag(c.queue, s.cursor, (s.epoch, s.key), draws);
    // The code fails when the update does; it never does.
    var state := Hold(s.cursor + draws, piece, empty, bag.value.0, bag.value.1, s.released);
    next := table[used := table[used] + [Branch(state, kind)]];
  }

  /** Adds the branches that involve the hold; an invalid held piece is an error. */
  method AddHoldBranches(c: Config, s: Hold, wanted: set<nat>, last: bool, table: Table)
    returns (ok: bool, next: Table)
    requires IsQueue(c.queue)
    ensures ok <==> (c.holds && !s.empty ==> 1 <= s.piece <= 7)
    ensures ok ==> forall p: nat :: p < 8 ==>
              next[p] == table[p] + if p in wanted then HoldWays(c, s, last, p) else []
  {
    next := table;
    if !c.holds {
      return true, next;
    }
    var has := s.cursor < |c.queue|;
    if !s.empty {
      if s.piece < 1 || s.piece > 7 {
        return false, next;
      }
      if has {
        if s.piece in wanted {
          next := AppendBranch(c, s, 1, s.piece, c.queue[s.cursor], false, SwapHeld, next);
        }
      } else if last && c.releases && !s.released && s.cursor == |c.queue| && s.piece in wanted {
        var released := Branch(s.(piece := 0, empty := true, released := true), ReleaseHeld);
        next := next[s.piece := next[s.piece] + [released]];
      }
      return true, next;
    }
    if has && s.cursor + 1 < |c.queue| && c.queue[s.cursor + 1] in wanted {
      next := AppendBranch(c, s, 2, c.queue[s.cursor + 1], c.queue[s.cursor], false, StoreCurrent, next);
    }
    return true, next;
  }

  /** The table of branches for the wanted pieces. What it holds for a wanted piece does not
      depend on which other pieces are wanted. */
  method EnumerateBranches(c: Config, s: Hold, wanted: set<nat>, last: bool) returns (ok: bool, table: Table)
    requires IsQueue(c.queue)
    ensures ok <==> (c.holds && !s.empty ==> 1 <= s.piece <= 7)
    ensures ok ==> forall p: nat :: p < 8 ==> table[p] == if p in wanted then Ways(c, s, last, p) else []
  {
    table := [[], [], [], [], [], [], [], []];
    if s.cursor < |c.queue| && c.queue[s.cursor] in wanted {
      table := AppendBranch(c, s, 1, c.queue[s.cursor], s.piece, s.empty, Current, table);
    }
    assert forall p: nat :: p < 8 ==> table[p] == if p in wanted then CurrentWays(c, s, p) else [];
    ok, table := AddHoldBranches(c, s, wanted, last, table);
  }

  /** From a usable bag every branch that draws has an exact one. */
  lemma BranchesKeepTheBag(c: Config, s: Hold, last: bool, piece: nat, k: nat)
    requires IsQueue(c.queue) && k < |Ways(c, s, last, piece)| && UsableBag(c.queue, s)
    ensures var next := Ways(c, s, last, piece)[k].state;
            if Ways(c, s, last, piece)[k].kind == ReleaseHeld
            then next.cursor == s.cursor && next.epoch == s.epoch && next.key == s.key
            else ExactBag(c.queue, next)
  {
    var early, late := CurrentWays(c, s, piece), HoldWays(c, s, last, piece);
    if k < |early| {
      DrawnIsExact(c.queue, s, 1, s.piece, s.empty, Current);
      assert Ways(c, s, last, piece)[k] == early[k];
    } else {
      HoldWaysKeepTheBag(c, s, last, piece, k - |early|);
      assert Ways(c, s, last, piece)[k] == late[k - |early|];
    }
  }

  lemma DrawnIsExact(queue: seq<nat>, s: Hold, draws: nat, piece: nat, empty: bool, kind: Kind)
    requires IsQueue(queue) && UsableBag(queue, s) && 1 <= draws && s.cursor + draws <= |queue|
    ensures forall k :: 0 <= k < |Drawn(queue, s, draws, piece, empty, kind)| ==>
              ExactBag(queue, Drawn(queue, s, draws, piece, empty, kind)[k].state) &&
              Drawn(queue, s, draws, piece, empty, kind)[k].kind == kind
  {
    ConsumedIsExact(queue, s.cursor, (s.epoch, s.key), draws);
  }

  lemma HoldWaysKeepTheBag(c: Config, s: Hold, last: bool, piece: nat, k: nat)
    requires IsQueue(c.queue) && k < |HoldWays(c, s, last, piece)| && UsableBag(c.queue, s)
    ensures var way := HoldWays(c, s, last, piece)[k];
            if way.kind == ReleaseHeld
            then way.state.cursor == s.cursor && way.state.epoch == s.epoch && way.state.key == s.key
            else ExactBag(c.queue, way.state)
  {
    if s.cursor < |c.queue| {
      DrawnIsExact(c.queue, s, 1, c.queue[s.cursor], false, SwapHeld);
      if s.cursor + 1 < |c.queue| {
        DrawnIsExact(c.queue, s, 2, c.queue[s.cursor], false, StoreCurrent);
      }
    }
  }

  ghost function Held(s: Hold): multiset<nat> {
    if s.empty then multiset{} else multiset{s.piece}
  }

  /** What each kind of branch does to the cursor and the held piece. */
  ghost predicate Plays(queue: seq<nat>, s: Hold, next: Hold, kind: Kind, piece: nat) {
    match kind
    case Current => s.cursor < |queue| && queue[s.cursor] == piece && next.cursor == s.cursor + 1 &&
        Held(next) == Held(s)
    case SwapHeld => s.cursor < |queue| && Held(s) == multiset{piece} && next.cursor == s.cursor + 1 &&
        Held(next) == multiset{queue[s.cursor]}
    case StoreCurrent => s.cursor + 1 < |queue| && queue[s.cursor + 1] == piece && s.empty &&
        next.cursor == s.cursor + 2 && Held(next) == multiset{queue[s.cursor]}
    case ReleaseHeld => s.cursor == |queue| && Held(s) == multiset{piece} && next.cursor == s.cursor && next.empty
  }

  lemma WaysPlay(c: Config, s: Hold, last: bool, piece: nat, k: nat)
    requires k < |Ways(c, s, last, piece)|
    ensures Plays(c.queue, s, Ways(c, s, last, piece)[k].state, Ways(c, s, last, piece)[k].kind, piece)
  {
  }

  /** No piece is lost or made up: what is played and held is what was held and drawn. */
  lemma PlaysConservePieces(queue: seq<nat>, s: Hold, next: Hold, kind: Kind, piece: nat)
    requires Plays(queue, s, next, kind, piece)
    ensures s.cursor <= next.cursor <= |queue|
    ensures multiset{piece} + Held(next) == Held(s) + multiset(queue[s.cursor..next.cursor])
  {
    match kind {
      case Current =>
        DrawOne(queue, s.cursor);
      case SwapHeld =>
        DrawOne(queue, s.cursor);
      case StoreCurrent =>
        DrawTwo(queue, s.cursor);
      case ReleaseHeld =>
        assert queue[s.cursor..s.cursor] == [];
    }
  }

  lemma DrawOne(queue: seq<nat>, cursor: nat)
    requires cursor < |queue|
    ensures multiset(queue[cursor..cursor + 1]) == multiset{queue[cursor]}
  {
    assert queue[cursor..cursor + 1] == [queue[cursor]];
  }

  lemma DrawTwo(queue: seq<nat>, cursor: nat)
    requires cursor + 1 < |queue|
    ensures multiset(queue[cursor..cursor + 2]) == multiset{queue[cursor], queue[cursor + 1]}
  {
    assert queue[cursor..cursor + 2] == [queue[cursor], queue[cursor + 1]];
  }

  /** One branch after the other, playing the given pieces. */
  ghost predicate IsRun(c: Config, states: seq<Hold>, pieces: seq<nat>) {
    |states| == |pieces| + 1 && forall i :: 0 <= i < |pieces| ==> IsStep(c, states[i], states[i + 1], pieces[i])
  }

  ghost predicate IsStep(c: Config, s: Hold, next: Hold, piece: nat) {
    forall u: nat {:trigger Unfold(u)} :: Unfold(u) ==>
      exists last, k :: 0 <= k < |Ways(c, s, last, piece)| && Ways(c, s, last, piece)[k].state == next
  }

  lemma StepKeepsTheBag(c: Config, s: Hold, next: Hold, piece: nat)
    requires IsQueue(c.queue) && IsStep(c, s, next, piece) && UsableBag(c.queue, s)
    ensures s.cursor <= next.cursor
    ensures ExactBag(c.queue, next) || (next.cursor == s.cursor && next.epoch == s.epoch && next.key == s.key)
  {
    assert Unfold(0);
    var last, k :| 0 <= k < |Ways(c, s, last, piece)| && Ways(c, s, last, piece)[k].state == next;
    BranchesKeepTheBag(c, s, last, piece, k);
    WaysPlay(c, s, last, piece, k);
  }

  /** Along every run from a usable bag, such as the zero key that a problem starts with, the
      incrementally updated bag is what a recomputation would give from the first draw on. */
  lemma {:induction false} RunsKeepTheBag(c: Config, states: seq<Hold>, pieces: seq<nat>, i: nat)
    requires IsQueue(c.queue) && IsRun(c, states, pieces) && i < |states| && UsableBag(c.queue, states[0])
    ensures UsableBag(c.queue, states[i]) && states[0].cursor <= states[i].cursor
    ensures ExactBag(c.queue, states[i]) || (states[i].cursor == states[0].cursor && !ExactBag(c.queue, states[0]))
    decreases i
  {
    if i != 0 {
      RunsKeepTheBag(c, states, pieces, i - 1);
      var j := i - 1;
      assert IsStep(c, states[j], states[j + 1], pieces[j]);
      StepKeepsTheBag(c, states[j], states[i], pieces[j]);
    }
  }

  ghost predicate Conserves(queue: seq<nat>, s: Hold, next: Hold, played: multiset<nat>) {
    && s.cursor <= next.cursor <= |queue|
    && played + Held(next) == Held(s) + multiset(queue[s.cursor..next.cursor])
  }

  lemma StepConserves(c: Config, s: Hold, next: Hold, piece: nat)
    requires IsStep(c, s, next, piece)
    ensures Conserves(c.queue, s, next, multiset{piece})
  {
    assert Unfold(0);
    var last, k :| 0 <= k < |Ways(c, s, last, piece)| && Ways(c, s, last, piece)[k].state == next;
    WaysPlay(c, s, last, piece, k);
    PlaysConservePieces(c.queue, s, next, Ways(c, s, last, piece)[k].kind, piece);
  }

  lemma ConservesTwice(queue: seq<nat>, a: Hold, b: Hold, d: Hold, early: multiset<nat>, late: multiset<nat>)
    requires Conserves(queue, a, b, early) && Conserves(queue, b, d, late)
    ensures Conserves(queue, a, d, early + late)
  {
    var x, y := queue[a.cursor..b.cursor], queue[b.cursor..d.cursor];
    assert queue[a.cursor..d.cursor] == x + y;
    assert (early + late) + Held(d) == early + (late + Held(d));
    assert early + (Held(b) + multiset(y)) == (early + Held(b)) + multiset(y);
    assert (Held(a) + multiset(x)) + multiset(y) == Held(a) + multiset(x + y);
  }

  lemma RunShrinks(c: Config, states: seq<Hold>, pieces: seq<nat>)
    requires IsRun(c, states, pieces) && pieces != []
    ensures var n := |pieces|;
            IsRun(c, states[..n], pieces[..n - 1]) && IsStep(c, states[n - 1], states[n], pieces[n - 1])
  {
    var n := |pieces|;
    assert IsStep(c, states[n - 1], states[n - 1 + 1], pieces[n - 1]);
  }

  lemma RunConservesMore(queue: seq<nat>, first: Hold, s: Hold, next: Hold, pieces: seq<nat>)
    requires pieces != [] && Conserves(queue, first, s, multiset(pieces[..|pieces| - 1]))
    requires Conserves(queue, s, next, multiset{pieces[|pieces| - 1]})
    ensures Conserves(queue, first, next, multiset(pieces))
  {
    var n := |pieces|;
    ConservesTwice(queue, first, s, next, multiset(pieces[..n - 1]), multiset{pieces[n - 1]});
    assert pieces == pieces[..n - 1] + [pieces[n - 1]];
  }

  /** Along every run no piece is lost or made up: what has been played and is held is what
      was held at the start and has been drawn since. */
  lemma {:induction false} RunsConservePieces(c: Config, states: seq<Hold>, pieces: seq<nat>)
    requires IsRun(c, states, pieces) && states[0].cursor <= |c.queue|
    ensures Conserves(c.queue, states[0], states[|pieces|], multiset(pieces))
    decreases |pieces|
  {
    var n := |pieces|;
    if n == 0 {
      assert c.queue[states[0].cursor..states[0].cursor] == [];
    } else {
      RunShrinks(c, states, pieces);
      RunsConservePieces(c, states[..n], pieces[..n - 1]);
      StepConserves(c, states[n - 1], states[n], pieces[n - 1]);
      RunConservesMore(c.queue, states[0], states[n - 1], states[n], pieces);
    }
  }

  // ------------------------------------------------------------------
  // Checking a queue against the bags
  // ------------------------------------------------------------------

  /** Every piece is one of the seven and no bag repeats a piece. */
  ghost predicate FollowsBags(queue: seq<nat>, limit: nat) {
    && (forall i :: 0 <= i < limit && i < |queue| ==> 1 <= queue[i] <= 7)
    && (forall i, j :: 0 <= i < j < limit && j < |queue| && i / BAG == j / BAG ==> queue[i] != queue[j])
  }

  /** The pieces of the bag of `position` that stand before it. */
  ghost predicate SeenBefore(queue: seq<nat>, position: nat, epoch: nat, seen: set<nat>) {
    forall p :: p in seen <==> exists i :: 0 <= i < position && i < |queue| && i / BAG == epoch && queue[i] == p
  }

  /** Whether a queue drawn from bags keeps to them; an empty one does not count. */
  method VerifyBagPattern(queue: seq<nat>) returns (ok: bool)
    ensures ok <==> queue != [] && FollowsBags(queue, |queue|)
  {
    if queue == [] {
      return false;
    }
    var seen: set<nat> := {};
    var epoch: nat := 0;
    for index := 0 to |queue|
      invariant FollowsBags(queue, index) && SeenBefore(queue, index, epoch, seen)
      invariant epoch <= index / BAG && (index > 0 ==> epoch == (index - 1) / BAG)
    {
      if index / BAG != epoch {
        seen, epoch := {}, index / BAG;
        BagsAscend(index);
      }
      var piece := queue[index];
      if piece < 1 || piece > 7 || piece in seen {
        return false;
      }
      seen := seen + {piece};
    }
    return true;
  }

  lemma BagsAscend(index: nat)
    ensures forall i :: 0 <= i < index ==> i / BAG <= index / BAG
    ensures index > 0 && (index - 1) / BAG != index / BAG ==> forall i :: 0 <= i < index ==> i / BAG < index / BAG
  {
    forall i | 0 <= i < index
      ensures i / BAG <= (index - 1) / BAG <= index / BAG
    {
    }
  }
}
