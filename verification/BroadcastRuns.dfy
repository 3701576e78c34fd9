/**
  What the delays of the broadcast tracker mean for whole series of control messages
  (internal/std-t86/decoder/broadcast.go).
  */
module BroadcastRuns {
  import opened Broadcast
  import opened Words

  datatype Event = Event(pos: int, m: Message)

  /** Positions never go back. */
  predicate Ascending(run: seq<Event>, from: int) {
    && (forall i | 0 <= i < |run| :: from <= run[i].pos)
    && (forall i, j | 0 <= i < j < |run| :: run[i].pos <= run[j].pos)
  }

  /** A message with a verified channel header. */
  predicate Heard(m: Message) { m.crcOk && m.header.Some? }

  predicate Announces(m: Message) { m.header.Some? && m.header.value.broadcasting && m.header.value.usedSlots > 0 }

  /** Neither a start nor a release. */
  predicate Passive(m: Message) { m.kind != 0x22 && m.kind != 0x23 && m.kind != 0x30 }

  /** Event `i` is the first with a verified header. */
  ghost predicate First(run: seq<Event>, i: nat) {
    i < |run| && Heard(run[i].m) && forall k | 0 <= k < i :: !Heard(run[k].m)
  }

  /** Event `j` is the first with a verified header at least `delay` after the first verified header `i`. */
  ghost predicate Due(run: seq<Event>, i: nat, j: nat, delay: int) {
    && First(run, i) && i <= j < |run| && Heard(run[j].m) && run[j].pos - run[i].pos >= delay
    && forall k | i <= k < j && Heard(run[k].m) :: run[k].pos - run[i].pos < delay
  }

  ghost predicate NoneDue(run: seq<Event>, n: nat, delay: int) {
    forall i: nat, j: nat | j < n :: !Due(run, i, j, delay)
  }

  /** At most one event is due. */
  lemma DueOnce(run: seq<Event>, i: nat, j: nat, i2: nat, j2: nat, delay: int)
    requires Due(run, i, j, delay) && Due(run, i2, j2, delay)
    ensures i == i2 && j == j2
  {
  }

  /** The first verified header among `n` events came at `at`, or none did. */
  ghost predicate FirstAt(run: seq<Event>, n: nat, at: int) {
    if at < 0 then forall k | 0 <= k < n < |run| + 1 :: !Heard(run[k].m)
    else exists i: nat | i < n :: First(run, i) && run[i].pos == at
  }

  /** One more event. */
  lemma FirstAtStep(run: seq<Event>, n: nat, at: int, delay: int)
    requires n < |run| && Ascending(run, 0) && delay > 0 && FirstAt(run, n, at) && NoneDue(run, n, delay)
    ensures at < 0 && Heard(run[n].m) ==> FirstAt(run, n + 1, run[n].pos)
    ensures at >= 0 || !Heard(run[n].m) ==> FirstAt(run, n + 1, at)
    ensures !Heard(run[n].m) || at < 0 || run[n].pos - at < delay ==> NoneDue(run, n + 1, delay)
    ensures Heard(run[n].m) && at >= 0 && run[n].pos - at >= delay ==> exists i: nat :: Due(run, i, n, delay)
  {
    if at < 0 {
      if Heard(run[n].m) {
        assert First(run, n);
      }
      forall i: nat
        ensures !Due(run, i, n, delay)
      {
        if i == n { assert run[i].pos - run[n].pos < delay; }
      }
    } else {
      var i: nat :| i < n && First(run, i) && run[i].pos == at;
      forall i2: nat | Due(run, i2, n, delay)
        ensures Heard(run[n].m) && run[n].pos - at >= delay
      {
        assert i2 == i;
      }
      if Heard(run[n].m) && run[n].pos - at >= delay {
        forall k | i <= k < n && Heard(run[k].m)
          ensures run[k].pos - at < delay
        {
          if run[k].pos - at >= delay {
            FirstOf(run, i, k, delay);
          }
        }
        assert Due(run, i, n, delay);
      }
    }
  }

  /** If some event is late enough, one of them is the first. */
  lemma {:induction false} FirstOf(run: seq<Event>, i: nat, k: nat, delay: int)
    requires First(run, i) && i <= k < |run| && Heard(run[k].m) && run[k].pos - run[i].pos >= delay
    ensures exists j: nat | j <= k :: Due(run, i, j, delay)
  {
    if m :| i <= m < k && Heard(run[m].m) && run[m].pos - run[i].pos >= delay {
      FirstOf(run, i, m, delay);
    } else {
      assert Due(run, i, k, delay);
    }
  }

  lemma NothingYet(run: seq<Event>, delay: int)
    ensures FirstAt(run, 0, -1) && NoneDue(run, 0, delay)
  {
  }

  /** An event that is due is the only one. */
  lemma DueIs(run: seq<Event>, i: nat, j: nat, delay: int)
    requires Due(run, i, j, delay)
    ensures j < |run| && forall i2: nat, j2: nat | Due(run, i2, j2, delay) :: i2 == i && j2 == j
    ensures !NoneDue(run, |run|, delay)
  {
    forall i2: nat, j2: nat | Due(run, i2, j2, delay)
      ensures i2 == i && j2 == j
    {
      DueOnce(run, i, j, i2, j2, delay);
    }
  }

  /**
    While every verified header says that nothing is broadcast, the open window closes at the first one
    that comes at least 270000 samples after the first of them, and not before.
    */
  method IdleRun(t: BroadcastTracker, run: seq<Event>) returns (w: BroadcastWindow)
    requires t.Valid() && t.open != null && t.khZeroAt == -1 && t.khCloseDelay == 270_000
    requires Ascending(run, t.mark) && Ascending(run, 0)
    requires forall e | e in run :: Passive(e.m) && (Heard(e.m) ==> !e.m.header.value.broadcasting)
    modifies t`mark, t`idValidBits, t`khSeen, t`khOnPos, t`nextID, t`all, t`open, t`recent
    modifies t`khZeroAt, t`midJoin, t`spans, t`hist, t`targetUpdated
    modifies t.open
    ensures t.Valid() && w == old(t.open) && t.all == old(t.all)
    ensures forall i: nat, j: nat | Due(run, i, j, 270_000) ::
      t.open == null && w.closed && w.closePos == run[j].pos && w.closedByKH
    ensures NoneDue(run, |run|, 270_000) ==> t.open == w && !w.closed
  {
    hide BroadcastTracker.Valid, Reports, Ids, StillOpen, Over, Due, FirstAt, NoneDue, First;
    w := t.open;
    t.OpenFrom();
    NothingYet(run, 270_000);
    var n := 0;
    while n < |run|
      invariant 0 <= n <= |run| && t.Valid() && (n < |run| ==> t.mark <= run[n].pos)
      invariant t.all == old(t.all) && (t.open == null || t.open == w)
      invariant t.open == w ==> !w.closed && FirstAt(run, n, t.khZeroAt) && NoneDue(run, n, 270_000)
      invariant t.open == null ==> w.closed && w.closedByKH
      invariant t.open == null ==> exists i: nat, j: nat | j < n :: Due(run, i, j, 270_000) && w.closePos == run[j].pos
    {
      var e := run[n];
      assert e in run;
      if t.open != null {
        FirstAtStep(run, n, t.khZeroAt, 270_000);
      }
      var changed := t.OnControl(e.pos, e.m);
      n := n + 1;
    }
    forall i: nat, j: nat | Due(run, i, j, 270_000)
      ensures j < |run| && t.open == null && w.closePos == run[j].pos
    {
      DueIs(run, i, j, 270_000);
    }
    if t.open == null {
      ghost var i: nat, j: nat :| Due(run, i, j, 270_000) && j < n && w.closePos == run[j].pos;
      DueIs(run, i, j, 270_000);
    }
  }

  /** Every verified header among the first `n` events announces a broadcast. */
  ghost predicate AllAnnounce(run: seq<Event>, n: nat) {
    forall k | 0 <= k < n <= |run| && Heard(run[k].m) :: Announces(run[k].m)
  }

  /** The series makes a late join due at event `j`: it announces a broadcast from its first header `i` on. */
  ghost predicate LateAt(run: seq<Event>, i: nat, j: nat, delay: int) {
    Due(run, i, j, delay) && AllAnnounce(run, j + 1)
  }

  /** No late join among `n` events; one is still possible if `hope`. */
  ghost predicate NotJoined(run: seq<Event>, n: nat, at: int, hope: bool, delay: int) {
    && FirstAt(run, n, at)
    && (hope <==> at >= 0 && AllAnnounce(run, n))
    && (hope ==> NoneDue(run, n, delay))
    && forall i: nat, j: nat | j < n :: !LateAt(run, i, j, delay)
  }

  lemma AnnounceStep(run: seq<Event>, n: nat)
    requires n < |run|
    ensures AllAnnounce(run, n + 1) <==> AllAnnounce(run, n) && (Heard(run[n].m) ==> Announces(run[n].m))
  {
  }

  lemma LateStep(run: seq<Event>, n: nat, at: int, hope: bool, delay: int)
    requires n < |run| && Ascending(run, 0) && delay > 0 && NotJoined(run, n, at, hope, delay)
    ensures !Heard(run[n].m) ==> NotJoined(run, n + 1, at, hope, delay)
    ensures Heard(run[n].m) && at < 0 ==> NotJoined(run, n + 1, run[n].pos, Announces(run[n].m), delay)
    ensures Heard(run[n].m) && at >= 0 && !(hope && Announces(run[n].m) && run[n].pos - at >= delay) ==>
      NotJoined(run, n + 1, at, hope && Announces(run[n].m), delay)
    ensures Heard(run[n].m) && hope && Announces(run[n].m) && run[n].pos - at >= delay ==>
      LatePlace(run, n + 1, at, delay)
  {
    if Heard(run[n].m) && hope && Announces(run[n].m) && run[n].pos - at >= delay {
      FirstAtStep(run, n, at, delay);
      var i: nat :| Due(run, i, n, delay);
      AnnounceStep(run, n);
      assert LateAt(run, i, n, delay) && run[i].pos == at;
    }
  }

  lemma Unarmed(t: BroadcastTracker)
    requires t.Valid() && !t.khSeen
    ensures !t.midJoin
  {
  }

  lemma NoHope(run: seq<Event>, delay: int)
    ensures NotJoined(run, 0, -1, false, delay)
  {
    NothingYet(run, delay);
  }

  /** Some late join among `n` events starts at `from`. */
  ghost predicate LatePlace(run: seq<Event>, n: nat, from: int, delay: int) {
    exists i: nat, j: nat | i <= j < n <= |run| :: LateAt(run, i, j, delay) && run[i].pos == from
  }

  lemma LatePlaceStays(run: seq<Event>, n: nat, from: int, delay: int)
    requires n < |run| && LatePlace(run, n, from, delay)
    ensures LatePlace(run, n + 1, from, delay)
  {
  }

  lemma SomeLate(run: seq<Event>, n: nat, from: int, delay: int)
    requires LatePlace(run, n, from, delay)
    ensures exists i: nat, j: nat :: LateAt(run, i, j, delay)
  {
    var i: nat, j: nat :| i <= j < n <= |run| && LateAt(run, i, j, delay) && run[i].pos == from;
  }

  lemma LateDecides(run: seq<Event>, i: nat, j: nat, at: int, hope: bool, delay: int)
    requires LateAt(run, i, j, delay)
    ensures i < |run| && !NotJoined(run, |run|, at, hope, delay)
    ensures forall from | LatePlace(run, |run|, from, delay) :: from == run[i].pos
  {
    forall i2: nat, j2: nat | LateAt(run, i2, j2, delay)
      ensures i2 == i
    {
      LateOnce(run, i, j, i2, j2, delay);
    }
  }

  /** A late join happens once. */
  lemma LateOnce(run: seq<Event>, i: nat, j: nat, i2: nat, j2: nat, delay: int)
    requires LateAt(run, i, j, delay) && LateAt(run, i2, j2, delay)
    ensures j < |run| && i == i2 && j == j2
  {
    DueOnce(run, i, j, i2, j2, delay);
  }

  /**
    A receiver that starts in the middle of a broadcast: at the first verified header that comes at least
    135000 samples after the very first one, if all of them announce a broadcast, a window is opened that
    starts at the very first one.  No other window is opened without a start.
    */
  method LateRun(t: BroadcastTracker, run: seq<Event>)
    requires t.Valid() && t.open == null && !t.khSeen && t.midJoinDelay == 135_000
    requires Ascending(run, t.mark) && Ascending(run, 0) && forall e | e in run :: Passive(e.m)
    modifies t`mark, t`idValidBits, t`khSeen, t`khOnPos, t`nextID, t`all, t`open, t`recent
    modifies t`khZeroAt, t`midJoin, t`spans, t`hist, t`targetUpdated
    ensures t.Valid()
    ensures forall i: nat, j: nat | LateAt(run, i, j, 135_000) ::
      && |t.all| == |old(t.all)| + 1 && old(t.all) < t.all
      && t.all[|old(t.all)|].midJoin && t.all[|old(t.all)|].openPos == run[i].pos
    ensures (forall i: nat, j: nat :: !LateAt(run, i, j, 135_000)) ==> t.all == old(t.all)
  {
    hide BroadcastTracker.Valid, Reports, Ids, StillOpen, Over, LateAt, NotJoined, LatePlace;
    NoHope(run, 135_000);
    Unarmed(t);
    var n := 0;
    ghost var at := -1;
    while n < |run|
      invariant 0 <= n <= |run| && t.Valid() && (n < |run| ==> t.mark <= run[n].pos)
      invariant t.khSeen == (at >= 0) && (at >= 0 ==> t.khOnPos == at) && (t.midJoin ==> at >= 0)
      invariant t.all == old(t.all) ==> t.open == null && NotJoined(run, n, at, at >= 0 && t.midJoin, 135_000)
      invariant t.all != old(t.all) ==>
        t.khSeen && !t.midJoin && |t.all| == |old(t.all)| + 1 && old(t.all) < t.all && t.all[|old(t.all)|].midJoin
      invariant t.all != old(t.all) ==> LatePlace(run, n, t.all[|old(t.all)|].openPos, 135_000)
      invariant t.open == null || fresh(t.open)
    {
      var e := run[n];
      assert e in run;
      if t.all == old(t.all) {
        LateStep(run, n, at, at >= 0 && t.midJoin, 135_000);
      } else {
        LatePlaceStays(run, n, t.all[|old(t.all)|].openPos, 135_000);
      }
      var changed := t.OnControl(e.pos, e.m);
      if at < 0 && Heard(e.m) { at := e.pos; }
      n := n + 1;
    }
    forall i: nat, j: nat | LateAt(run, i, j, 135_000)
      ensures i < |run| && t.all != old(t.all) && t.all[|old(t.all)|].openPos == run[i].pos
    {
      LateDecides(run, i, j, at, at >= 0 && t.midJoin, 135_000);
    }
    if t.all != old(t.all) {
      SomeLate(run, |run|, t.all[|old(t.all)|].openPos, 135_000);
    }
  }

  // ---------------------------------------------------------------- messages with a bad CRC

  predicate Sorted(h: seq<int>) { forall i, j | 0 <= i < j < |h| :: h[i] <= h[j] }

  /** What is kept of ascending positions are those not older than the window. */
  lemma {:induction false} FreshIsRecent(h: seq<int>, pos: int, window: int)
    requires Sorted(h)
    ensures |Fresh(h, pos, window)| <= |h| && Fresh(h, pos, window) == h[|h| - |Fresh(h, pos, window)|..]
    ensures forall i | 0 <= i < |h| :: pos - h[i] <= window <==> i >= |h| - |Fresh(h, pos, window)|
  {
    if h != [] && pos - h[0] > window {
      FreshIsRecent(h[1..], pos, window);
      assert forall i | 1 <= i < |h| :: h[i] == h[1..][i - 1];
    }
  }

  /**
    A message with a bad CRC counts exactly if the tracker is not strict and the previous one of its kind
    came at most 180000 samples before.
    */
  lemma SecondSighting(t: BroadcastTracker, pos: int, m: Message)
    requires t.confirmCount == 2 && t.confirmWindow == 180_000 && !m.crcOk
    requires m.kind in t.hist ==> Sorted(t.hist[m.kind] + [pos])
    ensures t.Confirms(pos, m) <==>
      !t.strict && m.kind in t.hist && t.hist[m.kind] != []
      && pos - t.hist[m.kind][|t.hist[m.kind]| - 1] <= 180_000
  {
    var h := if m.kind in t.hist then t.hist[m.kind] else [];
    var all := h + [pos];
    FreshIsRecent(all, pos, 180_000);
    assert t.Sightings(pos, m) == Fresh(all, pos, 180_000);
    if h != [] {
      assert all[|all| - 2] == h[|h| - 1];
    }
  }

  // ---------------------------------------------------------------- whom a broadcast addresses

  /** The low `v` bits of a station number all have the value `b`. */
  ghost predicate LowBitsAre(id: nat, v: nat, b: Bit) { forall j: nat | j < v :: BitAt(id, j) == b }

  lemma LowBitsStep(x: nat, n: nat, b: Bit)
    requires n > 0
    ensures LowBitsAre(x, n, b) <==> x % 2 == b && LowBitsAre(x / 2, n - 1, b)
  {
    if LowBitsAre(x, n, b) {
      assert BitAt(x, 0) == b;
      forall j: nat | j < n - 1
        ensures BitAt(x / 2, j) == b
      {
        assert BitAt(x, j + 1) == b;
      }
    }
    if x % 2 == b && LowBitsAre(x / 2, n - 1, b) {
      forall j: nat | j < n
        ensures BitAt(x, j) == b
      {
        if j > 0 { assert BitAt(x / 2, j - 1) == b; }
      }
    }
  }

  lemma {:induction false} LowBitsDecide(id: nat, v: nat)
    ensures id % Pow2(v) == 0 <==> LowBitsAre(id, v, 0)
    ensures id % Pow2(v) == Pow2(v) - 1 <==> LowBitsAre(id, v, 1)
  {
    if v > 0 {
      hide LowBitsAre;
      LowBitsDecide(id / 2, v - 1);
      LowBitsStep(id, v, 0);
      LowBitsStep(id, v, 1);
      MaskedHalf(id, Pow2(v - 1));
    }
  }

  /** All stations are addressed by numbers whose valid bits are zeros, and perhaps all by ones; the other bits do not matter. */
  lemma TargetMeaning(m: Message, validBits: int)
    requires m.call.Some?
    ensures var v: nat := if validBits > 0 then validBits else 16;
      var c, t := m.call.value, TargetOf(m, validBits).value;
      && (t.kind == NoStation <==> !c.n1 && !c.n2)
      && (t.kind == AllStations <==> (c.n1 || c.n2) && (c.n1 ==> LowBitsAre(c.id1, v, 0)) && (c.n2 ==> LowBitsAre(c.id2, v, 0)))
      && (t.perhapsAll <==> (c.n1 || c.n2) && (c.n1 ==> LowBitsAre(c.id1, v, 1)) && (c.n2 ==> LowBitsAre(c.id2, v, 1)))
      && t.validBits == validBits && t.callNo == c.callNo
  {
    hide LowBitsAre, Pow2;
    var v: nat := if validBits > 0 then validBits else 16;
    var c := m.call.value;
    LowBitsDecide(c.id1, v);
    LowBitsDecide(c.id2, v);
    assert AllAre(Effective(CallIDs(c), NumberLimit(validBits)), 0)
      <==> (c.n1 ==> LowBitsAre(c.id1, v, 0)) && (c.n2 ==> LowBitsAre(c.id2, v, 0)) by {
      UsedNumbers(c, NumberLimit(validBits), 0);
    }
    UsedNumbers(c, NumberLimit(validBits), NumberLimit(validBits) - 1);
  }

  lemma UsedNumbers(c: Call, limit: nat, x: nat)
    requires limit > 0
    ensures AllAre(Effective(CallIDs(c), limit), x) <==> (c.n1 ==> c.id1 % limit == x) && (c.n2 ==> c.id2 % limit == x)
  {
    var e := Effective(CallIDs(c), limit);
    if c.n1 { assert e[0] == c.id1 % limit; }
    if c.n2 { assert e[|e| - 1] == c.id2 % limit; }
  }
}
