/**
  Broadcast windows: the stretches of the stream that belong to one broadcast
  (internal/std-t86/decoder/broadcast.go).
  */
module Broadcast {
  import opened Words

  const BROADCAST_START := 0x22
  const DELAYED_START := 0x23
  const FORCED_RELEASE := 0x30
  const BCCH_INFO := 0x10
  const KEEP := 16

  datatype Option<T> = None | Some(value: T)

  /** Whom a broadcast addresses: two station numbers, each with a flag that says whether it is in use. */
  datatype Call = Call(n1: bool, id1: nat, n2: bool, id2: nat, callNo: int)

  datatype TargetKind = NoStation | AllStations | Stations

  /** `perhapsAll` is the note on numbers of ones only; the label says kind and effective numbers again. */
  datatype Target = Target(kind: TargetKind, perhapsAll: bool, ids: seq<nat>, effectiveIDs: seq<nat>,
                           validBits: int, callNo: int)

  datatype Header = Header(broadcasting: bool, usedSlots: nat)

  /** The parts of a control message the tracker looks at; `fields` stands for the rest. */
  datatype Message = Message(kind: int, crcOk: bool, idValidBits: Option<int>, header: Option<Header>,
                             call: Option<Call>, fields: seq<nat>)

  function Max(a: int, b: int): int { if a > b then a else b }

  function GoodHeader(m: Message): Option<Header> { if m.crcOk then m.header else None }

  predicate IsStart(m: Message) { m.kind == BROADCAST_START || m.kind == DELAYED_START }

  // ---------------------------------------------------------------- targets

  function CallIDs(c: Call): seq<nat> {
    (if c.n1 then [c.id1] else []) + (if c.n2 then [c.id2] else [])
  }

  /** Numbers that differ only above the valid bits are the same number. */
  function NumberLimit(validBits: int): (r: nat)
    ensures r > 1
  {
    Pow2(if validBits > 0 then validBits else 16)
  }

  function Effective(ids: seq<nat>, limit: nat): (r: seq<nat>)
    requires limit > 0
    ensures |r| == |ids|
  {
    seq(|ids|, i requires 0 <= i < |ids| => ids[i] % limit)
  }

  predicate AllAre(s: seq<nat>, x: nat) { forall i | 0 <= i < |s| :: s[i] == x }

  lemma AllAreSnoc(s: seq<nat>, v: nat, x: nat)
    ensures AllAre(s + [v], x) == (AllAre(s, x) && v == x)
  {
    assert forall i | 0 <= i < |s| :: (s + [v])[i] == s[i];
    assert (s + [v])[|s|] == v;
  }

  lemma EffectiveSnoc(ids: seq<nat>, x: nat, limit: nat)
    requires limit > 0
    ensures Effective(ids + [x], limit) == Effective(ids, limit) + [x % limit]
  {
  }

  lemma NoNumbers(validBits: int)
    ensures Effective([], NumberLimit(validBits)) == [] && forall x :: AllAre([], x)
  {
    hide NumberLimit;
  }

  /** The target a message describes; all stations are addressed by zeros. */
  function TargetOf(m: Message, validBits: int): Option<Target> {
    if m.call == None then None
    else
      var ids := CallIDs(m.call.value);
      var limit := NumberLimit(validBits);
      var effective := Effective(ids, limit);
      var kind := if ids == [] then NoStation else if AllAre(effective, 0) then AllStations else Stations;
      Some(Target(kind, kind == Stations && AllAre(effective, limit - 1), ids, effective, validBits, m.call.value.callNo))
  }

  lemma TargetExists(m: Message, validBits: int)
    ensures TargetOf(m, validBits).Some? <==> m.call.Some?
  {
  }

  lemma TargetCall(m: Message, validBits: int)
    requires m.call.Some?
    ensures TargetOf(m, validBits).Some? && TargetOf(m, validBits).value.callNo == m.call.value.callNo
  {
  }

  method BroadcastTarget(m: Message, validBits: int) returns (r: Option<Target>)
    ensures r == TargetOf(m, validBits)
  {
    hide NumberLimit, Effective, AllAre;
    NoNumbers(validBits);
    if m.call == None { return None; }
    var ids := CallIDs(m.call.value);
    var limit := NumberLimit(validBits);
    var effective, allZero, allOnes := [], true, |ids| > 0;
    var i := 0;
    while i < |ids|
      invariant 0 <= i <= |ids| && effective == Effective(ids[..i], limit)
      invariant allZero == AllAre(effective, 0) && allOnes == (|ids| > 0 && AllAre(effective, limit - 1))
    {
      var v := ids[i] % limit;
      allZero, allOnes := allZero && v == 0, allOnes && v == limit - 1;
      AllAreSnoc(effective, v, 0);
      AllAreSnoc(effective, v, limit - 1);
      EffectiveSnoc(ids[..i], ids[i], limit);
      assert ids[..i + 1] == ids[..i] + [ids[i]];
      effective := effective + [v];
      i := i + 1;
    }
    assert ids[..i] == ids;
    var kind := if |ids| == 0 then NoStation else if allZero then AllStations else Stations;
    return Some(Target(kind, kind == Stations && allOnes, ids, effective, validBits, m.call.value.callNo));
  }

  // ---------------------------------------------------------------- windows

  class BroadcastWindow {
    const windowID: nat
    const openPos: int
    const midJoin: bool
    var closePos: int
    var closed: bool
    var target: Option<Target>
    var targetCrcOk: bool
    var closedByKH: bool
    var closedByNewCall: bool
    var abandoned: bool

    constructor (windowID: nat, openPos: int, midJoin: bool, target: Option<Target>, targetCrcOk: bool)
      ensures this.windowID == windowID && this.openPos == openPos && this.midJoin == midJoin
      ensures !closed && this.target == target && this.targetCrcOk == targetCrcOk
      ensures !closedByKH && !closedByNewCall && !abandoned
    {
      this.windowID, this.openPos, this.midJoin, this.target, this.targetCrcOk := windowID, openPos, midJoin, target, targetCrcOk;
      closePos, closed, closedByKH, closedByNewCall, abandoned := 0, false, false, false, false;
    }

    predicate Contains(pos: int)
      reads this
    {
      openPos <= pos && (!closed || pos < closePos)
    }
  }

  /** Positions of `h` that are not older than `window` before `pos`. */
  function Fresh(h: seq<int>, pos: int, window: int): seq<int> {
    if h != [] && pos - h[0] > window then Fresh(h[1..], pos, window) else h
  }

  // ---------------------------------------------------------------- intervals

  /** The stretch a window covers: up to `to` once it has ended. */
  datatype Span = Span(from: int, to: int, ended: bool)

  function View(w: BroadcastWindow): Span
    reads w
  {
    Span(w.openPos, w.closePos, w.closed)
  }

  /** Number of spans that have ended, if only the last may still be open. */
  function Ended(n: nat, isOpen: bool): int { if isOpen then n - 1 else n }

  /** Place of the oldest window that is kept. */
  function OldestKept(n: nat, isOpen: bool): int { Max(0, Ended(n, isOpen) - KEEP) }

  /** At most the last span is open; the others are well-formed, in order and disjoint, and none reaches beyond `mark`. */
  ghost predicate InOrder(s: seq<Span>, isOpen: bool, mark: int) {
    && (isOpen ==> |s| > 0 && !s[|s| - 1].ended && s[|s| - 1].from <= mark)
    && (forall i | 0 <= i < Ended(|s|, isOpen) :: s[i].ended && s[i].from <= s[i].to <= mark)
    && (forall i, j | 0 <= i < j < |s| :: s[i].to <= s[j].from)
  }

  /** No ended span reaches beyond `pos`. */
  ghost predicate EndedBy(s: seq<Span>, isOpen: bool, pos: int) {
    forall i | 0 <= i < Ended(|s|, isOpen) :: 0 <= i < |s| && s[i].to <= pos
  }

  lemma LaterMark(s: seq<Span>, isOpen: bool, mark: int, later: int)
    requires InOrder(s, isOpen, mark) && mark <= later
    ensures InOrder(s, isOpen, later) && EndedBy(s, isOpen, later)
  {
  }

  lemma Closes(s: seq<Span>, mark: int, pos: int)
    requires InOrder(s, true, mark) && s[|s| - 1].from <= pos
    ensures InOrder(s[|s| - 1 := Span(s[|s| - 1].from, pos, true)], false, Max(mark, pos))
  {
  }

  lemma Opens(s: seq<Span>, mark: int, pos: int, to: int)
    requires InOrder(s, false, mark) && EndedBy(s, false, pos) && pos <= mark
    ensures InOrder(s + [Span(pos, to, false)], true, mark)
  {
  }

  /** How often span `i` is opened or ended between `s0` and `s1`. */
  ghost function Changes(s0: seq<Span>, s1: seq<Span>, i: nat): nat
    requires i < |s1|
  {
    (if i < |s0| then 0 else 1) + (if s1[i].ended && (i < |s0| ==> !s0[i].ended) then 1 else 0)
  }

  /**
    From `s0` to `s1` the spans `ids` were opened or ended, each as often as it stands there, the
    latter at `pos`; ended spans never change.
    */
  ghost predicate Reports(s0: seq<Span>, s1: seq<Span>, ids: seq<int>, pos: int) {
    && |s0| <= |s1|
    && (forall i | i in ids :: 0 <= i < |s1| && (s1[i].ended ==> s1[i].to == pos))
    && (forall i: nat | i < |s1| :: multiset(ids)[i] == Changes(s0, s1, i))
    && (forall i: nat | |s0| <= i < |s1| :: s1[i].from <= pos)
    && (forall i | 0 <= i < |s0| :: (s0[i].ended ==> s1[i] == s0[i]) && s1[i].from == s0[i].from)
  }

  lemma ReportsNothing(s: seq<Span>, pos: int)
    ensures Reports(s, s, [], pos)
  {
  }

  lemma ReportsBoth(s0: seq<Span>, s1: seq<Span>, s2: seq<Span>, a: seq<int>, b: seq<int>, pos: int)
    requires Reports(s0, s1, a, pos) && Reports(s1, s2, b, pos)
    ensures Reports(s0, s2, a + b, pos)
  {
    forall i | i in a + b
      ensures 0 <= i < |s2| && (s2[i].ended ==> s2[i].to == pos)
    {
      if i in a && i !in b {
        assert multiset(b)[i] == Changes(s1, s2, i);
      }
    }
    forall i: nat | i < |s2|
      ensures multiset(a + b)[i] == Changes(s0, s2, i)
    {
      assert multiset(b)[i] == Changes(s1, s2, i);
      if i < |s1| {
        assert multiset(a)[i] == Changes(s0, s1, i);
      } else {
        assert i !in a;
      }
    }
  }

  lemma ReportsClosed(s: seq<Span>, pos: int, ids: seq<int>)
    requires |s| > 0 && !s[|s| - 1].ended && ids == [|s| - 1]
    ensures Reports(s, s[|s| - 1 := Span(s[|s| - 1].from, pos, true)], ids, pos)
  {
  }

  lemma ReportsOpened(s: seq<Span>, n: Span, pos: int, ids: seq<int>)
    requires !n.ended && n.from <= pos && ids == [|s|]
    ensures Reports(s, s + [n], ids, pos)
  {
  }

  lemma OpenedAtAny(s: seq<Span>, n: Span, ids: seq<int>)
    requires !n.ended && ids == [|s|]
    ensures forall pos | n.from <= pos :: Reports(s, s + [n], ids, pos)
  {
    hide Reports;
    forall pos | n.from <= pos
      ensures Reports(s, s + [n], ids, pos)
    {
      ReportsOpened(s, n, pos, ids);
    }
  }

  /** Places of windows in the list of all windows. */
  function Ids(w: seq<BroadcastWindow>): (r: seq<int>)
    ensures |r| == |w|
  {
    seq(|w|, i requires 0 <= i < |w| => w[i].windowID - 1)
  }

  lemma IdsBoth(a: seq<BroadcastWindow>, b: seq<BroadcastWindow>)
    ensures Ids(a + b) == Ids(a) + Ids(b)
  {
  }

  predicate ClosedAt(w: BroadcastWindow, pos: int)
    reads w
  {
    w.closed && w.closePos == pos
  }

  predicate LateFrom(w: BroadcastWindow, pos: int) { w.midJoin && w.openPos == pos }

  /** The windows of a list that are still open. */
  function StillOpen(w: seq<BroadcastWindow>): seq<BroadcastWindow>
    reads w
  {
    if w == [] then []
    else StillOpen(w[..|w| - 1]) + if w[|w| - 1].closed then [] else [w[|w| - 1]]
  }

  /** The windows of a list that have ended. */
  function Over(w: seq<BroadcastWindow>): seq<BroadcastWindow>
    reads w
  {
    if w == [] then []
    else Over(w[..|w| - 1]) + if w[|w| - 1].closed then [w[|w| - 1]] else []
  }

  lemma PartsOfTwo(w: seq<BroadcastWindow>)
    requires |w| <= 2
    ensures w == [] ==> StillOpen(w) == Over(w) == []
    ensures |w| == 1 ==> if w[0].closed then StillOpen(w) == [] && Over(w) == w else StillOpen(w) == w && Over(w) == []
    ensures |w| == 2 && w[0].closed ==>
      if w[1].closed then StillOpen(w) == [] && Over(w) == w else StillOpen(w) == [w[1]] && Over(w) == [w[0]]
  {
    hide StillOpen, Over;
    NoneOpen();
    if |w| > 0 {
      PartsSnoc([], w[0]);
      assert [] + [w[0]] == [w[0]];
      if |w| == 2 {
        PartsSnoc([w[0]], w[1]);
        assert w == [w[0]] + [w[1]];
      } else {
        assert w == [w[0]];
      }
    }
  }

  lemma NoneOpen()
    ensures StillOpen([]) == [] && Over([]) == []
  {
  }

  lemma PartsSnoc(w: seq<BroadcastWindow>, x: BroadcastWindow)
    ensures StillOpen(w + [x]) == StillOpen(w) + if x.closed then [] else [x]
    ensures Over(w + [x]) == Over(w) + if x.closed then [x] else []
  {
    assert (w + [x])[..|w|] == w;
  }

  lemma ShortLists(a: seq<BroadcastWindow>, b: seq<BroadcastWindow>)
    ensures a == [] ==> a + b == b
    ensures b == [] ==> a + b == a
    ensures |a| == |b| == 1 ==> a + b == [a[0], b[0]]
  {
  }

  /** Every entry of a list is open or over. */
  lemma {:induction false} PartsCount(w: seq<BroadcastWindow>)
    ensures multiset(Ids(StillOpen(w))) + multiset(Ids(Over(w))) == multiset(Ids(w))
    ensures multiset(StillOpen(w)) + multiset(Over(w)) == multiset(w)
    ensures forall x | x in StillOpen(w) :: x in w && !x.closed
    ensures forall x | x in Over(w) :: x in w && x.closed
  {
    hide Ids, StillOpen, Over;
    NoneOpen();
    if w == [] {
      assert Ids([]) == [];
    } else {
      var v, x := w[..|w| - 1], w[|w| - 1];
      PartsCount(v);
      assert w == v + [x];
      PartsSnoc(v, x);
      IdsBoth(v, [x]);
      if x.closed {
        assert StillOpen(w) == StillOpen(v);
        IdsBoth(Over(v), [x]);
      } else {
        assert Over(w) == Over(v);
        IdsBoth(StillOpen(v), [x]);
      }
    }
  }

  /** A step that may end the open window and then may open another one. */
  ghost predicate Outcome(ends: bool, begins: bool, before: BroadcastWindow?, after: BroadcastWindow?,
                          all0: seq<BroadcastWindow>, all1: seq<BroadcastWindow>, changed: seq<BroadcastWindow>) {
    && (ends ==> before != null) && (begins ==> after != null)
    && all1 == (if begins then all0 + [after] else all0)
    && changed == (if ends && begins then [before, after] else if ends then [before] else if begins then [after] else [])
    && (!begins ==> after == if ends then null else before)
  }

  /**
    The windows a message changes.  The header may join a broadcast late, which the message may also
    release; otherwise the open window may end, and a start may open another one.
    */
  ghost predicate Lists(joins: bool, begins: bool, ends: bool, releases: bool, before: BroadcastWindow?,
                        after: BroadcastWindow?,
                        all0: seq<BroadcastWindow>, all1: seq<BroadcastWindow>, changed: seq<BroadcastWindow>) {
    && |all1| == |all0| + (if joins || begins then 1 else 0) && all0 <= all1
    && (ends ==> before != null)
    && after == (if releases then null else if joins || begins then all1[|all0|] else if ends then null else before)
    && changed == (if joins then if releases then [all1[|all0|], all1[|all0|]] else [all1[|all0|]]
                   else if ends && begins then [before, all1[|all0|]]
                   else if ends then [before] else if begins then [all1[|all0|]] else [])
  }

  /** A header and a start or release, one after the other. */
  lemma Composed(joins: bool, idles: bool, starts: bool, releases: bool, newCall: bool, another: bool,
                 open0: BroadcastWindow?, open1: BroadcastWindow?, open2: BroadcastWindow?,
                 all0: seq<BroadcastWindow>, all1: seq<BroadcastWindow>, all2: seq<BroadcastWindow>,
                 a: seq<BroadcastWindow>, b: seq<BroadcastWindow>)
    requires Outcome(idles, joins, open0, open1, all0, all1, a) && (joins ==> open0 == null)
    requires Outcome(open1 != null && (newCall || releases), starts && (open1 == null || newCall), open1, open2, all1, all2, b)
    requires !(starts && releases) && (newCall ==> starts && open1 != null) && (joins ==> !newCall)
    requires another ==> starts && open0 != null
    requires !idles && !joins ==> newCall == another
    ensures var ends := open0 != null && (idles || another || releases);
      Lists(joins, starts && !joins && (open0 == null || ends), ends, releases, open0, open2, all0, all2, a + b)
  {
    ShortLists(a, b);
  }

  predicate Distinct(w: seq<BroadcastWindow>) { forall i, j | 0 <= i < j < |w| :: w[i] != w[j] }

  lemma ListsDistinct(joins: bool, begins: bool, ends: bool, releases: bool, before: BroadcastWindow?,
                      after: BroadcastWindow?,
                      all0: seq<BroadcastWindow>, all1: seq<BroadcastWindow>, changed: seq<BroadcastWindow>)
    requires Lists(joins, begins, ends, releases, before, after, all0, all1, changed)
    requires begins ==> !joins && before != all1[|all0|]
    ensures Distinct(changed) <==> !(joins && releases)
  {
    if joins && releases {
      assert changed[0] == changed[1];
    }
  }

  predicate Covers(s: Span, pos: int) { s.from <= pos && (!s.ended || pos < s.to) }

  /** No position lies in two spans. */
  lemma SpansDisjoint(s: seq<Span>, isOpen: bool, mark: int, i: nat, j: nat, pos: int)
    requires InOrder(s, isOpen, mark) && i < |s| && j < |s| && Covers(s[i], pos) && Covers(s[j], pos)
    ensures i == j
  {
  }

  // ---------------------------------------------------------------- the tracker

  class BroadcastTracker {
    var strict: bool
    var confirmWindow: int
    var confirmCount: int
    var idValidBits: int
    var midJoinDelay: int
    var khCloseDelay: int
    var targetUpdated: seq<BroadcastWindow>
    var open: BroadcastWindow?
    var recent: seq<BroadcastWindow>
    var nextID: nat
    var hist: map<int, seq<int>>
    var khSeen: bool
    var midJoin: bool
    var khOnPos: int
    var khZeroAt: int
    /** Every window ever opened, the stretches they cover, and the latest position seen. */
    ghost var all: seq<BroadcastWindow>
    ghost var spans: seq<Span>
    ghost var mark: int

    /** IDs count up from 1; the window still open, if any, is the last one; the last sixteen closed ones are kept. */
    ghost predicate Numbered()
      reads `nextID, `all, `open, `recent
    {
      && nextID == |all| + 1
      && (forall i | 0 <= i < |all| :: all[i].windowID == i + 1)
      && (open != null ==> |all| > 0 && open == all[|all| - 1])
      && recent == all[OldestKept(|all|, open != null)..Ended(|all|, open != null)]
    }

    ghost predicate Viewed()
      reads `spans, `all, all
    {
      |spans| == |all| && forall i | 0 <= i < |all| :: View(all[i]) == spans[i]
    }

    ghost predicate Ordered()
      reads `spans, `open, `mark, `midJoin, `khSeen, `khOnPos
    {
      && InOrder(spans, open != null, mark)
      && (midJoin ==> khSeen && khOnPos <= mark && EndedBy(spans, open != null, khOnPos))
    }

    ghost predicate Valid()
      reads this, all
    {
      Numbered() && Viewed() && Ordered()
    }

    constructor (ghost first: int)
      ensures Valid() && all == [] && spans == [] && mark == first && open == null && nextID == 1
      ensures !khSeen && khZeroAt == -1 && idValidBits == 0 && hist == map[] && targetUpdated == []
      ensures strict && confirmCount == 2 && midJoinDelay == 135_000 && khCloseDelay == 270_000
    {
      strict, confirmWindow, confirmCount, idValidBits := true, 180_000, 2, 0;
      midJoinDelay, khCloseDelay := 135_000, 270_000;
      targetUpdated, open, recent, nextID, hist := [], null, [], 1, map[];
      khSeen, midJoin, khOnPos, khZeroAt := false, false, 0, -1;
      all, spans, mark := [], [], first;
    }

    /** The recent sightings of a message's kind, with this one. */
    ghost function Sightings(pos: int, m: Message): seq<int>
      reads `hist, `confirmWindow
    {
      Fresh((if m.kind in hist then hist[m.kind] else []) + [pos], pos, confirmWindow)
    }

    /** A message counts if its CRC is good or, when not strict, if it came often enough lately. */
    ghost predicate Confirms(pos: int, m: Message)
      reads `hist, `confirmWindow, `confirmCount, `strict
    {
      m.crcOk || (!strict && |Sightings(pos, m)| >= confirmCount)
    }

    /** Sightings are kept only for messages that need them. */
    ghost function Remembered(pos: int, m: Message): map<int, seq<int>>
      reads `hist, `confirmWindow, `strict
    {
      if m.crcOk || strict || (!IsStart(m) && m.kind != FORCED_RELEASE) then hist else hist[m.kind := Sightings(pos, m)]
    }

    method Confirmed(pos: int, m: Message) returns (ok: bool)
      modifies `hist
      ensures ok == old(Confirms(pos, m))
      ensures hist == if m.crcOk || strict then old(hist) else old(hist)[m.kind := old(Sightings(pos, m))]
    {
      if m.crcOk { return true; }
      if strict { return false; }
      var h := (if m.kind in hist then hist[m.kind] else []) + [pos];
      ghost var whole := h;
      while |h| > 0 && pos - h[0] > confirmWindow
        invariant Fresh(h, pos, confirmWindow) == Fresh(whole, pos, confirmWindow)
        decreases |h|
      {
        h := h[1..];
      }
      hist := hist[m.kind := h];
      return |h| >= confirmCount;
    }

    /** Positions move on. */
    ghost method Advance(pos: int)
      requires Valid() && mark <= pos
      modifies `mark
      ensures Valid() && mark == pos && EndedBy(spans, open != null, pos) && spans == old(spans)
    {
      hide InOrder, EndedBy;
      LaterMark(spans, open != null, mark, pos);
      mark := pos;
    }

    /** Moves a closed window to the kept ones, dropping the oldest. */
    method Retain(w: BroadcastWindow)
      requires |all| > 0 && w == all[|all| - 1] && recent == all[Max(0, |all| - 1 - KEEP)..|all| - 1]
      modifies `recent
      ensures recent == all[Max(0, |all| - KEEP)..|all|]
    {
      CloseLast(all, recent);
      recent := recent + [w];
      if |recent| > KEEP {
        recent := recent[|recent| - KEEP..];
      }
    }

    method CloseOpen(pos: int) returns (w: BroadcastWindow)
      requires Valid() && open != null && open.openPos <= pos
      modifies `open, `recent, `khZeroAt, `midJoin, `spans, `mark, open`closed, open`closePos
      ensures Valid() && open == null && w == old(open) && mark == Max(old(mark), pos)
      ensures w in all && w.closed && w.closePos == pos && !midJoin && khZeroAt == -1
      ensures Reports(old(spans), spans, Ids([w]), pos)
    {
      hide InOrder, EndedBy, Reports;
      OpenFrom();
      ghost var n := |all| - 1;
      assert View(all[n]) == spans[n];
      Closes(spans, mark, pos);
      ReportsClosed(spans, pos, Ids([open]));
      w := open;
      Retain(w);
      w.closePos := pos;
      w.closed := true;
      open := null;
      khZeroAt := -1;
      midJoin := false;
      spans := spans[n := Span(w.openPos, pos, true)];
      mark := Max(mark, pos);
      assert Viewed();
    }

    /** Opens a window that starts at `openPos`. */
    method OpenWindow(openPos: int, late: bool, target: Option<Target>, crcOk: bool) returns (w: BroadcastWindow)
      requires Valid() && open == null && openPos <= mark && EndedBy(spans, false, openPos)
      modifies `open, `nextID, `all, `midJoin, `spans
      ensures Valid() && fresh(w) && open == w && all == old(all) + [w] && !midJoin
      ensures w.openPos == openPos && w.midJoin == late && w.target == target && w.targetCrcOk == crcOk && !w.closed
      ensures !w.closedByKH && !w.closedByNewCall && !w.abandoned
      ensures forall pos | openPos <= pos :: Reports(old(spans), spans, Ids([w]), pos)
    {
      hide InOrder, EndedBy, Reports;
      midJoin := false;
      w := new BroadcastWindow(nextID, openPos, late, target, crcOk);
      open := w;
      nextID := nextID + 1;
      Opens(spans, mark, openPos, w.closePos);
      PartOfMore(all, w, Max(0, |all| - KEEP));
      assert Ids([w]) == [|spans|];
      all := all + [w];
      assert Numbered();
      hide Numbered, Ids;
      OpenedAtAny(spans, View(w), Ids([w]));
      spans := spans + [View(w)];
      assert Viewed();
    }

    method ArmMidJoin()
      requires Valid()
      modifies `khSeen, `midJoin, `khZeroAt
      ensures Valid() && !khSeen && !midJoin && khZeroAt == -1
    {
      hide InOrder, EndedBy;
      khSeen, midJoin, khZeroAt := false, false, -1;
    }

    /** Closes the open window, if any, not before its own start; tracking starts afresh. */
    method Abandon(pos: int) returns (w: BroadcastWindow?)
      requires Valid()
      modifies `khSeen, `hist, `open, `recent, `khZeroAt, `midJoin, `spans, `mark, open
      ensures Valid() && open == null && w == old(open) && !khSeen && !midJoin && hist == map[]
      ensures w != null ==>
        w in all && w.closed && w.abandoned && w.closePos == Max(pos, w.openPos) && mark == Max(old(mark), w.closePos)
      ensures w == null ==> mark == old(mark) && spans == old(spans)
      ensures w != null ==> Reports(old(spans), spans, Ids([w]), w.closePos)
    {
      hide InOrder, EndedBy, Numbered, Viewed, Reports;
      ArmMidJoin();
      hist := map[];
      if open == null { return null; }
      var p := pos;
      if p < open.openPos {
        p := open.openPos;
      }
      OpenFrom();
      w := CloseOpen(p);
      MarkAbandoned(w);
    }

    method MarkAbandoned(w: BroadcastWindow)
      requires Valid()
      modifies w`abandoned
      ensures Valid() && w.abandoned
    {
      hide InOrder, EndedBy, Numbered;
      w.abandoned := true;
    }

    /** The message describes the target of a window whose description is not yet verified. */
    predicate Refreshes(m: Message)
      reads `open, open
    {
      open != null && !open.targetCrcOk && m.crcOk && m.call.Some?
    }

    /** What is known of the open window's target. */
    function Described(): Option<Target>
      reads `open, open
    {
      if open == null then None else open.target
    }

    /** A better description of the open window's target. */
    method RefreshTarget(m: Message)
      requires Valid()
      modifies `targetUpdated, open
      ensures Valid() && (open != null ==> open.closed == old(open.closed))
      ensures old(!Refreshes(m)) ==> targetUpdated == old(targetUpdated) && (open != null ==> unchanged(open))
      ensures old(Refreshes(m)) ==> (
        && open.target == TargetOf(m, idValidBits) && open.targetCrcOk
        && targetUpdated == old(targetUpdated) + if old(open.target) == open.target then [] else [open])
    {
      hide InOrder, EndedBy;
      if open == null || open.targetCrcOk || !m.crcOk { return; }
      var target := BroadcastTarget(m, idValidBits);
      if target == None { return; }
      if open.target != target {
        open.target := target;
        targetUpdated := targetUpdated + [open];
      }
      open.targetCrcOk := true;
    }

    /** The first header after arming; while it stays active a broadcast joined late is presumed. */
    ghost function Joining(h: Header): bool
      reads `khSeen, `midJoin
    {
      if khSeen then midJoin else Active(h)
    }

    ghost function Since(pos: int): int
      reads `khSeen, `khOnPos
    {
      if khSeen then khOnPos else pos
    }

    ghost predicate JoinsNow(pos: int, h: Header)
      reads `khSeen, `midJoin, `khOnPos, `open, `midJoinDelay
    {
      Active(h) && Joining(h) && open == null && pos - Since(pos) >= midJoinDelay
    }

    ghost predicate ClosesNow(pos: int, h: Header)
      reads `open, `khZeroAt, `khCloseDelay
    {
      !h.broadcasting && open != null && khZeroAt >= 0 && pos - khZeroAt >= khCloseDelay
    }

    /** Channel headers open a window late and close one that has been idle for long. */
    method OnKH(pos: int, h: Header) returns (changed: seq<BroadcastWindow>)
      requires Valid() && mark <= pos
      modifies `khSeen, `khOnPos, `nextID, `all, `open, `recent, `khZeroAt, `midJoin, `spans, `mark
      modifies open
      ensures Valid() && mark == pos && khSeen && khOnPos == old(Since(pos))
      ensures old(JoinsNow(pos, h)) ==> (
        && open != null && fresh(open) && changed == [open] && all == old(all) + [open]
        && open.midJoin && open.openPos == old(Since(pos)) && open.target == None && !open.targetCrcOk && !open.closed)
      ensures old(ClosesNow(pos, h)) ==> (
        && open == null && all == old(all) && changed == [old(open)]
        && old(open).closed && old(open).closePos == pos && old(open).closedByKH)
      ensures old(!JoinsNow(pos, h) && !ClosesNow(pos, h)) ==>
        changed == [] && open == old(open) && all == old(all) && (open != null ==> unchanged(open))
      ensures midJoin == (Active(h) && old(Joining(h)) && !old(JoinsNow(pos, h)))
      ensures khZeroAt == if h.broadcasting || old(open) == null || old(ClosesNow(pos, h)) then -1
                          else if old(khZeroAt) < 0 then pos else old(khZeroAt)
      ensures Reports(old(spans), spans, Ids(changed), pos) && forall w | w in changed :: w in all
    {
      hide InOrder, EndedBy, Numbered, Viewed, Reports;
      ReportsNothing(spans, pos);
      var active := h.broadcasting && h.usedSlots > 0;
      SeeHeader(pos, active);
      changed := [];
      if active {
        if midJoin && open == null && pos - khOnPos >= midJoinDelay {
          var w := OpenWindow(khOnPos, true, None, false);
          changed := changed + [w];
        }
      } else {
        midJoin := false;
      }
      if h.broadcasting {
        khZeroAt := -1;
        return;
      }
      var more := CheckIdle(pos);
      changed := changed + more;
    }

    /** The first header after arming fixes where a broadcast joined late began. */
    method SeeHeader(pos: int, active: bool)
      requires Valid() && mark <= pos
      modifies `khSeen, `midJoin, `khOnPos, `mark
      ensures Valid() && mark == pos && khSeen && spans == old(spans)
      ensures midJoin == (if old(khSeen) then old(midJoin) else active) && khOnPos == old(Since(pos))
    {
      hide InOrder, EndedBy, Numbered, Viewed;
      Advance(pos);
      if !khSeen {
        khSeen := true;
        midJoin := active;
        khOnPos := pos;
      }
    }

    /** No broadcast announced: the open window closes once that has lasted for the close delay. */
    method CheckIdle(pos: int) returns (changed: seq<BroadcastWindow>)
      requires Valid() && mark == pos
      modifies `open, `recent, `khZeroAt, `midJoin, `spans, `mark, open
      ensures Valid() && mark == pos
      ensures var closes := old(open != null && khZeroAt >= 0 && pos - khZeroAt >= khCloseDelay);
        && (closes ==> open == null && changed == [old(open)] && old(open).closed && old(open).closePos == pos
                       && old(open).closedByKH && !midJoin)
        && (!closes ==> changed == [] && open == old(open) && (open != null ==> unchanged(open)) && midJoin == old(midJoin))
        && khZeroAt == if old(open) == null || closes then -1 else if old(khZeroAt) < 0 then pos else old(khZeroAt)
      ensures all == old(all) && Reports(old(spans), spans, Ids(changed), pos) && forall w | w in changed :: w in all
    {
      hide InOrder, EndedBy, Numbered, Viewed, Reports;
      ReportsNothing(spans, pos);
      changed := [];
      if open == null {
        khZeroAt := -1;
        return;
      }
      if khZeroAt < 0 {
        khZeroAt := pos;
        return;
      }
      if pos - khZeroAt >= khCloseDelay {
        OpenFrom();
        var w := CloseOpen(pos);
        MarkClosed(w);
        changed := changed + [w];
      }
    }

    /** Records why a window was closed. */
    method MarkClosed(w: BroadcastWindow)
      requires Valid()
      modifies w`closedByKH
      ensures Valid() && w.closedByKH
    {
      hide InOrder, EndedBy, Numbered;
      w.closedByKH := true;
    }

    /** The open window starts no later than the latest position. */
    lemma OpenFrom()
      requires Valid()
      ensures open != null ==> open.openPos <= mark && !open.closed
    {
      if open != null {
        assert View(all[|all| - 1]) == spans[|all| - 1];
      }
    }

    /** A verified start with another call number than the open window's. */
    predicate NewCall(m: Message)
      reads `open, open
    {
      && IsStart(m) && open != null && m.crcOk && m.call.Some? && open.target.Some? && open.targetCrcOk
      && m.call.value.callNo != open.target.value.callNo
    }

    /** Opens and closes for a confirmed start or release. */
    method StartOrRelease(pos: int, m: Message) returns (changed: seq<BroadcastWindow>)
      requires Valid() && mark == pos && EndedBy(spans, open != null, pos) && (IsStart(m) || m.kind == FORCED_RELEASE)
      modifies `nextID, `all, `open, `recent, `khZeroAt, `midJoin, `spans, `mark
      modifies open
      ensures Valid() && mark == pos
      ensures IsStart(m) && (old(open) == null || old(NewCall(m))) ==> (
        && open != null && fresh(open) && all == old(all) + [open] && open.openPos == pos && !open.midJoin && !open.closed
        && open.target == TargetOf(m, idValidBits) && open.targetCrcOk == m.crcOk
        && (old(open) == null ==> changed == [open])
        && (old(open) != null ==> changed == [old(open), open])
        && (old(open) != null ==> old(open).closed && old(open).closePos == pos && old(open).closedByNewCall))
      ensures IsStart(m) && old(open) != null && !old(NewCall(m)) ==>
        changed == [] && open == old(open) && unchanged(open) && all == old(all)
      ensures m.kind == FORCED_RELEASE ==> open == null && all == old(all)
      ensures m.kind == FORCED_RELEASE && old(open) == null ==> changed == []
      ensures m.kind == FORCED_RELEASE && old(open) != null ==>
        changed == [old(open)] && old(open).closed && old(open).closePos == pos
      ensures Reports(old(spans), spans, Ids(changed), pos) && forall w | w in changed :: w in all
    {
      hide InOrder, EndedBy, Numbered, Viewed, Reports;
      changed := EndOther(pos, m);
      ghost var middle := spans;
      LaterMark(spans, open != null, mark, pos);
      var more := OpenOrClose(pos, m);
      ReportsBoth(old(spans), middle, spans, Ids(changed), Ids(more), pos);
      IdsBoth(changed, more);
      changed := changed + more;
    }

    /** A new call ends the window of the old one. */
    method EndOther(pos: int, m: Message) returns (changed: seq<BroadcastWindow>)
      requires Valid() && mark == pos
      modifies `open, `recent, `khZeroAt, `midJoin, `spans, `mark
      modifies open
      ensures Valid() && mark == pos && Reports(old(spans), spans, Ids(changed), pos) && forall w | w in changed :: w in all
      ensures old(NewCall(m)) ==> (
        open == null && changed == [old(open)] && old(open).closed && old(open).closePos == pos && old(open).closedByNewCall)
      ensures old(!NewCall(m)) ==> changed == [] && open == old(open) && (open != null ==> unchanged(open))
    {
      hide InOrder, EndedBy, Numbered, Viewed, Reports;
      OpenFrom();
      ReportsNothing(spans, pos);
      changed := [];
      if IsStart(m) && open != null && m.crcOk && m.call.Some? && open.target.Some? && open.targetCrcOk
         && m.call.value.callNo != open.target.value.callNo {
        var w := CloseOpen(pos);
        MarkNewCall(w);
        changed := [w];
      }
    }

    method MarkNewCall(w: BroadcastWindow)
      requires Valid()
      modifies w`closedByNewCall
      ensures Valid() && w.closedByNewCall
    {
      hide InOrder, EndedBy, Numbered;
      w.closedByNewCall := true;
    }

    method OpenOrClose(pos: int, m: Message) returns (changed: seq<BroadcastWindow>)
      requires Valid() && mark == pos && EndedBy(spans, open != null, pos) && (IsStart(m) || m.kind == FORCED_RELEASE)
      modifies `nextID, `all, `open, `recent, `khZeroAt, `midJoin, `spans, `mark
      modifies open
      ensures Valid() && mark == pos && Reports(old(spans), spans, Ids(changed), pos) && forall w | w in changed :: w in all
      ensures IsStart(m) && old(open) == null ==> (
        && open != null && fresh(open) && all == old(all) + [open] && open.openPos == pos && !open.midJoin && !open.closed
        && open.target == TargetOf(m, idValidBits) && open.targetCrcOk == m.crcOk && changed == [open])
      ensures IsStart(m) && old(open) != null ==> changed == [] && open == old(open) && unchanged(open) && all == old(all)
      ensures m.kind == FORCED_RELEASE ==> open == null && all == old(all)
      ensures m.kind == FORCED_RELEASE && old(open) == null ==> changed == []
      ensures m.kind == FORCED_RELEASE && old(open) != null ==>
        changed == [old(open)] && old(open).closed && old(open).closePos == pos
    {
      hide InOrder, EndedBy, Numbered, Viewed, Reports;
      OpenFrom();
      ReportsNothing(spans, pos);
      changed := [];
      if IsStart(m) && open == null {
        var target := BroadcastTarget(m, idValidBits);
        var w := OpenWindow(pos, false, target, m.crcOk);
        changed := [w];
      } else if m.kind == FORCED_RELEASE && open != null {
        var w := CloseOpen(pos);
        changed := [w];
      }
    }

    /** A window as a start at `pos` opens it. */
    predicate BegunBy(w: BroadcastWindow, pos: int, m: Message)
      reads `idValidBits, w
    {
      && w.openPos == pos && !w.midJoin && !w.closed && w.target == TargetOf(m, idValidBits) && w.targetCrcOk == m.crcOk
    }

    /** A confirmed start, and a confirmed release. */
    ghost predicate Starts(pos: int, m: Message)
      reads `hist, `confirmWindow, `confirmCount, `strict
    {
      IsStart(m) && Confirms(pos, m)
    }

    ghost predicate Releases(pos: int, m: Message)
      reads `hist, `confirmWindow, `confirmCount, `strict
    {
      m.kind == FORCED_RELEASE && Confirms(pos, m)
    }

    /** A message with a good CRC counts at once. */
    lemma GoodCounts(pos: int, m: Message)
      ensures m.crcOk && IsStart(m) ==> Starts(pos, m)
      ensures m.crcOk && m.kind == FORCED_RELEASE ==> Releases(pos, m)
    {
    }

    /** The start or release in a message, once confirmed. */
    method OnStartOrRelease(pos: int, m: Message) returns (changed: seq<BroadcastWindow>)
      requires Valid() && mark == pos
      modifies `nextID, `all, `open, `recent, `khZeroAt, `midJoin, `spans, `mark, `hist, `targetUpdated
      modifies open
      ensures Valid() && mark == pos
      ensures Reports(old(spans), spans, Ids(changed), pos) && forall w | w in changed :: w in all
      ensures var ends, begins := old(open != null && (NewCall(m) || Releases(pos, m))),
                                  old(Starts(pos, m) && (open == null || NewCall(m)));
        && Outcome(ends, begins, old(open), open, old(all), all, changed)
        && (ends ==> ClosedAt(old(open), pos) && (old(NewCall(m)) ==> old(open).closedByNewCall))
        && (begins ==> fresh(open) && BegunBy(open, pos, m))
      ensures old(open != null && Starts(pos, m) && !NewCall(m)) ==> (
        && open.closed == old(open.closed)
        && (old(Refreshes(m)) ==> open.target == TargetOf(m, idValidBits) && open.targetCrcOk)
        && (!old(Refreshes(m)) ==> unchanged(open)))
      ensures old(open != null && !Starts(pos, m) && !Releases(pos, m)) ==> unchanged(open)
      ensures old(!Starts(pos, m) && !Releases(pos, m)) ==> midJoin == old(midJoin) && khZeroAt == old(khZeroAt)
      ensures targetUpdated == old(targetUpdated)
        + if IsStart(m) && old(Refreshes(m)) && old(Described()) != TargetOf(m, idValidBits) then [old(open)] else []
      ensures hist == old(Remembered(pos, m))
    {
      hide InOrder, EndedBy, Numbered, Viewed, Reports;
      ReportsNothing(spans, pos);
      changed := [];
      var isStart := IsStart(m);
      if !isStart && m.kind != FORCED_RELEASE { return; }
      if isStart {
        RefreshTarget(m);
      }
      var ok := Confirmed(pos, m);
      if !ok { return; }
      LaterMark(spans, open != null, mark, pos);
      changed := StartOrRelease(pos, m);
    }

    /** The header makes a late join due, or ends an idle window. */
    ghost predicate Joins(pos: int, m: Message)
      reads `khSeen, `midJoin, `khOnPos, `open, `midJoinDelay
    {
      GoodHeader(m).Some? && JoinsNow(pos, GoodHeader(m).value)
    }

    ghost predicate Idles(pos: int, m: Message)
      reads `open, `khZeroAt, `khCloseDelay
    {
      GoodHeader(m).Some? && ClosesNow(pos, GoodHeader(m).value)
    }

    /** The header of a message that carries one and passed its check. */
    method OnHeader(pos: int, m: Message) returns (changed: seq<BroadcastWindow>)
      requires Valid() && mark == pos
      modifies `khSeen, `khOnPos, `nextID, `all, `open, `recent, `khZeroAt, `midJoin, `spans, `mark
      modifies open
      ensures Valid() && mark == pos
      ensures Reports(old(spans), spans, Ids(changed), pos) && forall w | w in changed :: w in all
      ensures GoodHeader(m).Some? ==> khSeen && khOnPos == old(Since(pos))
      ensures GoodHeader(m) == None ==> khSeen == old(khSeen) && khOnPos == old(khOnPos)
      ensures GoodHeader(m).Some? ==> (
        var h := GoodHeader(m).value;
        && midJoin == (Active(h) && old(Joining(h)) && !old(Joins(pos, m)))
        && khZeroAt == if h.broadcasting || old(open) == null || old(Idles(pos, m)) then -1
                       else if old(khZeroAt) < 0 then pos else old(khZeroAt))
      ensures GoodHeader(m) == None ==> midJoin == old(midJoin) && khZeroAt == old(khZeroAt)
      ensures Outcome(old(Idles(pos, m)), old(Joins(pos, m)), old(open), open, old(all), all, changed)
      ensures old(Joins(pos, m)) ==>
        fresh(open) && LateFrom(open, old(Since(pos))) && !open.closed && open.target == None && !open.targetCrcOk
      ensures old(Idles(pos, m)) ==> ClosedAt(old(open), pos) && old(open).closedByKH
      ensures !old(Idles(pos, m)) && old(open) != null ==> unchanged(old(open))
    {
      hide InOrder, EndedBy, Numbered, Viewed, Reports;
      changed := [];
      ReportsNothing(spans, pos);
      if m.crcOk && m.header.Some? {
        changed := OnKH(pos, m.header.value);
      }
    }

    /** The window open before ends: by the header, another call or a release. */
    ghost predicate Ends(pos: int, m: Message)
      reads `open, `khZeroAt, `khCloseDelay, `hist, `confirmWindow, `confirmCount, `strict, open
    {
      open != null && (Idles(pos, m) || NewCall(m) || Releases(pos, m))
    }

    /** A start opens a window. */
    ghost predicate Begins(pos: int, m: Message)
      reads `khSeen, `midJoin, `khOnPos, `midJoinDelay
      reads `open, `khZeroAt, `khCloseDelay, `hist, `confirmWindow, `confirmCount, `strict, open
    {
      Starts(pos, m) && !Joins(pos, m) && (open == null || Ends(pos, m))
    }

    /** A late join and the end of a window exclude each other. */
    lemma JoinsAlone(pos: int, m: Message)
      ensures Joins(pos, m) ==> open == null && m.crcOk
      ensures Idles(pos, m) ==> open != null && m.crcOk
    {
    }

    /** The header counts first and belongs to the time before the start or release. */
    method HeaderAndAction(pos: int, m: Message) returns (changed: seq<BroadcastWindow>)
      requires Valid() && mark == pos
      modifies `khSeen, `khOnPos, `nextID, `all, `open, `recent, `khZeroAt, `midJoin, `spans, `mark, `hist, `targetUpdated
      modifies open
      ensures Valid() && mark == pos
      ensures Reports(old(spans), spans, Ids(changed), pos) && forall w | w in changed :: w in all
      ensures GoodHeader(m).Some? ==> khSeen && khOnPos == old(Since(pos))
      ensures GoodHeader(m) == None ==> khSeen == old(khSeen) && khOnPos == old(khOnPos)
      ensures GoodHeader(m).Some? && old(!Starts(pos, m) && !Releases(pos, m)) ==> (
        var h := GoodHeader(m).value;
        && midJoin == (Active(h) && old(Joining(h)) && !old(Joins(pos, m)))
        && khZeroAt == if h.broadcasting || old(open) == null || old(Idles(pos, m)) then -1
                       else if old(khZeroAt) < 0 then pos else old(khZeroAt))
      ensures GoodHeader(m) == None && old(!Starts(pos, m) && !Releases(pos, m)) ==>
        midJoin == old(midJoin) && khZeroAt == old(khZeroAt)
      ensures targetUpdated == old(targetUpdated) + (
        if IsStart(m) && m.call.Some? && old(Joins(pos, m)) then [open]
        else if IsStart(m) && old(!Idles(pos, m) && Refreshes(m)) && old(Described()) != TargetOf(m, idValidBits) then [old(open)]
        else [])
      ensures hist == old(Remembered(pos, m))
      ensures Lists(old(Joins(pos, m)), old(Begins(pos, m)), old(Ends(pos, m)), old(Releases(pos, m)),
                    old(open), open, old(all), all, changed)
      ensures m.crcOk && IsStart(m) ==> open != null
      ensures old(Joins(pos, m) && Releases(pos, m)) ==> (
        var w := all[|old(all)|];
        fresh(w) && LateFrom(w, old(Since(pos))) && ClosedAt(w, pos))
      ensures old(Joins(pos, m) && !Releases(pos, m)) ==> (
        && fresh(open) && LateFrom(open, old(Since(pos))) && !open.closed
        && (!old(Starts(pos, m)) ==> open.target == None)
        && (old(Starts(pos, m)) ==> open.target == TargetOf(m, idValidBits) && open.targetCrcOk == m.call.Some?))
      ensures old(Begins(pos, m)) ==> fresh(open) && BegunBy(open, pos, m)
      ensures old(Ends(pos, m)) ==> (
        && ClosedAt(old(open), pos) && (old(Idles(pos, m)) ==> old(open).closedByKH)
        && (old(NewCall(m) && !Idles(pos, m)) ==> old(open).closedByNewCall))
      ensures old(open != null && !Ends(pos, m) && IsStart(m) && Refreshes(m)) ==>
        !open.closed && open.target == TargetOf(m, idValidBits) && open.targetCrcOk
      ensures old(open != null && !Ends(pos, m) && !(IsStart(m) && Refreshes(m))) ==> unchanged(open)
    {
      hide Valid, InOrder, EndedBy, Numbered, Viewed, Reports, Ids, JoinsNow, ClosesNow, Sightings, Remembered, Joining;
      hide TargetOf, Since;
      hide GoodHeader, Active, ClosedAt, BegunBy, LateFrom;
      JoinsAlone(pos, m);
      TargetExists(m, idValidBits);
      OpenFrom();
      changed := OnHeader(pos, m);
      ghost var s1, open1, all1, newCall := spans, open, all, NewCall(m);
      var more := OnStartOrRelease(pos, m);
      ReportsBoth(old(spans), s1, spans, Ids(changed), Ids(more), pos);
      IdsBoth(changed, more);
      Composed(old(Joins(pos, m)), old(Idles(pos, m)), old(Starts(pos, m)), old(Releases(pos, m)), newCall, old(NewCall(m)),
               old(open), open1, open, old(all), all1, all, changed, more);
      changed := changed + more;
    }

    function NextBits(m: Message): int
      reads `idValidBits
    {
      if m.crcOk && m.idValidBits.Some? && 0 <= m.idValidBits.value <= 8 then 8 + m.idValidBits.value else idValidBits
    }

    /** The open window's target becomes another one. */
    ghost predicate Retargets(pos: int, m: Message)
      reads `khSeen, `midJoin, `khOnPos, `midJoinDelay, `idValidBits
      reads `open, `khZeroAt, `khCloseDelay, open
    {
      && IsStart(m) && m.call.Some?
      && (Joins(pos, m) || (!Idles(pos, m) && Refreshes(m) && Described() != TargetOf(m, NextBits(m))))
    }

    /** Broadcast information sets how many bits of a station number count. */
    method SetValidBits(m: Message)
      requires Valid()
      modifies `idValidBits
      ensures Valid()
      ensures idValidBits == old(NextBits(m))
    {
      hide InOrder, EndedBy, Numbered, Viewed;
      if m.crcOk && m.idValidBits.Some? && 0 <= m.idValidBits.value <= 8 {
        idValidBits := 8 + m.idValidBits.value;
      }
    }

    /**
      One control message at a position not before the previous one; reports exactly the windows it
      opened or closed.  Only if the header joins a broadcast late that the same message releases,
      one window is reported twice and never seen open.
      */
    method OnControl(pos: int, m: Message) returns (changed: seq<BroadcastWindow>)
      requires Valid() && mark <= pos
      modifies `mark, `idValidBits, `khSeen, `khOnPos, `nextID, `all, `open, `recent
      modifies `khZeroAt, `midJoin, `spans, `hist, `targetUpdated
      modifies open
      ensures Valid() && mark == pos
      ensures Reports(old(spans), spans, Ids(changed), pos) && forall w | w in changed :: w in all
      ensures GoodHeader(m).Some? ==> khSeen && khOnPos == old(Since(pos))
      ensures GoodHeader(m) == None ==> khSeen == old(khSeen) && khOnPos == old(khOnPos)
      ensures GoodHeader(m).Some? && old(!Starts(pos, m) && !Releases(pos, m)) ==> (
        var h := GoodHeader(m).value;
        && midJoin == (Active(h) && old(Joining(h)) && !old(Joins(pos, m)))
        && khZeroAt == if h.broadcasting || old(open) == null || old(Idles(pos, m)) then -1
                       else if old(khZeroAt) < 0 then pos else old(khZeroAt))
      ensures GoodHeader(m) == None && old(!Starts(pos, m) && !Releases(pos, m)) ==>
        midJoin == old(midJoin) && khZeroAt == old(khZeroAt)
      ensures idValidBits == old(NextBits(m))
      ensures old(Retargets(pos, m)) ==> open != null && targetUpdated == old(targetUpdated) + [open]
      ensures !old(Retargets(pos, m)) ==> targetUpdated == old(targetUpdated)
      ensures hist == old(Remembered(pos, m))
      ensures Lists(old(Joins(pos, m)), old(Begins(pos, m)), old(Ends(pos, m)), old(Releases(pos, m)),
                    old(open), open, old(all), all, changed)
      ensures |all| == |old(all)| + (if old(Joins(pos, m) || Begins(pos, m)) then 1 else 0) && old(all) <= all
      ensures forall i | |old(all)| <= i < |all| :: fresh(all[i])
      ensures open == null || open == old(open) || fresh(open)
      ensures m.crcOk && IsStart(m) ==> open != null
      ensures old(Joins(pos, m) && Releases(pos, m)) ==> (
        var w := all[|old(all)|];
        open == null && changed == [w, w] && LateFrom(w, old(Since(pos))) && ClosedAt(w, pos))
      ensures old(Joins(pos, m) && !Releases(pos, m)) ==> (
        && fresh(open) && LateFrom(open, old(Since(pos))) && !open.closed
        && (!old(Starts(pos, m)) ==> open.target == None)
        && (old(Starts(pos, m)) ==> open.target == TargetOf(m, idValidBits) && open.targetCrcOk == m.call.Some?))
      ensures old(Begins(pos, m)) ==> open != null && fresh(open) && BegunBy(open, pos, m)
      ensures old(Ends(pos, m)) ==> (
        && ClosedAt(old(open), pos) && (old(Idles(pos, m)) ==> old(open).closedByKH)
        && (old(NewCall(m) && !Idles(pos, m)) ==> old(open).closedByNewCall))
      ensures old(open != null && !Ends(pos, m) && IsStart(m) && Refreshes(m)) ==>
        !open.closed && open.target == TargetOf(m, idValidBits) && open.targetCrcOk
      ensures old(open != null && !Ends(pos, m) && !(IsStart(m) && Refreshes(m))) ==> unchanged(open)
      ensures Distinct(changed) <==> !old(Joins(pos, m) && Releases(pos, m))
      ensures forall i | |old(all)| <= i < |all| ::
        (all[i].closed ==> all[i].midJoin) && (!all[i].midJoin ==> all[i].openPos == pos)
      ensures StillOpen(changed) == if open == null || open == old(open) then [] else [open]
      ensures Over(changed) ==
        if old(Joins(pos, m) && Releases(pos, m)) then changed else if old(Ends(pos, m)) then [old(open)] else []
      ensures m.crcOk && (m.kind == 0x22 || m.kind == 0x23) && m.call.Some? ==> (
        && open != null && !open.closed && open.targetCrcOk
        && (open.target.Some? ==> open.target.value.callNo == m.call.value.callNo)
        && (open.target == None ==> open == old(open) && old(open.targetCrcOk && open.target == None)))
      ensures m.crcOk && m.kind == 0x30 ==> open == null && (old(open) != null ==> old(open).closed && old(open).closePos == pos)
    {
      hide InOrder, EndedBy, Numbered, Viewed, Reports, Ids, JoinsNow, ClosesNow, Confirms, Sightings, Remembered;
      hide Joining, TargetOf, StillOpen, Over, Since, GoodHeader, Active;
      JoinsAlone(pos, m);
      GoodCounts(pos, m);
      OpenFrom();
      if m.call.Some? { TargetCall(m, NextBits(m)); }
      Advance(pos);
      SetValidBits(m);
      changed := HeaderAndAction(pos, m);
      PartsOfTwo(changed);
      ListsDistinct(old(Joins(pos, m)), old(Begins(pos, m)), old(Ends(pos, m)), old(Releases(pos, m)),
                    old(open), open, old(all), all, changed);
    }

    /** Hands over the windows whose target was refreshed. */
    method TakeUpdates() returns (w: seq<BroadcastWindow>)
      requires Valid()
      modifies `targetUpdated
      ensures Valid() && w == old(targetUpdated) && targetUpdated == []
    {
      hide InOrder, EndedBy;
      w := targetUpdated;
      targetUpdated := [];
    }

    /** The open window and the closed ones that are kept. */
    ghost function Retained(): seq<BroadcastWindow>
      reads `open, `recent
    {
      recent + if open == null then [] else [open]
    }

    /** The one retained window that contains the position. */
    method WindowFor(pos: int) returns (r: BroadcastWindow?)
      requires Valid()
      ensures r != null ==> r in Retained() && r in all && r.Contains(pos)
      ensures forall w | w in Retained() && w.Contains(pos) :: w == r
    {
      hide InOrder, EndedBy;
      if open != null && open.Contains(pos) {
        WindowsDisjoint(open, pos);
        return open;
      }
      KeptInAll();
      var i := |recent|;
      while i > 0
        invariant 0 <= i <= |recent| && forall j | i <= j < |recent| :: !recent[j].Contains(pos)
      {
        i := i - 1;
        if recent[i].Contains(pos) {
          WindowsDisjoint(recent[i], pos);
          return recent[i];
        }
      }
      return null;
    }

    /** All but the window still open have ended. */
    lemma OpenIsLast()
      requires Valid()
      ensures nextID == |all| + 1 == |spans| + 1
      ensures open != null ==> |all| > 0 && open == all[|all| - 1] && open.windowID == |all|
      ensures forall i | 0 <= i < |spans| :: spans[i].ended <==> !(open != null && i == |all| - 1)
    {
      hide EndedBy;
    }

    lemma PlaceIs(i: nat)
      requires Valid() && i < |all|
      ensures all[i].windowID == i + 1
    {
      hide InOrder, EndedBy, Viewed;
    }

    /** Exactly the windows from the oldest kept one on are retained. */
    lemma RetainedAt(i: nat)
      requires Valid() && i < |all| && OldestKept(|all|, open != null) <= i
      ensures all[i] in Retained()
    {
      hide InOrder, EndedBy, Viewed;
      var n := Ended(|all|, open != null);
      if i < n {
        assert recent[i - OldestKept(|all|, open != null)] == all[i];
      }
    }

    lemma KeptInAll()
      requires Valid()
      ensures forall w | w in recent :: w in all
    {
    }

    lemma RetainedPlace(w: BroadcastWindow)
      requires Valid() && w in Retained()
      ensures OldestKept(|all|, open != null) <= w.windowID - 1 < |all| && all[w.windowID - 1] == w
    {
      hide InOrder, EndedBy, Viewed;
    }

    /** A window's ID is its place. */
    lemma PlaceOf(w: BroadcastWindow)
      requires Valid() && w in all
      ensures |all| == |spans| && 1 <= w.windowID <= |all| && all[w.windowID - 1] == w && spans[w.windowID - 1] == View(w)
    {
      hide InOrder, EndedBy;
      var i :| 0 <= i < |all| && all[i] == w;
    }

    /** No position lies in two windows. */
    lemma WindowsDisjoint(v: BroadcastWindow, pos: int)
      requires Valid() && v in all && v.Contains(pos)
      ensures forall w | w in all && w.Contains(pos) :: w == v
    {
      hide InOrder, EndedBy;
      var i :| 0 <= i < |all| && all[i] == v;
      assert View(all[i]) == spans[i];
      forall w | w in all && w.Contains(pos)
        ensures w == v
      {
        var j :| 0 <= j < |all| && all[j] == w;
        assert View(all[j]) == spans[j];
        SpansDisjoint(spans, open != null, mark, i, j, pos);
      }
    }
  }

  /** A run in which a window is never seen open: the release that ends it also joins it late, and reports it twice. */
  method JoinedByItsRelease() returns (t: BroadcastTracker, changed: seq<BroadcastWindow>)
    ensures |changed| == 2 && changed[0] == changed[1] && StillOpen(changed) == []
    ensures changed[0].midJoin && changed[0].openPos == 0 && ClosedAt(changed[0], 135_000)
  {
    hide BroadcastTracker.Valid, Reports, Ids, StillOpen, Over, Fresh;
    t := new BroadcastTracker(0);
    var header := Some(Header(true, 1));
    var first := t.OnControl(0, Message(BCCH_INFO, true, None, header, None, []));
    assert first == [] && t.midJoin && t.khOnPos == 0;
    changed := t.OnControl(135_000, Message(FORCED_RELEASE, true, None, header, None, []));
  }

  lemma PartOfMore(all: seq<BroadcastWindow>, w: BroadcastWindow, from: int)
    requires 0 <= from <= |all|
    ensures (all + [w])[from..|all|] == all[from..|all|]
  {
  }

  /** Moving the last window to the kept ones, oldest dropped. */
  lemma CloseLast(all: seq<BroadcastWindow>, recent: seq<BroadcastWindow>)
    requires |all| > 0 && recent == all[Max(0, |all| - 1 - KEEP)..|all| - 1]
    ensures var r := recent + [all[|all| - 1]];
      all[Max(0, |all| - KEEP)..|all|] == if |r| > KEEP then r[|r| - KEEP..] else r
  {
  }

  predicate Active(h: Header) { h.broadcasting && h.usedSlots > 0 }
}
