/**
  The streaming decoder of STD-T86 with a fixed scrambling seed
  (internal/std-t86/decoder/decoder.go): bursts go to the broadcast tracker and
  the voice smoother, and the end of a broadcast is reported only when no voice
  burst of it can still come.
  */
module Decoder {
  import opened Samples
  import opened Slots
  import opened Voice
  import B = Broadcast

  /** A slot read as traffic: whether it is a signalling slot, its message, and whether its type is voice. */
  datatype Traffic = Traffic(facch: bool, message: B.Option<B.Message>, voice: bool)

  /** Bit-level decoding of one burst. */
  datatype Reader = Reader(
    controlOf: Burst -> B.Option<B.Message>,
    trafficOf: Burst -> B.Option<Traffic>)

  datatype VoiceEvent = VoiceEvent(burst: TchBurst, isVoice: bool, windowID: nat)

  datatype FeedResult = FeedResult(
    control: seq<(int, B.Message)>,
    tch: seq<TchBurst>,
    voice: seq<VoiceEvent>,
    started: seq<B.BroadcastWindow>,
    ended: seq<B.BroadcastWindow>,
    updated: seq<B.BroadcastWindow>)

  const NOTHING := FeedResult([], [], [], [], [], [])

  const S3 := 1  // the traffic sync word; the others mark control slots

  // ---------------------------------------------------------------- what the bursts carry

  /** The traffic burst in a detected burst, if it is one. */
  function TrafficOne(reader: Reader, b: Burst): seq<TchBurst> {
    if b.which != S3 then []
    else match reader.trafficOf(b)
      case None => []
      case Some(t) => if t.facch then [] else [TchBurst(b.pos, t.voice)]
  }

  /** The control message in a detected burst, from a control slot or a signalling slot. */
  function ControlOne(reader: Reader, b: Burst): seq<(int, B.Message)> {
    var m := if b.which != S3 then reader.controlOf(b)
             else match reader.trafficOf(b)
               case None => B.None
               case Some(t) => if t.facch then t.message else B.None;
    match m case None => [] case Some(v) => [(b.pos, v)]
  }

  function TrafficIn(reader: Reader, b: seq<Burst>): seq<TchBurst> {
    if b == [] then [] else TrafficIn(reader, b[..|b| - 1]) + TrafficOne(reader, b[|b| - 1])
  }

  function ControlIn(reader: Reader, b: seq<Burst>): seq<(int, B.Message)> {
    if b == [] then [] else ControlIn(reader, b[..|b| - 1]) + ControlOne(reader, b[|b| - 1])
  }

  /** The position of a burst whose control slot carries a verified start. */
  function CallOne(reader: Reader, b: Burst): seq<int> {
    if b.which == S3 then []
    else match reader.controlOf(b)
      case None => []
      case Some(m) => if m.crcOk && B.IsStart(m) then [b.pos] else []
  }

  function CallsIn(reader: Reader, b: seq<Burst>): seq<int> {
    if b == [] then [] else CallsIn(reader, b[..|b| - 1]) + CallOne(reader, b[|b| - 1])
  }

  lemma {:induction false} CarriedBoth(reader: Reader, a: seq<Burst>, b: seq<Burst>)
    ensures TrafficIn(reader, a + b) == TrafficIn(reader, a) + TrafficIn(reader, b)
    ensures ControlIn(reader, a + b) == ControlIn(reader, a) + ControlIn(reader, b)
    ensures CallsIn(reader, a + b) == CallsIn(reader, a) + CallsIn(reader, b)
  {
    hide TrafficIn, ControlIn, CallsIn, TrafficOne, ControlOne, CallOne;
    if b == [] {
      NothingCarried(reader);
      assert a + b == a;
    } else {
      var n := |b| - 1;
      CarriedBoth(reader, a, b[..n]);
      CarriedSnoc(reader, b[..n], b[n]);
      CarriedSnoc(reader, a + b[..n], b[n]);
      assert b[..n] + [b[n]] == b && a + b[..n] + [b[n]] == a + b;
    }
  }

  lemma CarriedSnoc(reader: Reader, a: seq<Burst>, b: Burst)
    ensures TrafficIn(reader, a + [b]) == TrafficIn(reader, a) + TrafficOne(reader, b)
    ensures ControlIn(reader, a + [b]) == ControlIn(reader, a) + ControlOne(reader, b)
    ensures CallsIn(reader, a + [b]) == CallsIn(reader, a) + CallOne(reader, b)
  {
    hide TrafficOne, ControlOne, CallOne;
    assert (a + [b])[..|a|] == a;
  }

  lemma NothingCarried(reader: Reader)
    ensures TrafficIn(reader, []) == [] && ControlIn(reader, []) == [] && CallsIn(reader, []) == []
  {
  }

  /** A burst with the traffic sync word that is read as speech or silence. */
  predicate IsTraffic(reader: Reader, b: Burst, x: TchBurst) {
    && b.which == 1 && reader.trafficOf(b).Some? && !reader.trafficOf(b).value.facch
    && x.pos == b.pos && x.voice == reader.trafficOf(b).value.voice
  }

  /** A burst with another sync word, or a signalling slot, and the message in it. */
  predicate IsControl(reader: Reader, b: Burst, x: (int, B.Message)) {
    && x.0 == b.pos
    && (b.which != 1 ==> reader.controlOf(b) == B.Some(x.1))
    && (b.which == 1 ==> reader.trafficOf(b).Some? && reader.trafficOf(b).value.facch
                         && reader.trafficOf(b).value.message == B.Some(x.1))
  }

  /** Nothing else is traffic or control, and every burst that is one of them is passed on. */
  lemma {:induction false} CarriedMembers(reader: Reader, b: seq<Burst>)
    ensures forall x :: x in TrafficIn(reader, b) <==> exists i | 0 <= i < |b| :: IsTraffic(reader, b[i], x)
    ensures forall x :: x in ControlIn(reader, b) <==> exists i | 0 <= i < |b| :: IsControl(reader, b[i], x)
  {
    if b != [] {
      var n := |b| - 1;
      CarriedMembers(reader, b[..n]);
      OneMember(reader, b[n]);
      hide TrafficOne, ControlOne, IsTraffic, IsControl;
      assert forall i | 0 <= i < n :: b[i] == b[..n][i];
    }
  }

  lemma OneMember(reader: Reader, b: Burst)
    ensures forall x :: x in TrafficOne(reader, b) <==> IsTraffic(reader, b, x)
    ensures forall x :: x in ControlOne(reader, b) <==> IsControl(reader, b, x)
  {
  }

  // ---------------------------------------------------------------- what has been reported

  /** The windows `ids` are over before `pos`. */
  ghost predicate GoneBy(spans: seq<B.Span>, ids: set<int>, pos: int) {
    forall id | id in ids :: 1 <= id <= |spans| && spans[id - 1].ended && spans[id - 1].to < pos
  }

  /** Window IDs of ended windows. */
  function IDs(w: seq<B.BroadcastWindow>): set<int> {
    if w == [] then {} else IDs(w[..|w| - 1]) + {w[|w| - 1].windowID as int}
  }

  lemma {:induction false} IDsBoth(a: seq<B.BroadcastWindow>, b: seq<B.BroadcastWindow>)
    ensures IDs(a + b) == IDs(a) + IDs(b)
  {
    if b == [] {
      assert a + b == a;
    } else {
      var n := |b| - 1;
      IDsBoth(a, b[..n]);
      assert a + b == a + b[..n] + [b[n]];
      IDsAppend(a + b[..n], b[n]);
    }
  }

  lemma GoneLater(spans: seq<B.Span>, ids: set<int>, pos: int, later: int)
    requires GoneBy(spans, ids, pos) && pos <= later
    ensures GoneBy(spans, ids, later)
  {
  }

  /** Ended windows stay as they are. */
  lemma GoneStays(s0: seq<B.Span>, s1: seq<B.Span>, changed: seq<int>, at: int, ids: set<int>, pos: int)
    requires B.Reports(s0, s1, changed, at) && GoneBy(s0, ids, pos)
    ensures GoneBy(s1, ids, pos)
  {
  }

  /** All waiting bursts come after the reported windows. */
  ghost predicate AllAfter(spans: seq<B.Span>, ids: set<int>, b: seq<TchBurst>) {
    forall i | 0 <= i < |b| :: GoneBy(spans, ids, b[i].pos)
  }

  lemma AfterStays(s0: seq<B.Span>, s1: seq<B.Span>, changed: seq<int>, at: int, ids: set<int>, b: seq<TchBurst>)
    requires B.Reports(s0, s1, changed, at) && AllAfter(s0, ids, b)
    ensures AllAfter(s1, ids, b)
  {
    hide GoneBy, B.Reports;
    forall i | 0 <= i < |b|
      ensures GoneBy(s1, ids, b[i].pos)
    {
      GoneStays(s0, s1, changed, at, ids, b[i].pos);
    }
  }

  /** No event belongs to a reported window. */
  ghost predicate NoneOf(voice: seq<VoiceEvent>, ids: set<int>) {
    forall e | e in voice :: e.windowID as int !in ids
  }

  /** Windows waiting to be reported have closed at positions already processed. */
  ghost predicate Backlog(all: seq<B.BroadcastWindow>, spans: seq<B.Span>, w: seq<B.BroadcastWindow>, pos: int) {
    && |all| == |spans|
    && forall i | 0 <= i < |w| :: Listed(all, spans, w[i]) && spans[w[i].windowID - 1].to < pos
  }

  ghost predicate Listed(all: seq<B.BroadcastWindow>, spans: seq<B.Span>, w: B.BroadcastWindow)
    requires |all| == |spans|
  {
    1 <= w.windowID <= |all| && all[w.windowID - 1] == w && spans[w.windowID - 1].ended
  }

  lemma BacklogStays(all0: seq<B.BroadcastWindow>, all1: seq<B.BroadcastWindow>, s0: seq<B.Span>, s1: seq<B.Span>,
                     changed: seq<int>, at: int, w: seq<B.BroadcastWindow>, pos: int, later: int)
    requires B.Reports(s0, s1, changed, at) && all0 <= all1 && |all1| == |s1| && pos <= later
    requires Backlog(all0, s0, w, pos)
    ensures Backlog(all1, s1, w, later)
  {
    forall i | 0 <= i < |w|
      ensures Listed(all1, s1, w[i]) && s1[w[i].windowID - 1].to < later
    {
      assert Listed(all0, s0, w[i]);
    }
  }

  lemma BacklogLater(all: seq<B.BroadcastWindow>, spans: seq<B.Span>, w: seq<B.BroadcastWindow>, pos: int, later: int)
    requires Backlog(all, spans, w, pos) && pos <= later
    ensures Backlog(all, spans, w, later)
  {
  }

  /** Of bursts that come after the reported windows, those decided and those still waiting do too. */
  lemma AfterSplit(spans: seq<B.Span>, ids: set<int>, all: seq<TchBurst>, decided: seq<Decided>, from: nat, out: seq<Decided>)
    requires from <= |decided| <= |all| && out == decided[from..]
    requires forall i | 0 <= i < |decided| :: decided[i].burst == all[i]
    requires AllAfter(spans, ids, all[from..])
    ensures forall i | 0 <= i < |out| :: GoneBy(spans, ids, out[i].burst.pos)
    ensures AllAfter(spans, ids, all[|decided|..])
  {
    hide GoneBy;
    forall i | 0 <= i < |out|
      ensures GoneBy(spans, ids, out[i].burst.pos)
    {
      assert out[i].burst == all[from..][i];
    }
    forall i | 0 <= i < |all| - |decided|
      ensures GoneBy(spans, ids, all[|decided|..][i].pos)
    {
      assert all[|decided|..][i] == all[from..][|decided| - from + i];
    }
  }

  lemma AfterSnoc(spans: seq<B.Span>, ids: set<int>, w: seq<TchBurst>, b: TchBurst)
    requires AllAfter(spans, ids, w) && GoneBy(spans, ids, b.pos)
    ensures AllAfter(spans, ids, w + [b])
  {
    hide GoneBy;
  }

  lemma EndedAt(s0: seq<B.Span>, s1: seq<B.Span>, changed: seq<B.BroadcastWindow>, pos: int, i: nat)
    requires B.Reports(s0, s1, B.Ids(changed), pos) && i < |changed|
    ensures 1 <= changed[i].windowID <= |s1|
    ensures s1[changed[i].windowID - 1].ended ==> s1[changed[i].windowID - 1].to == pos
  {
    assert B.Ids(changed)[i] in B.Ids(changed);
  }

  lemma BacklogSnoc(all: seq<B.BroadcastWindow>, spans: seq<B.Span>, w: seq<B.BroadcastWindow>, x: B.BroadcastWindow,
                    pos: int)
    requires Backlog(all, spans, w, pos) && Listed(all, spans, x) && spans[x.windowID - 1].to < pos
    ensures Backlog(all, spans, w + [x], pos)
  {
  }

  lemma IDsAppend(w: seq<B.BroadcastWindow>, x: B.BroadcastWindow)
    ensures IDs(w + [x]) == IDs(w) + {x.windowID as int}
  {
    assert (w + [x])[..|w|] == w;
  }

  /** The decisions that a list of voice events reports. */
  function Said(voice: seq<VoiceEvent>): (r: seq<Decided>)
    ensures |r| == |voice|
  {
    seq(|voice|, i requires 0 <= i < |voice| => Decided(voice[i].burst, voice[i].isVoice))
  }

  lemma Tails<T>(s: seq<T>, t: seq<T>, i: nat)
    requires i <= |s|
    ensures (s + t)[i..] == s[i..] + t
  {
  }

  lemma SaidBoth(a: seq<VoiceEvent>, b: seq<VoiceEvent>)
    ensures Said(a + b) == Said(a) + Said(b)
  {
  }

  // ---------------------------------------------------------------- the ledger of windows

  /** How often the window at place `i` stands in a list. */
  ghost function Times(w: seq<B.BroadcastWindow>, i: int): nat { multiset(B.Ids(w))[i] }

  lemma TimesBoth(a: seq<B.BroadcastWindow>, b: seq<B.BroadcastWindow>, i: int)
    ensures Times(a + b, i) == Times(a, i) + Times(b, i)
  {
    B.IdsBoth(a, b);
  }

  /** All entries of `w` are among `all`, at the place their ID says. */
  ghost predicate Members(all: seq<B.BroadcastWindow>, w: seq<B.BroadcastWindow>) {
    forall x | x in w :: 1 <= x.windowID <= |all| && all[x.windowID - 1] == x
  }

  lemma NotYet(all: seq<B.BroadcastWindow>, w: seq<B.BroadcastWindow>, i: int)
    requires Members(all, w) && !(0 <= i < |all|)
    ensures Times(w, i) == 0
  {
    assert forall k | 0 <= k < |w| :: w[k] in w && B.Ids(w)[k] == w[k].windowID - 1;
  }

  lemma Occurs(w: seq<B.BroadcastWindow>, x: B.BroadcastWindow)
    requires x in w
    ensures Times(w, x.windowID - 1) > 0
  {
    var k :| 0 <= k < |w| && w[k] == x;
    assert B.Ids(w)[k] == x.windowID - 1;
  }

  lemma Found(w: seq<B.BroadcastWindow>, i: int) returns (x: B.BroadcastWindow)
    requires Times(w, i) > 0
    ensures x in w && x.windowID - 1 == i
  {
    assert i in B.Ids(w);
    var k :| 0 <= k < |w| && B.Ids(w)[k] == i;
    x := w[k];
  }

  /**
    What a window's record can be.  It is announced once, and once it has ended it is reported or given
    up once; a window that is never announced was joined late and is reported twice.
    */
  predicate Entry(late: bool, ended: bool, announced: nat, over: nat, abandoned: nat) {
    if announced == 0 then late && ended && over == 2 && abandoned == 0
    else announced == 1 && over + abandoned == if ended then 1 else 0
  }

  /** Every window ever opened is announced, and every one that ended is reported, waiting to be, or given up. */
  ghost predicate Ledger(all: seq<B.BroadcastWindow>, spans: seq<B.Span>, announced: seq<B.BroadcastWindow>,
                         finished: seq<B.BroadcastWindow>, waiting: seq<B.BroadcastWindow>,
                         abandoned: seq<B.BroadcastWindow>) {
    && |all| == |spans|
    && Members(all, announced) && Members(all, finished) && Members(all, waiting) && Members(all, abandoned)
    && forall i: nat | i < |spans| :: Entry(all[i].midJoin, spans[i].ended, Times(announced, i),
                                            Times(finished, i) + Times(waiting, i), Times(abandoned, i))
  }

  /** Every entry of `w` is in `a` or in `b`, as often as it is in `w`. */
  ghost predicate Parted(w: seq<B.BroadcastWindow>, a: seq<B.BroadcastWindow>, b: seq<B.BroadcastWindow>) {
    multiset(a) + multiset(b) == multiset(w) && multiset(B.Ids(a)) + multiset(B.Ids(b)) == multiset(B.Ids(w))
  }

  lemma NothingParted()
    ensures Parted([], [], [])
  {
    assert B.Ids([]) == [];
  }

  lemma PartedSnoc(w: seq<B.BroadcastWindow>, a: seq<B.BroadcastWindow>, b: seq<B.BroadcastWindow>, x: B.BroadcastWindow)
    requires Parted(w, a, b)
    ensures Parted(w + [x], a + [x], b) && Parted(w + [x], a, b + [x])
  {
    hide B.Ids;
    B.IdsBoth(w, [x]);
    B.IdsBoth(a, [x]);
    B.IdsBoth(b, [x]);
  }

  /** A message's windows: the open ones are announced, the others wait. */
  lemma LedgerMessage(all0: seq<B.BroadcastWindow>, all1: seq<B.BroadcastWindow>, s0: seq<B.Span>, s1: seq<B.Span>,
                      changed: seq<B.BroadcastWindow>, pos: int, begun: seq<B.BroadcastWindow>, over: seq<B.BroadcastWindow>,
                      a: seq<B.BroadcastWindow>, f: seq<B.BroadcastWindow>, w: seq<B.BroadcastWindow>,
                      g: seq<B.BroadcastWindow>)
    requires Ledger(all0, s0, a, f, w, g) && all0 <= all1 && |all1| == |s1| && B.Reports(s0, s1, B.Ids(changed), pos)
    requires Parted(changed, begun, over)
    requires Members(all1, begun) && Members(all1, over)
    requires forall x | x in begun :: !s1[x.windowID - 1].ended
    requires forall x | x in over :: s1[x.windowID - 1].ended
    requires forall i | |s0| <= i < |s1| && s1[i].ended :: all1[i].midJoin
    ensures Ledger(all1, s1, a + begun, f, w + over, g)
  {
    hide B.Reports, Times, Entry;
    forall i: nat | i < |s1|
      ensures Entry(all1[i].midJoin, s1[i].ended, Times(a + begun, i), Times(f, i) + Times(w + over, i), Times(g, i))
    {
      TimesBoth(a, begun, i);
      TimesBoth(w, over, i);
      PartTimes(changed, begun, over, i);
      ChangedTimes(s0, s1, changed, pos, i);
      if Times(begun, i) > 0 { var x := Found(begun, i); }
      if Times(over, i) > 0 { var x := Found(over, i); }
      if i >= |s0| {
        NotYet(all0, a, i);
        NotYet(all0, f, i);
        NotYet(all0, w, i);
        NotYet(all0, g, i);
      } else {
        assert all0[i] == all1[i];
        assert Entry(all0[i].midJoin, s0[i].ended, Times(a, i), Times(f, i) + Times(w, i), Times(g, i));
      }
      EntryStep(all1[i].midJoin, i < |s0|, i < |s0| && s0[i].ended, s1[i].ended, Times(a, i), Times(f, i) + Times(w,
                i), Times(g, i),
                Times(begun, i), Times(over, i));
    }
  }

  lemma EntryStep(late: bool, earlier: bool, ended0: bool, ended1: bool, a: nat, o: nat, g: nat, da: nat, d: nat)
    requires if earlier then Entry(late, ended0, a, o, g) else a == o == g == 0 && !ended0
    requires da + d == (if earlier then 0 else 1) + (if ended1 && !ended0 then 1 else 0)
    requires (da > 0 ==> !ended1) && (d > 0 ==> ended1) && (ended0 ==> ended1) && (!earlier && ended1 ==> late)
    ensures Entry(late, ended1, a + da, o + d, g)
  {
  }

  lemma PartTimes(changed: seq<B.BroadcastWindow>, begun: seq<B.BroadcastWindow>, over: seq<B.BroadcastWindow>, i: int)
    requires Parted(changed, begun, over)
    ensures Times(begun, i) + Times(over, i) == Times(changed, i)
  {
  }

  lemma ChangedTimes(s0: seq<B.Span>, s1: seq<B.Span>, changed: seq<B.BroadcastWindow>, pos: int, i: nat)
    requires B.Reports(s0, s1, B.Ids(changed), pos) && i < |s1|
    ensures Times(changed, i) == (if i < |s0| then 0 else 1) + (if s1[i].ended && (i < |s0| ==> !s0[i].ended) then 1 else 0)
    ensures i < |s0| && s0[i].ended ==> s1[i].ended
    ensures |s0| <= |s1|
  {
  }

  /** Some of the waiting windows are reported. */
  lemma LedgerRelease(all: seq<B.BroadcastWindow>, s: seq<B.Span>, a: seq<B.BroadcastWindow>, f: seq<B.BroadcastWindow>,
                      w: seq<B.BroadcastWindow>, g: seq<B.BroadcastWindow>, out: seq<B.BroadcastWindow>,
                      keep: seq<B.BroadcastWindow>)
    requires Ledger(all, s, a, f, w, g) && Parted(w, out, keep)
    requires Members(all, out) && Members(all, keep)
    ensures Ledger(all, s, a, f + out, keep, g)
  {
    hide Times, Entry;
    forall i: nat | i < |s|
      ensures Entry(all[i].midJoin, s[i].ended, Times(a, i), Times(f + out, i) + Times(keep, i), Times(g, i))
    {
      TimesBoth(f, out, i);
      PartTimes(w, out, keep, i);
    }
  }

  lemma LedgerFlush(all: seq<B.BroadcastWindow>, s: seq<B.Span>, a: seq<B.BroadcastWindow>, f: seq<B.BroadcastWindow>,
                    w: seq<B.BroadcastWindow>, g: seq<B.BroadcastWindow>)
    requires Ledger(all, s, a, f, w, g)
    ensures Ledger(all, s, a, f + w, [], g)
  {
    assert B.Ids([]) == [];
    assert Parted(w, w, []);
    LedgerRelease(all, s, a, f, w, g, w, []);
  }

  /** The open window is given up. */
  lemma LedgerGiveUp(all: seq<B.BroadcastWindow>, s0: seq<B.Span>, s1: seq<B.Span>, x: B.BroadcastWindow, pos: int,
                     a: seq<B.BroadcastWindow>, f: seq<B.BroadcastWindow>, w: seq<B.BroadcastWindow>,
                     g: seq<B.BroadcastWindow>)
    requires Ledger(all, s0, a, f, w, g) && |s0| == |s1| && B.Reports(s0, s1, B.Ids([x]), pos) && Members(all, [x])
    ensures Ledger(all, s1, a, f, w, g + [x])
  {
    hide B.Reports, Times;
    forall i: nat | i < |s1|
      ensures Entry(all[i].midJoin, s1[i].ended, Times(a, i), Times(f, i) + Times(w, i), Times(g + [x], i))
    {
      assert Entry(all[i].midJoin, s0[i].ended, Times(a, i), Times(f, i) + Times(w, i), Times(g, i));
      TimesBoth(g, [x], i);
      ChangedTimes(s0, s1, [x], pos, i);
    }
  }

  // ---------------------------------------------------------------- whose voice it is

  /**
    The event names a window that covers its burst; and a window that covers the burst is named, unless it
    was joined late or sixteen or more windows were opened after it.
    */
  ghost predicate Names(all: seq<B.BroadcastWindow>, spans: seq<B.Span>, e: VoiceEvent)
    requires |all| == |spans|
  {
    && (e.windowID != 0 ==> 1 <= e.windowID <= |spans| && B.Covers(spans[e.windowID - 1], e.burst.pos))
    && forall i: nat | i < |spans| && B.Covers(spans[i], e.burst.pos) && !all[i].midJoin ::
         |spans| - B.KEEP <= i ==> e.windowID == i + 1
  }

  /** The event names the kept window that covers its burst, or none if there is none. */
  ghost predicate Credited(spans: seq<B.Span>, isOpen: bool, e: VoiceEvent) {
    && (forall i: nat | i < |spans| && B.Covers(spans[i], e.burst.pos) ::
          B.OldestKept(|spans|, isOpen) <= i ==> e.windowID == i + 1)
    && (e.windowID != 0 ==>
          B.OldestKept(|spans|, isOpen) < e.windowID <= |spans| && B.Covers(spans[e.windowID - 1], e.burst.pos))
  }

  lemma CreditedNames(all: seq<B.BroadcastWindow>, spans: seq<B.Span>, isOpen: bool, v: seq<VoiceEvent>)
    requires |all| == |spans| && forall e | e in v :: Credited(spans, isOpen, e)
    ensures CreditedIn(all, spans, v)
  {
    forall e | e in v
      ensures Names(all, spans, e)
    {
      assert Credited(spans, isOpen, e);
    }
  }

  ghost predicate CreditedIn(all: seq<B.BroadcastWindow>, spans: seq<B.Span>, voice: seq<VoiceEvent>) {
    |all| == |spans| && forall e | e in voice :: Names(all, spans, e)
  }

  ghost predicate Before(voice: seq<VoiceEvent>, pos: int) {
    forall e | e in voice :: e.burst.pos < pos
  }

  /** Later windows do not take voice away from earlier ones. */
  lemma CreditStays(all0: seq<B.BroadcastWindow>, all1: seq<B.BroadcastWindow>, s0: seq<B.Span>, s1: seq<B.Span>,
                    changed: seq<int>, pos: int, voice: seq<VoiceEvent>)
    requires CreditedIn(all0, s0, voice) && Before(voice, pos)
    requires all0 <= all1 && |all1| == |s1| && B.Reports(s0, s1, changed, pos)
    requires forall i | |s0| <= i < |s1| && !all1[i].midJoin :: s1[i].from == pos
    ensures CreditedIn(all1, s1, voice)
  {
    hide B.Reports, Names;
    forall e | e in voice
      ensures Names(all1, s1, e)
    {
      NamesStays(all0, all1, s0, s1, changed, pos, e);
    }
  }

  lemma NamesStays(all0: seq<B.BroadcastWindow>, all1: seq<B.BroadcastWindow>, s0: seq<B.Span>, s1: seq<B.Span>,
                   changed: seq<int>, pos: int, e: VoiceEvent)
    requires |all0| == |s0| && Names(all0, s0, e) && e.burst.pos < pos
    requires all0 <= all1 && |all1| == |s1| && B.Reports(s0, s1, changed, pos)
    requires forall i | |s0| <= i < |s1| && !all1[i].midJoin :: s1[i].from == pos
    ensures Names(all1, s1, e)
  {
    hide B.Reports;
    forall i: nat | i < |s0|
      ensures |s0| <= |s1| && B.Covers(s0[i], e.burst.pos) == B.Covers(s1[i], e.burst.pos)
    {
      CoverStays(s0, s1, changed, pos, i, e.burst.pos);
    }
    forall i: nat | i < |s1| && B.Covers(s1[i], e.burst.pos) && !all1[i].midJoin
      ensures i < |s0|
    {
    }
  }

  lemma CoverStays(s0: seq<B.Span>, s1: seq<B.Span>, changed: seq<int>, pos: int, i: nat, at: int)
    requires B.Reports(s0, s1, changed, pos) && i < |s0| && at < pos
    ensures |s0| <= |s1| && B.Covers(s0[i], at) == B.Covers(s1[i], at)
  {
    assert multiset(changed)[i] == B.Changes(s0, s1, i);
    if s1[i].ended && !s0[i].ended {
      assert i in changed;
    }
  }

  /** What holds of waiting windows, reported ones and voice survives any report of later windows. */
  lemma Carried(all0: seq<B.BroadcastWindow>, all1: seq<B.BroadcastWindow>, s0: seq<B.Span>, s1: seq<B.Span>,
                changed: seq<int>, at: int, pos: int, w: seq<B.BroadcastWindow>, gone: set<int>, waiting: seq<TchBurst>,
                voice: seq<VoiceEvent>)
    requires B.Reports(s0, s1, changed, at) && all0 <= all1 && |all1| == |s1|
    requires Backlog(all0, s0, w, pos) && GoneBy(s0, gone, pos) && AllAfter(s0, gone, waiting)
    requires CreditedIn(all0, s0, voice) && Before(voice, at)
    requires forall i | |s0| <= i < |s1| && !all1[i].midJoin :: s1[i].from == at
    ensures Backlog(all1, s1, w, pos) && GoneBy(s1, gone, pos) && AllAfter(s1, gone, waiting) && CreditedIn(all1, s1, voice)
  {
    hide Backlog, GoneBy, AllAfter, CreditedIn, B.Reports, Before;
    BacklogStays(all0, all1, s0, s1, changed, at, w, pos, pos);
    GoneStays(s0, s1, changed, at, gone, pos);
    AfterStays(s0, s1, changed, at, gone, waiting);
    CreditStays(all0, all1, s0, s1, changed, at, voice);
  }

  // ---------------------------------------------------------------- when ends are reported

  /** How long an end waits at most: fourteen slots beyond the close, for the last votes. */
  const LONGEST_WAIT := 16_800

  /** Spans that ended stay as they are, and new ones end at `pos` or later. */
  ghost predicate EndsAfter(s0: seq<B.Span>, s1: seq<B.Span>, pos: int) {
    && |s0| <= |s1|
    && (forall i: nat | i < |s0| && s0[i].ended :: s1[i] == s0[i])
    && (forall i: nat | i < |s1| && s1[i].ended && (i < |s0| ==> !s0[i].ended) :: s1[i].to >= pos)
  }

  lemma ReportsAfter(s0: seq<B.Span>, s1: seq<B.Span>, changed: seq<int>, pos: int)
    requires B.Reports(s0, s1, changed, pos)
    ensures EndsAfter(s0, s1, pos)
  {
    forall i: nat | i < |s1| && s1[i].ended && (i < |s0| ==> !s0[i].ended)
      ensures s1[i].to >= pos
    {
      assert multiset(changed)[i] == B.Changes(s0, s1, i);
      assert i in changed;
    }
  }

  lemma AfterBoth(s0: seq<B.Span>, s1: seq<B.Span>, s2: seq<B.Span>, pos: int, later: int)
    requires EndsAfter(s0, s1, pos) && EndsAfter(s1, s2, later) && pos <= later
    ensures EndsAfter(s0, s2, pos)
  {
  }

  lemma NothingAfter(s: seq<B.Span>, pos: int)
    ensures EndsAfter(s, s, pos)
  {
  }

  /** No window waits to be reported longer than the voice horizon. */
  ghost predicate Prompt(spans: seq<B.Span>, w: seq<B.BroadcastWindow>, now: int) {
    forall x | x in w :: 1 <= x.windowID <= |spans| && spans[x.windowID - 1].ended && now <= spans[x.windowID - 1].to + Horizon(2)
  }

  lemma PromptStays(s0: seq<B.Span>, s1: seq<B.Span>, w: seq<B.BroadcastWindow>, now: int, pos: int)
    requires Prompt(s0, w, now) && EndsAfter(s0, s1, pos)
    ensures Prompt(s1, w, now)
  {
  }

  /** Voice of a window that ended at `to` may still come: from later samples, or from a burst that waits for its vote. */
  ghost predicate MustWait(to: int, final: int, waiting: seq<TchBurst>) {
    to >= final || exists b | b in waiting :: b.pos <= to
  }

  // ---------------------------------------------------------------- whose call it is

  ghost predicate Covered(spans: seq<B.Span>, pos: int) { exists i: nat | i < |spans| :: B.Covers(spans[i], pos) }

  /** Every call so far came before `pos` and lies in a window. */
  ghost predicate Answered(spans: seq<B.Span>, calls: seq<int>, pos: int) {
    forall p | p in calls :: p < pos && Covered(spans, p)
  }

  lemma AnsweredStays(s0: seq<B.Span>, s1: seq<B.Span>, changed: seq<int>, at: int, calls: seq<int>, pos: int)
    requires B.Reports(s0, s1, changed, at) && Answered(s0, calls, pos) && pos <= at
    ensures Answered(s1, calls, pos)
  {
    hide B.Reports;
    forall p | p in calls
      ensures p < pos && Covered(s1, p)
    {
      var i: nat :| i < |s0| && B.Covers(s0[i], p);
      CoverStays(s0, s1, changed, at, i, p);
    }
  }

  lemma AnswerMore(spans: seq<B.Span>, calls: seq<int>, pos: int, more: bool)
    requires Answered(spans, calls, pos) && (more ==> Covered(spans, pos))
    ensures Answered(spans, calls + if more then [pos] else [], pos + 1)
  {
    hide Covered;
  }

  lemma AnsweredLater(spans: seq<B.Span>, calls: seq<int>, pos: int, later: int)
    requires Answered(spans, calls, pos) && pos <= later
    ensures Answered(spans, calls, later)
  {
    hide Covered;
  }

  lemma LaterVoices(voice: seq<VoiceEvent>, pos: int, later: int)
    requires Before(voice, pos) && pos <= later
    ensures Before(voice, later)
  {
  }

  lemma CreditBoth(all: seq<B.BroadcastWindow>, spans: seq<B.Span>, a: seq<VoiceEvent>, b: seq<VoiceEvent>)
    requires CreditedIn(all, spans, a) && CreditedIn(all, spans, b)
    ensures CreditedIn(all, spans, a + b)
  {
    hide Names;
  }

  // ---------------------------------------------------------------- the decoder

  /** Where the result of a call begins in the record of the whole run. */
  datatype Marks = Marks(tch: nat, voice: nat, started: nat)

  class StreamingDecoder {
    const reader: Reader
    const tracker: SlotTracker
    const broadcast: B.BroadcastTracker
    const smoother: VoiceSmoother
    var endedBacklog: seq<B.BroadcastWindow>
    /** The run so far: voice events, positions of verified starts, windows announced, reported as ended, given up. */
    ghost var voices: seq<VoiceEvent>
    ghost var calls: seq<int>
    ghost var announced: seq<B.BroadcastWindow>
    ghost var finished: seq<B.BroadcastWindow>
    ghost var abandoned: seq<B.BroadcastWindow>

    /** Voice: the bursts so far lie before `pos`, and the events are the decisions made. */
    ghost predicate Speaking(pos: int)
      reads `voices, smoother
    {
      && smoother.Valid() && !smoother.over && smoother.floor <= pos && smoother.win == 2
      && (smoother.all != [] ==> smoother.all[|smoother.all| - 1].pos < pos)
      && |smoother.decided| <= |smoother.all| && Said(voices) == smoother.decided
    }

    /** Windows: those reported are gone before `pos` and before all waiting bursts; voice and windows are in the books. */
    ghost predicate Tracking(pos: int)
      reads this, broadcast, broadcast.all, smoother
    {
      && broadcast.Valid() && broadcast.mark <= pos && |broadcast.all| == |broadcast.spans| && broadcast.targetUpdated == []
      && Backlog(broadcast.all, broadcast.spans, endedBacklog, pos)
      && GoneBy(broadcast.spans, IDs(finished), pos)
      && |smoother.decided| <= |smoother.all| && AllAfter(broadcast.spans, IDs(finished), smoother.Waiting())
      && CreditedIn(broadcast.all, broadcast.spans, voices)
      && Answered(broadcast.spans, calls, pos)
      && Ledger(broadcast.all, broadcast.spans, announced, finished, endedBacklog, abandoned)
    }

    /** No burst before `pos` will come. */
    ghost predicate Running(pos: int)
      reads this, broadcast, broadcast.all, smoother
    {
      Speaking(pos) && Tracking(pos)
    }

    lemma SpeaksOn(pos: int, later: int)
      requires Speaking(pos) && pos <= later
      ensures Speaking(later)
    {
      hide VoiceSmoother.Valid, Said;
    }

    /** IDs of all windows reported as ended. */
    ghost function Reported(): set<int>
      reads `finished
    {
      IDs(finished)
    }

    /** The result tells exactly the bursts, voice events and announcements since the marks. */
    ghost predicate Reporting(res: FeedResult, at: Marks)
      reads smoother, `voices, `announced
    {
      && at.tch <= |smoother.all| && res.tch == smoother.all[at.tch..]
      && at.voice <= |voices| && res.voice == voices[at.voice..]
      && at.started <= |announced| && res.started == announced[at.started..]
    }

    /** The position up to which all bursts have been handled. */
    ghost predicate Working()
      reads this, tracker, broadcast, broadcast.all, smoother
    {
      tracker.Valid() && Running(Finalized(|tracker.stream|))
    }

    ghost predicate Valid()
      reads this, tracker, broadcast, broadcast.all, smoother
    {
      && Working() && smoother.Recent(Finalized(|tracker.stream|))
      && Prompt(broadcast.spans, endedBacklog, Finalized(|tracker.stream|))
    }

    constructor (c: Config, reader: Reader)
      ensures Valid() && fresh(tracker) && fresh(broadcast) && fresh(smoother)
      ensures broadcast.all == [] && broadcast.spans == [] && broadcast.open == null
      ensures voices == [] && calls == [] && announced == finished == abandoned == []
      ensures smoother.all == [] && smoother.decided == []
      ensures tracker.stream == [] && tracker.emitted == [] && tracker.c == c && this.reader == reader
    {
      hide B.BroadcastTracker.Valid, VoiceSmoother.Valid, SlotTracker.Valid;
      this.reader := reader;
      tracker := new SlotTracker(c);
      broadcast := new B.BroadcastTracker(BACK);
      smoother := new VoiceSmoother(2, BACK);
      endedBacklog := [];
      voices, calls, announced, finished, abandoned := [], [], [], [], [];
    }

    /** A decided burst is credited to the window it lies in. */
    method AppendVoice(decided: seq<Decided>) returns (voice: seq<VoiceEvent>)
      requires broadcast.Valid()
      requires forall i | 0 <= i < |decided| :: GoneBy(broadcast.spans, Reported(), decided[i].burst.pos)
      ensures |voice| == |decided| && NoneOf(voice, Reported()) && Said(voice) == decided
      ensures forall e | e in voice :: Credited(broadcast.spans, broadcast.open != null, e)
    {
      hide GoneBy, IDs, Credited, B.BroadcastTracker.Valid;
      voice := [];
      var i := 0;
      while i < |decided|
        invariant 0 <= i <= |decided| && |voice| == i && NoneOf(voice, Reported())
        invariant forall j | 0 <= j < i :: voice[j].burst == decided[j].burst && voice[j].isVoice == decided[j].isVoice
        invariant forall e | e in voice :: Credited(broadcast.spans, broadcast.open != null, e)
      {
        var w := broadcast.WindowFor(decided[i].burst.pos);
        var id := if w != null then w.windowID else 0;
        NotReported(w, decided[i].burst.pos);
        CreditFound(w, VoiceEvent(decided[i].burst, decided[i].isVoice, id));
        voice := voice + [VoiceEvent(decided[i].burst, decided[i].isVoice, id)];
        i := i + 1;
      }
    }

    /** Naming the retained window that contains the burst is the right credit. */
    lemma CreditFound(w: B.BroadcastWindow?, e: VoiceEvent)
      requires broadcast.Valid() && e.windowID == if w != null then w.windowID else 0
      requires w != null ==> w in broadcast.Retained() && w.Contains(e.burst.pos)
      requires forall v | v in broadcast.Retained() && v.Contains(e.burst.pos) :: v == w
      ensures Credited(broadcast.spans, broadcast.open != null, e)
    {
      hide B.BroadcastTracker.Valid;
      SpansOf();
      forall i: nat | i < |broadcast.spans| && B.OldestKept(|broadcast.spans|, broadcast.open != null) <= i
                      && B.Covers(broadcast.spans[i], e.burst.pos)
        ensures e.windowID == i + 1
      {
        broadcast.PlaceOf(broadcast.all[i]);
        broadcast.PlaceIs(i);
        broadcast.RetainedAt(i);
      }
      if w != null {
        broadcast.RetainedPlace(w);
        broadcast.PlaceOf(w);
      }
    }

    /** A window that contains a position after all reported windows is not one of them. */
    lemma NotReported(w: B.BroadcastWindow?, pos: int)
      requires broadcast.Valid() && GoneBy(broadcast.spans, Reported(), pos)
      requires w != null ==> w in broadcast.all && w.Contains(pos)
      ensures w != null ==> w.windowID as int !in Reported()
      ensures 0 !in Reported()
    {
      hide IDs;
      if w != null {
        var i :| 0 <= i < |broadcast.all| && broadcast.all[i] == w;
        assert B.View(w) == broadcast.spans[i] && w.windowID == i + 1;
      }
    }

    /** All voice events so far are about bursts before `pos`. */
    lemma VoicesBefore(pos: int)
      requires Running(pos)
      ensures Before(voices, pos)
    {
      hide GoneBy, AllAfter, Backlog, IDs, CreditedIn, Answered, Ledger, B.BroadcastTracker.Valid, VoiceSmoother.Valid;
      smoother.DecidedBursts();
      forall e | e in voices
        ensures e.burst.pos < pos
      {
        var k :| 0 <= k < |voices| && voices[k] == e;
        assert Said(voices)[k].burst == e.burst;
        assert smoother.decided[k].burst == smoother.all[k];
      }
    }

    /** Windows of the tracker stand at the place their ID says. */
    lemma MembersOf(w: seq<B.BroadcastWindow>)
      requires broadcast.Valid() && forall x | x in w :: x in broadcast.all
      ensures |broadcast.all| == |broadcast.spans| && Members(broadcast.all, w)
      ensures forall x | x in w :: B.View(x) == broadcast.spans[x.windowID - 1]
    {
      hide B.BroadcastTracker.Valid;
      SpansOf();
      forall x | x in w
        ensures 1 <= x.windowID <= |broadcast.all| && broadcast.all[x.windowID - 1] == x
        ensures B.View(x) == broadcast.spans[x.windowID - 1]
      {
        broadcast.PlaceOf(x);
      }
    }

    /** The tracker sees a message; what was in order before stays so. */
    method Track(pos: int, m: B.Message) returns (changed: seq<B.BroadcastWindow>)
      requires Running(pos)
      modifies broadcast, broadcast.open
      ensures broadcast.Valid() && broadcast.mark == pos && |broadcast.all| == |broadcast.spans|
      ensures old(broadcast.all) <= broadcast.all
      ensures forall i | |old(broadcast.all)| <= i < |broadcast.all| :: fresh(broadcast.all[i])
      ensures broadcast.open == null || broadcast.open == old(broadcast.open) || fresh(broadcast.open)
      ensures B.Reports(old(broadcast.spans), broadcast.spans, B.Ids(changed), pos) && forall w | w in changed ::
        w in broadcast.all
      ensures forall i | |old(broadcast.spans)| <= i < |broadcast.spans| && broadcast.spans[i].ended ::
        broadcast.all[i].midJoin
      ensures Backlog(broadcast.all, broadcast.spans, endedBacklog, pos) && GoneBy(broadcast.spans, Reported(), pos)
      ensures AllAfter(broadcast.spans, Reported(), smoother.Waiting()) && CreditedIn(broadcast.all, broadcast.spans, voices)
      ensures B.StillOpen(changed) ==
        if broadcast.open == null || broadcast.open == old(broadcast.open) then [] else [broadcast.open]
      ensures !old(broadcast.Joins(pos, m) && broadcast.Releases(pos, m)) ==>
        B.Over(changed) == if old(broadcast.Ends(pos, m)) then [old(broadcast.open)] else []
      ensures old(broadcast.Joins(pos, m) && broadcast.Releases(pos, m)) ==> (
        && |broadcast.all| == |old(broadcast.all)| + 1 && broadcast.open == null
        && var w := broadcast.all[|old(broadcast.all)|];
           B.Over(changed) == [w, w])
      ensures old(broadcast.Retargets(pos, m)) ==> broadcast.open != null && broadcast.targetUpdated == [broadcast.open]
      ensures !old(broadcast.Retargets(pos, m)) ==> broadcast.targetUpdated == []
      ensures |broadcast.all| == |old(broadcast.all)| + if old(broadcast.Joins(pos, m) || broadcast.Begins(pos, m)) then 1 else 0
      ensures old(broadcast.Begins(pos, m)) ==> broadcast.open != null && broadcast.BegunBy(broadcast.open, pos, m)
      ensures Answered(broadcast.spans, calls + if m.crcOk && B.IsStart(m) then [pos] else [], pos + 1)
      ensures EndsAfter(old(broadcast.spans), broadcast.spans, pos)
    {
      hide GoneBy, AllAfter, Backlog, IDs, CreditedIn, Answered, Ledger, Said, Before, EndsAfter;
      hide B.Reports, B.Ids, B.StillOpen, B.Over;
      hide B.BroadcastTracker.Valid, B.BroadcastTracker.Joins, B.BroadcastTracker.Idles, B.BroadcastTracker.NewCall;
      hide B.BroadcastTracker.Confirms, B.BroadcastTracker.Remembered, B.BroadcastTracker.Since, B.BroadcastTracker.Joining;
      hide B.BroadcastTracker.Retargets, B.BroadcastTracker.Begins, B.BroadcastTracker.Ends, B.BroadcastTracker.Starts;
      hide B.BroadcastTracker.Releases, B.BroadcastTracker.BegunBy, B.BroadcastTracker.Refreshes, B.LateFrom;
      hide B.ClosedAt, B.Lists;
      hide B.TargetOf, B.GoodHeader, VoiceSmoother.Valid, Speaking;
      VoicesBefore(pos);
      ghost var all0, s0 := broadcast.all, broadcast.spans;
      changed := broadcast.OnControl(pos, m);
      SpansOf();
      if |broadcast.all| > |all0| {
        broadcast.PlaceOf(broadcast.all[|all0|]);
      }
      Carried(all0, broadcast.all, s0, broadcast.spans, B.Ids(changed), pos, pos, endedBacklog, Reported(),
              smoother.Waiting(), voices);
      AnsweredStays(s0, broadcast.spans, B.Ids(changed), pos, calls, pos);
      ReportsAfter(s0, broadcast.spans, B.Ids(changed), pos);
      if m.crcOk && B.IsStart(m) {
        OpenCovers();
      }
      AnswerMore(broadcast.spans, calls, pos, m.crcOk && B.IsStart(m));
    }

    /** The window still open covers the latest position. */
    lemma OpenCovers()
      requires broadcast.Valid() && broadcast.open != null
      ensures Covered(broadcast.spans, broadcast.mark)
    {
      hide B.BroadcastTracker.Valid;
      broadcast.OpenIsLast();
      broadcast.OpenFrom();
      broadcast.PlaceOf(broadcast.open);
      assert B.Covers(broadcast.spans[broadcast.open.windowID - 1], broadcast.mark);
    }

    /**
      One control message: a window it leaves open is announced at once, the ended ones wait.  Each is
      mentioned once, unless the message joins a broadcast late and releases it.
      */
    method DecodeControl(pos: int, m: B.Message, res: FeedResult, ghost at: Marks) returns (r: FeedResult)
      requires Running(pos) && Reporting(res, at)
      modifies `endedBacklog, `calls, `announced, broadcast, broadcast.open
      ensures Running(pos + 1) && Reporting(r, at) && old(broadcast.all) <= broadcast.all
      ensures forall i | |old(broadcast.all)| <= i < |broadcast.all| :: fresh(broadcast.all[i])
      ensures broadcast.open == null || broadcast.open == old(broadcast.open) || fresh(broadcast.open)
      ensures r.voice == res.voice && r.tch == res.tch && r.ended == res.ended && r.control == res.control + [(pos, m)]
      ensures announced == old(announced)
                           + if broadcast.open == null || broadcast.open == old(broadcast.open) then [] else [broadcast.open]
      ensures !old(broadcast.Joins(pos, m) && broadcast.Releases(pos, m)) ==>
        endedBacklog == old(endedBacklog) + if old(broadcast.Ends(pos, m)) then [old(broadcast.open)] else []
      ensures old(broadcast.Joins(pos, m) && broadcast.Releases(pos, m)) ==> (
        && |broadcast.all| == |old(broadcast.all)| + 1 && announced == old(announced)
        && var w := broadcast.all[|old(broadcast.all)|];
           endedBacklog == old(endedBacklog) + [w, w])
      ensures old(broadcast.Retargets(pos, m)) ==> broadcast.open != null && r.updated == res.updated + [broadcast.open]
      ensures !old(broadcast.Retargets(pos, m)) ==> r.updated == res.updated
      ensures |broadcast.all| == |old(broadcast.all)| + if old(broadcast.Joins(pos, m) || broadcast.Begins(pos, m)) then 1 else 0
      ensures old(broadcast.Begins(pos, m)) ==> broadcast.open != null && broadcast.BegunBy(broadcast.open, pos, m)
      ensures calls == old(calls) + if m.crcOk && B.IsStart(m) then [pos] else []
      ensures EndsAfter(old(broadcast.spans), broadcast.spans, pos)
    {
      hide GoneBy, AllAfter, Backlog, IDs, CreditedIn, Answered, Ledger, B.Reports, B.Ids, B.StillOpen, B.Over;
      hide B.BroadcastTracker.Valid, Speaking, Tracking, EndsAfter;
      SpeaksOn(pos, pos + 1);
      TrackingParts(pos);
      r := res.(control := res.control + [(pos, m)]);
      ghost var all0, s0 := broadcast.all, broadcast.spans;
      var changed := Track(pos, m);
      r := HandOut(changed, pos, r, at, all0, s0, if m.crcOk && B.IsStart(m) then [pos] else []);
    }

    lemma TrackingParts(pos: int)
      requires Tracking(pos)
      ensures |broadcast.all| == |broadcast.spans| && |smoother.decided| <= |smoother.all|
      ensures Ledger(broadcast.all, broadcast.spans, announced, finished, endedBacklog, abandoned)
    {
      hide GoneBy, AllAfter, Backlog, IDs, CreditedIn, Answered, Ledger, B.BroadcastTracker.Valid;
    }

    /** The windows a message changed are handed out, and the books are kept. */
    method HandOut(changed: seq<B.BroadcastWindow>, pos: int, res: FeedResult, ghost at: Marks,
                   ghost all0: seq<B.BroadcastWindow>, ghost s0: seq<B.Span>, ghost called: seq<int>) returns (r: FeedResult)
      requires broadcast.Valid() && broadcast.mark == pos && |broadcast.all| == |broadcast.spans| && all0 <= broadcast.all
      requires B.Reports(s0, broadcast.spans, B.Ids(changed), pos) && forall w | w in changed :: w in broadcast.all
      requires forall i | |s0| <= i < |broadcast.spans| && broadcast.spans[i].ended :: broadcast.all[i].midJoin
      requires Backlog(broadcast.all, broadcast.spans, endedBacklog, pos) && GoneBy(broadcast.spans, Reported(), pos)
      requires AllAfter(broadcast.spans, Reported(), smoother.Waiting()) && |smoother.decided| <= |smoother.all|
      requires CreditedIn(broadcast.all, broadcast.spans, voices) && Answered(broadcast.spans, calls + called, pos + 1)
      requires Ledger(all0, s0, announced, finished, endedBacklog, abandoned) && Reporting(res, at)
      modifies `endedBacklog, `calls, `announced, broadcast`targetUpdated
      ensures Tracking(pos + 1) && Reporting(r, at)
      ensures r == res.(started := r.started, updated := res.updated + old(broadcast.targetUpdated))
      ensures announced == old(announced) + B.StillOpen(changed) && calls == old(calls) + called
      ensures endedBacklog == old(endedBacklog) + B.Over(changed)
    {
      hide GoneBy, AllAfter, Backlog, IDs, CreditedIn, Answered, Ledger, B.Reports, B.Ids, B.StillOpen, B.Over;
      hide B.BroadcastTracker.Valid;
      ghost var w0 := endedBacklog;
      GoneLater(broadcast.spans, Reported(), pos, pos + 1);
      BacklogLater(broadcast.all, broadcast.spans, endedBacklog, pos, pos + 1);
      EndedBefore(s0, changed, pos);
      r := Distribute(changed, pos, res);
      Booked(all0, s0, changed, pos, w0);
      Tails(announced, B.StillOpen(changed), at.started);
      announced := announced + B.StillOpen(changed);
      calls := calls + called;
      var u := broadcast.TakeUpdates();
      r := r.(updated := r.updated + u);
    }

    /** Windows that a message ended have ended by now. */
    lemma EndedBefore(s0: seq<B.Span>, changed: seq<B.BroadcastWindow>, pos: int)
      requires broadcast.Valid() && B.Reports(s0, broadcast.spans, B.Ids(changed), pos) && forall w | w in changed ::
        w in broadcast.all
      ensures forall k | 0 <= k < |changed| && changed[k].closed :: changed[k].closePos <= pos
    {
      hide B.Reports, B.Ids, B.BroadcastTracker.Valid;
      forall k | 0 <= k < |changed| && changed[k].closed
        ensures changed[k].closePos <= pos
      {
        EndedAt(s0, broadcast.spans, changed, pos, k);
        broadcast.PlaceOf(changed[k]);
      }
    }

    /** The books after a message whose windows have been handed out. */
    lemma Booked(all0: seq<B.BroadcastWindow>, s0: seq<B.Span>, changed: seq<B.BroadcastWindow>, pos: int,
                 w0: seq<B.BroadcastWindow>)
      requires broadcast.Valid() && Ledger(all0, s0, announced, finished, w0, abandoned) && all0 <= broadcast.all
      requires B.Reports(s0, broadcast.spans, B.Ids(changed), pos) && forall w | w in changed :: w in broadcast.all
      requires |broadcast.all| == |broadcast.spans|
      requires forall i | |s0| <= i < |broadcast.spans| && broadcast.spans[i].ended :: broadcast.all[i].midJoin
      ensures Ledger(broadcast.all, broadcast.spans, announced + B.StillOpen(changed), finished, w0 + B.Over(changed), abandoned)
    {
      hide Ledger, B.Reports, B.Ids, B.StillOpen, B.Over, B.BroadcastTracker.Valid;
      var begun, over := B.StillOpen(changed), B.Over(changed);
      B.PartsCount(changed);
      MembersOf(begun);
      MembersOf(over);
      LedgerMessage(all0, broadcast.all, s0, broadcast.spans, changed, pos, begun, over, announced, finished, w0, abandoned);
    }

    /** Windows still open go to the result, the others to the backlog. */
    method Distribute(changed: seq<B.BroadcastWindow>, ghost pos: int, res: FeedResult) returns (r: FeedResult)
      requires broadcast.Valid() && |broadcast.all| == |broadcast.spans| && forall w | w in changed :: w in broadcast.all
      requires forall k | 0 <= k < |changed| && changed[k].closed :: changed[k].closePos <= pos
      requires Backlog(broadcast.all, broadcast.spans, endedBacklog, pos + 1)
      modifies `endedBacklog
      ensures Backlog(broadcast.all, broadcast.spans, endedBacklog, pos + 1)
      ensures endedBacklog == old(endedBacklog) + B.Over(changed)
      ensures r == res.(started := res.started + B.StillOpen(changed))
    {
      hide Backlog, B.StillOpen, B.Over, B.BroadcastTracker.Valid;
      B.NoneOpen();
      r := res;
      var i := 0;
      while i < |changed|
        invariant 0 <= i <= |changed| && Backlog(broadcast.all, broadcast.spans, endedBacklog, pos + 1)
        invariant endedBacklog == old(endedBacklog) + B.Over(changed[..i])
        invariant r == res.(started := res.started + B.StillOpen(changed[..i]))
      {
        var w := changed[i];
        broadcast.PlaceOf(w);
        assert changed[..i + 1] == changed[..i] + [w];
        B.PartsSnoc(changed[..i], w);
        if w.closed {
          BacklogSnoc(broadcast.all, broadcast.spans, endedBacklog, w, pos + 1);
          endedBacklog := endedBacklog + [w];
        } else {
          r := r.(started := r.started + [w]);
        }
        i := i + 1;
      }
      assert changed[..i] == changed;
    }

    lemma SpansOf()
      requires broadcast.Valid()
      ensures |broadcast.all| == |broadcast.spans|
    {
    }

    /** The smoother takes a burst; all votes it settles are about bursts after the reported windows. */
    method Settle(b: TchBurst) returns (decided: seq<Decided>)
      requires Running(b.pos)
      modifies smoother
      ensures Said(voices) + decided == smoother.decided && smoother.all == old(smoother.all) + [b]
      ensures smoother.Valid() && !smoother.over && smoother.floor == b.pos && |smoother.decided| <= |smoother.all|
      ensures AllAfter(broadcast.spans, Reported(), smoother.Waiting())
      ensures forall i | 0 <= i < |decided| :: GoneBy(broadcast.spans, Reported(), decided[i].burst.pos)
    {
      hide GoneBy, AllAfter, Backlog, IDs, CreditedIn, Answered, Ledger, Said, Sound;
      hide B.BroadcastTracker.Valid, VoiceSmoother.Valid;
      ghost var spans, d0, all0 := broadcast.spans, |smoother.decided|, smoother.all;
      AfterSnoc(spans, Reported(), smoother.Waiting(), b);
      decided := smoother.Push(b);
      Tails(all0, [b], d0);
      smoother.DecidedBursts();
      AfterSplit(spans, Reported(), smoother.all, smoother.decided, d0, decided);
    }

    /** One traffic burst; the votes it settles are emitted. */
    method PushVoice(b: TchBurst, res: FeedResult, ghost at: Marks) returns (r: FeedResult)
      requires Running(b.pos) && Reporting(res, at)
      modifies smoother, `voices
      ensures Running(b.pos + 1) && Reporting(r, at)
      ensures r == res.(tch := res.tch + [b], voice := r.voice) && smoother.all == old(smoother.all) + [b]
      ensures old(voices) <= voices && forall k | |old(voices)| <= k < |voices| ::
        Credited(broadcast.spans, broadcast.open != null, voices[k])
      ensures NoneOf(res.voice, Reported()) ==> NoneOf(r.voice, Reported())
    {
      hide GoneBy, AllAfter, Backlog, IDs, CreditedIn, Answered, Ledger, Said, Credited, NoneOf;
      hide B.BroadcastTracker.Valid, VoiceSmoother.Valid;
      ghost var v0 := voices;
      Tails(smoother.all, [b], at.tch);
      GoneLater(broadcast.spans, Reported(), b.pos, b.pos + 1);
      BacklogLater(broadcast.all, broadcast.spans, endedBacklog, b.pos, b.pos + 1);
      AnsweredLater(broadcast.spans, calls, b.pos, b.pos + 1);
      r := res.(tch := res.tch + [b]);
      var decided := Settle(b);
      r := EmitVoice(decided, r);
      Tails(v0, voices[|v0|..], at.voice);
      assert voices == v0 + voices[|v0|..];
    }

    /** Voice events for bursts just decided, each credited to the window it lies in. */
    method EmitVoice(decided: seq<Decided>, res: FeedResult) returns (r: FeedResult)
      requires broadcast.Valid() && CreditedIn(broadcast.all, broadcast.spans, voices)
      requires forall i | 0 <= i < |decided| :: GoneBy(broadcast.spans, Reported(), decided[i].burst.pos)
      modifies `voices
      ensures old(voices) <= voices && Said(voices) == Said(old(voices)) + decided
      ensures r == res.(voice := res.voice + voices[|old(voices)|..])
      ensures forall k | |old(voices)| <= k < |voices| :: Credited(broadcast.spans, broadcast.open != null, voices[k])
      ensures CreditedIn(broadcast.all, broadcast.spans, voices)
      ensures NoneOf(res.voice, Reported()) ==> NoneOf(r.voice, Reported())
    {
      hide GoneBy, NoneOf, Said, IDs, Credited, CreditedIn, B.BroadcastTracker.Valid;
      var v := AppendVoice(decided);
      NoneOfBoth(res.voice, v, Reported());
      SaidBoth(voices, v);
      SpansOf();
      CreditedNames(broadcast.all, broadcast.spans, broadcast.open != null, v);
      CreditBoth(broadcast.all, broadcast.spans, voices, v);
      r := res.(voice := res.voice + v);
      voices := voices + v;
    }

    /** The smoother decides what no burst from `pos` on can change. */
    method SettleUntil(pos: int) returns (decided: seq<Decided>)
      requires Running(pos)
      modifies smoother
      ensures Said(voices) + decided == smoother.decided && smoother.all == old(smoother.all) && smoother.Recent(pos)
      ensures smoother.Valid() && !smoother.over && smoother.floor == pos && |smoother.decided| <= |smoother.all|
      ensures AllAfter(broadcast.spans, Reported(), smoother.Waiting())
      ensures forall i | 0 <= i < |decided| :: GoneBy(broadcast.spans, Reported(), decided[i].burst.pos)
    {
      hide GoneBy, AllAfter, Backlog, IDs, CreditedIn, Answered, Ledger, Said, Sound, VoiceSmoother.Recent;
      hide B.BroadcastTracker.Valid, VoiceSmoother.Valid;
      ghost var spans, d0 := broadcast.spans, |smoother.decided|;
      decided := smoother.Release(pos);
      smoother.DecidedBursts();
      AfterSplit(spans, Reported(), smoother.all, smoother.decided, d0, decided);
    }

    /** Emits every vote that no burst from `pos` on can change. */
    method ReleaseVoice(pos: int, res: FeedResult, ghost at: Marks) returns (r: FeedResult)
      requires Running(pos) && Reporting(res, at)
      modifies smoother, `voices
      ensures Running(pos) && Reporting(r, at)
      ensures r == res.(voice := r.voice) && smoother.all == old(smoother.all)
      ensures old(voices) <= voices
      ensures forall k | |old(voices)| <= k < |voices| :: Credited(broadcast.spans, broadcast.open != null, voices[k])
      ensures NoneOf(res.voice, Reported()) ==> NoneOf(r.voice, Reported())
      ensures smoother.Recent(pos)
    {
      hide GoneBy, AllAfter, Backlog, IDs, CreditedIn, Answered, Ledger, Said, Credited, NoneOf, VoiceSmoother.Recent;
      hide B.BroadcastTracker.Valid, VoiceSmoother.Valid;
      ghost var v0 := voices;
      var decided := SettleUntil(pos);
      r := EmitVoice(decided, res);
      Tails(v0, voices[|v0|..], at.voice);
      assert voices == v0 + voices[|v0|..];
    }

    /** Positions move on. */
    lemma RunsOn(pos: int, later: int)
      requires Running(pos) && pos <= later
      ensures Running(later)
    {
      hide GoneBy, AllAfter, Backlog, Said, IDs, CreditedIn, Answered, Ledger, B.BroadcastTracker.Valid, VoiceSmoother.Valid;
      GoneLater(broadcast.spans, Reported(), pos, later);
      BacklogLater(broadcast.all, broadcast.spans, endedBacklog, pos, later);
      AnsweredLater(broadcast.spans, calls, pos, later);
    }

    /** One detected burst. */
    method HandleBurst(b: Burst, res: FeedResult, ghost at: Marks) returns (r: FeedResult)
      requires Running(b.pos) && Reporting(res, at)
      modifies `endedBacklog, `voices, `calls, `announced, smoother, broadcast, broadcast.open
      ensures smoother.all == old(smoother.all) + TrafficOne(reader, b) && r.control == res.control + ControlOne(reader, b)
      ensures Running(b.pos + 1) && Reporting(r, at) && r.ended == res.ended && old(broadcast.all) <= broadcast.all
      ensures calls == old(calls) + CallOne(reader, b)
      ensures old(voices) <= voices && old(announced) <= announced
      ensures forall k | |old(voices)| <= k < |voices| :: Credited(broadcast.spans, broadcast.open != null, voices[k])
      ensures forall i | |old(broadcast.all)| <= i < |broadcast.all| :: fresh(broadcast.all[i])
      ensures broadcast.open == null || broadcast.open == old(broadcast.open) || fresh(broadcast.open)
      ensures NoneOf(res.voice, Reported()) ==> NoneOf(r.voice, Reported())
      ensures EndsAfter(old(broadcast.spans), broadcast.spans, b.pos)
    {
      hide NoneOf, Running, IDs, Credited, EndsAfter;
      NothingAfter(broadcast.spans, b.pos);
      r := res;
      RunsOn(b.pos, b.pos + 1);
      if b.which != S3 {
        var m := reader.controlOf(b);
        if m.Some? {
          r := DecodeControl(b.pos, m.value, res, at);
        }
        return;
      }
      var t := reader.trafficOf(b);
      if t.None? { return; }
      if t.value.facch {
        if t.value.message.Some? {
          r := res.(control := res.control + [(b.pos, t.value.message.value)]);
        }
        return;
      }
      r := PushVoice(TchBurst(b.pos, t.value.voice), res, at);
    }

    /** All bursts of one call, in order. */
    method HandleBursts(bursts: seq<Burst>, ghost lo: int, ghost hi: int, res: FeedResult, ghost at: Marks)
      returns (r: FeedResult)
      requires Running(lo) && lo <= hi && Separated(bursts, lo, hi) && Reporting(res, at)
      modifies `endedBacklog, `voices, `calls, `announced, smoother, broadcast, broadcast.open
      ensures smoother.all == old(smoother.all) + TrafficIn(reader, bursts)
      ensures r.control == res.control + ControlIn(reader, bursts)
      ensures Running(hi) && Reporting(r, at) && r.ended == res.ended && old(broadcast.all) <= broadcast.all
      ensures calls == old(calls) + CallsIn(reader, bursts)
      ensures old(voices) <= voices && old(announced) <= announced
      ensures forall i | |old(broadcast.all)| <= i < |broadcast.all| :: fresh(broadcast.all[i])
      ensures broadcast.open == null || broadcast.open == old(broadcast.open) || fresh(broadcast.open)
      ensures NoneOf(res.voice, Reported()) ==> NoneOf(r.voice, Reported())
      ensures EndsAfter(old(broadcast.spans), broadcast.spans, lo)
    {
      hide NoneOf, Running, Reporting, TrafficOne, ControlOne, CallOne, TrafficIn, ControlIn, CallsIn, IDs, EndsAfter;
      NothingCarried(reader);
      NothingAfter(broadcast.spans, lo);
      r := res;
      ghost var pos := lo;
      var i := 0;
      while i < |bursts|
        invariant 0 <= i <= |bursts| && lo <= pos <= hi && Running(pos)
        invariant forall j | i <= j < |bursts| :: pos <= bursts[j].pos
        invariant r.ended == res.ended && old(broadcast.all) <= broadcast.all
        invariant old(voices) <= voices && old(announced) <= announced
        invariant forall i | |old(broadcast.all)| <= i < |broadcast.all| :: fresh(broadcast.all[i])
        invariant broadcast.open == old(broadcast.open) || broadcast.open == null || fresh(broadcast.open)
        invariant NoneOf(res.voice, Reported()) ==> NoneOf(r.voice, Reported())
        invariant Reporting(r, at) && EndsAfter(old(broadcast.spans), broadcast.spans, lo)
        invariant smoother.all == old(smoother.all) + TrafficIn(reader, bursts[..i])
        invariant r.control == res.control + ControlIn(reader, bursts[..i])
        invariant calls == old(calls) + CallsIn(reader, bursts[..i])
      {
        assert bursts[..i + 1] == bursts[..i] + [bursts[i]];
        CarriedSnoc(reader, bursts[..i], bursts[i]);
        RunsOn(pos, bursts[i].pos);
        ghost var before := broadcast.spans;
        r := HandleBurst(bursts[i], r, at);
        AfterBoth(old(broadcast.spans), before, broadcast.spans, lo, bursts[i].pos);
        pos := bursts[i].pos + 1;
        i := i + 1;
      }
      assert bursts[..i] == bursts;
      RunsOn(pos, hi);
    }

    /** Reports the ended windows that no voice burst can reach any more, and no others. */
    method ReleaseEnded(res: FeedResult) returns (r: FeedResult)
      requires Working() && smoother.Recent(Finalized(|tracker.stream|))
      modifies `endedBacklog, `finished
      ensures Valid() && r == res.(ended := r.ended) && res.ended <= r.ended
      ensures finished == old(finished) + r.ended[|res.ended|..]
      ensures forall w | w in r.ended[|res.ended|..] :: !MustWait(w.closePos, Finalized(|tracker.stream|), smoother.Waiting())
      ensures forall w | w in endedBacklog :: MustWait(w.closePos, Finalized(|tracker.stream|), smoother.Waiting())
      ensures forall w | w in endedBacklog :: Finalized(|tracker.stream|) <= w.closePos + LONGEST_WAIT
      ensures Parted(old(endedBacklog), r.ended[|res.ended|..], endedBacklog)
    {
      hide GoneBy, AllAfter, Backlog, IDs, CreditedIn, Answered, Ledger, Said, Parted, Members, Prompt, MustWait;
      hide VoiceSmoother.Recent;
      hide B.BroadcastTracker.Valid, VoiceSmoother.Valid, SlotTracker.Valid;
      var watermark := Watermark();
      ghost var spans, final := broadcast.spans, Finalized(|tracker.stream|);
      WatermarkDecides(watermark);
      var out, keep := SplitEnded(watermark, final);
      LedgerRelease(broadcast.all, spans, announced, finished, endedBacklog, abandoned, out, keep);
      GoneAll(spans, Reported(), IDs(out), watermark, final, smoother.Waiting());
      IDsBoth(finished, out);
      KeptPrompt(keep, watermark, final);
      endedBacklog := keep;
      r := res.(ended := res.ended + out);
      assert r.ended[|res.ended|..] == out;
      finished := finished + out;
    }

    lemma WatermarkDecides(watermark: int)
      requires watermark <= Finalized(|tracker.stream|) && forall b | b in smoother.Waiting() :: watermark <= b.pos
      requires watermark == Finalized(|tracker.stream|) || exists b | b in smoother.Waiting() :: b.pos == watermark
      ensures forall to :: MustWait(to, Finalized(|tracker.stream|), smoother.Waiting()) <==> to >= watermark
    {
    }

    /** What stays behind the watermark is recent. */
    lemma KeptPrompt(keep: seq<B.BroadcastWindow>, watermark: int, now: int)
      requires broadcast.Valid() && |broadcast.all| == |broadcast.spans| && Backlog(broadcast.all, broadcast.spans, keep, now)
      requires now <= watermark + Horizon(2) && forall w | w in keep :: w.closePos >= watermark
      ensures Prompt(broadcast.spans, keep, now)
    {
      hide B.BroadcastTracker.Valid;
      forall x | x in keep
        ensures 1 <= x.windowID <= |broadcast.spans| && broadcast.spans[x.windowID - 1].ended
        ensures now <= broadcast.spans[x.windowID - 1].to + Horizon(2)
      {
        var k :| 0 <= k < |keep| && keep[k] == x;
        assert Listed(broadcast.all, broadcast.spans, keep[k]);
        broadcast.PlaceOf(x);
      }
    }

    /** The earliest position that can still matter: the finalized one, or that of a waiting burst. */
    method Watermark() returns (watermark: int)
      requires Working() && smoother.Recent(Finalized(|tracker.stream|))
      ensures watermark <= Finalized(|tracker.stream|) && forall b | b in smoother.Waiting() :: watermark <= b.pos
      ensures watermark == Finalized(|tracker.stream|) || exists b | b in smoother.Waiting() :: b.pos == watermark
      ensures Finalized(|tracker.stream|) <= watermark + Horizon(2)
    {
      hide GoneBy, AllAfter, Backlog, IDs, CreditedIn, Answered, Ledger, Said;
      hide B.BroadcastTracker.Valid, VoiceSmoother.Valid, SlotTracker.Valid;
      watermark := tracker.FinalizedPos();
      var p, ok := smoother.OldestPendingPos();
      if ok {
        assert smoother.Waiting()[0] in smoother.Waiting() && smoother.Waiting()[0] == smoother.all[|smoother.decided|];
        if p < watermark {
          watermark := p;
        }
      }
    }

    /** Parts the backlog at the watermark. */
    method SplitEnded(watermark: int, ghost final: int) returns (out: seq<B.BroadcastWindow>, keep: seq<B.BroadcastWindow>)
      requires broadcast.Valid() && Backlog(broadcast.all, broadcast.spans, endedBacklog, final)
      ensures Backlog(broadcast.all, broadcast.spans, keep, final) && GoneBy(broadcast.spans, IDs(out), watermark)
      ensures Parted(endedBacklog, out, keep) && Members(broadcast.all, out) && Members(broadcast.all, keep)
      ensures (forall w | w in out :: w.closePos < watermark) && forall w | w in keep :: w.closePos >= watermark
    {
      hide GoneBy, IDs, Parted, B.BroadcastTracker.Valid;
      keep, out := [], [];
      NothingGone(broadcast.spans, watermark);
      NothingParted();
      var i := 0;
      while i < |endedBacklog|
        invariant 0 <= i <= |endedBacklog|
        invariant Backlog(broadcast.all, broadcast.spans, keep, final) && GoneBy(broadcast.spans, IDs(out), watermark)
        invariant Parted(endedBacklog[..i], out, keep) && Members(broadcast.all, out) && Members(broadcast.all, keep)
        invariant (forall w | w in out :: w.closePos < watermark) && forall w | w in keep :: w.closePos >= watermark
      {
        var w := endedBacklog[i];
        assert Listed(broadcast.all, broadcast.spans, w);
        broadcast.PlaceOf(w);
        assert endedBacklog[..i + 1] == endedBacklog[..i] + [w];
        PartedSnoc(endedBacklog[..i], out, keep, w);
        if w.closePos < watermark {
          IDsSnoc(broadcast.spans, out, w, watermark);
          out := out + [w];
        } else {
          keep := keep + [w];
        }
        i := i + 1;
      }
      assert endedBacklog[..i] == endedBacklog;
    }

    /** The bursts that more samples decide, and the votes that are settled then. */
    method Decide(mf: seq<Sample>, ghost at: Marks) returns (r: FeedResult)
      requires Working() && at == Marks(|smoother.all|, |voices|, |announced|)
      modifies `endedBacklog, `voices, `calls, `announced, tracker, smoother, broadcast, broadcast.open
      ensures Working() && smoother.Recent(Finalized(|tracker.stream|)) && Reporting(r, at) && r.ended == []
      ensures tracker.stream == old(tracker.stream) + mf
      ensures old(broadcast.all) <= broadcast.all
      ensures forall i | |old(broadcast.all)| <= i < |broadcast.all| :: fresh(broadcast.all[i])
      ensures broadcast.open == null || broadcast.open == old(broadcast.open) || fresh(broadcast.open)
      ensures old(voices) <= voices && old(announced) <= announced && NoneOf(r.voice, Reported())
      ensures smoother.all == old(smoother.all) + r.tch && old(tracker.emitted) <= tracker.emitted
      ensures var b := tracker.emitted[|old(tracker.emitted)|..];
        r.tch == TrafficIn(reader, b) && r.control == ControlIn(reader, b) && calls == old(calls) + CallsIn(reader, b)
      ensures EndsAfter(old(broadcast.spans), broadcast.spans, Finalized(|old(tracker.stream)|))
    {
      hide NoneOf, Running, SlotTracker.Valid, TrafficIn, ControlIn, CallsIn, IDs, Credited, CreditedIn, EndsAfter;
      NothingSaid(Reported());
      assert smoother.all[at.tch..] == [] && voices[at.voice..] == [] && announced[at.started..] == [];
      ghost var lo := Finalized(|tracker.stream|);
      var bursts := tracker.Process(mf);
      assert tracker.emitted[|old(tracker.emitted)|..] == bursts;
      ghost var hi := Finalized(|tracker.stream|);
      r := HandleBursts(bursts, lo, hi, NOTHING, at);
      var f := tracker.FinalizedPos();
      r := ReleaseVoice(f, r, at);
    }

    /** The next samples. Windows reported before own none of the voice events. */
    method Feed(mf: seq<Sample>) returns (r: FeedResult)
      requires Valid()
      modifies this, tracker, smoother, broadcast, broadcast.open
      ensures Valid() && tracker.stream == old(tracker.stream) + mf
      ensures old(broadcast.all) <= broadcast.all
      ensures forall i | |old(broadcast.all)| <= i < |broadcast.all| :: fresh(broadcast.all[i])
      ensures broadcast.open == null || broadcast.open == old(broadcast.open) || fresh(broadcast.open)
      ensures voices == old(voices) + r.voice && announced == old(announced) + r.started
      ensures finished == old(finished) + r.ended && abandoned == old(abandoned)
      ensures NoneOf(r.voice, old(Reported())) && CreditedIn(broadcast.all, broadcast.spans, r.voice)
      ensures smoother.all == old(smoother.all) + r.tch && old(tracker.emitted) <= tracker.emitted
      ensures var b := tracker.emitted[|old(tracker.emitted)|..];
        r.tch == TrafficIn(reader, b) && r.control == ControlIn(reader, b) && calls == old(calls) + CallsIn(reader, b)
      ensures EndsAfter(old(broadcast.spans), broadcast.spans, Finalized(|old(tracker.stream)|))
      ensures |mf| > 0 ==> forall w | w in r.ended :: !MustWait(w.closePos, Finalized(|tracker.stream|), smoother.Waiting())
      ensures |mf| > 0 ==> forall w | w in endedBacklog :: MustWait(w.closePos, Finalized(|tracker.stream|), smoother.Waiting())
      ensures |mf| > 0 ==> forall w | w in endedBacklog :: Finalized(|tracker.stream|) <= w.closePos + LONGEST_WAIT
    {
      hide NoneOf, Running, SlotTracker.Valid, TrafficIn, ControlIn, CallsIn, IDs, CreditedIn, EndsAfter, Prompt;
      if |mf| == 0 {
        r := NOTHING;
        NothingSaid(Reported());
        NothingCarried(reader);
        NothingAfter(broadcast.spans, Finalized(|tracker.stream|));
        CreditedPart([]);
        assert old(tracker.stream) + mf == old(tracker.stream);
        assert tracker.emitted[|tracker.emitted|..] == [];
        return;
      }
      r := Decide(mf, Marks(|smoother.all|, |voices|, |announced|));
      r := ReleaseEnded(r);
      assert r.ended[0..] == r.ended;
      CreditedPart(r.voice);
    }

    lemma CreditedPart(v: seq<VoiceEvent>)
      requires Valid() && forall e | e in v :: e in voices
      ensures CreditedIn(broadcast.all, broadcast.spans, v)
    {
      hide GoneBy, AllAfter, Backlog, IDs, Answered, Ledger, Said, Names, B.BroadcastTracker.Valid, VoiceSmoother.Valid;
      hide SlotTracker.Valid;
    }

    /** End of the stream: everything left is decided and reported. */
    method Flush() returns (r: FeedResult)
      requires Valid()
      modifies smoother, `endedBacklog, `finished, `voices
      ensures smoother.Valid() && smoother.over && broadcast.Valid() && endedBacklog == []
      ensures r == NOTHING.(voice := r.voice, ended := old(endedBacklog))
      ensures voices == old(voices) + r.voice && finished == old(finished) + r.ended && smoother.all == old(smoother.all)
      ensures NoneOf(r.voice, old(Reported()))
      ensures Said(voices) == Offline(2, smoother.all) && CreditedIn(broadcast.all, broadcast.spans, voices)
      ensures Answered(broadcast.spans, calls, Finalized(|tracker.stream|)) && calls == old(calls)
      ensures Ledger(broadcast.all, broadcast.spans, announced, finished, [], abandoned)
    {
      hide GoneBy, AllAfter, Backlog, IDs, Offline, CreditedIn, Answered, Ledger, Said, Credited, NoneOf;
      hide B.BroadcastTracker.Valid, VoiceSmoother.Valid, SlotTracker.Valid;
      var decided := SettleAll();
      NothingSaid(Reported());
      r := EmitVoice(decided, NOTHING);
      LedgerFlush(broadcast.all, broadcast.spans, announced, finished, endedBacklog, abandoned);
      r := r.(ended := endedBacklog);
      finished := finished + endedBacklog;
      endedBacklog := [];
    }

    /** The smoother settles everything. */
    method SettleAll() returns (decided: seq<Decided>)
      requires Valid()
      modifies smoother
      ensures smoother.Valid() && smoother.over && smoother.all == old(smoother.all)
      ensures Said(voices) + decided == smoother.decided == Offline(2, smoother.all)
      ensures forall i | 0 <= i < |decided| :: GoneBy(broadcast.spans, Reported(), decided[i].burst.pos)
    {
      hide GoneBy, AllAfter, Backlog, IDs, CreditedIn, Answered, Ledger, Said, Offline;
      hide B.BroadcastTracker.Valid, VoiceSmoother.Valid, SlotTracker.Valid;
      ghost var spans, d0 := broadcast.spans, |smoother.decided|;
      decided := smoother.Flush();
      smoother.DecidedBursts();
      AfterSplit(spans, Reported(), smoother.all, smoother.decided, d0, decided);
    }

    /** After any call, what is reported is timely. */
    lemma TimelyAfter()
      requires Valid()
      ensures Timely(broadcast.all, broadcast.spans, Finalized(|tracker.stream|), finished, abandoned)
      ensures |broadcast.all| == |broadcast.spans|
    {
      hide GoneBy, AllAfter, Backlog, IDs, CreditedIn, Answered, Ledger, Said, Prompt, Timely;
      hide B.BroadcastTracker.Valid, VoiceSmoother.Valid, SlotTracker.Valid;
      TimelyNow(broadcast.all, broadcast.spans, announced, finished, endedBacklog, abandoned, Finalized(|tracker.stream|));
    }

    lemma EmittedBursts()
      requires Valid()
      ensures tracker.emitted == Bursts(tracker.c, tracker.stream)
    {
      tracker.EmittedIs();
    }

    /** The operator gives up the current broadcast. */
    method ResetBroadcast() returns (w: B.BroadcastWindow?)
      requires Valid()
      modifies broadcast, broadcast.open, `abandoned
      ensures Valid() && w == old(broadcast.open) && broadcast.open == null && broadcast.all == old(broadcast.all)
      ensures abandoned == old(abandoned) + if w == null then [] else [w]
      ensures EndsAfter(old(broadcast.spans), broadcast.spans, Finalized(|tracker.stream|))
    {
      hide GoneBy, AllAfter, Backlog, IDs, CreditedIn, Answered, Ledger, Said, Before, EndsAfter, Prompt, B.Reports, B.Ids;
      hide B.BroadcastTracker.Valid, VoiceSmoother.Valid, SlotTracker.Valid;
      ghost var all, s0 := broadcast.all, broadcast.spans;
      var f := tracker.FinalizedPos();
      VoicesBefore(f);
      broadcast.OpenFrom();
      w := broadcast.Abandon(f);
      SpansOf();
      NothingAfter(s0, f);
      if w != null {
        LaterVoices(voices, f, w.closePos);
        Carried(all, all, s0, broadcast.spans, B.Ids([w]), w.closePos, f, endedBacklog, Reported(),
                smoother.Waiting(), voices);
        AnsweredStays(s0, broadcast.spans, B.Ids([w]), w.closePos, calls, f);
        ReportsAfter(s0, broadcast.spans, B.Ids([w]), w.closePos);
        NothingAfter(s0, f);
        AfterBoth(s0, s0, broadcast.spans, f, w.closePos);
        PromptStays(s0, broadcast.spans, endedBacklog, f, f);
        MembersOf([w]);
        LedgerGiveUp(all, s0, broadcast.spans, w, w.closePos, announced, finished, endedBacklog, abandoned);
        abandoned := abandoned + [w];
      }
    }

    method ArmMidJoin()
      requires Valid()
      modifies broadcast`khSeen, broadcast`midJoin, broadcast`khZeroAt
      ensures Valid()
    {
      hide GoneBy, AllAfter, Backlog, IDs, Said, CreditedIn, Answered, Ledger, B.BroadcastTracker.Valid;
      hide VoiceSmoother.Valid, SlotTracker.Valid;
      broadcast.ArmMidJoin();
    }

    /** One command of a run, and the window it gave up, if any. */
    method Execute(command: Command) returns (r: FeedResult, gaveUp: seq<B.BroadcastWindow>)
      requires Valid()
      modifies this, tracker, smoother, broadcast, broadcast.open
      ensures Valid() && tracker.stream == old(tracker.stream) + SamplesIn(command)
      ensures old(broadcast.all) <= broadcast.all
      ensures forall i | |old(broadcast.all)| <= i < |broadcast.all| :: fresh(broadcast.all[i])
      ensures broadcast.open == null || broadcast.open == old(broadcast.open) || fresh(broadcast.open)
      ensures voices == old(voices) + r.voice && announced == old(announced) + r.started
      ensures finished == old(finished) + r.ended && abandoned == old(abandoned) + gaveUp
      ensures gaveUp == if command.GiveUp? && old(broadcast.open) != null then [old(broadcast.open)] else []
      ensures NoneOf(r.voice, old(Reported()))
      ensures smoother.all == old(smoother.all) + r.tch && old(tracker.emitted) <= tracker.emitted
      ensures var b := tracker.emitted[|old(tracker.emitted)|..];
        r.tch == TrafficIn(reader, b) && r.control == ControlIn(reader, b) && calls == old(calls) + CallsIn(reader, b)
      ensures EndsAfter(old(broadcast.spans), broadcast.spans, Finalized(|old(tracker.stream)|))
    {
      hide NoneOf, Running, SlotTracker.Valid, IDs, TrafficIn, ControlIn, CallsIn, CreditedIn, EndsAfter, Prompt;
      NothingAfter(broadcast.spans, Finalized(|tracker.stream|));
      r, gaveUp := NOTHING, [];
      NothingSaid(Reported());
      NothingCarried(reader);
      assert tracker.emitted[|tracker.emitted|..] == [];
      match command {
        case FeedSamples(mf) =>
          r := Feed(mf);
        case GiveUp =>
          var w := ResetBroadcast();
          gaveUp := if w == null then [] else [w];
        case Arm =>
          ArmMidJoin();
      }
    }
  }

  lemma NothingSaid(ids: set<int>)
    ensures NoneOf([], ids) && IDs([]) == {} && Said([]) == []
  {
  }

  // ---------------------------------------------------------------- whole runs

  datatype Command = FeedSamples(mf: seq<Sample>) | GiveUp | Arm

  /** No later result carries a voice event of a window reported as ended. */
  ghost predicate EndsAreFinal(results: seq<FeedResult>) {
    forall i, j | 0 <= i < j < |results| :: NoneOf(results[j].voice, IDs(results[i].ended))
  }

  lemma FinalSnoc(results: seq<FeedResult>, r: FeedResult, reported: set<int>)
    requires EndsAreFinal(results) && NoneOf(r.voice, reported)
    requires forall i | 0 <= i < |results| :: IDs(results[i].ended) <= reported
    ensures EndsAreFinal(results + [r])
  {
    forall i | 0 <= i < |results|
      ensures NoneOf(r.voice, IDs(results[i].ended))
    {
      assert IDs(results[i].ended) <= reported;
    }
  }

  function Voices(results: seq<FeedResult>): seq<VoiceEvent> {
    if results == [] then [] else Voices(results[..|results| - 1]) + results[|results| - 1].voice
  }

  function TrafficBursts(results: seq<FeedResult>): seq<TchBurst> {
    if results == [] then [] else TrafficBursts(results[..|results| - 1]) + results[|results| - 1].tch
  }

  function Starts(results: seq<FeedResult>): seq<B.BroadcastWindow> {
    if results == [] then [] else Starts(results[..|results| - 1]) + results[|results| - 1].started
  }

  function Ends(results: seq<FeedResult>): seq<B.BroadcastWindow> {
    if results == [] then [] else Ends(results[..|results| - 1]) + results[|results| - 1].ended
  }

  function Controls(results: seq<FeedResult>): seq<(int, B.Message)> {
    if results == [] then [] else Controls(results[..|results| - 1]) + results[|results| - 1].control
  }

  function SamplesOf(commands: seq<Command>): seq<Sample> {
    if commands == [] then []
    else SamplesOf(commands[..|commands| - 1]) + SamplesIn(commands[|commands| - 1])
  }

  function SamplesIn(command: Command): seq<Sample> {
    match command case FeedSamples(mf) => mf case GiveUp => [] case Arm => []
  }

  /** How often the operator gave up. */
  function GiveUps(commands: seq<Command>): nat {
    if commands == [] then 0
    else GiveUps(commands[..|commands| - 1]) + if commands[|commands| - 1].GiveUp? then 1 else 0
  }

  lemma ResultsSnoc(results: seq<FeedResult>, r: FeedResult)
    ensures Voices(results + [r]) == Voices(results) + r.voice
    ensures TrafficBursts(results + [r]) == TrafficBursts(results) + r.tch
    ensures Controls(results + [r]) == Controls(results) + r.control
    ensures Starts(results + [r]) == Starts(results) + r.started
    ensures Ends(results + [r]) == Ends(results) + r.ended
  {
    assert (results + [r])[..|results|] == results;
  }

  /** The results so far are those of the bursts so far. */
  ghost predicate Complete(results: seq<FeedResult>, reader: Reader, bursts: seq<Burst>) {
    TrafficBursts(results) == TrafficIn(reader, bursts) && Controls(results) == ControlIn(reader, bursts)
  }

  lemma CompleteSnoc(results: seq<FeedResult>, r: FeedResult, reader: Reader, before: seq<Burst>, added: seq<Burst>)
    requires Complete(results, reader, before)
    requires r.tch == TrafficIn(reader, added) && r.control == ControlIn(reader, added)
    ensures Complete(results + [r], reader, before + added)
  {
    hide TrafficBursts, Controls, TrafficIn, ControlIn;
    ResultsSnoc(results, r);
    CarriedBoth(reader, before, added);
  }

  // ---------------------------------------------------------------- what a run says about windows

  predicate IsAt(w: B.BroadcastWindow?, i: int) { w != null && w.windowID == i + 1 }

  predicate JoinedLate(w: seq<B.BroadcastWindow>, i: int) { exists x | x in w :: x.windowID == i + 1 && x.midJoin }

  /**
    The books of a finished run, window by window: announced once, then either still open or reported as
    ended once or given up once; or never announced, joined late and reported twice.
    */
  ghost predicate Conserved(nextID: nat, open: B.BroadcastWindow?, started: seq<B.BroadcastWindow>,
                            ended: seq<B.BroadcastWindow>, abandoned: seq<B.BroadcastWindow>) {
    && (forall w | w in started + ended + abandoned :: 1 <= w.windowID < nextID)
    && (forall v, w | v in started + ended + abandoned && w in started + ended + abandoned :: v.windowID == w.windowID ==> v == w)
    && (forall w | w in started + ended + abandoned :: IsAt(open, w.windowID - 1) ==> open == w)
    && forall i: nat | i < nextID - 1 ::
         Entry(JoinedLate(ended, i), !IsAt(open, i), Times(started, i), Times(ended, i), Times(abandoned, i))
  }

  /** Events and windows agree: see `Names`. */
  ghost predicate VoiceBelongs(nextID: nat, windows: seq<B.BroadcastWindow>, voice: seq<VoiceEvent>)
    reads windows
  {
    && (forall e | e in voice :: e.windowID < nextID)
    && forall e, w | e in voice && w in windows :: Belongs(nextID, w, e)
  }

  ghost predicate Belongs(nextID: nat, w: B.BroadcastWindow, e: VoiceEvent)
    reads w
  {
    && (e.windowID == w.windowID ==> w.Contains(e.burst.pos))
    && (w.Contains(e.burst.pos) && !w.midJoin && nextID - w.windowID <= B.KEEP ==> e.windowID == w.windowID)
  }

  /** Windows that ended long enough before `final` are reported or given up. */
  ghost predicate Timely(all: seq<B.BroadcastWindow>, spans: seq<B.Span>, final: int, ended: seq<B.BroadcastWindow>,
                         abandoned: seq<B.BroadcastWindow>) {
    && |all| == |spans|
    && forall k: nat | k < |spans| && spans[k].ended && spans[k].to + LONGEST_WAIT < final ::
         all[k] in ended || all[k] in abandoned
  }

  /** What a decoder has reported after any call is timely. */
  lemma TimelyNow(all: seq<B.BroadcastWindow>, spans: seq<B.Span>, a: seq<B.BroadcastWindow>, f: seq<B.BroadcastWindow>,
                  w: seq<B.BroadcastWindow>, g: seq<B.BroadcastWindow>, final: int)
    requires Ledger(all, spans, a, f, w, g) && Prompt(spans, w, final)
    ensures Timely(all, spans, final, f, g)
  {
    hide Times;
    forall k: nat | k < |spans| && spans[k].ended && spans[k].to + LONGEST_WAIT < final
      ensures all[k] in f || all[k] in g
    {
      assert Entry(all[k].midJoin, spans[k].ended, Times(a, k), Times(f, k) + Times(w, k), Times(g, k));
      if Times(w, k) > 0 {
        var x := Found(w, k);
        assert false;
      }
      var x := Found(if Times(f, k) > 0 then f else g, k);
    }
  }

  /** Later commands only end windows at later positions. */
  lemma TimelyStays(all0: seq<B.BroadcastWindow>, all1: seq<B.BroadcastWindow>, s0: seq<B.Span>, s1: seq<B.Span>, pos: int,
                    final: int, ended: seq<B.BroadcastWindow>, g0: seq<B.BroadcastWindow>, g1: seq<B.BroadcastWindow>)
    requires Timely(all0, s0, final, ended, g0) && EndsAfter(s0, s1, pos) && final <= pos
    requires all0 <= all1 && |all1| == |s1| && g0 <= g1
    ensures Timely(all1, s1, final, ended, g1)
  {
    forall k: nat | k < |s1| && s1[k].ended && s1[k].to + LONGEST_WAIT < final
      ensures all1[k] in ended || all1[k] in g1
    {
      assert all0[k] in ended || all0[k] in g0;
    }
  }

  /** After each of the first `n` commands. */
  ghost predicate AllTimely(all: seq<B.BroadcastWindow>, spans: seq<B.Span>, commands: seq<Command>, results: seq<FeedResult>,
                            abandoned: seq<B.BroadcastWindow>, n: nat) {
    && n <= |commands| && n <= |results|
    && forall j: nat | j <= n :: Timely(all, spans, FinalAfter(commands, j), Ends(results[..j]), abandoned)
  }

  /** Position up to which everything is decided after `j` commands. */
  function FinalAfter(commands: seq<Command>, j: nat): int
    requires j <= |commands|
  {
    Finalized(|SamplesOf(commands[..j])|)
  }

  lemma {:induction false} FinalGrows(commands: seq<Command>, i: nat, j: nat)
    requires i <= j <= |commands|
    ensures FinalAfter(commands, i) <= FinalAfter(commands, j)
  {
    if i < j {
      FinalGrows(commands, i, j - 1);
      assert commands[..j][..j - 1] == commands[..j - 1];
    }
  }

  lemma AllTimelyStep(all0: seq<B.BroadcastWindow>, all1: seq<B.BroadcastWindow>, s0: seq<B.Span>, s1: seq<B.Span>,
                      commands: seq<Command>, results: seq<FeedResult>, r: FeedResult,
                      g0: seq<B.BroadcastWindow>, g1: seq<B.BroadcastWindow>, n: nat)
    requires AllTimely(all0, s0, commands, results, g0, n) && n < |commands| && |results| == n
    requires EndsAfter(s0, s1, FinalAfter(commands, n)) && all0 <= all1 && |all1| == |s1| && g0 <= g1
    requires Timely(all1, s1, FinalAfter(commands, n + 1), Ends(results + [r]), g1)
    ensures AllTimely(all1, s1, commands, results + [r], g1, n + 1)
  {
    hide Timely, EndsAfter, FinalAfter, Ends;
    forall j: nat | j <= n + 1
      ensures Timely(all1, s1, FinalAfter(commands, j), Ends((results + [r])[..j]), g1)
    {
      if j <= n {
        FinalGrows(commands, j, n);
        assert (results + [r])[..j] == results[..j];
        TimelyStays(all0, all1, s0, s1, FinalAfter(commands, n), FinalAfter(commands, j), Ends(results[..j]), g0, g1);
      } else {
        assert (results + [r])[..j] == results + [r];
      }
    }
  }

  lemma AllTimelyMore(all: seq<B.BroadcastWindow>, spans: seq<B.Span>, commands: seq<Command>, results: seq<FeedResult>,
                      r: FeedResult, abandoned: seq<B.BroadcastWindow>, n: nat)
    requires AllTimely(all, spans, commands, results, abandoned, n)
    ensures AllTimely(all, spans, commands, results + [r], abandoned, n)
  {
    hide Timely, FinalAfter, Ends;
    forall j: nat | j <= n
      ensures Timely(all, spans, FinalAfter(commands, j), Ends((results + [r])[..j]), abandoned)
    {
      assert (results + [r])[..j] == results[..j];
    }
  }

  /**
    Whenever the stream is decided more than the longest wait beyond the close of a window, its end is
    among the results so far, unless the operator gave it up.
    */
  ghost predicate EndsOnTime(windows: seq<B.BroadcastWindow>, commands: seq<Command>, results: seq<FeedResult>,
                             abandoned: seq<B.BroadcastWindow>)
    requires |commands| <= |results|
    reads windows
  {
    forall j: nat, w | j <= |commands| && w in windows && w.closed
                       && w.closePos + LONGEST_WAIT < Finalized(|SamplesOf(commands[..j])|) ::
      w in Ends(results[..j]) || w in abandoned
  }

  lemma TimelyShown(t: B.BroadcastTracker, windows: seq<B.BroadcastWindow>, commands: seq<Command>, results: seq<FeedResult>,
                    abandoned: seq<B.BroadcastWindow>)
    requires t.Valid() && Members(t.all, windows) && |commands| <= |results|
    requires AllTimely(t.all, t.spans, commands, results, abandoned, |commands|)
    ensures EndsOnTime(windows, commands, results, abandoned)
  {
    hide SamplesOf, Ends, B.BroadcastTracker.Valid;
    forall j: nat, w | j <= |commands| && w in windows && w.closed
                       && w.closePos + LONGEST_WAIT < Finalized(|SamplesOf(commands[..j])|)
      ensures w in Ends(results[..j]) || w in abandoned
    {
      t.PlaceOf(w);
      assert Timely(t.all, t.spans, FinalAfter(commands, j), Ends(results[..j]), abandoned);
    }
  }

  /** Every call lies in one of the windows. */
  ghost predicate CallsAnswered(windows: seq<B.BroadcastWindow>, calls: seq<int>)
    reads windows
  {
    forall p | p in calls :: Inside(windows, p)
  }

  predicate Inside(windows: seq<B.BroadcastWindow>, pos: int)
    reads windows
  {
    exists w | w in windows :: w.Contains(pos)
  }

  /** A window that was announced is reported as ended, was given up, or is still open, and only one of these. */
  lemma NoEndIsLost(nextID: nat, open: B.BroadcastWindow?, started: seq<B.BroadcastWindow>, ended: seq<B.BroadcastWindow>,
                    abandoned: seq<B.BroadcastWindow>, w: B.BroadcastWindow)
    requires Conserved(nextID, open, started, ended, abandoned) && w in started
    ensures w in ended || w in abandoned || w == open
    ensures Times(started, w.windowID - 1) == 1 && Times(ended, w.windowID - 1) + Times(abandoned, w.windowID - 1) <= 1
    ensures w == open ==> w !in ended && w !in abandoned
  {
    hide Times, JoinedLate;
    var i := w.windowID - 1;
    assert w in started + ended + abandoned;
    Occurs(started, w);
    assert Entry(JoinedLate(ended, i), !IsAt(open, i), Times(started, i), Times(ended, i), Times(abandoned, i));
    if Times(ended, i) > 0 {
      var x := Found(ended, i);
      assert x in started + ended + abandoned;
    }
    if Times(abandoned, i) > 0 {
      var x := Found(abandoned, i);
      assert x in started + ended + abandoned;
    }
    if w in ended { Occurs(ended, w); }
    if w in abandoned { Occurs(abandoned, w); }
  }

  /** The books of the decoder, put in terms of the windows themselves. */
  lemma LedgerConserves(t: B.BroadcastTracker, started: seq<B.BroadcastWindow>, ended: seq<B.BroadcastWindow>,
                        abandoned: seq<B.BroadcastWindow>)
    requires t.Valid() && Ledger(t.all, t.spans, started, ended, [], abandoned)
    ensures Conserved(t.nextID, t.open, started, ended, abandoned)
  {
    hide Times, JoinedLate, Entry, IsAt, B.BroadcastTracker.Valid;
    LedgerMembers(t.all, t.spans, started, ended, abandoned);
    t.OpenIsLast();
    OpenAt(t, started + ended + abandoned);
    forall i: nat | i < t.nextID - 1
      ensures Entry(JoinedLate(ended, i), !IsAt(t.open, i), Times(started, i), Times(ended, i), Times(abandoned, i))
    {
      LedgerEntry(t, started, ended, abandoned, i);
    }
  }

  lemma OpenAt(t: B.BroadcastTracker, windows: seq<B.BroadcastWindow>)
    requires t.Valid() && Members(t.all, windows)
    ensures forall w | w in windows :: IsAt(t.open, w.windowID - 1) ==> t.open == w
  {
    hide B.BroadcastTracker.Valid;
    t.OpenIsLast();
  }

  lemma LedgerEntry(t: B.BroadcastTracker, started: seq<B.BroadcastWindow>, ended: seq<B.BroadcastWindow>,
                    abandoned: seq<B.BroadcastWindow>, i: nat)
    requires t.Valid() && Ledger(t.all, t.spans, started, ended, [], abandoned) && i < |t.all|
    ensures Entry(JoinedLate(ended, i), !IsAt(t.open, i), Times(started, i), Times(ended, i), Times(abandoned, i))
  {
    hide Times, B.BroadcastTracker.Valid;
    t.OpenIsLast();
    assert Entry(t.all[i].midJoin, t.spans[i].ended, Times(started, i), Times(ended, i) + Times([], i), Times(abandoned, i));
    NotYet([], [], i);
    if Times(started, i) == 0 {
      var x := Found(ended, i);
      assert x == t.all[i];
    }
  }

  lemma AnswersShown(t: B.BroadcastTracker, started: seq<B.BroadcastWindow>, ended: seq<B.BroadcastWindow>,
                     abandoned: seq<B.BroadcastWindow>, calls: seq<int>, pos: int)
    requires t.Valid() && Ledger(t.all, t.spans, started, ended, [], abandoned) && Answered(t.spans, calls, pos)
    ensures CallsAnswered(started + ended, calls)
  {
    hide Times, B.BroadcastTracker.Valid;
    forall p | p in calls
      ensures Inside(started + ended, p)
    {
      var i: nat :| i < |t.spans| && B.Covers(t.spans[i], p);
      assert Entry(t.all[i].midJoin, t.spans[i].ended, Times(started, i), Times(ended, i) + Times([], i), Times(abandoned, i));
      NotYet([], [], i);
      var w := Found(if Times(started, i) > 0 then started else ended, i);
      t.PlaceOf(w);
      assert w in started + ended && w.Contains(p);
    }
  }

  lemma NamesBelong(t: B.BroadcastTracker, windows: seq<B.BroadcastWindow>, voice: seq<VoiceEvent>)
    requires t.Valid() && CreditedIn(t.all, t.spans, voice) && Members(t.all, windows)
    ensures VoiceBelongs(t.nextID, windows, voice)
  {
    hide B.InOrder, B.EndedBy;
    forall e, w | e in voice && w in windows
      ensures Belongs(t.nextID, w, e)
    {
      assert Names(t.all, t.spans, e) && B.View(t.all[w.windowID - 1]) == t.spans[w.windowID - 1];
    }
  }

  /**
    Any run: samples in chunks of any size, resets at any time, and a flush at the end.
    Ends are final; control messages and traffic bursts are those of the bursts of the whole
    stream, however it was cut; every traffic burst gets one voice event, in order, with its
    offline vote; the books on windows are balanced, with no more windows given up than the
    operator asked for; every verified start in a control slot lies in a window; and voice is
    credited to the windows it lies in.
    */
  method Run(c: Config, reader: Reader, commands: seq<Command>)
    returns (results: seq<FeedResult>, abandoned: seq<B.BroadcastWindow>, d: StreamingDecoder)
    ensures |results| == |commands| + 1 && EndsAreFinal(results)
    ensures Complete(results, reader, Bursts(c, SamplesOf(commands)))
    ensures Said(Voices(results)) == Offline(2, TrafficIn(reader, Bursts(c, SamplesOf(commands))))
    ensures Conserved(d.broadcast.nextID, d.broadcast.open, Starts(results), Ends(results), abandoned)
    ensures |abandoned| <= GiveUps(commands)
    ensures EndsOnTime(Starts(results) + Ends(results), commands, results, abandoned)
    ensures CallsAnswered(Starts(results) + Ends(results), CallsIn(reader, Bursts(c, SamplesOf(commands))))
    ensures VoiceBelongs(d.broadcast.nextID, Starts(results) + Ends(results) + abandoned, Voices(results))
  {
    hide NoneOf, EndsAreFinal, StreamingDecoder.Valid, Said, IDs, Voices, TrafficBursts, Starts, Ends, Offline, Ledger;
    hide CreditedIn, Answered;
    hide Complete, TrafficIn, ControlIn, CallsIn, CallsAnswered, Controls, Bursts, SamplesIn, Conserved, VoiceBelongs;
    hide B.BroadcastTracker.Valid, EndsAfter, AllTimely, EndsOnTime, FinalAfter, SamplesOf;
    d := new StreamingDecoder(c, reader);
    results, abandoned := [], [];
    NoResults(reader);
    NothingCarried(reader);
    NoneTimely(commands);
    var i := 0;
    while i < |commands|
      invariant 0 <= i <= |commands| && |results| == i && EndsAreFinal(results)
      invariant d.Valid() && fresh(d) && fresh(d.tracker) && fresh(d.broadcast) && fresh(d.smoother)
      invariant forall k | 0 <= k < |d.broadcast.all| :: fresh(d.broadcast.all[k])
      invariant d.broadcast.open == null || fresh(d.broadcast.open)
      invariant forall k | 0 <= k < |results| :: IDs(results[k].ended) <= d.Reported()
      invariant d.voices == Voices(results) && d.announced == Starts(results) && d.finished == Ends(results)
      invariant d.abandoned == abandoned && |abandoned| <= GiveUps(commands[..i])
      invariant d.smoother.all == TrafficBursts(results)
      invariant d.tracker.stream == SamplesOf(commands[..i]) && d.tracker.c == c && d.reader == reader
      invariant Complete(results, reader, d.tracker.emitted) && d.calls == CallsIn(reader, d.tracker.emitted)
      invariant AllTimely(d.broadcast.all, d.broadcast.spans, commands, results, abandoned, i)
    {
      ghost var all0, s0, g0 := d.broadcast.all, d.broadcast.spans, abandoned;
      ghost var before, bursts, finished := d.Reported(), d.tracker.emitted, d.finished;
      SamplesStep(commands, i);
      var r, gaveUp := d.Execute(commands[i]);
      FinalSnoc(results, r, before);
      IDsBoth(finished, r.ended);
      ResultsSnoc(results, r);
      CompleteSnoc(results, r, reader, bursts, d.tracker.emitted[|bursts|..]);
      CarriedBoth(reader, bursts, d.tracker.emitted[|bursts|..]);
      assert bursts + d.tracker.emitted[|bursts|..] == d.tracker.emitted;
      d.TimelyAfter();
      assert FinalAfter(commands, i) == Finalized(|SamplesOf(commands[..i])|) by { FinalIs(commands, i); }
      assert FinalAfter(commands, i + 1) == Finalized(|SamplesOf(commands[..i + 1])|) by { FinalIs(commands, i + 1); }
      AllTimelyStep(all0, d.broadcast.all, s0, d.broadcast.spans, commands, results, r, g0, abandoned + gaveUp, i);
      results, abandoned := results + [r], abandoned + gaveUp;
      i := i + 1;
    }
    assert commands[..i] == commands;
    d.EmittedBursts();
    ghost var before, bursts := d.Reported(), d.tracker.emitted;
    ghost var all, spans := d.broadcast.all, d.broadcast.spans;
    var r := d.Flush();
    AllTimelyMore(all, spans, commands, results, r, abandoned, i);
    FinalSnoc(results, r, before);
    ResultsSnoc(results, r);
    NothingCarried(reader);
    CompleteSnoc(results, r, reader, bursts, []);
    assert bursts + [] == bursts && d.announced + [] == d.announced && TrafficBursts(results) + [] == TrafficBursts(results);
    results := results + [r];
    TrafficIs(results, reader, bursts);
    AnswersShown(d.broadcast, Starts(results), Ends(results), abandoned, d.calls, Finalized(|d.tracker.stream|));
    LedgerConserves(d.broadcast, Starts(results), Ends(results), abandoned);
    LedgerMembers(d.broadcast.all, d.broadcast.spans, Starts(results), Ends(results), abandoned);
    TimelyShown(d.broadcast, Starts(results) + Ends(results), commands, results, abandoned);
    NamesBelong(d.broadcast, Starts(results) + Ends(results) + abandoned, Voices(results));
  }

  lemma LedgerMembers(all: seq<B.BroadcastWindow>, spans: seq<B.Span>, a: seq<B.BroadcastWindow>, f: seq<B.BroadcastWindow>,
                      g: seq<B.BroadcastWindow>)
    requires Ledger(all, spans, a, f, [], g)
    ensures Members(all, a + f + g)
  {
  }

  lemma NoneTimely(commands: seq<Command>)
    ensures AllTimely([], [], commands, [], [], 0) && SamplesOf(commands[..0]) == [] && GiveUps(commands[..0]) == 0
  {
  }

  lemma SamplesStep(commands: seq<Command>, i: nat)
    requires i < |commands|
    ensures SamplesOf(commands[..i + 1]) == SamplesOf(commands[..i]) + SamplesIn(commands[i])
    ensures commands[..i + 1][..i] == commands[..i]
  {
    assert commands[..i + 1][..i] == commands[..i];
  }

  lemma FinalIs(commands: seq<Command>, j: nat)
    requires j <= |commands|
    ensures FinalAfter(commands, j) == Finalized(|SamplesOf(commands[..j])|)
  {
  }

  lemma TrafficIs(results: seq<FeedResult>, reader: Reader, bursts: seq<Burst>)
    requires Complete(results, reader, bursts)
    ensures TrafficBursts(results) == TrafficIn(reader, bursts)
  {
  }

  lemma NoResults(reader: Reader)
    ensures EndsAreFinal([]) && Voices([]) == [] && TrafficBursts([]) == [] && Starts([]) == [] && Ends([]) == []
    ensures Complete([], reader, [])
  {
  }

  lemma NoneOfBoth(a: seq<VoiceEvent>, b: seq<VoiceEvent>, ids: set<int>)
    requires NoneOf(b, ids)
    ensures NoneOf(a, ids) ==> NoneOf(a + b, ids)
  {
  }

  lemma NothingGone(spans: seq<B.Span>, pos: int)
    ensures GoneBy(spans, IDs([]), pos)
  {
  }

  lemma IDsSnoc(spans: seq<B.Span>, w: seq<B.BroadcastWindow>, x: B.BroadcastWindow, pos: int)
    requires GoneBy(spans, IDs(w), pos)
    requires 1 <= x.windowID <= |spans| && spans[x.windowID - 1].ended && spans[x.windowID - 1].to < pos
    ensures GoneBy(spans, IDs(w + [x]), pos)
  {
    assert (w + [x])[..|w|] == w;
  }

  /** The watermark is not beyond anything that may still come. */
  lemma GoneAll(spans: seq<B.Span>, before: set<int>, now: set<int>, watermark: int, final: int, waiting: seq<TchBurst>)
    requires GoneBy(spans, before, final) && AllAfter(spans, before, waiting) && GoneBy(spans, now, watermark)
    requires watermark <= final && forall i | 0 <= i < |waiting| :: watermark <= waiting[i].pos
    ensures GoneBy(spans, before + now, final) && AllAfter(spans, before + now, waiting)
  {
    GoneLater(spans, now, watermark, final);
    forall i | 0 <= i < |waiting|
      ensures GoneBy(spans, before + now, waiting[i].pos)
    {
      assert GoneBy(spans, before, waiting[i].pos);
      GoneLater(spans, now, watermark, waiting[i].pos);
    }
  }
}
