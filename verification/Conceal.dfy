/**
  Estimating how many voice frames are missing between two received ones
  (internal/std-t86/scodec/conceal.go).
  */
module Conceal {
  import opened Rounding

  /** One accepted burst: its place in the six-slot cycle and its position. */
  datatype Sighting = Sighting(ring: nat, pos: int)

  datatype Settings = Settings(slotSamples: real, maxFill: int, activeSlots: int, settleFrames: int, minSightings: int)

  const CYCLE := 6

  // ---------------------------------------------------------------- what the history says

  function Count(seen: seq<Sighting>, r: nat): nat {
    if seen == [] then 0
    else Count(seen[..|seen| - 1], r) + if seen[|seen| - 1].ring == r then 1 else 0
  }

  function FirstPos(seen: seq<Sighting>, r: nat): int
    requires Count(seen, r) > 0
  {
    var n := |seen| - 1;
    if Count(seen[..n], r) > 0 then FirstPos(seen[..n], r) else seen[n].pos
  }

  function LastPos(seen: seq<Sighting>, r: nat): int
    requires Count(seen, r) > 0
  {
    var n := |seen| - 1;
    if seen[n].ring == r then seen[n].pos else LastPos(seen[..n], r)
  }

  /** Ring `r` carries voice: seen often enough, or early, and not silent for long. */
  predicate VoiceRing(c: Settings, seen: seq<Sighting>, r: nat) {
    && Count(seen, r) > 0
    && (var need := if (FirstPos(seen, r) - seen[0].pos) as real < (c.settleFrames * 6) as real * c.slotSamples then 1 else c.minSightings;
        Count(seen, r) >= need)
    && (seen[|seen| - 1].pos - LastPos(seen, r)) as real <= c.activeSlots as real * c.slotSamples
  }

  /** Slots `ring + 1 .. ring + n` that fall on voice rings. */
  function VoiceSlots(c: Settings, seen: seq<Sighting>, ring: nat, n: nat): nat {
    if n == 0 then 0
    else VoiceSlots(c, seen, ring, n - 1) + Voices(c, seen, Place(ring, n))
  }

  function Place(ring: nat, k: nat): nat { (ring + k) % CYCLE }

  function Voices(c: Settings, seen: seq<Sighting>, r: nat): nat { if VoiceRing(c, seen, r) then 1 else 0 }

  /** Voice rings among `0 .. n - 1`. */
  function RingCount(c: Settings, seen: seq<Sighting>, n: nat): nat {
    if n == 0 then 0 else RingCount(c, seen, n - 1) + Voices(c, seen, n - 1)
  }

  /** The places of a ring's sightings in the history. */
  function Seen(seen: seq<Sighting>, r: nat): set<int> { set i | 0 <= i < |seen| && seen[i].ring == r }

  lemma SeenParts(seen: seq<Sighting>, r: nat)
    requires seen != []
    ensures var n := |seen| - 1;
      Seen(seen, r) == (if seen[n].ring == r then {n} else {}) + Seen(seen[..n], r) && n !in Seen(seen[..n], r)
  {
  }

  /** Their number, and which of them are the first and the last. */
  lemma {:induction false} CountIs(seen: seq<Sighting>, r: nat)
    ensures Count(seen, r) == |Seen(seen, r)|
  {
    if seen == [] {
      assert Seen(seen, r) == {};
    } else {
      SeenParts(seen, r);
      hide Seen;
      CountIs(seen[..|seen| - 1], r);
    }
  }

  lemma {:induction false} FirstIs(seen: seq<Sighting>, r: nat) returns (i: int)
    requires Count(seen, r) > 0
    ensures i in Seen(seen, r) && 0 <= i < |seen| && FirstPos(seen, r) == seen[i].pos && forall k | k in Seen(seen, r) :: i <= k
  {
    var n := |seen| - 1;
    SeenParts(seen, r);
    if Count(seen[..n], r) > 0 {
      i := FirstIs(seen[..n], r);
    } else {
      CountIs(seen[..n], r);
      i := n;
    }
  }

  lemma {:induction false} LastIs(seen: seq<Sighting>, r: nat) returns (i: int)
    requires Count(seen, r) > 0
    ensures i in Seen(seen, r) && 0 <= i < |seen| && LastPos(seen, r) == seen[i].pos && forall k | k in Seen(seen, r) :: k <= i
  {
    var n := |seen| - 1;
    SeenParts(seen, r);
    if seen[n].ring == r {
      i := n;
    } else {
      i := LastIs(seen[..n], r);
    }
  }

  /** The `k`-th slot after one on ring `ring` belongs to a voice ring: six slots make a cycle. */
  predicate CarriesVoice(c: Settings, seen: seq<Sighting>, ring: nat, k: nat) { VoiceRing(c, seen, (ring + k) % 6) }

  function VoiceAmong(c: Settings, seen: seq<Sighting>, ring: nat, n: nat): set<nat> {
    set k: nat | 1 <= k <= n && CarriesVoice(c, seen, ring, k)
  }

  lemma VoiceAmongStep(c: Settings, seen: seq<Sighting>, ring: nat, n: nat)
    ensures VoiceAmong(c, seen, ring, 0) == {}
    ensures VoiceAmong(c, seen, ring, n + 1)
         == VoiceAmong(c, seen, ring, n) + if CarriesVoice(c, seen, ring, n + 1) then {n + 1} else {}
    ensures n + 1 !in VoiceAmong(c, seen, ring, n)
  {
    hide CarriesVoice;
  }

  lemma VoicesIs(c: Settings, seen: seq<Sighting>, ring: nat, k: nat)
    ensures Voices(c, seen, Place(ring, k)) == if CarriesVoice(c, seen, ring, k) then 1 else 0
  {
    hide VoiceRing;
  }

  /** The slots counted are exactly these. */
  lemma {:induction false} VoiceSlotsAre(c: Settings, seen: seq<Sighting>, ring: nat, n: nat)
    ensures VoiceSlots(c, seen, ring, n) == |VoiceAmong(c, seen, ring, n)|
  {
    hide Voices, Place, CarriesVoice, VoiceAmong;
    if n == 0 {
      VoiceAmongStep(c, seen, ring, 0);
    } else {
      VoiceSlotsAre(c, seen, ring, n - 1);
      VoiceAmongStep(c, seen, ring, n - 1);
      VoicesIs(c, seen, ring, n);
    }
  }

  // ---------------------------------------------------------------- whole cycles

  function Succ(r: nat): nat { if r == 5 then 0 else r + 1 }

  lemma PlaceNext(ring: nat, n: nat)
    ensures Place(ring, n) < CYCLE && Place(ring, n + 1) == Succ(Place(ring, n))
  {
  }

  /** Six consecutive slots meet every ring once. */
  lemma OneCycle(c: Settings, seen: seq<Sighting>, ring: nat, n: nat)
    ensures VoiceSlots(c, seen, ring, n + 6) == VoiceSlots(c, seen, ring, n) + RingCount(c, seen, 6)
  {
    hide VoiceRing, Voices, VoiceSlots, Place, RingCount;
    SlotStep(c, seen, ring, n);
    SlotStep(c, seen, ring, n + 1);
    SlotStep(c, seen, ring, n + 2);
    SlotStep(c, seen, ring, n + 3);
    SlotStep(c, seen, ring, n + 4);
    SlotStep(c, seen, ring, n + 5);
    PlaceNext(ring, n + 1);
    PlaceNext(ring, n + 2);
    PlaceNext(ring, n + 3);
    PlaceNext(ring, n + 4);
    PlaceNext(ring, n + 5);
    AllSix(c, seen, Place(ring, n + 1));
  }

  lemma SlotStep(c: Settings, seen: seq<Sighting>, ring: nat, n: nat)
    ensures VoiceSlots(c, seen, ring, n + 1) == VoiceSlots(c, seen, ring, n) + Voices(c, seen, Place(ring, n + 1))
  {
    hide VoiceRing, Voices, Place;
  }

  /** Starting anywhere in the cycle, six successors are all six rings. */
  lemma AllSix(c: Settings, seen: seq<Sighting>, p: nat)
    requires p < CYCLE
    ensures Voices(c, seen, p) + Voices(c, seen, Succ(p)) + Voices(c, seen, Succ(Succ(p)))
          + Voices(c, seen, Succ(Succ(Succ(p)))) + Voices(c, seen, Succ(Succ(Succ(Succ(p)))))
          + Voices(c, seen, Succ(Succ(Succ(Succ(Succ(p)))))) == RingCount(c, seen, 6)
  {
    hide Voices, RingCount;
    RingStep(c, seen, 0);
    RingStep(c, seen, 1);
    RingStep(c, seen, 2);
    RingStep(c, seen, 3);
    RingStep(c, seen, 4);
    RingStep(c, seen, 5);
  }

  lemma RingStep(c: Settings, seen: seq<Sighting>, n: nat)
    ensures RingCount(c, seen, 0) == 0 && RingCount(c, seen, n + 1) == RingCount(c, seen, n) + Voices(c, seen, n)
  {
    hide Voices;
  }

  lemma {:induction false} Cycles(c: Settings, seen: seq<Sighting>, ring: nat, full: nat, rem: nat)
    ensures VoiceSlots(c, seen, ring, 6 * full + rem) == full * RingCount(c, seen, 6) + VoiceSlots(c, seen, ring, rem)
  {
    if full > 0 {
      hide VoiceSlots, RingCount;
      Cycles(c, seen, ring, full - 1, rem);
      OneCycle(c, seen, ring, 6 * (full - 1) + rem);
      assert full * RingCount(c, seen, 6) == (full - 1) * RingCount(c, seen, 6) + RingCount(c, seen, 6);
    }
  }

  // ---------------------------------------------------------------- the tracker

  datatype RingStat = RingStat(count: int, lastPos: int, firstPos: int)

  class SlotGapTracker {
    const c: Settings
    var hasLast: bool
    var lastPos: int
    var ring: nat
    var startPos: int
    var hasStart: bool
    var rings: map<nat, RingStat>
    ghost var seen: seq<Sighting>

    ghost predicate Valid()
      reads this
    {
      && c.slotSamples > 0.0
      && (hasLast <==> seen != []) && (hasStart <==> seen != [])
      && ring < CYCLE && (seen == [] ==> ring == 0)
      && (seen != [] ==> startPos == seen[0].pos && seen[|seen| - 1] == Sighting(ring, lastPos))
      && (forall r: nat :: r in rings <==> Count(seen, r) > 0)
      && (forall r: nat | r in rings :: rings[r] == RingStat(Count(seen, r), LastPos(seen, r), FirstPos(seen, r)))
    }

    constructor (slotSamples: real, maxFill: int)
      ensures Valid() && seen == []
    {
      c := Settings(if slotSamples <= 0.0 then 1200.0 else slotSamples, if maxFill <= 0 then 1500 else maxFill, 150, 4, 8);
      hasLast, lastPos, ring, startPos, hasStart, rings, seen := false, 0, 0, 0, false, map[], [];
    }

    predicate IsVoiceRing(r: nat)
      requires Valid()
      reads this
      ensures IsVoiceRing(r) <==> VoiceRing(c, seen, r)
    {
      if r !in rings then false
      else
        var s := rings[r];
        var need := if (s.firstPos - startPos) as real < (c.settleFrames * 6) as real * c.slotSamples then 1 else c.minSightings;
        if s.count < need then false
        else (lastPos - s.lastPos) as real <= c.activeSlots as real * c.slotSamples
    }

    method VoiceRingCount() returns (n: nat)
      requires Valid()
      ensures n == RingCount(c, seen, CYCLE)
    {
      hide VoiceRing;
      n := 0;
      var r := 0;
      while r < 6
        invariant 0 <= r <= 6 && n == RingCount(c, seen, r)
      {
        if IsVoiceRing(r) {
          n := n + 1;
        }
        r := r + 1;
      }
    }

    /** Records a sighting. */
    method Observe(r: nat, pos: int)
      modifies `hasStart, `startPos, `rings
      ensures hasStart && startPos == if old(hasStart) then old(startPos) else pos
      ensures rings == old(rings)[r := if r in old(rings) then RingStat(old(rings)[r].count + 1, pos, old(rings)[r].firstPos)
                                       else RingStat(1, pos, pos)]
    {
      if !hasStart {
        hasStart, startPos := true, pos;
      }
      if r !in rings {
        rings := rings[r := RingStat(0, 0, pos)];
      }
      rings := rings[r := rings[r].(count := rings[r].count + 1, lastPos := pos)];
    }

    /** Voice frames missing before the burst at `pos`, and whether the burst is new. */
    method Step(pos: int) returns (missing: int, ok: bool)
      requires Valid()
      modifies this
      ensures Valid()
      ensures old(seen) == [] ==> ok && missing == 0 && seen == [Sighting(0, pos)]
      ensures old(seen) != [] ==>
        var dq := RoundHalfEven((pos - old(lastPos)) as real / c.slotSamples);
        && ok == (dq > 0)
        && (ok ==>
              && seen == old(seen) + [Sighting((old(ring) + dq) % CYCLE, pos)]
              && missing == var n := VoiceSlots(c, old(seen), old(ring), dq - 1); if n < c.maxFill then n else c.maxFill)
        && (!ok ==> missing == 0 && seen == old(seen) && ring == old(ring) && lastPos == old(lastPos) && rings == old(rings))
    {
      hide VoiceRing, RoundHalfEven, VoiceSlots, Count, FirstPos, LastPos;
      if !hasLast {
        hasLast, lastPos := true, pos;
        Observe(0, pos);
        NothingSeen();
        seen := [Sighting(0, pos)];
        SeenFirst(seen);
        return 0, true;
      }
      var dq := RoundHalfEven((pos - lastPos) as real / c.slotSamples);
      if dq <= 0 {
        return 0, false;
      }
      missing := MissingBefore(dq);
      ring := (ring + dq) % 6;
      Observe(ring, pos);
      lastPos := pos;
      SeenSnoc(seen, Sighting(ring, pos));
      seen := seen + [Sighting(ring, pos)];
      missing := if missing < c.maxFill then missing else c.maxFill;
      ok := true;
    }

    /** Voice slots strictly between the last burst and one `dq` slots later: whole cycles, then the rest. */
    method MissingBefore(dq: int) returns (missing: nat)
      requires Valid() && dq > 0
      ensures missing == VoiceSlots(c, seen, ring, dq - 1)
    {
      hide VoiceRing, RingCount;
      var full, rem := (dq - 1) / 6, (dq - 1) % 6;
      var n := VoiceRingCount();
      var extra := 0;
      var k := 1;
      while k <= rem
        invariant 1 <= k <= rem + 1 && extra == VoiceSlots(c, seen, ring, k - 1)
      {
        if IsVoiceRing((ring + k) % 6) {
          extra := extra + 1;
        }
        k := k + 1;
      }
      Cycles(c, seen, ring, full, rem);
      assert 6 * full + rem == dq - 1;
      missing := full * n + extra;
    }
  }

  lemma NothingSeen()
    ensures forall r: nat :: Count([], r) == 0
  {
  }

  lemma SeenFirst(seen: seq<Sighting>)
    requires |seen| == 1
    ensures forall r: nat :: Count(seen, r) == if r == seen[0].ring then 1 else 0
    ensures FirstPos(seen, seen[0].ring) == seen[0].pos && LastPos(seen, seen[0].ring) == seen[0].pos
  {
    assert seen[..0] == [];
  }

  lemma SeenSnoc(seen: seq<Sighting>, s: Sighting)
    ensures forall r: nat :: Count(seen + [s], r) == Count(seen, r) + if r == s.ring then 1 else 0
    ensures forall r: nat | Count(seen, r) > 0 :: FirstPos(seen + [s], r) == FirstPos(seen, r)
    ensures Count(seen, s.ring) == 0 ==> FirstPos(seen + [s], s.ring) == s.pos
    ensures LastPos(seen + [s], s.ring) == s.pos
    ensures forall r: nat | Count(seen, r) > 0 && r != s.ring :: LastPos(seen + [s], r) == LastPos(seen, r)
  {
    assert (seen + [s])[..|seen|] == seen;
  }
}
