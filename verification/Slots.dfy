/**
  Streaming burst detection of STD-T86 (internal/std-t86/dsp/slots.go).

  The tracker keeps a sliding buffer and is called with chunks of any size.  Its
  specification is a fold over the absolute positions of the whole stream, which
  does not mention chunks at all.
  */
module Slots {
  import opened MaxFilter
  import opened Samples

  const SPS := 8
  const SYMBOLS_PER_SLOT := 150
  const SW_SYM := 69
  const SW_SYMBOLS := 10  // a sync word of ten hexadecimal digits, four bits to a symbol
  const BACK := SW_SYM * SPS
  const FWD := (SYMBOLS_PER_SLOT - SW_SYM) * SPS
  const SPAN := (SW_SYMBOLS - 1) * SPS + 1      // samples under a sync word
  const MIN_SEP := SYMBOLS_PER_SLOT * SPS - 40  // least distance of two bursts
  const LOOK := SPAN + MIN_SEP  // samples needed beyond a position before it is decided
  const TEMPLATES := 4

  datatype Burst = Burst(pos: int, which: nat, slot: seq<Sample>, corr: real, power: real)

  /** Settings and the signal-processing functions the tracker is built on. */
  datatype Config = Config(
    syncThresh: real,
    squelchEnabled: bool,
    correlate: (nat, seq<Sample>) -> real,
    extract: (nat, seq<Sample>) -> seq<Sample>,
    decay: (real, nat) -> real,
    floor: real)

  function Max(a: int, b: int): int { if a > b then a else b }

  function Min(a: int, b: int): int { if a < b then a else b }

  function RealMax(a: real, b: real): real { if a > b then a else b }

  // ---------------------------------------------------------------- one position

  /** First template, among the first `k`, that correlates best with a window. */
  function BestTemplate(c: Config, w: seq<Sample>, k: nat): nat
    requires k > 0
  {
    if k == 1 then 0
    else
      var b := BestTemplate(c, w, k - 1);
      if c.correlate(k - 1, w) > c.correlate(b, w) then k - 1 else b
  }

  function Which(c: Config, w: seq<Sample>): nat { BestTemplate(c, w, TEMPLATES) }

  function Level(c: Config, w: seq<Sample>): real { c.correlate(Which(c, w), w) }

  lemma {:induction false} BestTemplateIs(c: Config, w: seq<Sample>, k: nat)
    requires k > 0
    ensures BestTemplate(c, w, k) < k
    ensures forall j | 0 <= j < k :: c.correlate(j, w) <= c.correlate(BestTemplate(c, w, k), w)
    ensures forall j | 0 <= j < BestTemplate(c, w, k) :: c.correlate(j, w) < c.correlate(BestTemplate(c, w, k), w)
  {
    if k > 1 { BestTemplateIs(c, w, k - 1); }
  }

  /** The level is the highest of the four correlations, and the first template that reaches it is named. */
  lemma LevelIsHighest(c: Config, w: seq<Sample>)
    ensures Which(c, w) < 4 && Level(c, w) == c.correlate(Which(c, w), w)
    ensures forall j | 0 <= j < 4 :: c.correlate(j, w) <= Level(c, w)
    ensures forall j | 0 <= j < Which(c, w) :: c.correlate(j, w) < Level(c, w)
  {
    BestTemplateIs(c, w, 4);
  }

  function WindowAt(s: seq<Sample>, p: int): seq<Sample>
    requires 0 <= p && p + SPAN <= |s|
  {
    s[p..p + SPAN]
  }

  function LevelAt(c: Config, s: seq<Sample>, p: int): real
    requires 0 <= p && p + SPAN <= |s|
  {
    Level(c, WindowAt(s, p))
  }

  /** Highest level within the minimum burst distance on either side. */
  ghost predicate IsPeak(c: Config, s: seq<Sample>, pos: int)
    requires 0 <= pos && pos + LOOK < |s|
  {
    forall p | Lo(pos, MIN_SEP) <= p <= pos + MIN_SEP :: LevelAt(c, s, p) <= LevelAt(c, s, pos)
  }

  function Energy(s: seq<Sample>): real {
    if s == [] then 0.0
    else
      var v := s[|s| - 1];
      Energy(s[..|s| - 1]) + (v.re * v.re + v.im * v.im)
  }

  function Power(s: seq<Sample>): real
    requires |s| > 0
  {
    Energy(s) / |s| as real
  }

  function BurstSpan(s: seq<Sample>, pos: int): (r: seq<Sample>)
    requires BACK <= pos && pos + LOOK < |s|
    ensures |r| == BACK + FWD
  {
    s[pos - BACK..pos + FWD]
  }

  // ---------------------------------------------------------------- the whole stream

  /** What has been decided so far. */
  datatype Scan = Scan(bursts: seq<Burst>, lastPos: int, pRef: real, pRefPos: int)

  const START := Scan([], -10 * MIN_SEP, 0.0, 0)

  /** The burst a position gives, if it is accepted. */
  function BurstAt(c: Config, s: seq<Sample>, pos: int): Burst
    requires BACK <= pos && pos + LOOK < |s|
  {
    var w, span := WindowAt(s, pos), BurstSpan(s, pos);
    Burst(pos, Which(c, w), c.extract(Which(c, w), span), Level(c, w), Power(span))
  }

  /** The decaying reference after a candidate, and whether the candidate is loud enough. */
  function Reference(c: Config, scan: Scan, pos: int): real {
    c.decay(scan.pRef, Max(0, pos - scan.pRefPos))
  }

  predicate Loud(c: Config, power: real, ref: real) {
    power > ref * c.floor || !c.squelchEnabled
  }

  ghost function StepAt(c: Config, s: seq<Sample>, scan: Scan, pos: int): Scan
    requires BACK <= pos && pos + LOOK < |s|
  {
    if LevelAt(c, s, pos) < c.syncThresh || !IsPeak(c, s, pos) || pos - scan.lastPos <= MIN_SEP then scan
    else
      var b := BurstAt(c, s, pos);
      var ref := Reference(c, scan, pos);
      var heard := scan.(pRef := RealMax(ref, b.power), pRefPos := pos);
      if Loud(c, b.power, ref) then heard.(bursts := scan.bursts + [b], lastPos := pos) else heard
  }

  /** All positions below `upTo`, in order. */
  ghost function ScanTo(c: Config, s: seq<Sample>, upTo: int): Scan
    requires BACK <= upTo && (upTo == BACK || upTo + LOOK <= |s|)
  {
    if upTo == BACK then START else StepAt(c, s, ScanTo(c, s, upTo - 1), upTo - 1)
  }

  /** How far a stream of `n` samples can be decided. */
  function Finalized(n: int): int { Max(BACK, n - LOOK) }

  /** The bursts of a stream. */
  ghost function Bursts(c: Config, s: seq<Sample>): seq<Burst> {
    ScanTo(c, s, Finalized(|s|)).bursts
  }

  // ---------------------------------------------------------------- later samples do not change decisions

  lemma SameWindow(s: seq<Sample>, t: seq<Sample>, p: int)
    requires 0 <= p && p + SPAN <= |s|
    ensures WindowAt(s + t, p) == WindowAt(s, p)
  {
  }

  lemma SamePeak(c: Config, s: seq<Sample>, t: seq<Sample>, pos: int)
    requires 0 <= pos && pos + LOOK < |s|
    ensures IsPeak(c, s + t, pos) <==> IsPeak(c, s, pos)
  {
    hide Level, WindowAt;
    SameWindow(s, t, pos);
    forall p | Lo(pos, MIN_SEP) <= p <= pos + MIN_SEP
      ensures LevelAt(c, s + t, p) == LevelAt(c, s, p)
    {
      SameWindow(s, t, p);
    }
  }

  lemma SameStep(c: Config, s: seq<Sample>, t: seq<Sample>, scan: Scan, pos: int)
    requires BACK <= pos && pos + LOOK < |s|
    ensures StepAt(c, s + t, scan, pos) == StepAt(c, s, scan, pos)
  {
    hide Level, Which, WindowAt, Power, Loud, Reference, IsPeak;
    SamePeak(c, s, t, pos);
    SameWindow(s, t, pos);
    assert BurstSpan(s + t, pos) == BurstSpan(s, pos);
  }

  /** Decisions on a prefix are final. */
  lemma {:induction false} ScanPrefix(c: Config, s: seq<Sample>, t: seq<Sample>, upTo: int)
    requires BACK <= upTo && (upTo == BACK || upTo + LOOK <= |s|)
    ensures ScanTo(c, s + t, upTo) == ScanTo(c, s, upTo)
  {
    if upTo > BACK {
      hide StepAt;
      ScanPrefix(c, s, t, upTo - 1);
      SameStep(c, s, t, ScanTo(c, s, upTo - 1), upTo - 1);
    }
  }

  // ---------------------------------------------------------------- what is emitted

  /** Bursts in order, more than the minimum distance apart, within `lo..hi`. */
  predicate Separated(b: seq<Burst>, lo: int, hi: int) {
    && (forall i | 0 <= i < |b| :: lo <= b[i].pos < hi)
    && (forall i, j | 0 <= i < j < |b| :: b[j].pos - b[i].pos > MIN_SEP)
  }

  lemma {:induction false} ScanSeparated(c: Config, s: seq<Sample>, upTo: int)
    requires BACK <= upTo && (upTo == BACK || upTo + LOOK <= |s|)
    ensures Separated(ScanTo(c, s, upTo).bursts, BACK, upTo)
    ensures LastIs(ScanTo(c, s, upTo))
  {
    hide StepAt, Separated;
    NoneSeparated(BACK, BACK);
    if upTo > BACK {
      ScanSeparated(c, s, upTo - 1);
      StepSeparated(c, s, ScanTo(c, s, upTo - 1), upTo - 1);
    }
  }

  predicate LastIs(scan: Scan) {
    scan.lastPos == if scan.bursts == [] then START.lastPos else scan.bursts[|scan.bursts| - 1].pos
  }

  lemma StepSeparated(c: Config, s: seq<Sample>, scan: Scan, pos: int)
    requires BACK <= pos && pos + LOOK < |s| && Separated(scan.bursts, BACK, pos) && LastIs(scan)
    ensures Separated(StepAt(c, s, scan, pos).bursts, BACK, pos + 1) && LastIs(StepAt(c, s, scan, pos))
  {
    hide LevelAt, Level, Which, IsPeak, Reference, Power, Loud, WindowAt, BurstSpan;
  }

  /** Scanning on only adds bursts, at the positions scanned. */
  lemma {:induction false} ScanGrows(c: Config, s: seq<Sample>, lo: int, hi: int)
    requires BACK <= lo <= hi && (hi == BACK || hi + LOOK <= |s|)
    ensures var a, b := ScanTo(c, s, lo).bursts, ScanTo(c, s, hi).bursts;
      a <= b && forall i | |a| <= i < |b| :: lo <= b[i].pos
  {
    if lo < hi {
      hide Level, Which, IsPeak, Reference, Power, Loud;
      ScanGrows(c, s, lo, hi - 1);
    }
  }

  lemma ScanNew(c: Config, s: seq<Sample>, lo: int, hi: int, before: seq<Burst>, out: seq<Burst>)
    requires BACK <= lo <= hi && hi + LOOK <= |s|
    requires before == ScanTo(c, s, lo).bursts && before + out == ScanTo(c, s, hi).bursts
    ensures Separated(out, lo, hi)
  {
    hide ScanTo;
    ScanGrows(c, s, lo, hi);
    ScanSeparated(c, s, hi);
    forall i | 0 <= i < |out|
      ensures out[i] == (before + out)[|before| + i]
    {
    }
  }

  lemma NoneSeparated(lo: int, hi: int)
    ensures Separated([], lo, hi)
  {
  }

  /** Every burst is a local maximum above the threshold, described by its own samples. */
  lemma {:induction false} ScanGenuine(c: Config, s: seq<Sample>, upTo: int, i: nat)
    requires BACK <= upTo && (upTo == BACK || upTo + LOOK <= |s|)
    requires i < |ScanTo(c, s, upTo).bursts|
    ensures var b := ScanTo(c, s, upTo).bursts[i];
      && BACK <= b.pos < upTo && IsPeak(c, s, b.pos) && b.corr >= c.syncThresh && b == BurstAt(c, s, b.pos)
  {
    if upTo > BACK {
      hide Level, Which, IsPeak, Reference, Power, Loud;
      var n := |ScanTo(c, s, upTo - 1).bursts|;
      if i < n { ScanGenuine(c, s, upTo - 1, i); }
    }
  }

  // ---------------------------------------------------------------- exactly what is emitted

  predicate HasBurst(bursts: seq<Burst>, q: int) { exists i :: 0 <= i < |bursts| && bursts[i].pos == q }

  /** No burst lies within the least distance before `q`. */
  predicate Free(bursts: seq<Burst>, q: int) {
    forall i | 0 <= i < |bursts| :: !(q - MIN_SEP <= bursts[i].pos < q)
  }

  /** A peak above the threshold that keeps its distance from the bursts before it. */
  ghost predicate Eligible(c: Config, s: seq<Sample>, bursts: seq<Burst>, q: int) {
    && BACK <= q && q + LOOK < |s|
    && LevelAt(c, s, q) >= c.syncThresh && IsPeak(c, s, q) && Free(bursts, q)
  }

  /** Power of the burst at `q`. */
  function PowerAt(s: seq<Sample>, q: int): real
    requires BACK <= q && q + LOOK < |s|
  {
    Power(BurstSpan(s, q))
  }

  /** Louder than what is left of every eligible peak before, lowered by the floor. */
  ghost predicate Audible(c: Config, s: seq<Sample>, bursts: seq<Burst>, q: int)
    requires BACK <= q && q + LOOK < |s|
  {
    && PowerAt(s, q) > 0.0
    && forall p | BACK <= p < q && Eligible(c, s, bursts, p) :: PowerAt(s, q) > Faded(c, s, p, q) * c.floor
  }

  function Faded(c: Config, s: seq<Sample>, p: int, q: int): real
    requires BACK <= p <= q && p + LOOK < |s|
  {
    c.decay(PowerAt(s, p), q - p)
  }

  /** Exponential decay: nothing stays nothing, stretches of time add up, order is kept. */
  ghost predicate Decays(c: Config) {
    && c.floor >= 0.0
    && (forall n :: c.decay(0.0, n) == 0.0)
    && (forall x, m: nat, n: nat :: c.decay(c.decay(x, m), n) == c.decay(x, m + n))
    && (forall x, y, n :: x <= y ==> c.decay(x, n) <= c.decay(y, n))
    && (forall x :: c.decay(x, 0) == x)
  }

  lemma DecayAdds(c: Config, x: real, m: nat, n: nat)
    requires Decays(c)
    ensures c.decay(x, m + n) == c.decay(c.decay(x, m), n)
  {
  }

  lemma DecayOrder(c: Config, x: real, y: real, n: nat)
    requires Decays(c) && x <= y
    ensures c.decay(x, n) <= c.decay(y, n) && c.decay(0.0, n) == 0.0 && c.floor >= 0.0
  {
  }

  /** The bursts below `upTo` are exactly the eligible peaks, those that pass the squelch if it is on. */
  ghost predicate Exactly(c: Config, s: seq<Sample>, bursts: seq<Burst>, upTo: int) {
    forall q | BACK <= q < upTo && q + LOOK < |s| ::
      HasBurst(bursts, q) <==> Eligible(c, s, bursts, q) && (c.squelchEnabled ==> Audible(c, s, bursts, q))
  }

  /** The reference is the loudest of the eligible peaks so far, each faded to the position reached. */
  ghost predicate RefIs(c: Config, s: seq<Sample>, scan: Scan, upTo: int) {
    && BACK <= upTo && upTo + LOOK <= |s| && 0 <= scan.pRefPos <= upTo && scan.pRef >= 0.0
    && (forall p | BACK <= p < upTo && Eligible(c, s, scan.bursts, p) ::
          Faded(c, s, p, upTo) <= c.decay(scan.pRef, upTo - scan.pRefPos))
    && (c.decay(scan.pRef, upTo - scan.pRefPos) == 0.0 || Loudest(c, s, scan, upTo))
  }

  ghost predicate Loudest(c: Config, s: seq<Sample>, scan: Scan, upTo: int)
    requires upTo + LOOK <= |s| && 0 <= scan.pRefPos <= upTo
  {
    exists p :: BACK <= p < upTo && Eligible(c, s, scan.bursts, p)
                && Faded(c, s, p, upTo) == c.decay(scan.pRef, upTo - scan.pRefPos)
  }

  lemma FreeFromLast(scan: Scan, pos: int)
    requires BACK <= pos && Separated(scan.bursts, BACK, pos) && LastIs(scan)
    ensures Free(scan.bursts, pos) <==> pos - scan.lastPos > MIN_SEP
  {
    if scan.bursts != [] {
      var n := |scan.bursts| - 1;
      assert BACK <= scan.bursts[n].pos < pos;
      forall i | 0 <= i < n
        ensures scan.bursts[i].pos < scan.bursts[n].pos
      {
      }
    }
  }

  /** A burst at `pos` changes nothing for positions up to `pos`. */
  lemma EligibleStays(c: Config, s: seq<Sample>, bursts: seq<Burst>, b: Burst, q: int)
    requires q <= b.pos
    ensures Eligible(c, s, bursts + [b], q) <==> Eligible(c, s, bursts, q)
  {
    hide LevelAt, IsPeak;
    assert forall i | 0 <= i < |bursts| :: (bursts + [b])[i] == bursts[i];
    if Free(bursts + [b], q) {
      forall i | 0 <= i < |bursts|
        ensures !(q - MIN_SEP <= bursts[i].pos < q)
      {
        assert (bursts + [b])[i] == bursts[i];
      }
    }
  }

  lemma AudibleStays(c: Config, s: seq<Sample>, bursts: seq<Burst>, b: Burst, q: int)
    requires BACK <= q <= b.pos && q + LOOK < |s|
    ensures Audible(c, s, bursts + [b], q) <==> Audible(c, s, bursts, q)
  {
    hide Eligible, PowerAt;
    forall p | BACK <= p < q
      ensures Eligible(c, s, bursts + [b], p) <==> Eligible(c, s, bursts, p)
    {
      EligibleStays(c, s, bursts, b, p);
    }
  }

  lemma AtStays(bursts: seq<Burst>, b: Burst, q: int)
    ensures HasBurst(bursts + [b], q) <==> HasBurst(bursts, q) || b.pos == q
  {
    if HasBurst(bursts, q) {
      var i :| 0 <= i < |bursts| && bursts[i].pos == q;
      assert (bursts + [b])[i].pos == q;
    }
    assert (bursts + [b])[|bursts|] == b;
  }

  lemma ExactlyStays(c: Config, s: seq<Sample>, bursts: seq<Burst>, b: Burst, upTo: int)
    requires Exactly(c, s, bursts, upTo) && upTo <= b.pos
    ensures Exactly(c, s, bursts + [b], upTo)
  {
    hide HasBurst, Eligible, Audible;
    forall q | BACK <= q < upTo && q + LOOK < |s|
      ensures HasBurst(bursts + [b], q)
        <==> Eligible(c, s, bursts + [b], q) && (c.squelchEnabled ==> Audible(c, s, bursts + [b], q))
    {
      AtStays(bursts, b, q);
      EligibleStays(c, s, bursts, b, q);
      AudibleStays(c, s, bursts, b, q);
    }
  }

  lemma NoBurstYet(bursts: seq<Burst>, pos: int)
    requires Separated(bursts, BACK, pos)
    ensures !HasBurst(bursts, pos)
  {
  }

  lemma ExactlyNext(c: Config, s: seq<Sample>, bursts: seq<Burst>, pos: int)
    requires Exactly(c, s, bursts, pos) && BACK <= pos && pos + LOOK < |s|
    requires HasBurst(bursts, pos) <==> Eligible(c, s, bursts, pos) && (c.squelchEnabled ==> Audible(c, s, bursts, pos))
    ensures Exactly(c, s, bursts, pos + 1)
  {
    hide HasBurst, Eligible, Audible;
  }

  /** The reference at `pos` decides whether a peak is audible. */
  lemma LoudIsAudible(c: Config, s: seq<Sample>, scan: Scan, pos: int)
    requires RefIs(c, s, scan, pos) && Decays(c) && pos + LOOK < |s|
    ensures PowerAt(s, pos) > Reference(c, scan, pos) * c.floor <==> Audible(c, s, scan.bursts, pos)
  {
    hide Eligible, PowerAt, Faded, Decays;
    var power, ref := PowerAt(s, pos), Reference(c, scan, pos);
    assert ref == c.decay(scan.pRef, pos - scan.pRefPos);
    DecayOrder(c, 0.0, scan.pRef, pos - scan.pRefPos);
    Scaled(0.0, ref, c.floor);
    forall p | BACK <= p < pos && Eligible(c, s, scan.bursts, p)
      ensures Faded(c, s, p, pos) * c.floor <= ref * c.floor
    {
      Scaled(Faded(c, s, p, pos), ref, c.floor);
    }
    if ref != 0.0 {
      var p :| BACK <= p < pos && Eligible(c, s, scan.bursts, p) && Faded(c, s, p, pos) == ref;
    }
  }

  lemma Scaled(x: real, y: real, f: real)
    requires x <= y && f >= 0.0
    ensures x * f <= y * f
  {
  }

  /** Fading one sample further. */
  lemma FadesOn(c: Config, s: seq<Sample>, p: int, upTo: int)
    requires Decays(c) && BACK <= p <= upTo && p + LOOK < |s|
    ensures Faded(c, s, p, upTo + 1) == c.decay(Faded(c, s, p, upTo), 1)
  {
    hide PowerAt, Decays;
    DecayAdds(c, PowerAt(s, p), upTo - p, 1);
  }

  /** Without a peak the reference just fades. */
  lemma RefQuiet(c: Config, s: seq<Sample>, scan: Scan, pos: int)
    requires RefIs(c, s, scan, pos) && Decays(c) && pos + LOOK < |s| && !Eligible(c, s, scan.bursts, pos)
    ensures RefIs(c, s, scan, pos + 1)
  {
    hide Eligible, PowerAt, Faded, Decays;
    var now := c.decay(scan.pRef, pos - scan.pRefPos);
    DecayAdds(c, scan.pRef, pos - scan.pRefPos, 1);
    assert c.decay(scan.pRef, pos + 1 - scan.pRefPos) == c.decay(now, 1);
    forall p | BACK <= p < pos + 1 && Eligible(c, s, scan.bursts, p)
      ensures Faded(c, s, p, pos + 1) <= c.decay(now, 1)
    {
      FadesOn(c, s, p, pos);
      DecayOrder(c, Faded(c, s, p, pos), now, 1);
    }
    if now != 0.0 {
      var p :| BACK <= p < pos && Eligible(c, s, scan.bursts, p) && Faded(c, s, p, pos) == now;
      FadesOn(c, s, p, pos);
    } else {
      DecayOrder(c, 0.0, 0.0, 1);
    }
  }

  /** A peak joins the reference. */
  lemma RefHears(c: Config, s: seq<Sample>, scan: Scan, pos: int)
    requires RefIs(c, s, scan, pos) && Decays(c) && pos + LOOK < |s| && Eligible(c, s, scan.bursts, pos)
    requires PowerAt(s, pos) >= 0.0
    ensures RefIs(c, s, scan.(pRef := RealMax(Reference(c, scan, pos), PowerAt(s, pos)), pRefPos := pos), pos + 1)
  {
    hide Eligible, PowerAt, Faded, Decays;
    var ref, power := Reference(c, scan, pos), PowerAt(s, pos);
    assert ref == c.decay(scan.pRef, pos - scan.pRefPos);
    var best := RealMax(ref, power);
    FadesOn(c, s, pos, pos);
    JustHeard(c, s, pos);
    forall p | BACK <= p < pos + 1 && Eligible(c, s, scan.bursts, p)
      ensures Faded(c, s, p, pos + 1) <= c.decay(best, 1)
    {
      FadesOn(c, s, p, pos);
      DecayOrder(c, Faded(c, s, p, pos), best, 1);
    }
    if best == power {
      assert Faded(c, s, pos, pos + 1) == c.decay(best, 1);
    } else if ref != 0.0 {
      var p :| BACK <= p < pos && Eligible(c, s, scan.bursts, p) && Faded(c, s, p, pos) == ref;
      FadesOn(c, s, p, pos);
    }
  }

  lemma JustHeard(c: Config, s: seq<Sample>, p: int)
    requires Decays(c) && BACK <= p && p + LOOK < |s|
    ensures Faded(c, s, p, p) == PowerAt(s, p)
  {
    hide PowerAt;
  }

  /** A burst at `pos` leaves what was eligible before. */
  lemma RefStays(c: Config, s: seq<Sample>, scan: Scan, b: Burst, lastPos: int, upTo: int)
    requires RefIs(c, s, scan, upTo) && upTo <= b.pos + 1
    ensures RefIs(c, s, scan.(bursts := scan.bursts + [b], lastPos := lastPos), upTo)
  {
    hide Eligible, Faded;
    forall p | BACK <= p < upTo
      ensures Eligible(c, s, scan.bursts + [b], p) <==> Eligible(c, s, scan.bursts, p)
    {
      EligibleStays(c, s, scan.bursts, b, p);
    }
  }

  lemma {:induction false} EnergyNonNegative(s: seq<Sample>)
    ensures Energy(s) >= 0.0
  {
    if s != [] {
      EnergyNonNegative(s[..|s| - 1]);
      var v := s[|s| - 1];
      Square(v.re);
      Square(v.im);
    }
  }

  lemma Square(x: real)
    ensures x * x >= 0.0
  {
  }

  lemma PowerNonNegative(s: seq<Sample>, q: int)
    requires BACK <= q && q + LOOK < |s|
    ensures PowerAt(s, q) >= 0.0
  {
    EnergyNonNegative(BurstSpan(s, q));
  }

  /** One position. */
  lemma ExactlyStep(c: Config, s: seq<Sample>, scan: Scan, pos: int)
    requires BACK <= pos && pos + LOOK < |s| && Separated(scan.bursts, BACK, pos) && LastIs(scan)
    requires Exactly(c, s, scan.bursts, pos) && (c.squelchEnabled ==> Decays(c) && RefIs(c, s, scan, pos))
    ensures Exactly(c, s, StepAt(c, s, scan, pos).bursts, pos + 1)
    ensures c.squelchEnabled ==> RefIs(c, s, StepAt(c, s, scan, pos), pos + 1)
  {
    hide Exactly, RefIs, Decays, Separated, LastIs, HasBurst, Free, Audible, LevelAt, IsPeak, Power, Reference, Which, Level;
    FreeFromLast(scan, pos);
    NoBurstYet(scan.bursts, pos);
    if !Eligible(c, s, scan.bursts, pos) {
      ExactlyNext(c, s, scan.bursts, pos);
      if c.squelchEnabled { RefQuiet(c, s, scan, pos); }
      return;
    }
    var b, ref := BurstAt(c, s, pos), Reference(c, scan, pos);
    var heard := scan.(pRef := RealMax(ref, b.power), pRefPos := pos);
    if c.squelchEnabled {
      LoudIsAudible(c, s, scan, pos);
      PowerNonNegative(s, pos);
      RefHears(c, s, scan, pos);
    }
    if Loud(c, b.power, ref) {
      AtStays(scan.bursts, b, pos);
      EligibleStays(c, s, scan.bursts, b, pos);
      AudibleStays(c, s, scan.bursts, b, pos);
      ExactlyStays(c, s, scan.bursts, b, pos);
      ExactlyNext(c, s, scan.bursts + [b], pos);
      if c.squelchEnabled { RefStays(c, s, heard, b, pos, pos + 1); }
    } else {
      ExactlyNext(c, s, scan.bursts, pos);
    }
  }

  /**
    Completeness: a position has a burst exactly if it is an eligible peak and, with the squelch on,
    audible over all earlier ones.
    */
  lemma {:induction false} ScanExact(c: Config, s: seq<Sample>, upTo: int)
    requires BACK <= upTo && upTo + LOOK <= |s| && (c.squelchEnabled ==> Decays(c))
    ensures Exactly(c, s, ScanTo(c, s, upTo).bursts, upTo)
    ensures c.squelchEnabled ==> RefIs(c, s, ScanTo(c, s, upTo), upTo)
  {
    if upTo == BACK {
      hide Exactly, RefIs, Decays;
      NothingHeard(c, s);
    } else {
      hide StepAt, Exactly, RefIs, Separated, LastIs, Decays;
      ScanExact(c, s, upTo - 1);
      ScanSeparated(c, s, upTo - 1);
      ExactlyStep(c, s, ScanTo(c, s, upTo - 1), upTo - 1);
    }
  }

  lemma NothingHeard(c: Config, s: seq<Sample>)
    requires BACK + LOOK <= |s|
    ensures Exactly(c, s, [], BACK)
    ensures c.squelchEnabled && Decays(c) ==> RefIs(c, s, START, BACK)
  {
  }

  /** The bursts of a stream, without reference to how it is scanned. */
  lemma BurstsExact(c: Config, s: seq<Sample>)
    ensures (c.squelchEnabled ==> Decays(c)) ==> Exactly(c, s, Bursts(c, s), Finalized(|s|))
  {
    hide ScanTo, Decays;
    if (c.squelchEnabled ==> Decays(c)) && BACK + LOOK <= |s| {
      hide Exactly;
      ScanExact(c, s, Finalized(|s|));
    }
  }

  /** With the squelch off every peak above the threshold has a burst at it or within the least distance before it. */
  lemma PeakHasBurst(c: Config, s: seq<Sample>, bursts: seq<Burst>, pos: int)
    requires Exactly(c, s, bursts, Finalized(|s|)) && !c.squelchEnabled
    requires BACK <= pos < Finalized(|s|) && LevelAt(c, s, pos) >= c.syncThresh && IsPeak(c, s, pos)
    ensures exists i :: 0 <= i < |bursts| && pos - MIN_SEP <= bursts[i].pos <= pos
  {
    hide LevelAt, IsPeak;
    if !Free(bursts, pos) {
      var i :| 0 <= i < |bursts| && pos - MIN_SEP <= bursts[i].pos < pos;
    } else {
      assert HasBurst(bursts, pos);
    }
  }

  /** A position is decided as soon as all samples that its peak test and its burst need have come. */
  lemma DecidedAsSoonAsPossible(n: nat, pos: int)
    requires pos >= 552
    ensures pos < Finalized(n) <==> pos + 1160 + 73 < n
    ensures pos < Finalized(n) ==> pos + 648 <= n
  {
  }

  // ---------------------------------------------------------------- the tracker

  /** Correlation of every full window of `seg` with template `k`. */
  method SyncMetric(c: Config, seg: seq<Sample>, k: nat) returns (out: seq<real>)
    ensures |out| == Max(0, |seg| - SPAN)
    ensures forall i | 0 <= i < |out| :: out[i] == c.correlate(k, WindowAt(seg, i))
  {
    out := [];
    var n := |seg| - SPAN;
    var i := 0;
    while i < n
      invariant 0 <= i <= Max(0, n) && |out| == i
      invariant forall j | 0 <= j < i :: out[j] == c.correlate(k, WindowAt(seg, j))
    {
      out := out + [c.correlate(k, seg[i..i + SPAN])];
      i := i + 1;
    }
  }

  /** Best level and template at every position of `seg`. */
  method Levels(c: Config, seg: seq<Sample>) returns (mm: seq<real>, which: seq<nat>)
    requires |seg| >= SPAN
    ensures |mm| == |which| == |seg| - SPAN
    ensures forall i | 0 <= i < |mm| :: mm[i] == LevelAt(c, seg, i) && which[i] == Which(c, WindowAt(seg, i))
  {
    hide WindowAt, BestTemplate;
    var metrics: seq<seq<real>> := [];
    var k := 0;
    while k < TEMPLATES
      invariant 0 <= k <= TEMPLATES && |metrics| == k
      invariant forall j | 0 <= j < k :: |metrics[j]| == |seg| - SPAN
      invariant forall j, i | 0 <= j < k && 0 <= i < |seg| - SPAN :: metrics[j][i] == c.correlate(j, WindowAt(seg, i))
    {
      var m := SyncMetric(c, seg, k);
      metrics := metrics + [m];
      k := k + 1;
    }
    mm, which := [], [];
    var n := |seg| - SPAN;
    var i := 0;
    while i < n
      invariant 0 <= i <= n && |mm| == |which| == i
      invariant forall j | 0 <= j < i :: mm[j] == LevelAt(c, seg, j) && which[j] == Which(c, WindowAt(seg, j))
    {
      var best, bi := TopTemplate(c, metrics, i, WindowAt(seg, i));
      mm, which := mm + [best], which + [bi];
      i := i + 1;
    }
  }

  method TopTemplate(c: Config, metrics: seq<seq<real>>, i: nat, ghost w: seq<Sample>) returns (best: real, bi: nat)
    requires |metrics| == TEMPLATES && forall j | 0 <= j < TEMPLATES :: i < |metrics[j]| && metrics[j][i] == c.correlate(j, w)
    ensures bi == Which(c, w) && best == Level(c, w)
  {
    best, bi := metrics[0][i], 0;
    var k := 1;
    while k < |metrics|
      invariant 1 <= k <= TEMPLATES && bi < k && bi == BestTemplate(c, w, k) && best == c.correlate(bi, w)
    {
      if metrics[k][i] > best {
        best, bi := metrics[k][i], k;
      }
      k := k + 1;
    }
  }

  /** Mean power of a burst's samples. */
  method MeanPower(span: seq<Sample>) returns (power: real)
    requires |span| > 0
    ensures power == Power(span)
  {
    power := 0.0;
    var i := 0;
    while i < |span|
      invariant 0 <= i <= |span| && power == Energy(span[..i])
    {
      assert span[..i + 1][..i] == span[..i];
      power := power + (span[i].re * span[i].re + span[i].im * span[i].im);
      i := i + 1;
    }
    assert span[..i] == span;
    power := power / |span| as real;
  }

  class SlotTracker {
    const c: Config
    var buf: seq<Sample>
    var bufAbs: int
    var nextScan: int
    var lastPos: int
    var pRef: real
    var pRefPos: int
    ghost var stream: seq<Sample>
    ghost var emitted: seq<Burst>

    /** Buffer positions follow from the stream length alone. */
    ghost predicate Placed()
      reads this
    {
      && nextScan == Finalized(|stream|)
      && bufAbs == Max(0, nextScan - MIN_SEP - BACK)
      && bufAbs <= |stream| && buf == stream[bufAbs..]
    }

    ghost predicate Valid()
      reads this
    {
      Placed() && Scan(emitted, lastPos, pRef, pRefPos) == ScanTo(c, stream, nextScan)
    }

    constructor (c: Config)
      ensures Valid() && this.c == c && stream == [] && emitted == []
    {
      this.c := c;
      buf, bufAbs, nextScan, lastPos, pRef, pRefPos := [], 0, BACK, -10 * MIN_SEP, 0.0, 0;
      stream, emitted := [], [];
    }

    /** The bursts emitted so far are those of the stream so far. */
    lemma EmittedIs()
      requires Valid()
      ensures emitted == Bursts(c, stream)
    {
      hide ScanTo;
    }

    /** Everything at earlier positions has been reported. */
    method FinalizedPos() returns (p: int)
      requires Valid()
      ensures p == Finalized(|stream|)
    {
      p := nextScan;
    }

    /** The power gate: updates the decaying reference for every candidate. */
    method SquelchOk(pos: int, power: real) returns (ok: bool)
      modifies `pRef, `pRefPos
      ensures var ref := c.decay(old(pRef), Max(0, pos - old(pRefPos)));
        ok == Loud(c, power, ref) && pRef == RealMax(ref, power) && pRefPos == pos
    {
      var dt := Max(0, pos - pRefPos);
      var ref := c.decay(pRef, dt);
      ok := power > ref * c.floor;
      pRef := RealMax(ref, power);
      pRefPos := pos;
      ok := ok || !c.squelchEnabled;
    }

    /** State as seen by the specification while `out` is being collected. */
    ghost function Progress(out: seq<Burst>): Scan
      reads this
    {
      Scan(emitted + out, if out == [] then lastPos else out[|out| - 1].pos, pRef, pRefPos)
    }

    /** One scan position. */
    method Visit(pos: int, level: real, which: nat, highest: real, out: seq<Burst>) returns (r: seq<Burst>)
      requires BACK <= pos && pos + LOOK < |stream| && 0 <= bufAbs <= |stream| && buf == stream[bufAbs..]
      requires pos - bufAbs >= BACK
      requires level == LevelAt(c, stream, pos) && which == Which(c, WindowAt(stream, pos))
      requires level >= highest <==> IsPeak(c, stream, pos)
      requires out != [] ==> lastPos < out[|out| - 1].pos
      modifies `pRef, `pRefPos
      ensures Progress(r) == StepAt(c, stream, old(Progress(out)), pos)
      ensures r != [] && out == [] ==> lastPos < r[|r| - 1].pos
      ensures r != [] && out != [] ==> out[|out| - 1].pos <= r[|r| - 1].pos
    {
      hide Level, Which, IsPeak, Power, Loud;
      r := out;
      if level < c.syncThresh || level < highest { return; }
      if pos - lastPos <= MIN_SEP { return; }
      if |out| > 0 && pos - out[|out| - 1].pos <= MIN_SEP { return; }
      var local := pos - bufAbs;
      var hi := Min(local + FWD, |buf|);
      var span := buf[local - BACK..hi];
      assert span == BurstSpan(stream, pos);
      var power := MeanPower(span);
      var ok := SquelchOk(pos, power);
      if !ok { return; }
      assert emitted + (out + [BurstAt(c, stream, pos)]) == (emitted + out) + [BurstAt(c, stream, pos)];
      r := out + [Burst(pos, which, c.extract(which, span), level, power)];
    }

    /** Takes the next samples and returns the bursts that can now be decided. */
    method Process(chunk: seq<Sample>) returns (out: seq<Burst>)
      requires Valid()
      modifies this
      ensures Valid() && stream == old(stream) + chunk && emitted == old(emitted) + out
      ensures emitted == Bursts(c, stream)
      ensures (c.squelchEnabled ==> Decays(c)) ==> Exactly(c, stream, emitted, Finalized(|stream|))
      ensures Separated(emitted, BACK, Finalized(|stream|))
      ensures Separated(out, Finalized(|old(stream)|), Finalized(|stream|))
    {
      hide ScanTo, Separated, Exactly, Decays;
      BurstsExact(c, stream + chunk);
      NoneSeparated(nextScan, Finalized(|stream + chunk|));
      ScanPrefix(c, stream, chunk, nextScan);
      ghost var full := stream + chunk;
      assert buf + chunk == full[bufAbs..];
      buf, stream := buf + chunk, full;
      ScanSeparated(c, full, Finalized(|full|));
      var bufEnd := bufAbs + |buf|;
      var emitTo := Min(bufEnd - SPAN - MIN_SEP, bufEnd - FWD);
      out := [];
      if emitTo <= nextScan { return; }
      out := ScanSegment(emitTo);
      if |out| > 0 {
        lastPos := out[|out| - 1].pos;
      }
      ScanNew(c, full, nextScan, emitTo, emitted, out);
      emitted := emitted + out;
      nextScan := emitTo;
      Trim();
    }

    /** Drops the samples that no later decision needs. */
    method Trim()
      requires 0 <= bufAbs <= |stream| && buf == stream[bufAbs..] && BACK <= nextScan && nextScan + LOOK <= |stream|
      modifies `buf, `bufAbs
      ensures bufAbs == Max(old(bufAbs), nextScan - MIN_SEP - BACK) && bufAbs <= |stream| && buf == stream[bufAbs..]
    {
      var keepFrom := Max(bufAbs, nextScan - MIN_SEP - BACK);
      var cut := keepFrom - bufAbs;
      if cut > 0 {
        buf := buf[cut..];
        bufAbs := keepFrom;
      }
    }

    /** Scans the positions from `nextScan` to `emitTo`. */
    method ScanSegment(emitTo: int) returns (out: seq<Burst>)
      requires Scanning(emitTo) && Scan(emitted, lastPos, pRef, pRefPos) == ScanTo(c, stream, nextScan)
      modifies `pRef, `pRefPos
      ensures Progress(out) == ScanTo(c, stream, emitTo)
    {
      hide ScanTo, StepAt, IsPeak, LevelAt, IsMax, Which;
      var wa := Max(bufAbs, nextScan - MIN_SEP);
      var wb := emitTo + MIN_SEP;
      var seg := buf[wa - bufAbs..wb - bufAbs + SPAN];
      var mm, which := Levels(c, seg);
      var maxf := MaximumFilter1D(mm, MIN_SEP);
      var n := wb - wa;
      assert seg == stream[wa..wa + |seg|];
      SegmentLevels(c, stream, seg, wa, mm, which);
      out := [];
      assert emitted + [] == emitted;
      var i := 0;
      while i < n
        invariant 0 <= i <= n
        invariant Progress(out) == ScanTo(c, stream, Max(nextScan, Min(wa + i, emitTo)))
        invariant out != [] ==> lastPos < out[|out| - 1].pos
      {
        var pos := wa + i;
        if nextScan <= pos < emitTo {
          PeakIsMax(c, stream, mm, maxf[i], wa, nextScan, i);
          ScanStep(c, stream, pos);
          out := Visit(pos, mm[i], which[i], maxf[i], out);
        }
        i := i + 1;
      }
    }

    /** The buffer and the range to scan. */
    ghost predicate Scanning(emitTo: int)
      reads this
    {
      && BACK <= nextScan < emitTo && emitTo + LOOK == |stream|
      && bufAbs == Max(0, nextScan - MIN_SEP - BACK)
      && bufAbs <= |stream| && buf == stream[bufAbs..]
    }
  }

  lemma ScanStep(c: Config, s: seq<Sample>, pos: int)
    requires BACK <= pos && pos + LOOK < |s|
    ensures ScanTo(c, s, pos + 1) == StepAt(c, s, ScanTo(c, s, pos), pos)
  {
  }

  lemma SliceOfSlice(s: seq<Sample>, seg: seq<Sample>, wa: int, i: int)
    requires 0 <= wa && wa + |seg| <= |s| && seg == s[wa..wa + |seg|] && 0 <= i && i + SPAN <= |seg|
    ensures WindowAt(seg, i) == WindowAt(s, wa + i)
  {
    forall k | 0 <= k < SPAN
      ensures WindowAt(seg, i)[k] == WindowAt(s, wa + i)[k]
    {
      assert seg[i + k] == s[wa..wa + |seg|][i + k];
    }
  }

  /** Levels of a segment are levels of the stream. */
  lemma SegmentLevels(c: Config, s: seq<Sample>, seg: seq<Sample>, wa: int, mm: seq<real>, which: seq<nat>)
    requires 0 <= wa && wa + |seg| <= |s| && seg == s[wa..wa + |seg|] && |seg| >= SPAN
    requires |mm| == |which| == |seg| - SPAN
    requires forall i | 0 <= i < |mm| :: mm[i] == LevelAt(c, seg, i) && which[i] == Which(c, WindowAt(seg, i))
    ensures forall i | 0 <= i < |mm| :: mm[i] == LevelAt(c, s, wa + i) && which[i] == Which(c, WindowAt(s, wa + i))
  {
    hide Level, Which;
    forall i | 0 <= i < |mm|
      ensures mm[i] == LevelAt(c, s, wa + i) && which[i] == Which(c, WindowAt(s, wa + i))
    {
      SliceOfSlice(s, seg, wa, i);
    }
  }

  /** The filtered maximum decides exactly whether the position is a peak of the stream. */
  lemma PeakIsMax(c: Config, s: seq<Sample>, mm: seq<real>, highest: real, wa: int, nextScan: int, i: int)
    requires 0 <= i < |mm| && 0 <= wa && wa + |mm| + SPAN <= |s| && nextScan <= wa + i
    requires wa == Max(Max(0, nextScan - MIN_SEP - BACK), nextScan - MIN_SEP)
    requires i + MIN_SEP < |mm| && wa + i + LOOK < |s|
    requires forall j | 0 <= j < |mm| :: mm[j] == LevelAt(c, s, wa + j)
    requires IsMax(mm, Lo(i, MIN_SEP), Hi(|mm|, i, MIN_SEP), highest)
    ensures mm[i] >= highest <==> IsPeak(c, s, wa + i)
  {
    hide LevelAt;
    var pos := wa + i;
    assert Lo(pos, MIN_SEP) == wa + Lo(i, MIN_SEP);
    if mm[i] >= highest {
      forall p | Lo(pos, MIN_SEP) <= p <= pos + MIN_SEP
        ensures LevelAt(c, s, p) <= LevelAt(c, s, pos)
      {
        assert mm[p - wa] == LevelAt(c, s, wa + (p - wa));
      }
    }
    if IsPeak(c, s, pos) {
      var j :| Lo(i, MIN_SEP) <= j <= Hi(|mm|, i, MIN_SEP) && mm[j] == highest;
      assert LevelAt(c, s, wa + j) <= LevelAt(c, s, pos);
    }
  }

  // ---------------------------------------------------------------- chunk invariance

  function Joined(chunks: seq<seq<Sample>>): seq<Sample> {
    if chunks == [] then [] else Joined(chunks[..|chunks| - 1]) + chunks[|chunks| - 1]
  }

  /** However a stream is cut into chunks, the bursts are those of the stream. */
  method Detect(c: Config, chunks: seq<seq<Sample>>) returns (all: seq<Burst>)
    ensures all == Bursts(c, Joined(chunks))
    ensures (c.squelchEnabled ==> Decays(c)) ==> Exactly(c, Joined(chunks), all, Finalized(|Joined(chunks)|))
    ensures Separated(all, BACK, Finalized(|Joined(chunks)|))
  {
    hide ScanTo, Separated, Exactly, Decays;
    BurstsExact(c, Joined(chunks));
    var t := new SlotTracker(c);
    all := [];
    NoBursts(c);
    var i := 0;
    while i < |chunks|
      invariant 0 <= i <= |chunks| && t.Valid() && fresh(t) && t.c == c
      invariant t.stream == Joined(chunks[..i]) && t.emitted == all == Bursts(c, t.stream)
      invariant Separated(all, BACK, Finalized(|t.stream|))
    {
      assert chunks[..i + 1][..i] == chunks[..i];
      var out := t.Process(chunks[i]);
      all := all + out;
      i := i + 1;
    }
    assert chunks[..i] == chunks;
  }

  lemma NoBursts(c: Config)
    ensures Bursts(c, []) == [] && Separated([], BACK, Finalized(0))
  {
  }
}
