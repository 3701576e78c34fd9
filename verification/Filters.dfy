/**
  Streaming filters of both receivers against direct convolution
  (internal/std-t86/dsp/filter.go, internal/std-t115/qpsknarrow/dsp/filter.go).
  */
module Filters {
  import opened Samples
  import Words

  // ---------------------------------------------------------------- convolution

  /** Taps `k` and up of output `t`: the sum of `b[j] * s[t - j]`. */
  function Upper(b: seq<real>, s: seq<Sample>, t: int, k: nat): Sample
    requires k <= |b|
    decreases |b| - k
  {
    if k == |b| then ZERO else Add(Scale(b[k], At(s, t - k)), Upper(b, s, t, k + 1))
  }

  /** Taps below `k` of output `t`. */
  function Lower(b: seq<real>, s: seq<Sample>, t: int, k: nat): Sample
    requires k <= |b|
  {
    if k == 0 then ZERO else Add(Lower(b, s, t, k - 1), Term(b, s, t, k - 1))
  }

  function Term(b: seq<real>, s: seq<Sample>, t: int, k: nat): Sample
    requires k < |b|
  {
    Scale(b[k], At(s, t - k))
  }

  /** Output `t` of the convolution. */
  function Filtered(b: seq<real>, s: seq<Sample>, t: int): Sample { Upper(b, s, t, 0) }

  lemma AddAssoc(a: Sample, b: Sample, c: Sample)
    ensures Add(Add(a, b), c) == Add(a, Add(b, c)) && Add(ZERO, a) == a && Add(a, ZERO) == a
  {
  }

  lemma {:induction false} LowerUpper(b: seq<real>, s: seq<Sample>, t: int, k: nat)
    requires k <= |b|
    ensures Add(Lower(b, s, t, k), Upper(b, s, t, k)) == Filtered(b, s, t)
  {
    if k == 0 {
      AddAssoc(Upper(b, s, t, 0), ZERO, ZERO);
    } else {
      hide Add, Scale, At;
      LowerUpper(b, s, t, k - 1);
      AddAssoc(Lower(b, s, t, k - 1), Term(b, s, t, k - 1), Upper(b, s, t, k));
    }
  }

  /** Later samples do not enter. */
  lemma {:induction false} UpperPrefix(b: seq<real>, s: seq<Sample>, x: seq<Sample>, t: int, k: nat)
    requires k <= |b| && t - k < |s|
    ensures Upper(b, s + x, t, k) == Upper(b, s, t, k)
    decreases |b| - k
  {
    if k < |b| {
      hide Add, Scale;
      UpperPrefix(b, s, x, t, k + 1);
    }
  }

  // ---------------------------------------------------------------- transposed form

  /** A delay line of partial sums. */
  class FIRState {
    const taps: seq<real>
    const z: array<Sample>
    ghost var stream: seq<Sample>

    ghost predicate Valid()
      reads this, z
    {
      && |taps| >= 2 && z.Length == |taps| - 1
      && forall k | 0 <= k < z.Length :: z[k] == Upper(taps, stream, |stream| + k, k + 1)
    }

    constructor (taps: seq<real>)
      requires |taps| >= 2
      ensures Valid() && fresh(z) && stream == [] && this.taps == taps
    {
      this.taps := taps;
      z := new Sample[|taps| - 1](_ => ZERO);
      stream := [];
      new;
      forall k | 0 <= k < z.Length
        ensures z[k] == Upper(taps, [], k, k + 1)
      {
        Silent(taps, k, k + 1);
      }
    }

    /** One chunk: the outputs are those of the convolution of the whole stream. */
    method Process(x: seq<Sample>) returns (out: seq<Sample>)
      requires Valid()
      modifies this, z
      ensures Valid() && stream == old(stream) + x && |out| == |x|
      ensures forall i | 0 <= i < |x| :: out[i] == Filtered(taps, stream, |old(stream)| + i)
    {
      hide Upper;
      ghost var s0 := stream;
      out := [];
      var i := 0;
      assert s0 + x[..0] == s0;
      while i < |x|
        invariant 0 <= i <= |x| && |out| == i && Valid() && stream == s0 + x[..i]
        invariant forall j | 0 <= j < i :: out[j] == Filtered(taps, s0 + x[..j + 1], |s0| + j)
      {
        assert s0 + x[..i + 1] == stream + [x[i]];
        var y := Step(x[i]);
        out := out + [y];
        i := i + 1;
      }
      assert x[..i] == x;
      forall j | 0 <= j < |x|
        ensures out[j] == Filtered(taps, stream, |s0| + j)
      {
        assert stream == (s0 + x[..j + 1]) + x[j + 1..];
        UpperPrefix(taps, s0 + x[..j + 1], x[j + 1..], |s0| + j, 0);
      }
    }

    /** One sample, shifting the delay line in place. */
    method Step(xc: Sample) returns (y: Sample)
      requires Valid()
      modifies this, z
      ensures Valid() && stream == old(stream) + [xc]
      ensures y == Filtered(taps, stream, |stream| - 1)
    {
      hide Add, Scale, Upper;
      var n := |taps|;
      ghost var s, s' := stream, stream + [xc];
      ghost var was := z[..];
      ShiftIn(taps, s, xc, 0);
      y := Add(Scale(taps[0], xc), z[0]);
      var k := 0;
      while k < n - 2
        invariant 0 <= k <= n - 2
        invariant forall j | 0 <= j < k :: z[j] == Upper(taps, s', |s'| + j, j + 1)
        invariant forall j | k <= j < n - 1 :: z[j] == was[j]
      {
        ShiftIn(taps, s, xc, k + 1);
        z[k] := Add(Scale(taps[k + 1], xc), z[k + 1]);
        k := k + 1;
      }
      ShiftIn(taps, s, xc, n - 1);
      LastTap(taps, s, n - 1);
      ScaledEnd(taps[n - 1], xc);
      z[n - 2] := Scale(taps[n - 1], xc);
      stream := s';
    }
  }

  lemma {:induction false} Silent(b: seq<real>, t: int, k: nat)
    requires k <= |b|
    ensures Upper(b, [], t, k) == ZERO
    decreases |b| - k
  {
    hide Add, Scale, At;
    if k < |b| {
      Silent(b, t, k + 1);
      Nothing(b[k], t - k);
    }
  }

  lemma Nothing(t: real, i: int)
    ensures Add(Scale(t, At([], i)), ZERO) == ZERO
  {
  }

  /** The new sample meets tap `k`; the taps above it see the older samples. */
  lemma ShiftIn(b: seq<real>, s: seq<Sample>, x: Sample, k: nat)
    requires k < |b|
    ensures Upper(b, s + [x], |s| + k, k) == Add(Scale(b[k], x), Upper(b, s, |s| + k, k + 1))
  {
    hide Add, Scale;
    UpperPrefix(b, s, [x], |s| + k, k + 1);
  }

  lemma LastTap(b: seq<real>, s: seq<Sample>, k: nat)
    requires k + 1 == |b|
    ensures Upper(b, s, |s| + k, k + 1) == ZERO
  {
  }

  lemma ScaledEnd(t: real, x: Sample)
    ensures Add(Scale(t, x), ZERO) == Scale(t, x)
  {
  }

  // ---------------------------------------------------------------- every factor-th position

  predicate Multiple(t: int, f: nat)
    requires f > 0
  {
    t % f == 0
  }

  /** Multiples of `f` below `n`. */
  function Positions(f: nat, n: nat): seq<nat>
    requires f > 0
  {
    if n == 0 then [] else Positions(f, n - 1) + if Multiple(n - 1, f) then [n - 1] else []
  }

  /** `next` is the first multiple of `f` that is not below `n`. */
  ghost predicate NextAfter(f: nat, n: int, next: int)
    requires f > 0
  {
    Multiple(next, f) && n <= next < n + f
  }

  lemma NoMultiple(f: nat, next: int, t: int)
    requires f > 0 && Multiple(next, f) && next < t < next + f
    ensures !Multiple(t, f)
  {
    var d := t / f - next / f;
    if Multiple(t, f) {
      assert f * d == t - next by {
        assert t == f * (t / f) && next == f * (next / f);
        assert f * d == f * (t / f) - f * (next / f);
      }
      Words.MulSign(f, d);
    }
  }

  lemma MultipleNext(f: nat, t: int)
    requires f > 0 && Multiple(t, f)
    ensures Multiple(t + f, f)
  {
    var q := t / f;
    assert t + f == f * (q + 1) by {
      assert t == f * q;
      assert f * (q + 1) == f * q + f;
    }
    ModZero(f, q + 1);
  }

  lemma ModZero(f: nat, q: int)
    requires f > 0
    ensures (f * q) % f == 0
  {
    var r := (f * q) % f;
    var d := q - (f * q) / f;
    assert f * d == r by {
      assert f * q == f * ((f * q) / f) + r;
      assert f * d == f * q - f * ((f * q) / f);
    }
    Words.MulSign(f, d);
  }

  /** No position between `n` and `next`. */
  lemma {:induction false} PositionsSkip(f: nat, n: nat, next: int, m: nat)
    requires f > 0 && NextAfter(f, n, next) && n <= m <= next
    ensures Positions(f, m) == Positions(f, n)
  {
    if n < m {
      hide Multiple;
      PositionsSkip(f, n, next, m - 1);
      MultipleBack(f, next, m - 1);
    }
  }

  lemma MultipleBack(f: nat, next: int, t: int)
    requires f > 0 && Multiple(next, f) && next - f < t < next
    ensures !Multiple(t, f)
  {
    var q := next / f;
    assert next - f == f * (q - 1) by {
      assert next == f * q;
      assert f * (q - 1) == f * q - f;
    }
    ModZero(f, q - 1);
    NoMultiple(f, next - f, t);
  }

  /** Positions one stride further. */
  lemma PositionsStep(f: nat, n: nat, next: int)
    requires f > 0 && NextAfter(f, n, next)
    ensures next >= 0 && Positions(f, next + 1) == Positions(f, n) + [next] && NextAfter(f, next + 1, next + f)
  {
    hide Multiple;
    PositionsSkip(f, n, next, next);
    MultipleNext(f, next);
  }

  lemma FirstPosition(f: nat)
    requires f > 0
    ensures NextAfter(f, 0, 0) && Positions(f, 0) == []
  {
  }

  // ---------------------------------------------------------------- the decimator of STD-T86

  /** Filtered samples at the given positions. */
  function Picked(b: seq<real>, s: seq<Sample>, p: seq<nat>): (r: seq<Sample>)
    ensures |r| == |p|
  {
    seq(|p|, i requires 0 <= i < |p| => Filtered(b, s, p[i]))
  }

  lemma {:induction false} PositionsBelow(f: nat, n: nat)
    requires f > 0
    ensures forall i | 0 <= i < |Positions(f, n)| :: Positions(f, n)[i] < n
  {
    if n > 0 { PositionsBelow(f, n - 1); }
  }

  lemma PickedPrefix(b: seq<real>, s: seq<Sample>, x: seq<Sample>, f: nat)
    requires f > 0
    ensures Picked(b, s + x, Positions(f, |s|)) == Picked(b, s, Positions(f, |s|))
  {
    hide Upper, Positions;
    PositionsBelow(f, |s|);
    var p := Positions(f, |s|);
    forall i | 0 <= i < |p|
      ensures Filtered(b, s + x, p[i]) == Filtered(b, s, p[i])
    {
      UpperPrefix(b, s, x, p[i], 0);
    }
  }

  /** Remainder as the program's language computes it, with the sign of the dividend. */
  function TruncMod(a: int, f: nat): int
    requires f > 0
  {
    if a >= 0 then a % f else -((-a) % f)
  }

  class Decimator {
    const factor: nat
    const taps: seq<real>
    var hist: seq<Sample>
    var phase: nat
    ghost var stream: seq<Sample>
    ghost var emitted: seq<Sample>

    /** `hist` holds the last samples, silence before the start. */
    ghost predicate Remembers()
      reads this
    {
      |hist| == |taps| - 1 && forall i | 0 <= i < |hist| :: hist[i] == At(stream, |stream| - |hist| + i)
    }

    ghost predicate Valid()
      reads this
    {
      && factor >= 1
      && (factor > 1 ==>
            && |taps| >= 1 && Remembers() && NextAfter(factor, |stream|, |stream| + phase)
            && emitted == Picked(taps, stream, Positions(factor, |stream|)))
      && (factor == 1 ==> emitted == stream)
    }

    constructor (factor: nat, taps: seq<real>)
      requires factor >= 1 && (factor > 1 ==> |taps| >= 1)
      ensures Valid() && stream == [] && emitted == [] && this.factor == factor && this.taps == taps
    {
      this.factor, this.taps := factor, taps;
      hist := if factor > 1 then seq(|taps| - 1, _ => ZERO) else [];
      phase, stream, emitted := 0, [], [];
      FirstPosition(factor);
    }

    /** One chunk of any length: out come the filtered samples at the multiples of `factor` it completes. */
    method Process(x: seq<Sample>) returns (out: seq<Sample>)
      requires Valid()
      modifies this
      ensures Valid() && stream == old(stream) + x && emitted == old(emitted) + out
      ensures factor > 1 ==> emitted == Picked(taps, stream, Positions(factor, |stream|))
      ensures factor == 1 ==> out == x
    {
      if factor == 1 {
        stream, emitted := stream + x, emitted + x;
        return x;
      }
      hide Upper, Positions, Multiple, Picked, TruncMod;
      ghost var s, N := stream + x, |stream|;
      PickedPrefix(taps, stream, x, factor);
      var w := hist + x;
      Window(hist, stream, x);
      out := Strides(w, |x|, s, N);
      hist := w[|w| - |hist|..];
      var consumed := |x| - phase;
      PhaseAfter(factor, N, phase, |x|, consumed);
      phase := (TruncMod(-consumed, factor) + factor) % factor;
      stream, emitted := s, emitted + out;
    }

    /** The outputs at chunk positions `phase`, `phase + factor`, ... */
    method Strides(w: seq<Sample>, len: nat, ghost s: seq<Sample>, ghost N: nat) returns (out: seq<Sample>)
      requires factor > 1 && |taps| >= 1 && |w| == len + |taps| - 1 && |s| == N + len && NextAfter(factor, N, N + phase)
      requires forall i | 0 <= i < |w| :: w[i] == At(s, N - (|taps| - 1) + i)
      ensures Picked(taps, s, Positions(factor, N)) + out == Picked(taps, s, Positions(factor, |s|))
    {
      hide Upper, Positions, Multiple, Picked, At;
      // the room reserved for the output is never negative
      assert len - phase + factor - 1 >= 0;
      out := [];
      var n := phase;
      ghost var done := N;
      ghost var start := Picked(taps, s, Positions(factor, N));
      assert start + [] == start;
      while n < len
        invariant phase <= n && N <= done <= |s| && NextAfter(factor, done, N + n)
        invariant start + out == Picked(taps, s, Positions(factor, done))
        decreases len - n
      {
        var y := Output(w, n, s, N);
        PositionsStep(factor, done, N + n);
        PickedSnoc(taps, s, Positions(factor, done), N + n);
        assert start + (out + [y]) == (start + out) + [y];
        out := out + [y];
        done := N + n + 1;
        n := n + factor;
      }
      PositionsSkip(factor, done, N + n, |s|);
    }

    /** The inner sum at chunk position `n`. */
    method Output(w: seq<Sample>, n: nat, ghost s: seq<Sample>, ghost N: nat) returns (y: Sample)
      requires |taps| >= 1 && n + |taps| <= |w|
      requires forall i | 0 <= i < |w| :: w[i] == At(s, N - (|taps| - 1) + i)
      ensures y == Filtered(taps, s, N + n)
    {
      hide Add, Scale, At, Upper;
      y := ZERO;
      var base := n + |taps| - 1;
      var k := 0;
      while k < |taps|
        invariant 0 <= k <= |taps| && y == Lower(taps, s, N + n, k)
      {
        var v := w[base - k];
        assert v == At(s, N + n - k);
        y := Add(y, Scale(taps[k], v));
        k := k + 1;
      }
      LowerUpper(taps, s, N + n, k);
      NoTaps(taps, s, N + n);
    }
  }

  lemma NoTaps(b: seq<real>, s: seq<Sample>, t: int)
    ensures Add(Lower(b, s, t, |b|), Upper(b, s, t, |b|)) == Lower(b, s, t, |b|)
  {
    hide Lower;
  }

  lemma Window(hist: seq<Sample>, s: seq<Sample>, x: seq<Sample>)
    requires forall i | 0 <= i < |hist| :: hist[i] == At(s, |s| - |hist| + i)
    ensures forall i | 0 <= i < |hist + x| :: (hist + x)[i] == At(s + x, |s| - |hist| + i)
  {
  }

  lemma PickedSnoc(b: seq<real>, s: seq<Sample>, p: seq<nat>, t: nat)
    ensures Picked(b, s, p + [t]) == Picked(b, s, p) + [Filtered(b, s, t)]
  {
    hide Upper;
  }

  /** The phase for the next chunk. */
  lemma PhaseAfter(f: nat, N: nat, phase: nat, len: nat, consumed: int)
    requires f > 0 && NextAfter(f, N, N + phase) && consumed == len - phase
    ensures 0 <= (TruncMod(-consumed, f) + f) % f && NextAfter(f, N + len, N + len + (TruncMod(-consumed, f) + f) % f)
  {
    var p := (TruncMod(-consumed, f) + f) % f;
    var q := (TruncMod(-consumed, f) + f) / f;
    assert TruncMod(-consumed, f) + f == f * q + p;
    // the new position differs from the old one by a multiple of the factor
    var r := TruncQuotient(-consumed, f);
    assert N + len + p == (N + phase) + f * (1 - q - r);
    MultipleShift(f, N + phase, 1 - q - r);
  }

  lemma TruncQuotient(a: int, f: nat) returns (r: int)
    requires f > 0
    ensures a == f * r + TruncMod(a, f)
  {
    r := if a >= 0 then a / f else -((-a) / f);
    if a < 0 {
      assert -a == f * ((-a) / f) + (-a) % f;
      assert f * r == -(f * ((-a) / f));
    }
  }

  lemma MultipleShift(f: nat, t: int, k: int)
    requires f > 0 && Multiple(t, f)
    ensures Multiple(t + f * k, f)
  {
    var q := t / f;
    assert t + f * k == f * (q + k) by {
      assert t == f * q;
      assert f * (q + k) == f * q + f * k;
    }
    ModZero(f, q + k);
  }

  // ---------------------------------------------------------------- the decimator of STD-T115

  /** The first `k` taps laid over the stream from `t` on. */
  function Overlay(b: seq<real>, s: seq<Sample>, t: int, k: nat): Sample
    requires k <= |b|
  {
    if k == 0 then ZERO else Add(Overlay(b, s, t, k - 1), Scale(b[k - 1], At(s, t + k - 1)))
  }

  function Overlaid(b: seq<real>, s: seq<Sample>, p: seq<nat>): (r: seq<Sample>)
    ensures |r| == |p|
  {
    seq(|p|, i requires 0 <= i < |p| => Overlay(b, s, p[i], |b|))
  }

  /** Number of positions at which all `m` taps lie inside a stream of `n` samples. */
  function Full(n: nat, m: nat): nat { if n >= m then n - m + 1 else 0 }

  lemma {:induction false} OverlayPrefix(b: seq<real>, s: seq<Sample>, x: seq<Sample>, t: nat, k: nat)
    requires k <= |b| && t + k <= |s|
    ensures Overlay(b, s + x, t, k) == Overlay(b, s, t, k)
  {
    if k > 0 {
      hide Add, Scale;
      OverlayPrefix(b, s, x, t, k - 1);
    }
  }

  lemma OverlaidPrefix(b: seq<real>, s: seq<Sample>, x: seq<Sample>, f: nat)
    requires f > 0
    ensures Overlaid(b, s + x, Positions(f, Full(|s|, |b|))) == Overlaid(b, s, Positions(f, Full(|s|, |b|)))
  {
    hide Overlay, Positions;
    PositionsBelow(f, Full(|s|, |b|));
    var p := Positions(f, Full(|s|, |b|));
    forall i | 0 <= i < |p|
      ensures Overlay(b, s + x, p[i], |b|) == Overlay(b, s, p[i], |b|)
    {
      OverlayPrefix(b, s, x, p[i], |b|);
    }
  }

  lemma OverlaidSnoc(b: seq<real>, s: seq<Sample>, p: seq<nat>, t: nat)
    ensures Overlaid(b, s, p + [t]) == Overlaid(b, s, p) + [Overlay(b, s, t, |b|)]
  {
    hide Overlay;
  }

  lemma StillNext(f: nat, n: int, next: int, later: int)
    requires f > 0 && NextAfter(f, n, next) && n <= later <= next
    ensures NextAfter(f, later, next)
  {
  }

  class SlidingDecimator {
    const factor: nat
    const taps: seq<real>
    var hist: seq<Sample>
    var base: nat
    var next: nat
    ghost var stream: seq<Sample>
    ghost var emitted: seq<Sample>

    ghost predicate Valid()
      reads this
    {
      && factor >= 1
      && (factor > 1 ==>
            && |taps| >= 1 && base <= next && base <= |stream| && hist == stream[base..]
            && NextAfter(factor, Full(|stream|, |taps|), next)
            && emitted == Overlaid(taps, stream, Positions(factor, Full(|stream|, |taps|))))
      && (factor == 1 ==> emitted == stream)
    }

    constructor (factor: nat, taps: seq<real>)
      requires factor >= 1 && (factor > 1 ==> |taps| >= 1)
      ensures Valid() && stream == [] && emitted == [] && this.factor == factor && this.taps == taps
    {
      this.factor, this.taps := factor, taps;
      hist, base, next, stream, emitted := [], 0, 0, [], [];
      FirstPosition(factor);
    }

    /** One chunk: out come the filtered samples at the multiples of `factor` whose taps all lie in the stream by now. */
    method Process(x: seq<Sample>) returns (out: seq<Sample>)
      requires Valid()
      modifies this
      ensures Valid() && stream == old(stream) + x && emitted == old(emitted) + out
      ensures factor > 1 ==> emitted == Overlaid(taps, stream, Positions(factor, Full(|stream|, |taps|)))
      ensures factor == 1 ==> out == x
    {
      if factor == 1 {
        stream, emitted := stream + x, emitted + x;
        return x;
      }
      hide Overlay, Positions, Multiple, Overlaid;
      ghost var s := stream + x;
      OverlaidPrefix(taps, stream, x, factor);
      assert hist + x == s[base..];
      hist := hist + x;
      out := Slide(s, Full(|stream|, |taps|));
      var drop := next - base;
      if drop > 0 {
        if drop > |hist| {
          drop := |hist|;
        }
        hist := hist[drop..];
        base := base + drop;
      }
      stream, emitted := s, emitted + out;
    }

    /** The outputs whose taps all lie in the history; `next` moves on. */
    method Slide(ghost s: seq<Sample>, ghost start: nat) returns (out: seq<Sample>)
      requires factor > 1 && |taps| >= 1 && base <= next && base <= |s| && hist == s[base..]
      requires start <= Full(|s|, |taps|) && NextAfter(factor, start, next)
      modifies `next
      ensures base <= next && NextAfter(factor, Full(|s|, |taps|), next)
      ensures Overlaid(taps, s, Positions(factor, start)) + out == Overlaid(taps, s, Positions(factor, Full(|s|, |taps|)))
    {
      hide Overlay, Positions, Multiple, Overlaid;
      ghost var done: nat := start;
      ghost var first := Overlaid(taps, s, Positions(factor, start));
      var m := |taps|;
      out := [];
      assert first + [] == first;
      while next - base + m <= |hist|
        invariant base <= next && done <= Full(|s|, m) && NextAfter(factor, done, next)
        invariant first + out == Overlaid(taps, s, Positions(factor, done))
        decreases |s| + factor - next
      {
        var off := next - base;
        var y := Output(off, s);
        PositionsStep(factor, done, next);
        OverlaidSnoc(taps, s, Positions(factor, done), next);
        assert first + (out + [y]) == (first + out) + [y];
        out := out + [y];
        done := next + 1;
        next := next + factor;
      }
      PositionsSkip(factor, done, next, Full(|s|, m));
      StillNext(factor, done, next, Full(|s|, m));
    }

    /** The inner sum at offset `off` of the history. */
    method Output(off: nat, ghost s: seq<Sample>) returns (y: Sample)
      requires base <= |s| && hist == s[base..] && off + |taps| <= |hist|
      ensures y == Overlay(taps, s, base + off, |taps|)
    {
      hide Add, Scale;
      y := ZERO;
      var j := 0;
      while j < |taps|
        invariant 0 <= j <= |taps| && y == Overlay(taps, s, base + off, j)
      {
        var c := hist[off + j];
        y := Add(y, Scale(taps[j], c));
        j := j + 1;
      }
    }
  }

  // ---------------------------------------------------------------- chunks

  function Joined(chunks: seq<seq<Sample>>): seq<Sample> {
    if chunks == [] then [] else Joined(chunks[..|chunks| - 1]) + chunks[|chunks| - 1]
  }

  /** Decimation does not depend on how the stream is cut. */
  method DecimateChunks(factor: nat, taps: seq<real>, chunks: seq<seq<Sample>>) returns (zeroPadded: seq<Sample>, full: seq<Sample>)
    requires factor > 1 && |taps| >= 1
    ensures zeroPadded == Picked(taps, Joined(chunks), Positions(factor, |Joined(chunks)|))
    ensures full == Overlaid(taps, Joined(chunks), Positions(factor, Full(|Joined(chunks)|, |taps|)))
  {
    hide Positions, Picked, Overlaid;
    var d := new Decimator(factor, taps);
    var e := new SlidingDecimator(factor, taps);
    zeroPadded, full := [], [];
    var i := 0;
    while i < |chunks|
      invariant 0 <= i <= |chunks| && fresh(d) && fresh(e) && d.Valid() && e.Valid()
      invariant d.factor == e.factor == factor && d.taps == e.taps == taps
      invariant d.stream == e.stream == Joined(chunks[..i]) && d.emitted == zeroPadded && e.emitted == full
    {
      assert chunks[..i + 1][..i] == chunks[..i];
      var o := d.Process(chunks[i]);
      var p := e.Process(chunks[i]);
      zeroPadded, full := zeroPadded + o, full + p;
      i := i + 1;
    }
    assert chunks[..i] == chunks;
  }
}
