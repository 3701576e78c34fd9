/**
  The turbo encoder and the iterative decoder
  (internal/std-t115/qpsknarrow/fec/turbo.go; 3GPP TS 25.212, sections 4.2.3.2
  and 4.2.3.2.2).
  */
module Turbo {
  import opened Words
  import opened Bcjr
  import Interleaver

  function TurboOutLen(k: nat): nat { 3 * k + 12 }

  // ---------------------------------------------------------------- the code

  /** Parity bit of step `i` for the input `u`. */
  function ParityAt(u: seq<nat>, i: nat): Bit
    requires IsBits(u) && i < |u|
  {
    Parity(StateAfter(u[..i]), u[i])
  }

  /** The input in interleaved order. */
  function Permuted(x: seq<nat>, perm: seq<int>): (y: seq<nat>)
    requires IsBits(x) && Interleaver.IsPermutation(perm, |x|)
    ensures |y| == |x| && IsBits(y) && forall i | 0 <= i < |x| :: y[i] == x[perm[i]]
  {
    seq(|x|, i requires 0 <= i < |x| => x[perm[i]])
  }

  /** Input and parity of the tail step `t` that follows the input `u`. */
  function TailInput(u: seq<nat>, t: nat): Bit
    requires IsBits(u)
  {
    TailBit(TailWalk(StateAfter(u), t))
  }

  function TailParity(u: seq<nat>, t: nat): Bit
    requires IsBits(u)
  {
    Parity(TailWalk(StateAfter(u), t), TailBit(TailWalk(StateAfter(u), t)))
  }

  /** The six tail bits after `u`, at offset `p` of `out`. */
  ghost predicate TailAt(u: seq<nat>, out: seq<nat>, p: nat)
    requires IsBits(u) && p + 6 <= |out|
  {
    forall t | 0 <= t < 3 :: out[p + 2 * t] == TailInput(u, t) && out[p + 2 * t + 1] == TailParity(u, t)
  }

  /** `out` is the turbo code word of `x`: systematic bits, both parities, both tails. */
  ghost predicate IsCodeword(x: seq<nat>, perm: seq<int>, out: seq<nat>)
    requires IsBits(x) && Interleaver.IsPermutation(perm, |x|)
  {
    var k, y := |x|, Permuted(x, perm);
    && |out| == TurboOutLen(k)
    && (forall i | 0 <= i < k :: out[3 * i] == x[i] && out[3 * i + 1] == ParityAt(x, i) && out[3 * i + 2] == ParityAt(y, i))
    && TailAt(x, out, 3 * k)
    && TailAt(y, out, 3 * k + 6)
  }

  ghost predicate Encodes(x: seq<nat>, out: seq<nat>)
    requires IsBits(x) && |x| <= Interleaver.MAX_BLOCK
  {
    Interleaver.PatternPermutes(|x|);
    IsCodeword(x, Interleaver.Pattern(|x|), out)
  }

  lemma EncodesParts(x: seq<nat>, out: seq<nat>)
    requires IsBits(x) && |x| <= Interleaver.MAX_BLOCK && Encodes(x, out)
    ensures Interleaver.IsPermutation(Interleaver.Pattern(|x|), |x|) && IsCodeword(x, Interleaver.Pattern(|x|), out)
  {
    hide Interleaver.Pattern, Interleaver.IsPermutation, IsCodeword;
    Interleaver.PatternPermutes(|x|);
  }

  lemma CodewordTails(x: seq<nat>, perm: seq<int>, out: seq<nat>)
    requires IsBits(x) && Interleaver.IsPermutation(perm, |x|) && IsCodeword(x, perm, out)
    ensures TailAt(x, out, 3 * |x|) && TailAt(Permuted(x, perm), out, 3 * |x| + 6)
  {
    hide TailAt, ParityAt;
  }

  // ---------------------------------------------------------------- the code as polynomials

  /** Element `i` of a bit sequence, 0 outside. */
  function Tap(a: seq<nat>, i: int): Bit
    requires IsBits(a)
  {
    if 0 <= i < |a| then a[i] else 0
  }

  /** `1 + D^2 + D^3` and `1 + D + D^3` times `a`, at place `i`. */
  function TimesG0(a: seq<nat>, i: int): Bit
    requires IsBits(a)
  {
    Xor1(Xor1(Tap(a, i), Tap(a, i - 2)), Tap(a, i - 3))
  }

  function TimesG1(a: seq<nat>, i: int): Bit
    requires IsBits(a)
  {
    Xor1(Xor1(Tap(a, i), Tap(a, i - 1)), Tap(a, i - 3))
  }

  /** What enters the register. */
  function Fed(u: seq<nat>): (a: seq<nat>)
    requires IsBits(u)
    ensures |a| == |u| && IsBits(a)
  {
    seq(|u|, i requires 0 <= i < |u| => Feedback(StateAfter(u[..i]), u[i]))
  }

  lemma {:induction false} RegisterIs(u: seq<nat>, i: nat)
    requires IsBits(u) && i <= |u|
    ensures var s := StateAfter(u[..i]);
      R1(s) == Tap(Fed(u), i - 1) && R2(s) == Tap(Fed(u), i - 2) && R3(s) == Tap(Fed(u), i - 3)
  {
    if i == 0 {
      assert u[..0] == [];
    } else {
      RegisterIs(u, i - 1);
      StateStep(u, i - 1);
      NextShifts(StateAfter(u[..i - 1]), u[i - 1]);
      hide Bcjr.Next, R1, R2, R3, StateAfter, Feedback;
    }
  }

  /** In the tail a zero enters, and the register shifts. */
  lemma TailShifts(s: St)
    ensures R1(TailNext(s)) == 0 && R2(TailNext(s)) == R1(s) && R3(TailNext(s)) == R2(s)
  {
    NextShifts(s, TailBit(s));
    hide R1, R2, R3, Bcjr.Next;
  }

  lemma {:induction false} TailRegisterIs(u: seq<nat>, t: nat)
    requires IsBits(u)
    ensures var s := TailWalk(StateAfter(u), t);
      && R1(s) == Tap(Fed(u), |u| + t - 1) && R2(s) == Tap(Fed(u), |u| + t - 2) && R3(s) == Tap(Fed(u), |u| + t - 3)
  {
    hide Bcjr.Next, R1, R2, R3, StateAfter, Fed, TailNext;
    if t == 0 {
      RegisterIs(u, |u|);
      assert u[..|u|] == u;
    } else {
      TailRegisterIs(u, t - 1);
      TailShifts(TailWalk(StateAfter(u), t - 1));
    }
  }

  /**
    The constituent code: input and parity, tails included, are the products of one polynomial `a` with
    `1 + D^2 + D^3` and `1 + D + D^3`, and `a` ends with the input.
    */
  lemma CodeIsPolynomial(u: seq<nat>) returns (a: seq<nat>)
    requires IsBits(u)
    ensures |a| == |u| && IsBits(a)
    ensures forall i | 0 <= i < |u| :: u[i] == TimesG0(a, i) && ParityAt(u, i) == TimesG1(a, i)
    ensures forall t | 0 <= t < 3 :: TailInput(u, t) == TimesG0(a, |u| + t) && TailParity(u, t) == TimesG1(a, |u| + t)
  {
    a := Fed(u);
    forall i | 0 <= i < |u|
      ensures u[i] == TimesG0(a, i) && ParityAt(u, i) == TimesG1(a, i)
    {
      RegisterIs(u, i);
    }
    forall t | 0 <= t < 3
      ensures TailInput(u, t) == TimesG0(a, |u| + t) && TailParity(u, t) == TimesG1(a, |u| + t)
    {
      hide StateAfter, Fed, R1, R2, R3;
      TailRegisterIs(u, t);
    }
  }

  // ---------------------------------------------------------------- the metric as a correlation

  /** The ratio as seen from bit `b`: positive if it speaks for `b`. */
  function WithSign(b: nat, l: real): real { if b == 1 then -l else l }

  /** Correlation of the first `n` inputs and parities with what was received. */
  function StepCorrelation(ch: Llrs, u: seq<nat>, n: nat): real
    requires ch.Valid() && IsBits(u) && n <= |u| == ch.K()
  {
    if n == 0 then 0.0
    else
      StepCorrelation(ch, u, n - 1)
      + WithSign(u[n - 1], ch.lx[n - 1] + ch.la[n - 1]) + WithSign(ParityAt(u, n - 1), ch.lz[n - 1])
  }

  function TailCorrelation(ch: Llrs, u: seq<nat>): real
    requires ch.Valid() && IsBits(u)
  {
    WithSign(TailInput(u, 0), ch.lxTail[0]) + WithSign(TailParity(u, 0), ch.lzTail[0])
    + WithSign(TailInput(u, 1), ch.lxTail[1]) + WithSign(TailParity(u, 1), ch.lzTail[1])
    + WithSign(TailInput(u, 2), ch.lxTail[2]) + WithSign(TailParity(u, 2), ch.lzTail[2])
  }

  /** Correlation of the constituent code word of `u` with everything received. */
  function Correlation(ch: Llrs, u: seq<nat>): real
    requires ch.Valid() && IsBits(u) && |u| == ch.K()
  {
    StepCorrelation(ch, u, |u|) + TailCorrelation(ch, u)
  }

  lemma GainIsSigned(b: Bit, l: real)
    ensures 2.0 * Gain(b, l) == WithSign(b, l)
  {
  }

  lemma {:induction false} ForwardIsCorrelation(ch: Llrs, u: seq<nat>, n: nat)
    requires ch.Valid() && IsBits(u) && n <= |u| == ch.K()
    ensures 2.0 * Forward(ch, u[..n]) == StepCorrelation(ch, u, n)
  {
    if n == 0 {
      assert u[..0] == [];
    } else {
      ForwardIsCorrelation(ch, u, n - 1);
      assert u[..n] == u[..n - 1] + [u[n - 1]];
      ForwardSnoc(ch, u[..n - 1], u[n - 1]);
      GainIsSigned(u[n - 1], ch.lx[n - 1] + ch.la[n - 1]);
      GainIsSigned(ParityAt(u, n - 1), ch.lz[n - 1]);
      hide Forward, Parity, StateAfter, Gain, WithSign;
    }
  }

  lemma TailIsCorrelation(ch: Llrs, u: seq<nat>)
    requires ch.Valid() && IsBits(u)
    ensures 2.0 * TailFrom(ch, 0, StateAfter(u)) == TailCorrelation(ch, u)
  {
    hide TailBit, Parity, TailNext, StateAfter, Gain, WithSign;
    var s0 := StateAfter(u);
    var s1 := TailNext(s0);
    var s2 := TailNext(s1);
    TailWalks(s0);
    TailUnfolds(ch, s0);
    GainIsSigned(TailBit(s0), ch.lxTail[0]);
    GainIsSigned(Parity(s0, TailBit(s0)), ch.lzTail[0]);
    GainIsSigned(TailBit(s1), ch.lxTail[1]);
    GainIsSigned(Parity(s1, TailBit(s1)), ch.lzTail[1]);
    GainIsSigned(TailBit(s2), ch.lxTail[2]);
    GainIsSigned(Parity(s2, TailBit(s2)), ch.lzTail[2]);
  }

  lemma TailWalks(s: St)
    ensures TailWalk(s, 0) == s && TailWalk(s, 1) == TailNext(s) && TailWalk(s, 2) == TailNext(TailNext(s))
  {
    hide TailNext;
    assert TailWalk(s, 1) == TailNext(TailWalk(s, 0));
    assert TailWalk(s, 2) == TailNext(TailWalk(s, 1));
  }

  lemma TailUnfolds(ch: Llrs, s: St)
    requires ch.Valid()
    ensures TailFrom(ch, 0, s)
      == GammaTail(ch, 0, s) + GammaTail(ch, 1, TailNext(s)) + GammaTail(ch, 2, TailNext(TailNext(s)))
  {
    hide TailNext, GammaTail;
    var s1 := TailNext(s);
    var s2 := TailNext(s1);
    assert TailFrom(ch, 3, TailNext(s2)) == 0.0;
    assert TailFrom(ch, 2, s2) == GammaTail(ch, 2, s2) + TailFrom(ch, 3, TailNext(s2));
    assert TailFrom(ch, 1, s1) == GammaTail(ch, 1, s1) + TailFrom(ch, 2, s2);
  }

  /** The metric of a path is half the correlation of its code word with what was received. */
  lemma PathIsCorrelation(ch: Llrs, u: seq<nat>)
    requires ch.Valid() && IsBits(u) && |u| == ch.K()
    ensures 2.0 * Path(ch, u) == Correlation(ch, u)
  {
    hide Path, Forward, StateAfter, StepCorrelation, TailCorrelation, TailFrom;
    PathSplits(ch, u, |u|);
    assert u[..|u|] == u && u[|u|..] == [];
    NoMoreSteps(ch, StateAfter(u));
    ForwardIsCorrelation(ch, u, |u|);
    TailIsCorrelation(ch, u);
  }

  lemma NoMoreSteps(ch: Llrs, s: St)
    requires ch.Valid()
    ensures Backward(ch, ch.K(), s, []) == TailFrom(ch, 0, s)
  {
  }

  /** `c` is the best correlation over all inputs whose bit `i` is `b`. */
  ghost predicate BestCorrelation(ch: Llrs, i: nat, b: Bit, c: real)
    requires ch.Valid() && i < ch.K()
  {
    && (forall u: seq<nat> | |u| == ch.K() && IsBits(u) && u[i] == b :: Correlation(ch, u) <= c)
    && (exists u: seq<nat> :: |u| == ch.K() && IsBits(u) && u[i] == b && Correlation(ch, u) == c)
  }

  lemma BestIsCorrelation(ch: Llrs, i: nat, b: Bit, m: real)
    requires ch.Valid() && i < ch.K() && BestWith(ch, i, b, m)
    ensures BestCorrelation(ch, i, b, 2.0 * m)
  {
    hide Path, Correlation;
    forall u: seq<nat> | |u| == ch.K() && IsBits(u) && u[i] == b
      ensures Correlation(ch, u) <= 2.0 * m
    {
      PathIsCorrelation(ch, u);
      assert Path(ch, u) <= m;
    }
    var u: seq<nat> :| |u| == ch.K() && IsBits(u) && u[i] == b && Path(ch, u) == m;
    PathIsCorrelation(ch, u);
  }

  /**
    Exact max-log MAP: the output is half the difference of the best correlations of code words with
    either value of the bit, less the bit's own channel and a priori values.
    */
  lemma ExtrinsicIsMaxLog(ch: Llrs, i: nat, le: real) returns (c0: real, c1: real)
    requires ch.Valid() && i < ch.K() && Extrinsic(ch, i, le)
    ensures BestCorrelation(ch, i, 0, c0) && BestCorrelation(ch, i, 1, c1)
    ensures le == (c0 - c1) / 2.0 - ch.lx[i] - ch.la[i]
  {
    hide BestWith, BestCorrelation;
    var m0, m1 :| BestWith(ch, i, 0, m0) && BestWith(ch, i, 1, m1) && le == (m0 - m1) - ch.lx[i] - ch.la[i];
    BestIsCorrelation(ch, i, 0, m0);
    BestIsCorrelation(ch, i, 1, m1);
    c0, c1 := 2.0 * m0, 2.0 * m1;
  }

  /**
    If one code word correlates strictly best with what was received, whatever the single values say,
    every bit's total ratio has the sign of its message.
    */
  lemma BestDecides(ch: Llrs, x: seq<nat>, i: nat, le: real)
    requires ch.Valid() && IsBits(x) && |x| == ch.K() && i < |x| && Extrinsic(ch, i, le)
    requires forall u: seq<nat> | |u| == ch.K() && IsBits(u) && u != x :: Correlation(ch, u) < Correlation(ch, x)
    ensures if x[i] == 0 then ch.lx[i] + ch.la[i] + le > 0.0 else ch.lx[i] + ch.la[i] + le < 0.0
  {
    hide Correlation, Extrinsic;
    var c0, c1 := ExtrinsicIsMaxLog(ch, i, le);
    var u0: seq<nat> :| |u0| == ch.K() && IsBits(u0) && u0[i] == 0 && Correlation(ch, u0) == c0;
    var u1: seq<nat> :| |u1| == ch.K() && IsBits(u1) && u1[i] == 1 && Correlation(ch, u1) == c1;
    if x[i] == 0 {
      assert u1 != x && Correlation(ch, x) <= c0;
    } else {
      assert u0 != x && Correlation(ch, x) <= c1;
    }
  }

  /** Three tail steps of one constituent encoder, written from offset `p`. */
  method EncodeTail(out: array<nat>, p: nat, s0: St, ghost u: seq<nat>)
    requires p + 6 <= out.Length && IsBits(u) && s0 == StateAfter(u)
    modifies out
    ensures TailAt(u, out[..], p)
    ensures forall j | 0 <= j < out.Length && !(p <= j < p + 6) :: out[j] == old(out[j])
  {
    hide TailNext, Parity, TailBit;
    var s := s0;
    var i := 0;
    while i < 3
      invariant 0 <= i <= 3 && s == TailWalk(StateAfter(u), i)
      invariant forall t | 0 <= t < i :: out[p + 2 * t] == TailInput(u, t) && out[p + 2 * t + 1] == TailParity(u, t)
      invariant forall j | 0 <= j < out.Length && !(p <= j < p + 6) :: out[j] == old(out[j])
    {
      out[p + 2 * i] := TailBit(s);
      out[p + 2 * i + 1] := Parity(s, TailBit(s));
      s := TailNext(s);
      i := i + 1;
    }
  }

  lemma StateStep(u: seq<nat>, i: nat)
    requires IsBits(u) && i < |u|
    ensures StateAfter(u[..i + 1]) == Bcjr.Next(StateAfter(u[..i]), u[i])
  {
    StateSnoc(u[..i], u[i]);
    assert u[..i + 1] == u[..i] + [u[i]];
  }

  /** Systematic bits and the parity of the first encoder. */
  method EncodeFirst(x: seq<nat>, out: array<nat>) returns (s: St)
    requires out.Length == TurboOutLen(|x|)
    modifies out
    ensures s == StateAfter(LowBits(x))
    ensures forall j | 0 <= j < |x| :: out[3 * j] == LowBits(x)[j] && out[3 * j + 1] == ParityAt(LowBits(x), j)
  {
    hide Parity, Bcjr.Next;
    ghost var b := LowBits(x);
    s := 0;
    var i := 0;
    while i < |x|
      invariant 0 <= i <= |x| && s == StateAfter(b[..i])
      invariant forall j | 0 <= j < i :: out[3 * j] == b[j] && out[3 * j + 1] == ParityAt(b, j)
    {
      StateStep(b, i);
      out[3 * i] := x[i] % 2;
      out[3 * i + 1] := Parity(s, x[i] % 2);
      s := Bcjr.Next(s, x[i] % 2);
      i := i + 1;
    }
    assert b[..i] == b;
  }

  /** The parity of the second encoder, which reads the input through `perm`. */
  method EncodeSecond(x: seq<nat>, perm: seq<int>, out: array<nat>) returns (s: St)
    requires Interleaver.IsPermutation(perm, |x|) && out.Length == TurboOutLen(|x|)
    modifies out
    ensures s == StateAfter(Permuted(LowBits(x), perm))
    ensures forall j | 0 <= j < |x| :: out[3 * j + 2] == ParityAt(Permuted(LowBits(x), perm), j)
    ensures forall j | 0 <= j < |x| :: out[3 * j] == old(out[3 * j]) && out[3 * j + 1] == old(out[3 * j + 1])
  {
    hide Parity, Bcjr.Next;
    ghost var y := Permuted(LowBits(x), perm);
    s := 0;
    var i := 0;
    while i < |x|
      invariant 0 <= i <= |x| && s == StateAfter(y[..i])
      invariant forall j | 0 <= j < i :: out[3 * j + 2] == ParityAt(y, j)
      invariant forall j | 0 <= j < |x| :: out[3 * j] == old(out[3 * j]) && out[3 * j + 1] == old(out[3 * j + 1])
    {
      StateStep(y, i);
      var v := x[perm[i]] % 2;
      out[3 * i + 2] := Parity(s, v);
      s := Bcjr.Next(s, v);
      i := i + 1;
    }
    assert y[..i] == y;
  }

  method TurboEncode(x: seq<nat>) returns (out: array<nat>)
    requires |x| <= Interleaver.MAX_BLOCK
    ensures Encodes(LowBits(x), out[..])
  {
    hide StateAfter, TailInput, TailParity, ParityAt, Interleaver.Pattern, Interleaver.IsPermutation;
    var k := |x|;
    ghost var b := LowBits(x);
    var perm := Interleaver.TurboInterleaver(k);
    ghost var y := Permuted(b, perm);
    out := new nat[TurboOutLen(k)](_ => 0);
    var s1 := EncodeFirst(x, out);
    var s2 := EncodeSecond(x, perm, out);
    EncodeTail(out, 3 * k, s1, b);
    EncodeTail(out, 3 * k + 6, s2, y);
  }

  // ---------------------------------------------------------------- signs

  /** The ratio does not favour the other bit. */
  predicate Agrees(b: nat, l: real) { if b == 1 then l <= 0.0 else l >= 0.0 }

  function Abs(l: real): real { if l < 0.0 then -l else l }

  lemma GainBound(b: Bit, l: real)
    ensures Gain(b, l) <= Abs(l) / 2.0
    ensures Agrees(b, l) ==> Gain(b, l) == Abs(l) / 2.0
    ensures Agrees(1 - b, l) ==> Gain(b, l) == -Abs(l) / 2.0
  {
  }

  /** No ratio seen by a constituent decoder contradicts the input `x`. */
  ghost predicate Supports(ch: Llrs, x: seq<nat>)
    requires ch.Valid() && IsBits(x) && |x| == ch.K()
  {
    && (forall i | 0 <= i < |x| :: Agrees(x[i], ch.lx[i]) && Agrees(x[i], ch.la[i]) && Agrees(ParityAt(x, i), ch.lz[i]))
    && (forall t | 0 <= t < 3 :: Agrees(TailInput(x, t), ch.lxTail[t]) && Agrees(TailParity(x, t), ch.lzTail[t]))
  }

  /** The metric no path can exceed, from step `i` and from tail step `t`. */
  function TailIdeal(ch: Llrs, t: nat): real
    requires ch.Valid() && t <= 3
    decreases 3 - t
  {
    if t == 3 then 0.0 else Abs(ch.lxTail[t]) / 2.0 + Abs(ch.lzTail[t]) / 2.0 + TailIdeal(ch, t + 1)
  }

  function Ideal(ch: Llrs, i: nat): real
    requires ch.Valid() && i <= ch.K()
    decreases ch.K() - i
  {
    if i == ch.K() then TailIdeal(ch, 0)
    else Abs(ch.lx[i] + ch.la[i]) / 2.0 + Abs(ch.lz[i]) / 2.0 + Ideal(ch, i + 1)
  }

  lemma {:induction false} TailBound(ch: Llrs, t: nat, s: St)
    requires ch.Valid() && t <= 3
    ensures TailFrom(ch, t, s) <= TailIdeal(ch, t)
    decreases 3 - t
  {
    if t < 3 {
      hide TailNext, Parity, TailBit, Gain;
      TailBound(ch, t + 1, TailNext(s));
      GainBound(TailBit(s), ch.lxTail[t]);
      GainBound(Parity(s, TailBit(s)), ch.lzTail[t]);
    }
  }

  lemma {:induction false} TailAttains(ch: Llrs, x: seq<nat>, t: nat)
    requires ch.Valid() && IsBits(x) && |x| == ch.K() && Supports(ch, x) && t <= 3
    ensures TailFrom(ch, t, TailWalk(StateAfter(x), t)) == TailIdeal(ch, t)
    decreases 3 - t
  {
    if t < 3 {
      TailAttains(ch, x, t + 1);
      hide TailNext, Parity, TailBit, Gain, StateAfter;
      var s := TailWalk(StateAfter(x), t);
      assert TailWalk(StateAfter(x), t + 1) == TailNext(s);
      GainBound(TailBit(s), ch.lxTail[t]);
      GainBound(Parity(s, TailBit(s)), ch.lzTail[t]);
      assert Agrees(TailInput(x, t), ch.lxTail[t]) && Agrees(TailParity(x, t), ch.lzTail[t]);
    }
  }

  /** A path is worse than ideal by at least what its bit `j` costs. */
  lemma {:induction false} BackwardBound(ch: Llrs, i: nat, s: St, w: seq<nat>, j: nat)
    requires ch.Valid() && IsBits(w) && i + |w| == ch.K() && j < ch.K()
    ensures Backward(ch, i, s, w) <= Ideal(ch, i)
    ensures i <= j ==>
      Backward(ch, i, s, w) <= Ideal(ch, i) - Abs(ch.lx[j] + ch.la[j]) / 2.0 + Gain(w[j - i], ch.lx[j] + ch.la[j])
    decreases |w|
  {
    if w == [] {
      TailBound(ch, 0, s);
    } else {
      hide Bcjr.Next, Parity, Gain, Abs;
      BackwardBound(ch, i + 1, Bcjr.Next(s, w[0]), w[1..], j);
      BackwardUnfold(ch, i, s, w);
      GainBound(w[0], ch.lx[i] + ch.la[i]);
      GainBound(Parity(s, w[0]), ch.lz[i]);
      if i < j { assert w[1..][j - (i + 1)] == w[j - i]; }
    }
  }

  /** The supported path attains the ideal. */
  lemma {:induction false} BackwardIdeal(ch: Llrs, x: seq<nat>, i: nat)
    requires ch.Valid() && IsBits(x) && |x| == ch.K() && Supports(ch, x) && i <= |x|
    ensures Backward(ch, i, StateAfter(x[..i]), x[i..]) == Ideal(ch, i)
    decreases |x| - i
  {
    if i == |x| {
      assert x[..i] == x && x[i..] == [];
      TailAttains(ch, x, 0);
      assert TailWalk(StateAfter(x), 0) == StateAfter(x);
    } else {
      BackwardIdeal(ch, x, i + 1);
      hide Bcjr.Next, Parity, Gain, Abs, Gamma, Supports, Backward, Ideal, StateAfter, ParityAt;
      BackwardIdealStep(ch, x, i);
    }
  }

  lemma BackwardIdealStep(ch: Llrs, x: seq<nat>, i: nat)
    requires ch.Valid() && IsBits(x) && |x| == ch.K() && Supports(ch, x) && i < |x|
    ensures Backward(ch, i, StateAfter(x[..i]), x[i..]) - Backward(ch, i + 1, StateAfter(x[..i + 1]), x[i + 1..])
         == Ideal(ch, i) - Ideal(ch, i + 1)
  {
    hide Bcjr.Next, Parity, Gain, Abs, Backward, StateAfter;
    StateStep(x, i);
    var s := StateAfter(x[..i]);
    BackwardUnfold(ch, i, s, x[i..]);
    assert x[i..][1..] == x[i + 1..];
    AgreeSum(x[i], ch.lx[i], ch.la[i]);
    assert Agrees(ParityAt(x, i), ch.lz[i]);
    GainBound(x[i], ch.lx[i] + ch.la[i]);
    GainBound(Parity(s, x[i]), ch.lz[i]);
  }

  lemma AgreeSum(b: Bit, l: real, m: real)
    requires Agrees(b, l) && Agrees(b, m)
    ensures Agrees(b, l + m)
  {
  }

  /** The decisive fact: with nothing against `x`, the extrinsic output keeps the sign of every bit. */
  lemma ExtrinsicAgrees(ch: Llrs, x: seq<nat>, i: nat, le: real)
    requires ch.Valid() && IsBits(x) && |x| == ch.K() && i < |x| && Supports(ch, x) && Extrinsic(ch, i, le)
    ensures Agrees(x[i], le)
  {
    hide Path, Ideal, Gain, Backward, StateAfter;
    var l := ch.lx[i] + ch.la[i];
    var m0, m1 :| BestWith(ch, i, 0, m0) && BestWith(ch, i, 1, m1) && le == (m0 - m1) - ch.lx[i] - ch.la[i];
    AgreeSum(x[i], ch.lx[i], ch.la[i]);
    SentIsIdeal(ch, x);
    GainBound(1 - x[i], l);
    if x[i] == 0 {
      OtherIsWorse(ch, i, 1, m1);
      assert m0 >= Ideal(ch, 0);
    } else {
      OtherIsWorse(ch, i, 0, m0);
      assert m1 >= Ideal(ch, 0);
    }
  }

  lemma SentIsIdeal(ch: Llrs, x: seq<nat>)
    requires ch.Valid() && IsBits(x) && |x| == ch.K() && Supports(ch, x)
    ensures Path(ch, x) == Ideal(ch, 0)
  {
    hide Ideal, Gain;
    BackwardIdeal(ch, x, 0);
    assert x[0..] == x && StateAfter(x[..0]) == 0;
  }

  lemma OtherIsWorse(ch: Llrs, i: nat, b: Bit, m: real)
    requires ch.Valid() && i < ch.K() && BestWith(ch, i, b, m)
    ensures m <= Ideal(ch, 0) - Abs(ch.lx[i] + ch.la[i]) / 2.0 + Gain(b, ch.lx[i] + ch.la[i])
  {
    hide Gain, Abs, Ideal, Backward;
    var u: seq<nat> :| |u| == ch.K() && IsBits(u) && u[i] == b && Path(ch, u) == m;
    BackwardBound(ch, 0, 0, u, i);
  }

  // ---------------------------------------------------------------- the decoder

  /** No received ratio contradicts the code word `cw` of `x`, and none that must say 1 is silent. */
  ghost predicate Consistent(x: seq<nat>, cw: seq<nat>, llr: seq<real>)
    requires |cw| == |llr| == TurboOutLen(|x|)
  {
    && (forall j | 0 <= j < |llr| :: Agrees(cw[j], llr[j]))
    && (forall i | 0 <= i < |x| && x[i] == 1 :: llr[3 * i] < 0.0)
  }

  /** `x` could have been sent: nothing received speaks against its code word. */
  ghost predicate Candidate(x: seq<nat>, cw: seq<nat>, k: nat, llr: seq<real>)
    requires k <= Interleaver.MAX_BLOCK && |llr| == TurboOutLen(k)
  {
    |x| == k && IsBits(x) && |cw| == TurboOutLen(k) && Encodes(x, cw) && Consistent(x, cw, llr)
  }

  predicate AllAgree(x: seq<nat>, l: seq<real>) {
    |l| == |x| && forall i | 0 <= i < |x| :: Agrees(x[i], l[i])
  }

  /** The received ratios, sorted by constituent decoder. */
  datatype Received = Received(lx: seq<real>, lz1: seq<real>, lz2: seq<real>,
                               lxT1: seq<real>, lzT1: seq<real>, lxT2: seq<real>, lzT2: seq<real>) {
    ghost predicate Of(llr: seq<real>, k: nat)
      requires |llr| == TurboOutLen(k)
    {
      && |lx| == |lz1| == |lz2| == k
      && (forall i | 0 <= i < k :: lx[i] == llr[3 * i] && lz1[i] == llr[3 * i + 1] && lz2[i] == llr[3 * i + 2])
      && lxT1 == [llr[3 * k], llr[3 * k + 2], llr[3 * k + 4]] && lzT1 == [llr[3 * k + 1], llr[3 * k + 3], llr[3 * k + 5]]
      && lxT2 == [llr[3 * k + 6], llr[3 * k + 8], llr[3 * k + 10]] && lzT2 == [llr[3 * k + 7], llr[3 * k + 9], llr[3 * k + 11]]
    }

    predicate Sized(k: nat) {
      |lx| == |lz1| == |lz2| == k && |lxT1| == |lzT1| == |lxT2| == |lzT2| == 3
    }

    /** Input of the first decoder, and of the second one in interleaved order. */
    function First(la: seq<real>): Llrs { Llrs(lx, lz1, la, lxT1, lzT1) }

    function Second(le1: seq<real>, perm: seq<int>): Llrs
      requires Interleaver.IsPermutation(perm, |lx|) && |le1| == |lx|
    {
      Llrs(Gather(lx, perm), lz2, Gather(le1, perm), lxT2, lzT2)
    }
  }

  function Gather(l: seq<real>, perm: seq<int>): (r: seq<real>)
    requires Interleaver.IsPermutation(perm, |l|)
    ensures |r| == |l| && forall i | 0 <= i < |l| :: r[i] == l[perm[i]]
  {
    seq(|l|, i requires 0 <= i < |l| => l[perm[i]])
  }

  // ---------------------------------------------------------------- what an iteration computes

  /** All extrinsic values of one constituent decoder. */
  ghost predicate Pass(ch: Llrs, k: nat, le: seq<real>) {
    ch.Valid() && ch.K() == |le| == k && forall i | 0 <= i < k :: Extrinsic(ch, i, le[i])
  }

  /** Values in interleaved order, put back. */
  ghost predicate PutBack(perm: seq<int>, k: nat, le2: seq<real>, la: seq<real>)
    requires Interleaver.IsPermutation(perm, k)
  {
    |le2| == |la| == k && forall i | 0 <= i < k :: la[perm[i]] == le2[i]
  }

  /** One iteration, from a priori values `la` to `next`. */
  ghost predicate Round(r: Received, perm: seq<int>, k: nat, la: seq<real>, le1: seq<real>, next: seq<real>)
    requires Interleaver.IsPermutation(perm, k) && |r.lx| == k
  {
    && Pass(r.First(la), k, le1)
    && exists le2 :: Pass(r.Second(le1, perm), k, le2) && PutBack(perm, k, le2, next)
  }

  /** Extrinsic and a priori values of the first decoder. */
  datatype Values = Values(le1: seq<real>, la: seq<real>)

  /** The values after each iteration, starting from zeros. */
  ghost predicate Trace(r: Received, perm: seq<int>, k: nat, t: seq<Values>)
    requires Interleaver.IsPermutation(perm, k) && |r.lx| == k
  {
    && |t| > 0 && |t[0].la| == k && (forall i | 0 <= i < k :: t[0].la[i] == 0.0)
    && forall i | 0 < i < |t| :: Round(r, perm, k, t[i - 1].la, t[i].le1, t[i].la)
  }

  /** Bit `i` is 1 exactly if channel, extrinsic and a priori values add up to something negative. */
  ghost predicate Decides(r: Received, k: nat, le1: seq<real>, la: seq<real>, out: seq<nat>)
    requires |r.lx| == k
  {
    && |la| == |out| == k && IsBits(out) && (k > 0 ==> |le1| == k)
    && forall i | 0 <= i < k :: out[i] == 1 <==> r.lx[i] + le1[i] + la[i] < 0.0
  }

  /** Extrinsic values are determined by their specification. */
  lemma ExtrinsicUnique(ch: Llrs, i: nat, a: real, b: real)
    requires ch.Valid() && i < ch.K() && Extrinsic(ch, i, a) && Extrinsic(ch, i, b)
    ensures a == b
  {
    hide Path;
    var m0, m1 :| BestWith(ch, i, 0, m0) && BestWith(ch, i, 1, m1) && a == (m0 - m1) - ch.lx[i] - ch.la[i];
    var n0, n1 :| BestWith(ch, i, 0, n0) && BestWith(ch, i, 1, n1) && b == (n0 - n1) - ch.lx[i] - ch.la[i];
    BestUnique(ch, i, 0, m0, n0);
    BestUnique(ch, i, 1, m1, n1);
  }

  lemma BestUnique(ch: Llrs, i: nat, b: Bit, m: real, n: real)
    requires ch.Valid() && i < ch.K() && BestWith(ch, i, b, m) && BestWith(ch, i, b, n)
    ensures m == n
  {
    hide Path;
    var u: seq<nat> :| |u| == ch.K() && IsBits(u) && u[i] == b && Path(ch, u) == m;
    var v: seq<nat> :| |v| == ch.K() && IsBits(v) && v[i] == b && Path(ch, v) == n;
  }

  method Split(llr: seq<real>, k: nat) returns (r: Received)
    requires |llr| == TurboOutLen(k)
    ensures r.Of(llr, k) && r.Sized(k)
  {
    var lx, lz1, lz2 := [], [], [];
    var i := 0;
    while i < k
      invariant 0 <= i <= k && |lx| == |lz1| == |lz2| == i
      invariant forall j | 0 <= j < i :: lx[j] == llr[3 * j] && lz1[j] == llr[3 * j + 1] && lz2[j] == llr[3 * j + 2]
    {
      lx := lx + [llr[3 * i]];
      lz1 := lz1 + [llr[3 * i + 1]];
      lz2 := lz2 + [llr[3 * i + 2]];
      i := i + 1;
    }
    var p := 3 * k;
    r := Received(lx, lz1, lz2,
                  [llr[p], llr[p + 2], llr[p + 4]], [llr[p + 1], llr[p + 3], llr[p + 5]],
                  [llr[p + 6], llr[p + 8], llr[p + 10]], [llr[p + 7], llr[p + 9], llr[p + 11]]);
  }

  lemma TailAgrees(u: seq<nat>, cw: seq<nat>, p: nat, lxT: seq<real>, lzT: seq<real>, llr: seq<real>)
    requires IsBits(u) && p + 6 <= |cw| == |llr| && TailAt(u, cw, p)
    requires forall j | 0 <= j < |llr| :: Agrees(cw[j], llr[j])
    requires lxT == [llr[p], llr[p + 2], llr[p + 4]] && lzT == [llr[p + 1], llr[p + 3], llr[p + 5]]
    ensures forall t | 0 <= t < 3 :: Agrees(TailInput(u, t), lxT[t]) && Agrees(TailParity(u, t), lzT[t])
  {
    hide TailInput, TailParity;
    forall t | 0 <= t < 3
      ensures Agrees(TailInput(u, t), lxT[t]) && Agrees(TailParity(u, t), lzT[t])
    {
      assert cw[p + 2 * t] == TailInput(u, t) && cw[p + 2 * t + 1] == TailParity(u, t);
      assert t == 0 || t == 1 || t == 2;
      assert Agrees(cw[p + 2 * t], llr[p + 2 * t]) && Agrees(cw[p + 2 * t + 1], llr[p + 2 * t + 1]);
    }
  }

  lemma SystematicAgrees(x: seq<nat>, cw: seq<nat>, k: nat, llr: seq<real>, r: Received, i: nat)
    requires k <= Interleaver.MAX_BLOCK && |llr| == TurboOutLen(k) && i < k
    requires Candidate(x, cw, k, llr) && r.Of(llr, k)
    ensures Agrees(x[i], r.lx[i]) && Agrees(ParityAt(x, i), r.lz1[i])
  {
    hide ParityAt, TailAt;
    assert cw[3 * i] == x[i] && cw[3 * i + 1] == ParityAt(x, i);
    assert Agrees(cw[3 * i], llr[3 * i]) && Agrees(cw[3 * i + 1], llr[3 * i + 1]);
  }

  lemma FirstTailAgrees(x: seq<nat>, cw: seq<nat>, k: nat, llr: seq<real>, r: Received)
    requires k <= Interleaver.MAX_BLOCK && |llr| == TurboOutLen(k)
    requires Candidate(x, cw, k, llr) && r.Of(llr, k)
    ensures forall t | 0 <= t < 3 :: Agrees(TailInput(x, t), r.lxT1[t]) && Agrees(TailParity(x, t), r.lzT1[t])
  {
    hide ParityAt, TailInput, TailParity, TailAt, StateAfter, IsCodeword, Permuted, Interleaver.Pattern, Interleaver.IsPermutation;
    EncodesParts(x, cw);
    CodewordTails(x, Interleaver.Pattern(k), cw);
    TailAgrees(x, cw, 3 * k, r.lxT1, r.lzT1, llr);
  }

  /** What the first decoder sees supports `x`. */
  lemma FirstSupports(x: seq<nat>, cw: seq<nat>, k: nat, llr: seq<real>, r: Received, la: seq<real>)
    requires k <= Interleaver.MAX_BLOCK && |llr| == TurboOutLen(k)
    requires Candidate(x, cw, k, llr) && r.Of(llr, k) && AllAgree(x, la)
    ensures r.First(la).Valid() && Supports(r.First(la), x)
  {
    FirstTailAgrees(x, cw, k, llr, r);
    hide ParityAt, TailInput, TailParity, Agrees, StateAfter, Encodes, Consistent;
    forall i | 0 <= i < k
      ensures Agrees(x[i], r.lx[i]) && Agrees(ParityAt(x, i), r.lz1[i])
    {
      SystematicAgrees(x, cw, k, llr, r, i);
    }
  }

  /** Channel and a priori ratios in interleaved order. */
  method Interleave(l: seq<real>, perm: seq<int>) returns (r: seq<real>)
    requires Interleaver.IsPermutation(perm, |l|)
    ensures r == Gather(l, perm)
  {
    r := [];
    var i := 0;
    while i < |l|
      invariant 0 <= i <= |l| && |r| == i && forall j | 0 <= j < i :: r[j] == l[perm[j]]
    {
      r := r + [l[perm[i]]];
      i := i + 1;
    }
  }

  /** What the second decoder sees supports the interleaved `x`. */
  lemma SecondSupports(x: seq<nat>, cw: seq<nat>, k: nat, llr: seq<real>, r: Received, lxI: seq<real>, la: seq<real>)
    requires k <= Interleaver.MAX_BLOCK && |llr| == TurboOutLen(k)
    requires Candidate(x, cw, k, llr) && r.Of(llr, k) && |lxI| == k
    requires Interleaver.IsPermutation(Interleaver.Pattern(k), k)
    requires forall i | 0 <= i < k :: lxI[i] == r.lx[Interleaver.Pattern(k)[i]]
    requires AllAgree(Permuted(x, Interleaver.Pattern(k)), la)
    ensures Llrs(lxI, r.lz2, la, r.lxT2, r.lzT2).Valid()
    ensures Supports(Llrs(lxI, r.lz2, la, r.lxT2, r.lzT2), Permuted(x, Interleaver.Pattern(k)))
  {
    hide ParityAt, TailInput, TailParity, Interleaver.Pattern;
    var perm := Interleaver.Pattern(k);
    var y := Permuted(x, perm);
    TailAgrees(y, cw, 3 * k + 6, r.lxT2, r.lzT2, llr);
    forall i | 0 <= i < k
      ensures Agrees(y[i], lxI[i]) && Agrees(ParityAt(y, i), r.lz2[i])
    {
      var j := perm[i];
      assert cw[3 * j] == x[j] && cw[3 * i + 2] == ParityAt(y, i);
      assert Agrees(cw[3 * j], llr[3 * j]) && Agrees(cw[3 * i + 2], llr[3 * i + 2]);
    }
  }

  lemma AllExtrinsicAgree(ch: Llrs, x: seq<nat>, le: seq<real>)
    requires ch.Valid() && IsBits(x) && |x| == ch.K() == |le| && Supports(ch, x)
    requires forall i | 0 <= i < |le| :: Extrinsic(ch, i, le[i])
    ensures AllAgree(x, le)
  {
    hide Extrinsic, Supports;
    forall i | 0 <= i < |x|
      ensures Agrees(x[i], le[i])
    {
      ExtrinsicAgrees(ch, x, i, le[i]);
    }
  }

  /** One iteration: both constituent decoders, exchanging extrinsic values through the interleaver. */
  method Iterate(r: Received, perm: seq<int>, k: nat, la1: array<real>) returns (le1: seq<real>)
    requires Interleaver.IsPermutation(perm, k) && r.Sized(k) && la1.Length == k
    modifies la1
    ensures Round(r, perm, k, old(la1[..]), le1, la1[..])
  {
    hide Extrinsic, Gather, Interleaver.IsPermutation;
    ghost var before := la1[..];
    PermutationRange(perm, k);
    var ch1 := r.First(la1[..]);
    le1 := Bcjr.Bcjr(ch1);
    var la2 := Interleave(le1, perm);
    var lxI := Interleave(r.lx, perm);
    var ch2 := Llrs(lxI, r.lz2, la2, r.lxT2, r.lzT2);
    var le2 := Bcjr.Bcjr(ch2);
    var i := 0;
    while i < k
      invariant 0 <= i <= k && forall j | 0 <= j < i :: la1[perm[j]] == le2[j]
    {
      la1[perm[i]] := le2[i];
      i := i + 1;
    }
    assert Pass(r.First(before), k, le1) && Pass(r.Second(le1, perm), k, le2) && PutBack(perm, k, le2, la1[..]);
  }

  lemma PermutationRange(perm: seq<int>, k: nat)
    requires Interleaver.IsPermutation(perm, k)
    ensures |perm| == k && (forall i | 0 <= i < k :: 0 <= perm[i] < k)
    ensures forall i, j | 0 <= i < j < k :: perm[i] != perm[j]
  {
  }

  lemma FirstRound(llr: seq<real>, k: nat, r: Received, la: seq<real>, le1: seq<real>)
    requires k <= Interleaver.MAX_BLOCK && |llr| == TurboOutLen(k) && r.Of(llr, k) && |la| == |le1| == k
    requires r.First(la).Valid() && forall i | 0 <= i < k :: Extrinsic(r.First(la), i, le1[i])
    requires forall x, cw | Candidate(x, cw, k, llr) :: AllAgree(x, la)
    ensures forall x, cw | Candidate(x, cw, k, llr) :: AllAgree(x, le1)
  {
    hide AllAgree, Supports, Extrinsic, Encodes, Consistent;
    forall x, cw | Candidate(x, cw, k, llr)
      ensures AllAgree(x, le1)
    {
      FirstSupports(x, cw, k, llr, r, la);
      AllExtrinsicAgree(r.First(la), x, le1);
    }
  }

  /** The second decoder's output, put back in natural order, agrees with every candidate. */
  ghost predicate SecondAgrees(llr: seq<real>, k: nat, perm: seq<int>, le2: seq<real>)
    requires k <= Interleaver.MAX_BLOCK && |llr| == TurboOutLen(k) && Interleaver.IsPermutation(perm, k) && |le2| == k
  {
    forall x, cw | Candidate(x, cw, k, llr) :: forall i | 0 <= i < k :: Agrees(x[perm[i]], le2[i])
  }

  lemma SecondRound(llr: seq<real>, k: nat, r: Received, lxI: seq<real>, le1: seq<real>, la2: seq<real>, le2: seq<real>)
    requires k <= Interleaver.MAX_BLOCK && |llr| == TurboOutLen(k) && r.Of(llr, k)
    requires |lxI| == |le1| == |la2| == |le2| == k && Interleaver.IsPermutation(Interleaver.Pattern(k), k)
    requires forall i | 0 <= i < k :: lxI[i] == r.lx[Interleaver.Pattern(k)[i]] && la2[i] == le1[Interleaver.Pattern(k)[i]]
    requires Llrs(lxI, r.lz2, la2, r.lxT2, r.lzT2).Valid()
    requires forall i | 0 <= i < k :: Extrinsic(Llrs(lxI, r.lz2, la2, r.lxT2, r.lzT2), i, le2[i])
    requires forall x, cw | Candidate(x, cw, k, llr) :: AllAgree(x, le1)
    ensures SecondAgrees(llr, k, Interleaver.Pattern(k), le2)
  {
    hide Supports, Extrinsic, Encodes, Consistent, Interleaver.Pattern;
    var perm := Interleaver.Pattern(k);
    forall x, cw | Candidate(x, cw, k, llr)
      ensures forall i | 0 <= i < k :: Agrees(x[perm[i]], le2[i])
    {
      var y := Permuted(x, perm);
      assert AllAgree(x, le1);
      assert AllAgree(y, la2);
      SecondSupports(x, cw, k, llr, r, lxI, la2);
      AllExtrinsicAgree(Llrs(lxI, r.lz2, la2, r.lxT2, r.lzT2), y, le2);
    }
  }

  /** What is put back agrees at every position. */
  lemma PutBackAgrees(llr: seq<real>, k: nat, perm: seq<int>, le2: seq<real>, la: seq<real>)
    requires k <= Interleaver.MAX_BLOCK && |llr| == TurboOutLen(k) && Interleaver.IsPermutation(perm, k)
    requires PutBack(perm, k, le2, la) && SecondAgrees(llr, k, perm, le2)
    ensures forall x, cw | Candidate(x, cw, k, llr) :: AllAgree(x, la)
  {
    hide Encodes, Consistent;
    forall x, cw | Candidate(x, cw, k, llr)
      ensures AllAgree(x, la)
    {
      forall p | 0 <= p < k
        ensures Agrees(x[p], la[p])
      {
        Interleaver.Onto(perm, k, p);
        var i :| 0 <= i < |perm| && perm[i] == p;
        assert Agrees(x[perm[i]], le2[i]) && la[perm[i]] == le2[i];
      }
    }
  }

  /** One iteration keeps every sign. */
  lemma RoundAgrees(llr: seq<real>, k: nat, r: Received, la: seq<real>, le1: seq<real>, next: seq<real>)
    requires k <= Interleaver.MAX_BLOCK && |llr| == TurboOutLen(k) && r.Of(llr, k) && |la| == k
    requires Interleaver.IsPermutation(Interleaver.Pattern(k), k) && Round(r, Interleaver.Pattern(k), k, la, le1, next)
    requires forall x, cw | Candidate(x, cw, k, llr) :: AllAgree(x, la)
    ensures forall x, cw | Candidate(x, cw, k, llr) :: AllAgree(x, le1) && AllAgree(x, next)
  {
    hide Candidate, AllAgree, Extrinsic, SecondAgrees, Interleaver.Pattern, Interleaver.IsPermutation;
    var perm := Interleaver.Pattern(k);
    var le2 :| Pass(r.Second(le1, perm), k, le2) && PutBack(perm, k, le2, next);
    FirstRound(llr, k, r, la, le1);
    SecondRound(llr, k, r, Gather(r.lx, perm), le1, Gather(le1, perm), le2);
    PutBackAgrees(llr, k, perm, le2, next);
  }

  /** Through all iterations every extrinsic and a priori value keeps the sign of every possible message. */
  lemma {:induction false} TraceAgrees(llr: seq<real>, k: nat, r: Received, t: seq<Values>, n: nat)
    requires k <= Interleaver.MAX_BLOCK && |llr| == TurboOutLen(k) && r.Of(llr, k) && n < |t|
    requires Interleaver.IsPermutation(Interleaver.Pattern(k), k) && Trace(r, Interleaver.Pattern(k), k, t)
    ensures forall x, cw | Candidate(x, cw, k, llr) :: AllAgree(x, t[n].la) && (n > 0 ==> AllAgree(x, t[n].le1))
    ensures |t[n].la| == k && (n > 0 ==> |t[n].le1| == k)
    decreases n
  {
    hide Candidate, AllAgree, Round, Interleaver.Pattern, Interleaver.IsPermutation;
    if n == 0 {
      ZerosAgree(llr, k, t[0].la);
    } else {
      TraceAgrees(llr, k, r, t, n - 1);
      RoundSize(r, Interleaver.Pattern(k), k, t[n - 1].la, t[n].le1, t[n].la);
      RoundAgrees(llr, k, r, t[n - 1].la, t[n].le1, t[n].la);
    }
  }

  /** The result of `iters` iterations on the received ratios. */
  ghost predicate IsDecoding(llr: seq<real>, k: nat, iters: nat, out: seq<nat>)
    requires |llr| == TurboOutLen(k) && k <= Interleaver.MAX_BLOCK
    requires Interleaver.IsPermutation(Interleaver.Pattern(k), k)
  {
    exists r: Received, t: seq<Values> :: r.Of(llr, k) && LeadsTo(r, k, iters, t, out)
  }

  ghost predicate LeadsTo(r: Received, k: nat, iters: nat, t: seq<Values>, out: seq<nat>)
    requires k <= Interleaver.MAX_BLOCK && |r.lx| == k && Interleaver.IsPermutation(Interleaver.Pattern(k), k)
  {
    |t| == iters + 1 && Trace(r, Interleaver.Pattern(k), k, t) && Decides(r, k, t[iters].le1, t[iters].la, out)
  }

  /**
    Decoding recovers the message whenever no received ratio contradicts its code word and the
    systematic ones are not silent.
    */
  lemma DecodingRecovers(llr: seq<real>, k: nat, iters: nat, out: seq<nat>, x: seq<nat>, cw: seq<nat>)
    requires |llr| == TurboOutLen(k) && k <= Interleaver.MAX_BLOCK && (iters >= 1 || k == 0)
    requires Interleaver.IsPermutation(Interleaver.Pattern(k), k) && IsDecoding(llr, k, iters, out)
    requires Candidate(x, cw, k, llr)
    ensures out == x
  {
    hide Candidate, AllAgree, Trace, Interleaver.Pattern, Interleaver.IsPermutation;
    var r: Received, t: seq<Values> :| r.Of(llr, k) && LeadsTo(r, k, iters, t, out);
    TraceAgrees(llr, k, r, t, iters);
    if k == 0 {
      EmptyCandidate(x, cw, llr);
    } else {
      Decision(x, cw, k, llr, r, t[iters].le1, t[iters].la, out);
    }
  }

  lemma EmptyCandidate(x: seq<nat>, cw: seq<nat>, llr: seq<real>)
    requires |llr| == TurboOutLen(0) && Candidate(x, cw, 0, llr)
    ensures x == []
  {
    hide Encodes, Consistent;
  }

  method TurboDecode(llr: seq<real>, k: nat, iters: nat) returns (out: seq<nat>)
    requires |llr| == TurboOutLen(k) && k <= Interleaver.MAX_BLOCK && (iters >= 1 || k == 0)
    ensures |out| == k && IsBits(out)
    ensures Interleaver.IsPermutation(Interleaver.Pattern(k), k) && IsDecoding(llr, k, iters, out)
    ensures forall x, cw | Candidate(x, cw, k, llr) :: out == x
  {
    hide Candidate, Round, Interleaver.Pattern, Interleaver.IsPermutation;
    var perm := Interleaver.TurboInterleaver(k);
    Interleaver.PatternPermutes(k);
    var r := Split(llr, k);
    var la1 := new real[k](_ => 0.0);
    var le1: seq<real> := [];
    ghost var t := [Values(le1, la1[..])];
    var it := 0;
    while it < iters
      invariant 0 <= it <= iters && |t| == it + 1 && t[it] == Values(le1, la1[..]) && (it > 0 ==> |le1| == k)
      invariant Trace(r, perm, k, t)
    {
      ghost var la0 := la1[..];
      le1 := Iterate(r, perm, k, la1);
      RoundSize(r, perm, k, la0, le1, la1[..]);
      t := t + [Values(le1, la1[..])];
      it := it + 1;
    }
    out := HardDecision(k, r.lx, le1, la1[..]);
    assert LeadsTo(r, k, iters, t, out);
    forall x, cw | Candidate(x, cw, k, llr)
      ensures out == x
    {
      DecodingRecovers(llr, k, iters, out, x, cw);
    }
  }

  lemma RoundSize(r: Received, perm: seq<int>, k: nat, la: seq<real>, le1: seq<real>, next: seq<real>)
    requires Interleaver.IsPermutation(perm, k) && |r.lx| == k && Round(r, perm, k, la, le1, next)
    ensures |le1| == |next| == k
  {
    hide Extrinsic;
  }

  method HardDecision(k: nat, lx: seq<real>, le1: seq<real>, la1: seq<real>) returns (out: seq<nat>)
    requires |lx| == |la1| == k && (k > 0 ==> |le1| == k)
    ensures |out| == k && IsBits(out)
    ensures forall j | 0 <= j < k :: out[j] == 1 <==> lx[j] + le1[j] + la1[j] < 0.0
  {
    out := [];
    var i := 0;
    while i < k
      invariant 0 <= i <= k && |out| == i && IsBits(out)
      invariant forall j | 0 <= j < i :: out[j] == 1 <==> lx[j] + le1[j] + la1[j] < 0.0
    {
      out := out + [if lx[i] + le1[i] + la1[i] < 0.0 then 1 else 0];
      i := i + 1;
    }
  }

  lemma ZerosAgree(llr: seq<real>, k: nat, la: seq<real>)
    requires k <= Interleaver.MAX_BLOCK && |llr| == TurboOutLen(k) && |la| == k
    requires forall i | 0 <= i < k :: la[i] == 0.0
    ensures forall x, cw | Candidate(x, cw, k, llr) :: AllAgree(x, la)
  {
    hide Encodes, Consistent;
  }

  lemma Decision(x: seq<nat>, cw: seq<nat>, k: nat, llr: seq<real>, r: Received, le1: seq<real>, la: seq<real>, out: seq<nat>)
    requires k <= Interleaver.MAX_BLOCK && |llr| == TurboOutLen(k) && Candidate(x, cw, k, llr) && r.Of(llr, k)
    requires |le1| == |la| == |out| == k && AllAgree(x, le1) && AllAgree(x, la) && IsBits(out)
    requires forall j | 0 <= j < k :: out[j] == 1 <==> r.lx[j] + le1[j] + la[j] < 0.0
    ensures out == x
  {
    hide ParityAt, TailInput, TailParity, TailAt;
    forall i | 0 <= i < k
      ensures out[i] == x[i]
    {
      assert cw[3 * i] == x[i] && Agrees(cw[3 * i], llr[3 * i]);
      assert Agrees(x[i], le1[i]) && Agrees(x[i], la[i]);
    }
  }
}
