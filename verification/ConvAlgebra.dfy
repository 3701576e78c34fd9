/**
  What a maximum-likelihood decision means: a reference definition of the
  encoder as convolution over GF(2), and the recovery of a message whose
  surviving symbols are error free (internal/std-t86/fec/conv.go).
  */
module ConvAlgebra {
  import opened Words
  import opened Conv

  // ---------------------------------------------------------------- convolution

  /** Coefficient `t` of the product of polynomial `p` and the input `u`. */
  function Convolve(p: nat, u: seq<nat>, t: int): Bit
    requires IsBits(u) && t < |u|
    decreases p
  {
    if p == 0 then 0
    else Xor1(And1(p % 2, if t < 0 then 0 else u[t]), Convolve(p / 2, u, t - 1))
  }

  lemma {:induction false} ConvolveBefore(p: nat, u: seq<nat>, t: int)
    requires IsBits(u) && t < 0
    ensures Convolve(p, u, t) == 0
    decreases p
  {
    if p != 0 { ConvolveBefore(p / 2, u, t - 1); }
  }

  /** Masking a register does not change its product with a polynomial below the mask. */
  lemma {:induction false} DotMasked(x: nat, q: nat, m: nat)
    requires q < Pow2(m)
    ensures Dot(x % Pow2(m), q) == Dot(x, q)
  {
    if m == 0 {
    } else {
      var y := x % Pow2(m);
      MaskHalves(x, m);
      DotMasked(x / 2, q / 2, m - 1);
      DotStep(y, q);
      DotStep(x, q);
    }
  }

  lemma MaskHalves(x: nat, m: nat)
    requires m > 0
    ensures x % Pow2(m) % 2 == x % 2 && x % Pow2(m) / 2 == (x / 2) % Pow2(m - 1)
  {
    ModDouble(x / 2, x % 2, Pow2(m - 1));
  }

  /** The state after one more input, seen by a polynomial below `2^j`. */
  lemma NextDot(c: Code, s: nat, b: Bit, q: nat, j: nat)
    requires c.Valid() && 1 <= j <= c.K - 1 && q < Pow2(j)
    ensures Dot(Next(c, s, b), q) == Xor1(And1(b, q % 2), Dot(s, q / 2))
  {
    NextParts(c, s, b);
    PolyHalf(q, j);
    Pow2Mono(j - 1, c.K - 2);
    hide Next, Dot, Pow2;
    DotStep(Next(c, s, b), q);
    DotMasked(s, q / 2, c.K - 2);
  }

  lemma PolyHalf(q: nat, j: nat)
    requires 1 <= j && q < Pow2(j)
    ensures q / 2 < Pow2(j - 1)
  {
  }

  lemma NextParts(c: Code, s: nat, b: Bit)
    requires c.Valid()
    ensures Next(c, s, b) / 2 == s % Pow2(c.K - 2) && Next(c, s, b) % 2 == b
  {
    MaskHalves(2 * s + b, c.K - 1);
  }

  lemma ConvolveStep(q: nat, u: seq<nat>, t: nat)
    requires IsBits(u) && t < |u|
    ensures Convolve(q, u, t) == Xor1(And1(u[t], q % 2), Convolve(q / 2, u, t - 1))
  {
    if q == 0 { assert Convolve(0, u, t - 1) == 0; }
  }

  /** The state after `u[..t]` holds the newest `K-1` inputs, newest in bit 0. */
  lemma {:induction false} StateIsHistory(c: Code, u: seq<nat>, t: nat, q: nat, j: nat)
    requires c.Valid() && IsBits(u) && t <= |u| && j <= c.K - 1 && q < Pow2(j)
    ensures Dot(End(c, u[..t]), q) == Convolve(q, u, t - 1)
    decreases j
  {
    if j == 0 {
    } else if t == 0 {
      ConvolveBefore(q, u, -1);
    } else {
      assert u[..t][..t - 1] == u[..t - 1];
      StateIsHistory(c, u, t - 1, q / 2, j - 1);
      NextDot(c, End(c, u[..t - 1]), u[t - 1], q, j);
      ConvolveStep(q, u, t - 1);
    }
  }

  /** The encoder computes the GF(2) product of the input with each generator. */
  lemma EncoderConvolves(c: Code, u: seq<nat>, t: nat, j: nat)
    requires c.Valid() && IsBits(u) && t < |u| && j < c.N() && c.polys[j] < Pow2(c.K)
    ensures Sent(c, End(c, u[..t]), u[t])[j] == Convolve(c.polys[j], u, t)
  {
    hide Sent, End, Next, Dot, Pow2, Convolve;
    var s, p := End(c, u[..t]), c.polys[j];
    SentIsDot(c, s, u[t], j);
    RegisterDot(s, u[t], p);
    HalfBelow(p, c.K);
    StateIsHistory(c, u, t, p / 2, c.K - 1);
    ConvolveStep(p, u, t);
  }

  lemma SentIsDot(c: Code, s: nat, b: Bit, j: nat)
    requires c.Valid() && s < c.S() && j < c.N()
    ensures Sent(c, s, b)[j] == Dot(2 * s + b, c.polys[j])
  {
    hide Dot, Next;
  }

  lemma HalfBelow(p: nat, n: nat)
    requires n > 0 && p < Pow2(n)
    ensures p / 2 < Pow2(n - 1)
  {
  }

  lemma RegisterDot(s: nat, b: Bit, p: nat)
    ensures Dot(2 * s + b, p) == Xor1(And1(b, p % 2), Dot(s, p / 2))
  {
    DotStep(2 * s + b, p);
  }

  /** Symbol `j` of step `t` of a path. */
  lemma {:induction false} CodedSymbol(c: Code, u: seq<nat>, t: nat, j: nat)
    requires c.Valid() && IsBits(u) && t < |u| && j < c.N()
    ensures Offset(t, c.N()) + j < |Coded(c, u)|
    ensures Coded(c, u)[Offset(t, c.N()) + j] == Sent(c, End(c, u[..t]), u[t])[j]
  {
    hide Next, Pow2, Sent;
    var n := |u| - 1;
    OffsetStep(n, |u|, c.N());
    OffsetStep(t, |u|, c.N());
    if t < n {
      CodedSymbol(c, u[..n], t, j);
      assert u[..n][..t] == u[..t];
    }
  }

  // ---------------------------------------------------------------- the metric

  /** The places where a received symbol is not erased and differs from the one of the code word. */
  function Wrong(received: seq<nat>, w: seq<nat>): set<int>
    requires |received| == |w|
  {
    set i: int | 0 <= i < |w| && received[i] != 2 && received[i] % 2 != w[i]
  }

  lemma OneSymbol(x: nat, b: nat)
    ensures Mismatches([x], [b]) == if x != 2 && x % 2 != b then 1 else 0
  {
    assert Mismatches([x][1..], [b][1..]) == 0;
  }

  lemma WrongSnoc(received: seq<nat>, w: seq<nat>, x: nat, b: nat)
    requires |received| == |w|
    ensures Wrong(received + [x], w + [b]) == Wrong(received, w) + if x != 2 && x % 2 != b then {|w|} else {}
  {
  }

  /** The metric counts the places where a surviving symbol is wrong. */
  lemma {:induction false} MismatchesCount(received: seq<nat>, w: seq<nat>)
    requires |received| == |w|
    ensures Mismatches(received, w) == |Wrong(received, w)|
  {
    if received == [] {
      assert Wrong(received, w) == {};
    } else {
      hide Mismatches;
      var n := |w| - 1;
      var r, v, x, b := received[..n], w[..n], received[n], w[n];
      MismatchesCount(r, v);
      MismatchesConcat(r, [x], v, [b]);
      OneSymbol(x, b);
      WrongSnoc(r, v, x, b);
      assert received == r + [x] && w == v + [b];
    }
  }

  // ---------------------------------------------------------------- recovery

  lemma {:induction false} NoMismatch(a: seq<nat>, w: seq<nat>, i: nat)
    requires |a| == |w| && IsBits(w) && Mismatches(a, w) == 0 && i < |a| && a[i] != ERASURE
    ensures a[i] % 2 == w[i]
  {
    if i > 0 { NoMismatch(a[1..], w[1..], i - 1); }
  }

  lemma {:induction false} AllMatch(a: seq<nat>, w: seq<nat>)
    requires |a| == |w| && IsBits(w)
    requires forall i | 0 <= i < |a| :: a[i] == ERASURE || a[i] == w[i]
    ensures Mismatches(a, w) == 0
  {
    if a != [] { AllMatch(a[1..], w[1..]); }
  }

  /** An odd polynomial taps the newest bit, so its symbol reveals that bit. */
  lemma OddRevealsBit(s: nat, p: nat, a: Bit, b: Bit)
    requires p % 2 == 1 && Dot(2 * s + a, p) == Dot(2 * s + b, p)
    ensures a == b
  {
    DotStep(2 * s + a, p);
    DotStep(2 * s + b, p);
  }

  /** Two paths at distance 0 agree if one symbol of an odd polynomial survives in every step. */
  lemma {:induction false} ZeroDistanceUnique(c: Code, steps: seq<seq<nat>>, u: seq<nat>, w: seq<nat>, j: nat)
    requires c.Valid() && Steps(c, steps) && IsBits(u) && IsBits(w) && |u| == |w| == |steps|
    requires j < c.N() && c.polys[j] % 2 == 1
    requires forall t | 0 <= t < |steps| :: steps[t][j] != ERASURE
    requires Distance(c, steps, u) == 0 && Distance(c, steps, w) == 0
    ensures u == w
  {
    hide Next, Pow2, Mismatches, End, Sent, Distance, Dot;
    if u != [] {
      var t := |u| - 1;
      DistanceLast(c, steps, u);
      DistanceLast(c, steps, w);
      ZeroDistanceUnique(c, steps[..t], u[..t], w[..t], j);
      var s := End(c, u[..t]);
      NoMismatch(steps[t], Sent(c, s, u[t]), j);
      NoMismatch(steps[t], Sent(c, s, w[t]), j);
      SentIsDot(c, s, u[t], j);
      SentIsDot(c, s, w[t], j);
      OddRevealsBit(s, c.polys[j], u[t], w[t]);
      assert u == u[..t] + [u[t]] && w == w[..t] + [w[t]];
    }
  }

  lemma DistanceLast(c: Code, steps: seq<seq<nat>>, u: seq<nat>)
    requires c.Valid() && Steps(c, steps) && IsBits(u) && |u| == |steps| && u != []
    ensures var t := |u| - 1;
      Distance(c, steps, u) == Distance(c, steps[..t], u[..t]) + Mismatches(steps[t], Sent(c, End(c, u[..t]), u[t]))
  {
    hide Mismatches, Sent, End;
  }

  /** Symbol `j` of step `t`. */
  function SymbolAt(c: Code, coded: seq<nat>, t: nat, j: nat): nat
    requires c.Valid() && j < c.N() && t < StepCount(c, coded)
  {
    OffsetStep(t, StepCount(c, coded), c.N());
    coded[Offset(t, c.N()) + j]
  }

  lemma {:induction false} GroupAt(c: Code, a: seq<nat>, m: nat, t: nat, j: nat)
    requires t < m && Offset(m, c.N()) <= |a| && j < c.N()
    ensures Offset(t, c.N()) + j < |a| && Group(a, c.N(), m)[t][j] == a[Offset(t, c.N()) + j]
  {
    GroupSnoc(a, c.N(), m - 1, m);
    if t < m - 1 { GroupAt(c, a, m - 1, t, j); }
  }

  /**
    Erasures without errors are harmless: if every received symbol is either
    erased or the one sent, and some odd generator's symbols all survive, then
    the only most likely message is the one that was sent.
    */
  lemma RecoversFromErasures(c: Code, coded: seq<nat>, m: seq<nat>, dec: seq<nat>, j: nat)
    requires c.Valid() && IsBits(m) && |m| + c.K - 1 == StepCount(c, coded)
    requires |coded| == |Encode(c, m)|
    requires forall i | 0 <= i < |coded| :: coded[i] == ERASURE || coded[i] == Encode(c, m)[i]
    requires j < c.N() && c.polys[j] % 2 == 1
    requires forall t | 0 <= t < StepCount(c, coded) :: SymbolAt(c, coded, t, j) != ERASURE
    requires IsBits(dec) && |dec| + c.K - 1 == StepCount(c, coded) && MostLikely(c, coded, dec)
    ensures dec == m
  {
    hide Offset, Pow2, Mismatches, Coded, StepCount, Group, Distance;
    var T, n, z := StepCount(c, coded), c.N(), Zeros(c.K - 1);
    assert Whole(c, coded) == coded && coded[..Offset(T, n)] == coded;
    AllMatch(coded, Encode(c, m));
    DistanceIsMismatches(c, coded, m + z);
    DistanceIsMismatches(c, coded, dec + z);
    forall t | 0 <= t < T
      ensures Group(coded, n, T)[t][j] != ERASURE
    {
      GroupAt(c, coded, T, t, j);
      assert SymbolAt(c, coded, t, j) != ERASURE;
    }
    ZeroDistanceUnique(c, Group(coded, n, T), m + z, dec + z, j);
    assert (m + z)[..|m|] == m && (dec + z)[..|m|] == dec;
  }
}
