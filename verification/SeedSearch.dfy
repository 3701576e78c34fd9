/**
  Blind identification of the STD-T86 scrambling seed
  (internal/std-t86/fec/seedsearch.go).

  Multiplying each half of a code word by the other half's generator gives the
  same product, so their sum - the syndrome - vanishes on code words and depends
  on a received block only through its scrambling sequence and its errors.
  */
module SeedSearch {
  import opened Words
  import opened Conv
  import opened ConvAlgebra
  import Lfsr9

  const SEEDS := 512
  const CAC_LEN := 256
  const SYN_WORDS := 3
  const SYN_BITS := 192  // 64 * SYN_WORDS; the syndrome itself is 133 bits long

  const G1: nat := 0x2B
  const G2: nat := 0x3D

  // ---------------------------------------------------------------- the syndrome

  /** What symbol pair `k` adds to syndrome bit `k + j`. */
  function Term(cac: seq<nat>, k: nat, j: int): Bit
    requires 2 * k + 1 < |cac|
  {
    if 0 <= j < 6 then
      Xor1(And1(cac[2 * k] % 2, BitAt(G2, j)), And1(cac[2 * k + 1] % 2, BitAt(G1, j)))
    else 0
  }

  function TermAt(cac: seq<nat>, k: nat, i: nat): Bit
    requires 2 * k + 1 < |cac|
  {
    Term(cac, k, i - k)
  }

  function TermBits(cac: seq<nat>, k: nat): (r: seq<nat>)
    requires 2 * k + 1 < |cac|
    ensures |r| == SYN_BITS && IsBits(r)
  {
    seq(SYN_BITS, i requires 0 <= i < SYN_BITS => TermAt(cac, k, i))
  }

  /** Syndrome of the first `n` symbol pairs. */
  function SynPrefix(cac: seq<nat>, n: nat): (r: seq<nat>)
    requires 2 * n <= |cac|
    ensures |r| == SYN_BITS && IsBits(r)
  {
    if n == 0 then Zeros(SYN_BITS) else XorBits(SynPrefix(cac, n - 1), TermBits(cac, n - 1))
  }

  function SyndromeOf(cac: seq<nat>): (r: seq<nat>)
    ensures |r| == SYN_BITS && IsBits(r)
  {
    SynPrefix(cac, |cac| / 2)
  }

  /** The three words hold the bits. */
  ghost predicate Packed(words: seq<nat>, bits: seq<nat>)
    requires |bits| == SYN_BITS
  {
    |words| == SYN_WORDS && forall w | 0 <= w < SYN_WORDS :: words[w] == FromBits(bits[64 * w..64 * w + 64])
  }

  /** A word with the single bit `m`. */
  function Unit(n: nat, m: nat): (r: seq<nat>)
    ensures |r| == n && IsBits(r)
  {
    seq(n, i => if i == m then 1 else 0)
  }

  lemma {:induction false} FromBitsZeros(n: nat)
    ensures FromBits(Zeros(n)) == 0
  {
    if n > 0 {
      assert Zeros(n)[1..] == Zeros(n - 1);
      FromBitsZeros(n - 1);
    }
  }

  lemma {:induction false} FromBitsUnit(n: nat, m: nat)
    requires m < n
    ensures FromBits(Unit(n, m)) == Pow2(m)
  {
    if m == 0 {
      assert Unit(n, 0)[1..] == Zeros(n - 1);
      FromBitsZeros(n - 1);
    } else {
      assert Unit(n, m)[1..] == Unit(n - 1, m - 1);
      FromBitsUnit(n - 1, m - 1);
    }
  }

  /** `word ^= 1 << m`. */
  lemma ToggleWord(bits: seq<nat>, m: nat)
    requires IsBits(bits) && m < |bits|
    ensures Xor(FromBits(bits), Pow2(m)) == FromBits(bits[m := 1 - bits[m]])
  {
    FromBitsUnit(|bits|, m);
    FromBitsXor(bits, Unit(|bits|, m));
    assert XorBits(bits, Unit(|bits|, m)) == bits[m := 1 - bits[m]];
  }

  lemma ToggleAt(words: seq<nat>, bits: seq<nat>, i: nat)
    requires |bits| == SYN_BITS && IsBits(bits) && Packed(words, bits) && i < SYN_BITS
    ensures Packed(words[i / 64 := Xor(words[i / 64], Pow2(i % 64))], bits[i := 1 - bits[i]])
  {
    hide FromBits, Pow2, Xor;
    var bits' := bits[i := 1 - bits[i]];
    ToggleWord(bits[64 * (i / 64)..64 * (i / 64) + 64], i % 64);
    forall w | 0 <= w < SYN_WORDS
      ensures bits'[64 * w..64 * w + 64]
           == if w == i / 64 then bits[64 * w..64 * w + 64][i % 64 := 1 - bits[i]] else bits[64 * w..64 * w + 64]
    {
    }
  }

  /** Bits of the running syndrome while pair `k` is at tap `j`. */
  function Partial(before: seq<nat>, cac: seq<nat>, k: nat, j: nat): (r: seq<nat>)
    requires |before| == SYN_BITS && IsBits(before) && 2 * k + 1 < |cac|
    ensures |r| == SYN_BITS && IsBits(r)
  {
    seq(SYN_BITS, i requires 0 <= i < SYN_BITS => if i < k + j then Xor1(before[i], TermAt(cac, k, i)) else before[i])
  }

  method ComputeSyndrome(cac: seq<nat>) returns (words: seq<nat>)
    requires |cac| / 2 + 5 <= SYN_BITS
    ensures Packed(words, SyndromeOf(cac))
  {
    hide FromBits, Pow2, Xor, BitAt, Partial, TermBits;
    words := [0, 0, 0];
    PackedStart();
    var k := 0;
    while k < |cac| / 2
      invariant 0 <= k <= |cac| / 2 && Packed(words, SynPrefix(cac, k))
    {
      ghost var before := SynPrefix(cac, k);
      PartialStart(before, cac, k);
      var j := 0;
      while j < 6
        invariant 0 <= j <= 6 && Packed(words, Partial(before, cac, k, j))
      {
        PartialStep(before, cac, k, j);
        var v1, v2 := cac[2 * k] % 2, cac[2 * k + 1] % 2;
        var bit := Xor1(And1(v1, BitAt(G2, j)), And1(v2, BitAt(G1, j)));
        if bit != 0 {
          var i := k + j;
          ToggleAt(words, Partial(before, cac, k, j), i);
          words := words[i / 64 := Xor(words[i / 64], Pow2(i % 64))];
        }
        j := j + 1;
      }
      PartialDone(cac, k);
      k := k + 1;
    }
  }

  lemma PackedStart()
    ensures Packed([0, 0, 0], Zeros(SYN_BITS))
  {
    FromBitsZeros(64);
    assert forall w | 0 <= w < SYN_WORDS :: Zeros(SYN_BITS)[64 * w..64 * w + 64] == Zeros(64);
  }

  lemma PartialStart(before: seq<nat>, cac: seq<nat>, k: nat)
    requires |before| == SYN_BITS && IsBits(before) && 2 * k + 1 < |cac|
    ensures Partial(before, cac, k, 0) == before
  {
    assert forall i | 0 <= i < k :: TermAt(cac, k, i) == 0;
  }

  lemma PartialDone(cac: seq<nat>, k: nat)
    requires 2 * k + 1 < |cac|
    ensures Partial(SynPrefix(cac, k), cac, k, 6) == SynPrefix(cac, k + 1)
  {
    assert forall i | k + 6 <= i < SYN_BITS :: TermAt(cac, k, i) == 0;
  }

  lemma PartialStep(before: seq<nat>, cac: seq<nat>, k: nat, j: nat)
    requires |before| == SYN_BITS && IsBits(before) && 2 * k + 1 < |cac| && j < 6 && k + j < SYN_BITS
    ensures Partial(before, cac, k, j + 1)
         == if Term(cac, k, j) == 1 then Partial(before, cac, k, j)[k + j := 1 - Partial(before, cac, k, j)[k + j]]
            else Partial(before, cac, k, j)
  {
    hide BitAt;
    var p, q := Partial(before, cac, k, j), Partial(before, cac, k, j + 1);
    assert p[k + j] == before[k + j] && TermAt(cac, k, k + j) == Term(cac, k, j);
    if Term(cac, k, j) == 1 {
      assert q == p[k + j := 1 - p[k + j]];
    } else {
      assert q == p;
    }
  }

  // ---------------------------------------------------------------- linearity

  lemma {:induction false} SynLinear(a: seq<nat>, b: seq<nat>, n: nat)
    requires |a| == |b| && IsBits(a) && IsBits(b) && 2 * n <= |a|
    ensures SynPrefix(XorBits(a, b), n) == XorBits(SynPrefix(a, n), SynPrefix(b, n))
  {
    hide SynPrefix, TermBits, XorBits;
    if n == 0 {
      SynNone(a);
      SynNone(b);
      SynNone(XorBits(a, b));
      XorNone();
    } else {
      SynSnoc(a, n);
      SynSnoc(b, n);
      SynSnoc(XorBits(a, b), n);
      SynLinear(a, b, n - 1);
      SynLinearStep(a, b, n - 1, SynPrefix(a, n - 1), SynPrefix(b, n - 1));
    }
  }

  lemma SynNone(cac: seq<nat>)
    ensures SynPrefix(cac, 0) == Zeros(SYN_BITS)
  {
  }

  lemma SynSnoc(cac: seq<nat>, n: nat)
    requires 0 < n && 2 * n <= |cac|
    ensures SynPrefix(cac, n) == XorBits(SynPrefix(cac, n - 1), TermBits(cac, n - 1))
  {
    hide TermBits, XorBits;
  }

  lemma XorNone()
    ensures XorBits(Zeros(SYN_BITS), Zeros(SYN_BITS)) == Zeros(SYN_BITS)
  {
  }

  lemma SynLinearStep(a: seq<nat>, b: seq<nat>, k: nat, p: seq<nat>, q: seq<nat>)
    requires |a| == |b| && IsBits(a) && IsBits(b) && 2 * k + 1 < |a|
    requires |p| == |q| == SYN_BITS && IsBits(p) && IsBits(q)
    ensures XorBits(XorBits(p, q), TermBits(XorBits(a, b), k)) == XorBits(XorBits(p, TermBits(a, k)), XorBits(q, TermBits(b, k)))
  {
    hide Term;
    forall i | 0 <= i < SYN_BITS
      ensures Xor1(Xor1(p[i], q[i]), TermAt(XorBits(a, b), k, i)) == Xor1(Xor1(p[i], TermAt(a, k, i)), Xor1(q[i], TermAt(b, k, i)))
    {
      TermLinear(a, b, k, i - k);
      XorAssoc4(p[i], q[i], TermAt(a, k, i), TermAt(b, k, i));
    }
  }

  lemma TermLinear(a: seq<nat>, b: seq<nat>, k: nat, j: int)
    requires |a| == |b| && IsBits(a) && IsBits(b) && 2 * k + 1 < |a|
    ensures Term(XorBits(a, b), k, j) == Xor1(Term(a, k, j), Term(b, k, j))
  {
    hide BitAt;
    assert a[2 * k] % 2 == a[2 * k] && b[2 * k] % 2 == b[2 * k];
    assert a[2 * k + 1] % 2 == a[2 * k + 1] && b[2 * k + 1] % 2 == b[2 * k + 1];
  }

  // ---------------------------------------------------------------- code words

  /** Input bit `m` of a path, zero outside it. */
  function At(u: seq<nat>, m: int): Bit
    requires IsBits(u)
  {
    if 0 <= m < |u| then u[m] else 0
  }

  /** Coefficient `m` of generator times input, by taps. */
  function First(u: seq<nat>, m: int): Bit
    requires IsBits(u)
  {
    Xor1(Xor1(Xor1(At(u, m), At(u, m - 1)), At(u, m - 3)), At(u, m - 5))
  }

  function Second(u: seq<nat>, m: int): Bit
    requires IsBits(u)
  {
    Xor1(Xor1(Xor1(Xor1(At(u, m), At(u, m - 2)), At(u, m - 3)), At(u, m - 4)), At(u, m - 5))
  }

  lemma GeneratorTaps(j: nat)
    requires j < 6
    ensures BitAt(G1, j) == (if j == 2 || j == 4 then 0 else 1)
    ensures BitAt(G2, j) == (if j == 1 then 0 else 1)
  {
    assert G1 / 2 == 21 && G2 / 2 == 30;
  }

  lemma ConvolveTap(p: nat, u: seq<nat>, t: int)
    requires IsBits(u) && t < |u| && p > 0
    ensures Convolve(p, u, t) == if p % 2 == 1 then Xor1(At(u, t), Convolve(p / 2, u, t - 1)) else Convolve(p / 2, u, t - 1)
  {
  }

  /** The encoder's generators, written out. */
  lemma EncoderTaps(u: seq<nat>, t: int)
    requires IsBits(u) && t < |u|
    ensures Convolve(G1, u, t) == First(u, t) && Convolve(G2, u, t) == Second(u, t)
  {
    hide At, Convolve;
    ConvolveTap(43, u, t);
    ConvolveTap(21, u, t - 1);
    ConvolveTap(10, u, t - 2);
    ConvolveTap(5, u, t - 3);
    ConvolveTap(2, u, t - 4);
    ConvolveTap(1, u, t - 5);
    ConvolveTap(61, u, t);
    ConvolveTap(30, u, t - 1);
    ConvolveTap(15, u, t - 2);
    ConvolveTap(7, u, t - 3);
    ConvolveTap(3, u, t - 4);
    assert Convolve(0, u, t - 6) == 0 by { ConvolveNone(u, t - 6); }
  }

  lemma ConvolveNone(u: seq<nat>, t: int)
    requires IsBits(u) && t < |u|
    ensures Convolve(0, u, t) == 0
  {
  }

  predicate On(b: Bit) { b == 1 }

  lemma Four(a: Bit, b: Bit, c: Bit, d: Bit)
    ensures On(Xor1(Xor1(Xor1(a, b), c), d)) == (((On(a) != On(b)) != On(c)) != On(d))
  {
  }

  lemma Five(a: Bit, b: Bit, c: Bit, d: Bit, e: Bit)
    ensures On(Xor1(Xor1(Xor1(Xor1(a, b), c), d), e)) == ((((On(a) != On(b)) != On(c)) != On(d)) != On(e))
  {
  }

  lemma SameBit(a: Bit, b: Bit)
    requires On(a) == On(b)
    ensures a == b
  {
  }

  /** The two products cancel. */
  lemma ProductsCancel(x0: Bit, x1: Bit, x2: Bit, x3: Bit, x4: Bit, x5: Bit, x6: Bit, x7: Bit, x8: Bit, x9: Bit, x10: Bit)
    ensures
      var a0 := Xor1(Xor1(Xor1(x0, x1), x3), x5);
      var a2 := Xor1(Xor1(Xor1(x2, x3), x5), x7);
      var a3 := Xor1(Xor1(Xor1(x3, x4), x6), x8);
      var a4 := Xor1(Xor1(Xor1(x4, x5), x7), x9);
      var a5 := Xor1(Xor1(Xor1(x5, x6), x8), x10);
      var b0 := Xor1(Xor1(Xor1(Xor1(x0, x2), x3), x4), x5);
      var b1 := Xor1(Xor1(Xor1(Xor1(x1, x3), x4), x5), x6);
      var b3 := Xor1(Xor1(Xor1(Xor1(x3, x5), x6), x7), x8);
      var b5 := Xor1(Xor1(Xor1(Xor1(x5, x7), x8), x9), x10);
      Xor1(Xor1(Xor1(Xor1(a0, a2), a3), a4), a5) == Xor1(Xor1(Xor1(b0, b1), b3), b5)
  {
    hide Xor1, On;
    var a0 := Xor1(Xor1(Xor1(x0, x1), x3), x5);
    var a2 := Xor1(Xor1(Xor1(x2, x3), x5), x7);
    var a3 := Xor1(Xor1(Xor1(x3, x4), x6), x8);
    var a4 := Xor1(Xor1(Xor1(x4, x5), x7), x9);
    var a5 := Xor1(Xor1(Xor1(x5, x6), x8), x10);
    var b0 := Xor1(Xor1(Xor1(Xor1(x0, x2), x3), x4), x5);
    var b1 := Xor1(Xor1(Xor1(Xor1(x1, x3), x4), x5), x6);
    var b3 := Xor1(Xor1(Xor1(Xor1(x3, x5), x6), x7), x8);
    var b5 := Xor1(Xor1(Xor1(Xor1(x5, x7), x8), x9), x10);
    Four(x0, x1, x3, x5);
    Four(x2, x3, x5, x7);
    Four(x3, x4, x6, x8);
    Four(x4, x5, x7, x9);
    Four(x5, x6, x8, x10);
    Five(x0, x2, x3, x4, x5);
    Five(x1, x3, x4, x5, x6);
    Five(x3, x5, x6, x7, x8);
    Five(x5, x7, x8, x9, x10);
    Five(a0, a2, a3, a4, a5);
    Four(b0, b1, b3, b5);
    SameBit(Xor1(Xor1(Xor1(Xor1(a0, a2), a3), a4), a5), Xor1(Xor1(Xor1(b0, b1), b3), b5));
  }

  /** `cw` is a code word of the path `u`, which ends with five zeros. */
  ghost predicate Codeword(u: seq<nat>, cw: seq<nat>) {
    && IsBits(u) && IsBits(cw) && |cw| == 2 * |u| && |u| >= 5
    && (forall m | |u| - 5 <= m < |u| :: u[m] == 0)
    && (forall k | 0 <= k < |u| :: cw[2 * k] == First(u, k) && cw[2 * k + 1] == Second(u, k))
  }

  lemma EncodedIsCodeword(info: seq<nat>)
    requires IsBits(info)
    ensures CONTROL.Valid() && Codeword(info + Zeros(5), Encode(CONTROL, info))
  {
    var u, cw := info + Zeros(5), Encode(CONTROL, info);
    assert |cw| == 2 * |u|;
    forall k | 0 <= k < |u|
      ensures cw[2 * k] == First(u, k) && cw[2 * k + 1] == Second(u, k)
    {
      SymbolPair(u, k);
    }
  }

  lemma SymbolPair(u: seq<nat>, k: nat)
    requires CONTROL.Valid() && IsBits(u) && k < |u|
    ensures |Coded(CONTROL, u)| == 2 * |u|
    ensures Coded(CONTROL, u)[2 * k] == First(u, k) && Coded(CONTROL, u)[2 * k + 1] == Second(u, k)
  {
    hide First, Second, Coded, Sent, Pow2, Offset, Next, Convolve, End;
    ControlShape(k);
    CodedSymbol(CONTROL, u, k, 0);
    CodedSymbol(CONTROL, u, k, 1);
    EncoderConvolves(CONTROL, u, k, 0);
    EncoderConvolves(CONTROL, u, k, 1);
    EncoderTaps(u, k);
    ControlLength(u);
  }

  lemma ControlShape(k: nat)
    requires CONTROL.Valid()
    ensures CONTROL.N() == 2 && CONTROL.polys[0] == G1 < Pow2(CONTROL.K) && CONTROL.polys[1] == G2 < Pow2(CONTROL.K)
    ensures Offset(k, CONTROL.N()) == 2 * k
  {
    assert Pow2(6) == 64;
  }

  lemma ControlLength(u: seq<nat>)
    requires CONTROL.Valid() && IsBits(u)
    ensures |Coded(CONTROL, u)| == 2 * |u|
  {
    ControlShape(|u|);
  }

  /** Outside the code word both products are zero. */
  lemma OutsideZero(u: seq<nat>, m: int)
    requires IsBits(u) && |u| >= 5 && (forall x | |u| - 5 <= x < |u| :: u[x] == 0) && (m < 0 || m >= |u|)
    ensures First(u, m) == 0 && Second(u, m) == 0
  {
    assert At(u, m) == 0 && At(u, m - 1) == 0 && At(u, m - 2) == 0;
    assert At(u, m - 3) == 0 && At(u, m - 4) == 0 && At(u, m - 5) == 0;
  }

  /** What pair `m` adds at tap `j`, for the first `n` pairs. */
  function TermIf(cac: seq<nat>, n: nat, m: int, j: nat): Bit
    requires 2 * n <= |cac|
  {
    if 0 <= m < n then Term(cac, m, j) else 0
  }

  /** The first `J` of the six terms of syndrome bit `i`. */
  function Window(cac: seq<nat>, n: nat, i: nat, J: nat): Bit
    requires 2 * n <= |cac| && J <= 6
  {
    if J == 0 then 0 else Xor1(Window(cac, n, i, J - 1), TermIf(cac, n, i - (J - 1), J - 1))
  }

  lemma {:induction false} WindowStep(cac: seq<nat>, n: nat, i: nat, J: nat)
    requires 0 < n && 2 * n <= |cac| && J <= 6
    ensures Window(cac, n, i, J)
         == if 0 <= i - (n - 1) < J then Xor1(Window(cac, n - 1, i, J), TermAt(cac, n - 1, i)) else Window(cac, n - 1, i, J)
  {
    if J > 0 {
      hide Term;
      WindowStep(cac, n, i, J - 1);
      var m := i - (J - 1);
      if m == n - 1 {
        assert TermIf(cac, n - 1, m, J - 1) == 0;
      } else {
        assert TermIf(cac, n, m, J - 1) == TermIf(cac, n - 1, m, J - 1);
      }
    }
  }

  /** A syndrome bit is the sum of six terms. */
  lemma {:induction false} SyndromeWindow(cac: seq<nat>, n: nat, i: nat)
    requires 2 * n <= |cac| && i < SYN_BITS
    ensures SynPrefix(cac, n)[i] == Window(cac, n, i, 6)
  {
    hide SynPrefix, Window, TermAt, TermBits;
    if n == 0 {
      NoPairs(cac, i);
    } else {
      SyndromeWindow(cac, n - 1, i);
      WindowStep(cac, n, i, 6);
      SynPrefixAt(cac, n, i);
    }
  }

  lemma NoPairs(cac: seq<nat>, i: nat)
    requires i < SYN_BITS
    ensures SynPrefix(cac, 0)[i] == 0 && Window(cac, 0, i, 6) == 0
  {
    hide Window;
    EmptyWindow(cac, i, 6);
  }

  lemma SynPrefixAt(cac: seq<nat>, n: nat, i: nat)
    requires 0 < n && 2 * n <= |cac| && i < SYN_BITS
    ensures SynPrefix(cac, n)[i]
         == if 0 <= i - (n - 1) < 6 then Xor1(SynPrefix(cac, n - 1)[i], TermAt(cac, n - 1, i)) else SynPrefix(cac, n - 1)[i]
  {
    hide BitAt;
  }

  lemma {:induction false} EmptyWindow(cac: seq<nat>, i: nat, J: nat)
    requires J <= 6
    ensures Window(cac, 0, i, J) == 0
  {
    if J > 0 { EmptyWindow(cac, i, J - 1); }
  }

  lemma SixTerms(cac: seq<nat>, n: nat, i: nat)
    requires 2 * n <= |cac|
    ensures Window(cac, n, i, 6)
         == Xor1(Xor1(Xor1(Xor1(Xor1(TermIf(cac, n, i, 0), TermIf(cac, n, i - 1, 1)), TermIf(cac, n, i - 2, 2)),
                           TermIf(cac, n, i - 3, 3)), TermIf(cac, n, i - 4, 4)), TermIf(cac, n, i - 5, 5))
  {
    hide TermIf, Xor1;
    WindowSum(cac, n, i, 1);
    WindowSum(cac, n, i, 2);
    WindowSum(cac, n, i, 3);
    WindowSum(cac, n, i, 4);
    WindowSum(cac, n, i, 5);
    WindowSum(cac, n, i, 6);
    XorFromZero(TermIf(cac, n, i, 0));
  }

  lemma WindowSum(cac: seq<nat>, n: nat, i: nat, J: nat)
    requires 2 * n <= |cac| && 0 < J <= 6
    ensures Window(cac, n, i, 0) == 0
    ensures Window(cac, n, i, J) == Xor1(Window(cac, n, i, J - 1), TermIf(cac, n, i - (J - 1), J - 1))
  {
  }

  lemma XorFromZero(b: Bit)
    ensures Xor1(0, b) == b
  {
  }

  lemma TermTaps(cw: seq<nat>, m: nat, j: nat)
    requires 2 * m + 1 < |cw| && IsBits(cw) && j < 6
    ensures Term(cw, m, j) == (if j == 1 then cw[2 * m + 1] else if j == 2 || j == 4 then cw[2 * m] else Xor1(cw[2 * m], cw[2 * m + 1]))
  {
    GeneratorTaps(j);
    hide BitAt;
    assert cw[2 * m] % 2 == cw[2 * m] && cw[2 * m + 1] % 2 == cw[2 * m + 1];
  }

  lemma CodewordTerm(u: seq<nat>, cw: seq<nat>, m: int, j: nat)
    requires Codeword(u, cw) && j < 6
    ensures TermIf(cw, |u|, m, j)
         == (if j == 1 then Second(u, m) else if j == 2 || j == 4 then First(u, m) else Xor1(First(u, m), Second(u, m)))
  {
    hide First, Second, Term;
    if 0 <= m < |u| {
      TermTaps(cw, m, j);
      assert cw[2 * m] == First(u, m) && cw[2 * m + 1] == Second(u, m);
    } else {
      OutsideZero(u, m);
    }
  }

  lemma SumSwap(f0: Bit, s0: Bit, s1: Bit, f2: Bit, f3: Bit, s3: Bit, f4: Bit, f5: Bit, s5: Bit)
    requires Xor1(Xor1(Xor1(Xor1(f0, f2), f3), f4), f5) == Xor1(Xor1(Xor1(s0, s1), s3), s5)
    ensures Xor1(Xor1(Xor1(Xor1(Xor1(Xor1(f0, s0), s1), f2), Xor1(f3, s3)), f4), Xor1(f5, s5)) == 0
  {
  }

  /** Code words have syndrome zero. */
  lemma CodewordCancels(u: seq<nat>, cw: seq<nat>)
    requires Codeword(u, cw)
    ensures SyndromeOf(cw) == Zeros(SYN_BITS)
  {
    forall i | 0 <= i < SYN_BITS
      ensures SyndromeOf(cw)[i] == 0
    {
      CodewordCancelsAt(u, cw, i);
    }
  }

  lemma CodewordCancelsAt(u: seq<nat>, cw: seq<nat>, i: nat)
    requires Codeword(u, cw) && i < SYN_BITS
    ensures SyndromeOf(cw)[i] == 0
  {
    hide Xor1, SynPrefix, Window, First, Second;
    SyndromeWindow(cw, |u|, i);
    WindowProducts(u, cw, i);
    ProductsAgree(u, i);
    SumSwap(First(u, i), Second(u, i), Second(u, i - 1), First(u, i - 2), First(u, i - 3), Second(u, i - 3),
            First(u, i - 4), First(u, i - 5), Second(u, i - 5));
  }

  lemma WindowProducts(u: seq<nat>, cw: seq<nat>, i: nat)
    requires Codeword(u, cw)
    ensures Window(cw, |u|, i, 6)
         == Xor1(Xor1(Xor1(Xor1(Xor1(Xor1(First(u, i), Second(u, i)), Second(u, i - 1)), First(u, i - 2)),
                           Xor1(First(u, i - 3), Second(u, i - 3))), First(u, i - 4)), Xor1(First(u, i - 5), Second(u, i - 5)))
  {
    hide Xor1, TermIf, Window, First, Second;
    SixTerms(cw, |u|, i);
    CodewordTerm(u, cw, i, 0);
    CodewordTerm(u, cw, i - 1, 1);
    CodewordTerm(u, cw, i - 2, 2);
    CodewordTerm(u, cw, i - 3, 3);
    CodewordTerm(u, cw, i - 4, 4);
    CodewordTerm(u, cw, i - 5, 5);
  }

  lemma ProductsAgree(u: seq<nat>, i: int)
    requires IsBits(u)
    ensures Xor1(Xor1(Xor1(Xor1(First(u, i), First(u, i - 2)), First(u, i - 3)), First(u, i - 4)), First(u, i - 5))
         == Xor1(Xor1(Xor1(Second(u, i), Second(u, i - 1)), Second(u, i - 3)), Second(u, i - 5))
  {
    hide Xor1, First, Second, At;
    ProductsCancel(At(u, i), At(u, i - 1), At(u, i - 2), At(u, i - 3), At(u, i - 4), At(u, i - 5),
                   At(u, i - 6), At(u, i - 7), At(u, i - 8), At(u, i - 9), At(u, i - 10));
    FirstTaps(u, i);
  }

  lemma FirstTaps(u: seq<nat>, i: int)
    requires IsBits(u)
    ensures First(u, i) == Xor1(Xor1(Xor1(At(u, i), At(u, i - 1)), At(u, i - 3)), At(u, i - 5))
    ensures First(u, i - 2) == Xor1(Xor1(Xor1(At(u, i - 2), At(u, i - 3)), At(u, i - 5)), At(u, i - 7))
    ensures First(u, i - 3) == Xor1(Xor1(Xor1(At(u, i - 3), At(u, i - 4)), At(u, i - 6)), At(u, i - 8))
    ensures First(u, i - 4) == Xor1(Xor1(Xor1(At(u, i - 4), At(u, i - 5)), At(u, i - 7)), At(u, i - 9))
    ensures First(u, i - 5) == Xor1(Xor1(Xor1(At(u, i - 5), At(u, i - 6)), At(u, i - 8)), At(u, i - 10))
    ensures Second(u, i) == Xor1(Xor1(Xor1(Xor1(At(u, i), At(u, i - 2)), At(u, i - 3)), At(u, i - 4)), At(u, i - 5))
    ensures Second(u, i - 1) == Xor1(Xor1(Xor1(Xor1(At(u, i - 1), At(u, i - 3)), At(u, i - 4)), At(u, i - 5)), At(u, i - 6))
    ensures Second(u, i - 3) == Xor1(Xor1(Xor1(Xor1(At(u, i - 3), At(u, i - 5)), At(u, i - 6)), At(u, i - 7)), At(u, i - 8))
    ensures Second(u, i - 5) == Xor1(Xor1(Xor1(Xor1(At(u, i - 5), At(u, i - 7)), At(u, i - 8)), At(u, i - 9)), At(u, i - 10))
  {
    hide At, Xor1;
    assert i - 2 - 1 == i - 3 && i - 2 - 3 == i - 5 && i - 2 - 5 == i - 7;
  }

  // ---------------------------------------------------------------- weights

  function Sum(s: seq<nat>): nat { if s == [] then 0 else s[0] + Sum(s[1..]) }

  lemma {:induction false} SumConcat(a: seq<nat>, b: seq<nat>)
    ensures Sum(a + b) == Sum(a) + Sum(b)
  {
    if a == [] {
      assert a + b == b;
    } else {
      SumConcat(a[1..], b);
      assert (a + b)[1..] == a[1..] + b;
    }
  }

  lemma {:induction false} SumZeros(n: nat)
    ensures Sum(Zeros(n)) == 0
  {
    if n > 0 {
      assert Zeros(n)[1..] == Zeros(n - 1);
      SumZeros(n - 1);
    }
  }

  lemma {:induction false} OnesCountIsSum(s: seq<nat>)
    requires IsBits(s)
    ensures OnesCount(FromBits(s)) == Sum(s)
  {
    if s != [] {
      FromBitsHalves(s);
      OnesCountIsSum(s[1..]);
    }
  }

  lemma {:induction false} SumXor(a: seq<nat>, b: seq<nat>)
    requires |a| == |b| && IsBits(a) && IsBits(b)
    ensures Sum(XorBits(a, b)) <= Sum(a) + Sum(b)
  {
    if a != [] {
      assert XorBits(a, b)[1..] == XorBits(a[1..], b[1..]);
      SumXor(a[1..], b[1..]);
    }
  }

  /** Number of positions where two syndromes differ. */
  function Differences(a: seq<nat>, b: seq<nat>): nat
    requires |a| == |b| && IsBits(a) && IsBits(b)
  {
    Sum(XorBits(a, b))
  }

  /** The distance is what the population counts of the word differences add up to. */
  lemma WordDistance(ws: seq<nat>, a: seq<nat>, vs: seq<nat>, b: seq<nat>)
    requires |a| == |b| == SYN_BITS && IsBits(a) && IsBits(b) && Packed(ws, a) && Packed(vs, b)
    ensures OnesCount(Xor(ws[0], vs[0])) + OnesCount(Xor(ws[1], vs[1])) + OnesCount(Xor(ws[2], vs[2])) == Differences(a, b)
  {
    hide Sum, OnesCount, FromBits, Xor;
    var x := XorBits(a, b);
    PartDistance(a, b, 0);
    PartDistance(a, b, 1);
    PartDistance(a, b, 2);
    SumConcat(x[0..64], x[64..128]);
    SumConcat(x[0..128], x[128..192]);
    assert x[0..64] + x[64..128] == x[0..128] && x[0..128] + x[128..192] == x;
  }

  lemma PartDistance(a: seq<nat>, b: seq<nat>, w: nat)
    requires |a| == |b| == SYN_BITS && IsBits(a) && IsBits(b) && w < SYN_WORDS
    ensures OnesCount(Xor(FromBits(a[64 * w..64 * w + 64]), FromBits(b[64 * w..64 * w + 64])))
         == Sum(XorBits(a, b)[64 * w..64 * w + 64])
  {
    hide Sum, OnesCount, FromBits, Xor;
    var p, q := a[64 * w..64 * w + 64], b[64 * w..64 * w + 64];
    FromBitsXor(p, q);
    OnesCountIsSum(XorBits(p, q));
    assert XorBits(a, b)[64 * w..64 * w + 64] == XorBits(p, q);
  }

  /** One wrong symbol pair disturbs at most five syndrome bits for each wrong symbol. */
  lemma TermWeight(e: seq<nat>, k: nat)
    requires 2 * k + 1 < |e| && IsBits(e) && k + 6 <= SYN_BITS
    ensures Sum(TermBits(e, k)) <= 5 * (e[2 * k] + e[2 * k + 1])
  {
    var six: seq<nat> := [Term(e, k, 0), Term(e, k, 1), Term(e, k, 2), Term(e, k, 3), Term(e, k, 4), Term(e, k, 5)];
    TermTaps(e, k, 0);
    TermTaps(e, k, 1);
    TermTaps(e, k, 2);
    TermTaps(e, k, 3);
    TermTaps(e, k, 4);
    TermTaps(e, k, 5);
    SixParts(e, k, six);
    SumSix(six);
    SumConcat(Zeros(k) + six, Zeros(SYN_BITS - 6 - k));
    SumConcat(Zeros(k), six);
    SumZeros(k);
    SumZeros(SYN_BITS - 6 - k);
  }

  lemma SixParts(e: seq<nat>, k: nat, six: seq<nat>)
    requires 2 * k + 1 < |e| && k + 6 <= SYN_BITS && |six| == 6
    requires forall j | 0 <= j < 6 :: six[j] == Term(e, k, j)
    ensures TermBits(e, k) == Zeros(k) + six + Zeros(SYN_BITS - 6 - k)
  {
    hide BitAt;
    forall i | 0 <= i < SYN_BITS
      ensures TermBits(e, k)[i] == (Zeros(k) + six + Zeros(SYN_BITS - 6 - k))[i]
    {
    }
  }

  lemma SumSix(s: seq<nat>)
    requires |s| == 6
    ensures Sum(s) == s[0] + s[1] + s[2] + s[3] + s[4] + s[5]
  {
    assert s[1..][1..] == s[2..] && s[2..][1..] == s[3..] && s[3..][1..] == s[4..] && s[4..][1..] == s[5..];
    assert s[5..][1..] == [];
    assert Sum(s[5..]) == s[5];
    assert Sum(s[4..]) == s[4] + s[5];
    assert Sum(s[3..]) == s[3] + s[4] + s[5];
    assert Sum(s[2..]) == s[2] + s[3] + s[4] + s[5];
    assert Sum(s[1..]) == s[1] + s[2] + s[3] + s[4] + s[5];
  }

  lemma {:induction false} SyndromeWeight(e: seq<nat>, n: nat)
    requires IsBits(e) && 2 * n <= |e| && n + 5 <= SYN_BITS
    ensures Sum(SynPrefix(e, n)) <= 5 * Sum(e[..2 * n])
  {
    if n == 0 {
      SumZeros(SYN_BITS);
    } else {
      hide Sum, TermBits;
      SyndromeWeight(e, n - 1);
      SumXor(SynPrefix(e, n - 1), TermBits(e, n - 1));
      TermWeight(e, n - 1);
      assert e[..2 * n] == e[..2 * (n - 1)] + [e[2 * n - 2], e[2 * n - 1]];
      SumConcat(e[..2 * (n - 1)], [e[2 * n - 2], e[2 * n - 1]]);
      SumPair(e[2 * n - 2], e[2 * n - 1]);
    }
  }

  lemma SumPair(x: nat, y: nat)
    ensures Sum([x, y]) == x + y
  {
    assert [x, y][1..] == [y] && [y][1..] == [];
    assert Sum([y]) == y + Sum([y][1..]);
  }

  // ---------------------------------------------------------------- what the search sees

  /** Disagreement between a received block and the scrambling sequence of `seed`. */
  function Mismatch(cac: seq<nat>, seed: nat): nat {
    Differences(SyndromeOf(Lfsr9.Pn(seed, CAC_LEN)), SyndromeOf(LowBits(cac)))
  }

  /** Channel errors: positions where `received` differs from the scrambled code word. */
  function Errors(received: seq<nat>, cw: seq<nat>, seed: nat): nat
    requires |received| == |cw|
  {
    Sum(XorBits(LowBits(received), Lfsr9.Scrambled(cw, seed)))
  }

  /** The right seed disagrees with a received code word in at most five bits for each channel error. */
  lemma MismatchBound(received: seq<nat>, u: seq<nat>, cw: seq<nat>, seed: nat)
    requires Codeword(u, cw) && |received| == |cw| == CAC_LEN
    ensures Mismatch(received, seed) <= 5 * Errors(received, cw, seed)
  {
    hide Term, Lfsr9.Pn, Sum, SynPrefix;
    var pn, r := Lfsr9.Pn(seed, CAC_LEN), LowBits(received);
    var sc := Lfsr9.Scrambled(cw, seed);
    var err := XorBits(r, sc);
    assert sc == XorBits(cw, pn);
    assert r == XorBits(sc, err);
    SynLinear(cw, pn, 128);
    SynLinear(sc, err, 128);
    CodewordCancels(u, cw);
    var zero, p, q := Zeros(SYN_BITS), SyndromeOf(pn), SyndromeOf(err);
    assert XorBits(zero, p) == p;
    assert XorBits(p, XorBits(p, q)) == q;
    SyndromeWeight(err, 128);
    assert err[..256] == err;
  }

  /** Error-free blocks do not disagree with their seed at all. */
  lemma CleanMismatch(u: seq<nat>, cw: seq<nat>, seed: nat)
    requires Codeword(u, cw) && |cw| == CAC_LEN
    ensures Mismatch(Lfsr9.Scrambled(cw, seed), seed) == 0
  {
    var sc := Lfsr9.Scrambled(cw, seed);
    assert LowBits(sc) == sc && XorBits(sc, sc) == Zeros(CAC_LEN);
    SumZeros(CAC_LEN);
    MismatchBound(sc, u, cw, seed);
  }

  // ---------------------------------------------------------------- the search

  /** Weight of a seed after the blocks `pushed`. */
  function Total(pushed: seq<seq<nat>>, seed: nat): nat {
    if pushed == [] then 0 else Total(pushed[..|pushed| - 1], seed) + Mismatch(pushed[|pushed| - 1], seed)
  }

  /** A received block together with the coded path that was sent. */
  datatype Block = Block(path: seq<nat>, sent: seq<nat>, received: seq<nat>)

  ghost predicate Genuine(b: Block) {
    Codeword(b.path, b.sent) && |b.received| == |b.sent| == CAC_LEN
  }

  function Received(blocks: seq<Block>): (r: seq<seq<nat>>)
    ensures |r| == |blocks|
  {
    seq(|blocks|, i requires 0 <= i < |blocks| => blocks[i].received)
  }

  /** Channel errors over all blocks. */
  ghost function TotalErrors(blocks: seq<Block>, seed: nat): nat
    requires forall i | 0 <= i < |blocks| :: Genuine(blocks[i])
  {
    if blocks == [] then 0
    else
      var last := blocks[|blocks| - 1];
      assert Genuine(last);
      TotalErrors(blocks[..|blocks| - 1], seed) + Errors(last.received, last.sent, seed)
  }

  /** The weight of the right seed is at most five times the number of channel errors. */
  lemma {:induction false} WeightBound(blocks: seq<Block>, seed: nat)
    requires forall i | 0 <= i < |blocks| :: Genuine(blocks[i])
    ensures Total(Received(blocks), seed) <= 5 * TotalErrors(blocks, seed)
  {
    if blocks != [] {
      hide Mismatch, Errors, Codeword;
      var n := |blocks| - 1;
      WeightBound(blocks[..n], seed);
      assert Received(blocks)[..n] == Received(blocks[..n]);
      MismatchBound(blocks[n].received, blocks[n].path, blocks[n].sent, seed);
    }
  }

  /** Any number of error-free blocks leaves the right seed at weight zero. */
  lemma {:induction false} CleanWeight(blocks: seq<Block>, seed: nat)
    requires forall i | 0 <= i < |blocks| :: Genuine(blocks[i]) && blocks[i].received == Lfsr9.Scrambled(blocks[i].sent, seed)
    ensures Total(Received(blocks), seed) == 0
  {
    if blocks != [] {
      hide Mismatch, Codeword;
      var n := |blocks| - 1;
      CleanWeight(blocks[..n], seed);
      assert Received(blocks)[..n] == Received(blocks[..n]);
      CleanMismatch(blocks[n].path, blocks[n].sent, seed);
    }
  }

  /** Seed `a` ranks before seed `b`: smaller weight, ties in seed order. */
  predicate Before(w: seq<nat>, a: nat, b: nat)
    requires a < |w| && b < |w|
  {
    w[a] < w[b] || (w[a] == w[b] && a < b)
  }

  /** `idx` lists the seeds below `n`, best first. */
  ghost predicate Ranked(w: seq<nat>, idx: seq<nat>, n: nat)
    requires n <= |w|
  {
    && |idx| == n
    && (forall i | 0 <= i < n :: idx[i] < n)
    && (forall s | 0 <= s < n :: s in idx)
    && (forall i, j | 0 <= i < j < n :: Before(w, idx[i], idx[j]))
  }

  class SeedSearcher {
    const top: nat
    const weights: array<nat>
    var nSlots: nat
    ghost var pushed: seq<seq<nat>>

    ghost predicate Valid()
      reads this, weights
    {
      && weights.Length == SEEDS && nSlots == |pushed| && top > 0
      && forall s | 0 <= s < SEEDS :: weights[s] == Total(pushed, s)
    }

    constructor (top: int)
      ensures Valid() && fresh(weights) && pushed == []
      ensures this.top == if top <= 0 then 8 else top
    {
      this.top := if top <= 0 then 8 else top;
      weights := new nat[SEEDS](_ => 0);
      nSlots := 0;
      pushed := [];
    }

    /** Add one descrambling candidate block to the weights. */
    method Push(table: seq<seq<nat>>, cac: seq<nat>)
      requires Valid() && PnTable(table) && |cac| / 2 + 5 <= SYN_BITS
      modifies this, weights
      ensures Valid() && pushed == old(pushed) + [cac]
    {
      hide Total, Mismatch, Packed, SyndromeOf, OnesCount, Xor;
      SyndromeLow(cac);
      var syn := ComputeSyndrome(cac);
      ghost var was := weights[..];
      ghost var before := pushed;
      var s := 0;
      while s < SEEDS
        invariant 0 <= s <= SEEDS && nSlots == old(nSlots) && pushed == before
        invariant forall x | 0 <= x < s :: weights[x] == was[x] + Mismatch(cac, x)
        invariant forall x | s <= x < SEEDS :: weights[x] == was[x]
      {
        var w := WordDifferences(table, syn, s, cac);
        weights[s] := weights[s] + w;
        s := s + 1;
      }
      nSlots := nSlots + 1;
      pushed := pushed + [cac];
      forall x | 0 <= x < SEEDS
        ensures weights[x] == Total(pushed, x)
      {
        TotalSnoc(before, cac, x);
      }
    }

    /** All seeds by weight, equal weights in seed order. */
    method Order() returns (idx: seq<nat>)
      requires Valid()
      ensures Ranked(weights[..], idx, SEEDS)
    {
      ghost var w := weights[..];
      idx := [];
      var n := 0;
      while n < SEEDS
        invariant 0 <= n <= SEEDS && w == weights[..] && Ranked(w, idx, n)
      {
        hide Ranked;
        RankedIndices(w, idx, n);
        var p := 0;
        while p < |idx| && weights[idx[p]] <= weights[n]
          invariant 0 <= p <= |idx|
          invariant forall i | 0 <= i < p :: w[idx[i]] <= w[n]
        {
          p := p + 1;
        }
        InsertRanked(w, idx, n, p);
        idx := idx[..p] + [n] + idx[p..];
        n := n + 1;
      }
    }

    /** The best `top` seeds: every seed left out ranks behind all of them. */
    method Candidates() returns (r: seq<nat>)
      requires Valid()
      ensures |r| == (if top < SEEDS then top else SEEDS)
      ensures forall i | 0 <= i < |r| :: r[i] < SEEDS
      ensures forall i, j | 0 <= i < j < |r| :: Before(weights[..], r[i], r[j])
      ensures forall c, s | c in r && 0 <= s < SEEDS && s !in r :: Before(weights[..], c, s)
    {
      r := Order();
      ghost var all := r;
      if |r| > top {
        r := r[..top];
      }
      ghost var w := weights[..];
      forall c, s | c in r && 0 <= s < SEEDS && s !in r
        ensures Before(w, c, s)
      {
        assert s in all;
        var i :| 0 <= i < |r| && r[i] == c;
        var j :| 0 <= j < |all| && all[j] == s;
        assert r[i] == all[i];
        assert forall x | 0 <= x < |r| :: all[x] in r;
      }
    }
  }

  /** The syndromes of all scrambling sequences. */
  ghost predicate PnTable(table: seq<seq<nat>>) {
    |table| == SEEDS && forall s | 0 <= s < SEEDS :: Packed(table[s], SyndromeOf(Lfsr9.Pn(s, CAC_LEN)))
  }

  method PnSyndromes() returns (table: seq<seq<nat>>)
    ensures PnTable(table)
  {
    hide SyndromeOf, Packed, Lfsr9.Pn;
    table := [];
    var s := 0;
    while s < SEEDS
      invariant 0 <= s <= SEEDS && |table| == s
      invariant forall x | 0 <= x < s :: Packed(table[x], SyndromeOf(Lfsr9.Pn(x, CAC_LEN)))
    {
      var pn := Lfsr9.LfsrPn(s, CAC_LEN);
      var syn := ComputeSyndrome(pn);
      table := table + [syn];
      s := s + 1;
    }
  }

  /** Population count of the difference of two packed syndromes. */
  method WordDifferences(table: seq<seq<nat>>, syn: seq<nat>, s: nat, ghost cac: seq<nat>) returns (w: nat)
    requires PnTable(table) && s < SEEDS && Packed(syn, SyndromeOf(LowBits(cac)))
    ensures w == Mismatch(cac, s)
  {
    hide SyndromeOf, Xor, OnesCount, Differences, FromBits;
    WordDistance(table[s], SyndromeOf(Lfsr9.Pn(s, CAC_LEN)), syn, SyndromeOf(LowBits(cac)));
    w := 0;
    var w2 := 0;
    ghost var ones := (k: nat) requires k < 3 => OnesCount(Xor(table[s][k], syn[k]));
    while w2 < SYN_WORDS
      invariant 0 <= w2 <= SYN_WORDS
      invariant w == (if w2 > 0 then ones(0) else 0) + (if w2 > 1 then ones(1) else 0) + (if w2 > 2 then ones(2) else 0)
    {
      w := w + OnesCount(Xor(table[s][w2], syn[w2]));
      w2 := w2 + 1;
    }
  }

  /** The syndrome looks at the low bit of each element only. */
  lemma SyndromeLow(cac: seq<nat>)
    ensures SyndromeOf(cac) == SyndromeOf(LowBits(cac))
  {
    SynLow(cac, |cac| / 2);
  }

  lemma {:induction false} SynLow(cac: seq<nat>, n: nat)
    requires 2 * n <= |cac|
    ensures SynPrefix(cac, n) == SynPrefix(LowBits(cac), n)
  {
    hide SynPrefix, TermBits, XorBits;
    if n == 0 {
      SynNone(cac);
      SynNone(LowBits(cac));
    } else {
      SynSnoc(cac, n);
      SynSnoc(LowBits(cac), n);
      SynLow(cac, n - 1);
      TermLow(cac, n - 1);
    }
  }

  lemma TermLow(cac: seq<nat>, k: nat)
    requires 2 * k + 1 < |cac|
    ensures TermBits(cac, k) == TermBits(LowBits(cac), k)
  {
    hide BitAt;
  }

  lemma TotalSnoc(pushed: seq<seq<nat>>, cac: seq<nat>, s: nat)
    ensures Total(pushed + [cac], s) == Total(pushed, s) + Mismatch(cac, s)
  {
    hide Mismatch;
    assert (pushed + [cac])[..|pushed|] == pushed;
  }

  lemma RankedIndices(w: seq<nat>, idx: seq<nat>, n: nat)
    requires n <= |w| && Ranked(w, idx, n)
    ensures |idx| == n && forall i | 0 <= i < n :: idx[i] < n
  {
  }

  /** Inserting the next seed behind all seeds of no greater weight keeps the ranking. */
  lemma InsertRanked(w: seq<nat>, idx: seq<nat>, n: nat, p: nat)
    requires n < |w| && Ranked(w, idx, n) && p <= n
    requires forall i | 0 <= i < p :: w[idx[i]] <= w[n]
    requires p < n ==> w[idx[p]] > w[n]
    ensures Ranked(w, idx[..p] + [n] + idx[p..], n + 1)
  {
    var r := idx[..p] + [n] + idx[p..];
    forall s | 0 <= s < n + 1
      ensures s in r
    {
      if s == n {
        assert r[p] == n;
      } else {
        assert s in idx;
        var i :| 0 <= i < n && idx[i] == s;
        assert r[if i < p then i else i + 1] == s;
      }
    }
    forall i, j | 0 <= i < j < n + 1
      ensures Before(w, r[i], r[j])
    {
      if j > p && p < n { assert j == p + 1 || Before(w, idx[p], idx[j - 1]); }
    }
  }

  /** The seed of smallest weight, the smallest such seed on a tie. */
  method SearchSeed(cacs: seq<seq<nat>>) returns (best: nat, weights: seq<nat>)
    requires forall i | 0 <= i < |cacs| :: |cacs[i]| / 2 + 5 <= SYN_BITS
    ensures best < SEEDS && |weights| == SEEDS
    ensures forall s | 0 <= s < SEEDS :: weights[s] == Total(cacs, s)
    ensures forall s | 0 <= s < SEEDS && s != best :: Before(weights, best, s)
  {
    hide Total;
    var table := PnSyndromes();
    var ss := new SeedSearcher(1);
    var i := 0;
    while i < |cacs|
      invariant 0 <= i <= |cacs| && ss.Valid() && fresh(ss) && fresh(ss.weights) && ss.pushed == cacs[..i]
    {
      ss.Push(table, cacs[i]);
      assert cacs[..i + 1] == cacs[..i] + [cacs[i]];
      i := i + 1;
    }
    assert cacs[..|cacs|] == cacs;
    weights := ss.weights[..];
    best := 0;
    var s := 1;
    while s < SEEDS
      invariant 1 <= s <= SEEDS && best < s
      invariant forall x | 0 <= x < s && x != best :: Before(weights, best, x)
    {
      if weights[s] < weights[best] {
        forall x | 0 <= x < s
          ensures Before(weights, s, x)
        {
          assert x == best || Before(weights, best, x);
        }
        best := s;
      }
      s := s + 1;
    }
  }

  /** For error-free blocks the seed that ranks first weighs nothing and is not above the true one. */
  lemma CleanFirst(blocks: seq<Block>, seed: nat, weights: seq<nat>, best: nat)
    requires seed < SEEDS && best < SEEDS == |weights|
    requires forall i | 0 <= i < |blocks| :: Genuine(blocks[i]) && blocks[i].received == Lfsr9.Scrambled(blocks[i].sent, seed)
    requires forall s | 0 <= s < SEEDS :: weights[s] == Total(Received(blocks), s)
    requires forall s | 0 <= s < SEEDS && s != best :: Before(weights, best, s)
    ensures best <= seed && Total(Received(blocks), best) == 0
  {
    hide Total;
    CleanWeight(blocks, seed);
    assert seed == best || Before(weights, best, seed);
  }
}
