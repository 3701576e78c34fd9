/**
  The checksums as polynomial division, coefficient by coefficient: what the
  generators x^16 + x^12 + x^5 + 1 and x^7 + x^5 + x^3 + 1 and the start value
  mean, without the registers (internal/std-t86/fec/crc.go and
  internal/std-t86/scodec/transmission.go).
  */
module CrcDivision {
  import opened Words
  import opened Crc
  import Crc7

  /** Coefficient `i`, and 0 outside. */
  function At(q: seq<nat>, i: int): nat { if 0 <= i < |q| then q[i] else 0 }

  function Xor3(a: Bit, b: Bit, c: Bit): Bit { Xor1(Xor1(a, b), c) }

  // ---------------------------------------------------------------- sixteen bits

  /** Long division, highest power first: what is left of coefficient `i` after the earlier subtractions. */
  function Quotient(m: seq<nat>, i: int): Bit
    requires IsBits(m) && i < |m|
    decreases if i < 0 then 0 else i + 1
  {
    if i < 0 then 0 else Xor1(m[i], Xor3(Quotient(m, i - 4), Quotient(m, i - 11), Quotient(m, i - 16)))
  }

  lemma {:induction false} QuotientPrefix(m: seq<nat>, n: nat, i: int)
    requires IsBits(m) && i < n <= |m|
    ensures Quotient(m[..n], i) == Quotient(m, i)
    decreases if i < 0 then 0 else i + 1
  {
    if i >= 0 {
      QuotientPrefix(m, n, i - 4);
      QuotientPrefix(m, n, i - 11);
      QuotientPrefix(m, n, i - 16);
    }
  }

  lemma PolyBits(j: nat)
    requires j < 16
    ensures BitAt(POLY, j) == if j == 0 || j == 5 || j == 12 then 1 else 0
  {
    assert BitAt(0x1021, 4) == BitAt(0x102, 3) == BitAt(0x81, 2) == BitAt(0x40, 1) == BitAt(0x20, 0);
    if j >= 4 {
      assert BitAt(0x1021, j) == BitAt(0x810, j - 1) == BitAt(0x408, j - 2) == BitAt(0x204, j - 3) == BitAt(0x102, j - 4);
    }
    if j >= 8 {
      assert BitAt(0x102, j - 4) == BitAt(0x81, j - 5) == BitAt(0x40, j - 6) == BitAt(0x20, j - 7) == BitAt(0x10, j - 8);
    }
    if j >= 12 {
      assert BitAt(0x10, j - 8) == BitAt(8, j - 9) == BitAt(4, j - 10) == BitAt(2, j - 11) == BitAt(1, j - 12);
    }
  }

  /** One step of the register, bit by bit. */
  lemma StepBits(reg: Word, b: Bit, j: nat)
    requires j < 16
    ensures BitAt(Step(reg, b), j)
         == Xor1(if j == 0 then 0 else BitAt(reg, j - 1),
                 if j == 0 || j == 5 || j == 12 then Xor1(BitAt(reg, 15), b) else 0)
  {
    hide Step, Xor;
    StepForm(reg, b);
    TopBit(reg);
    WordParts(reg);
    var low, out := 2 * (reg % TOP), if reg / TOP != b then POLY else 0;
    BitXor(low, out, j);
    PolyBits(j);
    BitOfSmall(0, 0);
    Pow15();
    Doubled(reg % TOP, j);
    ZeroBit(j);
    if j > 0 { BitMasked(reg, j - 1, 15); }
  }

  lemma Doubled(x: nat, j: nat)
    ensures BitAt(2 * x, j) == if j == 0 then 0 else BitAt(x, j - 1)
  {
    assert 2 * x % 2 == 0 && 2 * x / 2 == x;
  }

  lemma {:induction false} ZeroBit(j: nat)
    ensures BitAt(0, j) == 0
  {
    if j > 0 { ZeroBit(j - 1); }
  }

  lemma QuotientLast(m: seq<nat>)
    requires IsBits(m) && m != []
    ensures var n := |m| - 1;
      Quotient(m, n) == Xor1(m[n], Xor3(Quotient(m[..n], n - 4), Quotient(m[..n], n - 11), Quotient(m[..n], n - 16)))
  {
    var n := |m| - 1;
    QuotientPrefix(m, n, n - 16);
    QuotientPrefix(m, n, n - 11);
    QuotientPrefix(m, n, n - 4);
  }

  /** The subtractions that still show in place `j` of the register. */
  function Left(m: seq<nat>, j: nat): Bit
    requires IsBits(m) && j < 16
  {
    Xor3(Quotient(m, |m| - 1 - j), if j >= 5 then Quotient(m, |m| + 4 - j) else 0,
         if j >= 12 then Quotient(m, |m| + 11 - j) else 0)
  }

  lemma LeftStep(m: seq<nat>, j: nat)
    requires IsBits(m) && j < 16 && m != []
    ensures var n := |m| - 1;
      Left(m, j) == Xor1(if j == 0 then 0 else Left(m[..n], j - 1),
                         if j == 0 || j == 5 || j == 12 then Xor1(Left(m[..n], 15), m[n]) else 0)
  {
    QuotientLast(m);
    hide Quotient;
    var n := |m| - 1;
    if j > 0 { QuotientPrefix(m, n, n - j); }
    if j > 5 { QuotientPrefix(m, n, n + 5 - j); }
    if j > 12 { QuotientPrefix(m, n, n + 12 - j); }
  }

  /** The register holds the coefficients that the last sixteen subtractions leave. */
  lemma {:induction false} RegisterBits(m: seq<nat>, j: nat)
    requires IsBits(m) && j < 16
    ensures BitAt(Run(0, m), j) == Left(m, j)
  {
    hide Step, BitAt, Left;
    if m == [] {
      ZeroBit(j);
      NothingLeft(j);
    } else {
      var n := |m| - 1;
      StepBits(Run(0, m[..n]), m[n], j);
      RegisterBits(m[..n], 15);
      if j > 0 { RegisterBits(m[..n], j - 1); }
      LeftStep(m, j);
    }
  }

  lemma NothingLeft(j: nat)
    requires j < 16
    ensures Left([], j) == 0
  {
  }

  /** `c` is the product of `q` and x^16 + x^12 + x^5 + 1. */
  ghost predicate Multiple(c: seq<nat>, q: seq<nat>) {
    IsBits(c) && IsBits(q) && |c| == |q| + 16 && forall i | 0 <= i < |c| :: MultipleAt(c, q, i)
  }

  ghost predicate MultipleAt(c: seq<nat>, q: seq<nat>, i: int)
    requires IsBits(q) && 0 <= i < |c|
  {
    c[i] == Xor1(At(q, i), Xor3(At(q, i - 4), At(q, i - 11), At(q, i - 16)))
  }

  lemma {:induction false} ProductQuotient(c: seq<nat>, q: seq<nat>, i: int)
    requires Multiple(c, q) && i < |c|
    ensures Quotient(c, i) == At(q, i)
    decreases if i < 0 then 0 else i + 1
  {
    if i >= 0 {
      assert MultipleAt(c, q, i);
      ProductQuotient(c, q, i - 4);
      ProductQuotient(c, q, i - 11);
      ProductQuotient(c, q, i - 16);
    }
  }

  /** An empty register: nothing was left to subtract in the last sixteen places. */
  lemma {:induction false} LastZero(c: seq<nat>, j: nat)
    requires IsBits(c) && Run(0, c) == 0 && j < 16
    ensures Quotient(c, |c| - 1 - j) == 0
  {
    RegisterBits(c, j);
    ZeroBit(j);
    if j >= 5 { LastZero(c, j - 5); }
    if j >= 12 { LastZero(c, j - 12); }
  }

  lemma QuotientTerm(m: seq<nat>, i: nat)
    requires IsBits(m) && i < |m|
    ensures m[i] == Xor1(Quotient(m, i), Xor3(Quotient(m, i - 4), Quotient(m, i - 11), Quotient(m, i - 16)))
  {
  }

  /** After an empty register the first subtractions are the whole quotient. */
  lemma QuotientEnds(c: seq<nat>, q: seq<nat>, i: int)
    requires IsBits(c) && |c| >= 16 && Run(0, c) == 0 && i < |c|
    requires |q| == |c| - 16 && forall k | 0 <= k < |q| :: q[k] == Quotient(c, k)
    ensures Quotient(c, i) == At(q, i)
  {
    hide Run;
    if i >= |q| {
      LastZero(c, |c| - 1 - i);
    }
  }

  lemma EmptyTerm(c: seq<nat>, q: seq<nat>, i: nat)
    requires IsBits(c) && |c| >= 16 && Run(0, c) == 0 && i < |c|
    requires IsBits(q) && |q| == |c| - 16 && forall k | 0 <= k < |q| :: q[k] == Quotient(c, k)
    ensures MultipleAt(c, q, i)
  {
    hide Run, Quotient, Xor1;
    QuotientTerm(c, i);
    QuotientEnds(c, q, i);
    QuotientEnds(c, q, i - 4);
    QuotientEnds(c, q, i - 11);
    QuotientEnds(c, q, i - 16);
    hide At;
  }

  lemma EmptyIsMultiple(c: seq<nat>) returns (q: seq<nat>)
    requires IsBits(c) && |c| >= 16 && Run(0, c) == 0
    ensures Multiple(c, q)
  {
    hide Run, Quotient, MultipleAt;
    q := seq(|c| - 16, i requires 0 <= i < |c| - 16 => Quotient(c, i));
    forall i | 0 <= i < |c|
      ensures MultipleAt(c, q, i)
    {
      EmptyTerm(c, q, i);
    }
  }

  lemma MultipleIsEmpty(c: seq<nat>, q: seq<nat>)
    requires Multiple(c, q)
    ensures Run(0, c) == 0
  {
    hide Run, Step, Quotient, BitAt;
    forall j: nat | j < 16
      ensures BitAt(Run(0, c), j) == 0
    {
      RegisterBits(c, j);
      ProductQuotient(c, q, |c| - 1 - j);
      if j >= 5 { ProductQuotient(c, q, |c| + 4 - j); }
      if j >= 12 { ProductQuotient(c, q, |c| + 11 - j); }
    }
    Pow15();
    AllZeroBits(Run(0, c), 16);
  }

  /** The register is empty exactly after the multiples of the generator. */
  lemma EmptyAfterMultiples(c: seq<nat>)
    requires IsBits(c) && |c| >= 16
    ensures Run(0, c) == 0 <==> exists q :: Multiple(c, q)
  {
    hide Multiple, Run;
    if Run(0, c) == 0 {
      var q := EmptyIsMultiple(c);
    }
    if q :| Multiple(c, q) {
      MultipleIsEmpty(c, q);
    }
  }

  function Inverted(m: seq<nat>): (r: seq<nat>)
    requires IsBits(m)
    ensures |r| == |m| && IsBits(r)
  {
    seq(|m|, i requires 0 <= i < |m| => if i < 16 then 1 - m[i] else m[i])
  }

  function Ones(n: nat): (r: seq<nat>)
    ensures |r| == n && IsBits(r)
  {
    seq(n, _ => 1)
  }

  lemma {:induction false} OnesBits(n: nat)
    ensures ToBits(Pow2(n) - 1, n) == Ones(n)
  {
    if n > 0 {
      assert (Pow2(n) - 1) / 2 == Pow2(n - 1) - 1 && (Pow2(n) - 1) % 2 == 1;
      OnesBits(n - 1);
      assert Ones(n) == Ones(n - 1) + [1];
    }
  }

  /** Sixteen ones empty the register, and it stays empty. */
  lemma OnesEmpty(n: nat)
    ensures Run(INIT, Ones(16) + Zeros(n)) == 0
  {
    hide Step, Shl;
    Pow15();
    OnesBits(16);
    FeedBack(INIT, 16);
    ShlLowZero(INIT, 16);
    LowZeroSmall(Shl(INIT, 16), 16);
    RunConcat(INIT, Ones(16), Zeros(n));
    ZerosPreserve(0, n);
  }

  lemma OnesInvert(m: seq<nat>)
    requires IsBits(m) && |m| >= 16
    ensures XorBits(Ones(16) + Zeros(|m| - 16), Inverted(m)) == m
  {
  }

  /** The start value inverts the first sixteen bits. */
  lemma StartInverts(m: seq<nat>)
    requires IsBits(m) && |m| >= 16
    ensures Run(INIT, m) == Run(0, Inverted(m))
  {
    hide Run, Xor, XorBits, Inverted;
    var e := Ones(16) + Zeros(|m| - 16);
    OnesEmpty(|m| - 16);
    OnesInvert(m);
    RunLinear(INIT, 0, e, Inverted(m));
    XorZero(INIT);
    XorZero(Run(0, Inverted(m)));
  }

  /**
    A message, followed by its checksum, is after inversion of its first sixteen bits a multiple of
    x^16 + x^12 + x^5 + 1, and it is the only continuation by sixteen bits that is one.
    */
  lemma ChecksumDivides(m: seq<nat>, crc: seq<nat>)
    requires IsBits(m) && IsBits(crc) && |m| >= 16 && |crc| == 16
    ensures crc == ToBits(Crc16Of(m), 16) <==> exists q :: Multiple(Inverted(m + crc), q)
  {
    hide Multiple, Step, Run;
    EmptyAfterMultiples(Inverted(m + crc));
    StartInverts(m + crc);
    SelfCheck(m);
    if Run(INIT, m + crc) == 0 && crc != ToBits(Crc16Of(m), 16) {
      assert (m + crc)[|m|..] == crc && (m + ToBits(Crc16Of(m), 16))[|m|..] == ToBits(Crc16Of(m), 16);
      DetectsWindow(m + crc, m + ToBits(Crc16Of(m), 16), |m|, 16, INIT);
    }
  }

  // ---------------------------------------------------------------- seven bits

  /** Lowest power first: `d` is the product of `q` and x^7 + x^5 + x^3 + 1, plus `r`. */
  ghost predicate Splits(d: seq<nat>, q: seq<nat>, r: seq<nat>) {
    && IsBits(d) && IsBits(q) && IsBits(r) && |r| == 7 && |d| == |q| + 7
    && forall i | 0 <= i < |d| :: SplitAt(d, q, r, i)
  }

  ghost predicate SplitAt(d: seq<nat>, q: seq<nat>, r: seq<nat>, i: int)
    requires IsBits(d) && IsBits(q) && IsBits(r) && 0 <= i < |d|
  {
    d[i] == Xor1(At(r, i), Xor1(At(q, i), Xor3(At(q, i - 3), At(q, i - 5), At(q, i - 7))))
  }

  lemma {:induction false} RemainderTail(d: seq<nat>, i: nat, k: nat)
    requires IsBits(d) && i + k <= |d|
    ensures Crc7.Remainder(d[i..], k) == Crc7.Remainder(d, i + k)
    decreases |d| - k
  {
    if i + k < |d| {
      hide Crc7.Step;
      RemainderTail(d, i, k + 1);
    }
  }

  /** The eight coefficients before the subtraction that leaves `r`. */
  function Before(b: Bit, t: Bit, r: seq<nat>): (w: seq<nat>)
    requires IsBits(r) && |r| == 7
    ensures |w| == 8 && IsBits(w)
  {
    [b, Xor1(r[1], 0), Xor1(r[2], 0), Xor1(r[3], t), Xor1(r[4], 0), Xor1(r[5], t), Xor1(r[6], 0), t]
  }

  /** The other way round: what is left after the window `[b] + rest` has lost its top coefficient. */
  function After(b: Bit, rest: seq<nat>): (r: seq<nat>)
    requires IsBits(rest) && |rest| == 7
    ensures |r| == 7 && IsBits(r) && r[0] == Xor1(b, rest[6]) && Before(b, rest[6], r)[1..] == rest
  {
    var t := rest[6];
    [Xor1(b, t), rest[0], rest[1], Xor1(rest[2], t), rest[3], Xor1(rest[4], t), rest[5]]
  }

  /** One more low coefficient: what the generator `t` times leaves. */
  lemma SplitStep(d: seq<nat>, q: seq<nat>, r: seq<nat>, rest: seq<nat>, t: Bit)
    requires IsBits(d) && IsBits(q) && IsBits(r) && IsBits(rest) && |r| == |rest| == 7 && |d| == |q| + 7 && |d| > 7
    requires t == q[0] == rest[6] && r[0] == Xor1(d[0], t)
    requires Before(d[0], t, r)[1..] == rest
    ensures Splits(d, q, r) <==> Splits(d[1..], q[1..], rest)
  {
    hide SplitAt;
    forall i | 1 <= i < |d|
      ensures SplitAt(d, q, r, i) <==> SplitAt(d[1..], q[1..], rest, i - 1)
    {
      SplitStepAt(d, q, r, rest, t, i);
    }
    SplitFirst(d, q, r, t);
    if Splits(d, q, r) {
      forall i | 0 <= i < |d| - 1
        ensures SplitAt(d[1..], q[1..], rest, i)
      {
        assert SplitAt(d, q, r, i + 1);
      }
    }
  }

  lemma SplitFirst(d: seq<nat>, q: seq<nat>, r: seq<nat>, t: Bit)
    requires IsBits(d) && IsBits(q) && IsBits(r) && |r| == 7 && |d| == |q| + 7 && |d| > 7
    requires t == q[0] && r[0] == Xor1(d[0], t)
    ensures SplitAt(d, q, r, 0)
  {
  }

  lemma SplitStepAt(d: seq<nat>, q: seq<nat>, r: seq<nat>, rest: seq<nat>, t: Bit, i: nat)
    requires IsBits(d) && IsBits(q) && IsBits(r) && IsBits(rest) && |r| == |rest| == 7 && |d| == |q| + 7 && |d| > 7
    requires t == q[0] == rest[6] && Before(d[0], t, r)[1..] == rest && 1 <= i < |d|
    ensures SplitAt(d, q, r, i) <==> SplitAt(d[1..], q[1..], rest, i - 1)
  {
    var a, b, c, e := At(q, i), At(q, i - 3), At(q, i - 5), At(q, i - 7);
    assert At(q[1..], i - 1) == a;
    assert At(q[1..], i - 4) == if i == 3 then 0 else b;
    assert At(q[1..], i - 6) == if i == 5 then 0 else c;
    assert At(q[1..], i - 8) == if i == 7 then 0 else e;
    assert At(rest, i - 1) == (if i > 7 then 0 else if i == 7 then t else if i == 3 || i == 5 then Xor1(r[i], t) else r[i]) by {
      if i <= 7 { assert rest[i - 1] == Before(d[0], t, r)[1..][i - 1] == Before(d[0], t, r)[i]; }
    }
  }

  /** Subtracting the generator from the window. */
  lemma SubtractedWindow(b: Bit, t: Bit, r: seq<nat>)
    requires IsBits(r) && |r| == 7 && r[0] == Xor1(b, t)
    ensures var w := Before(b, t, r);
      (if t == 1 then XorBits(w, Crc7.GEN) else w)[..7] == r
  {
  }

  lemma {:induction false} SplitsIsRemainder(d: seq<nat>, q: seq<nat>, r: seq<nat>)
    requires Splits(d, q, r)
    ensures FromBits(r) == Crc7.Remainder(d, 0)
    decreases |d|
  {
    hide Crc7.Step, FromBits, SplitAt;
    if |d| == 7 {
      ShortSplit(d, q, r);
      Crc7.ShortRemainder(d, 0);
      assert d[0..] == d;
    } else {
      var t, b := q[0], d[0];
      LowSplit(d, q, r);
      var w := Before(b, t, r);
      SplitStep(d, q, r, w[1..], t);
      SplitsIsRemainder(d[1..], q[1..], w[1..]);
      SubtractedWindow(b, t, r);
      Crc7.WindowStep(w, if t == 1 then XorBits(w, Crc7.GEN) else w);
      RemainderTail(d, 1, 0);
    }
  }

  lemma ShortSplit(d: seq<nat>, q: seq<nat>, r: seq<nat>)
    requires Splits(d, q, r) && |d| == 7
    ensures r == d && q == []
  {
    forall i | 0 <= i < 7
      ensures r[i] == d[i]
    {
      assert SplitAt(d, q, r, i);
    }
  }

  lemma LowSplit(d: seq<nat>, q: seq<nat>, r: seq<nat>)
    requires Splits(d, q, r) && |d| > 7
    ensures r[0] == Xor1(d[0], q[0])
  {
    assert SplitAt(d, q, r, 0);
  }

  lemma {:induction false} RemainderSplits(d: seq<nat>) returns (q: seq<nat>, r: seq<nat>)
    requires IsBits(d) && |d| >= 7
    ensures Splits(d, q, r)
    decreases |d|
  {
    hide SplitAt;
    if |d| == 7 {
      q, r := [], d;
      SplitsShort(d);
    } else {
      var q', rest := RemainderSplits(d[1..]);
      SplitBits(d[1..], q', rest);
      hide Splits;
      var t := rest[6];
      q, r := [t] + q', After(d[0], rest);
      assert q[1..] == q';
      SplitStep(d, q, r, rest, t);
    }
  }

  lemma SplitsShort(d: seq<nat>)
    requires IsBits(d) && |d| == 7
    ensures Splits(d, [], d)
  {
  }

  /** The seven-bit checksum is the remainder of the division by x^7 + x^5 + x^3 + 1. */
  lemma RemainderDivides(d: seq<nat>, r: seq<nat>)
    requires IsBits(d) && |d| >= 7 && IsBits(r) && |r| == 7
    ensures FromBits(r) == Crc7.Remainder(d, 0) <==> exists q :: Splits(d, q, r)
  {
    hide Splits, Crc7.Remainder, FromBits;
    if q :| Splits(d, q, r) {
      SplitsIsRemainder(d, q, r);
    }
    if FromBits(r) == Crc7.Remainder(d, 0) {
      var q, r' := RemainderSplits(d);
      SplitsIsRemainder(d, q, r');
      SplitBits(d, q, r');
      FromBitsInjective(r, r');
    }
  }

  lemma SplitBits(d: seq<nat>, q: seq<nat>, r: seq<nat>)
    requires Splits(d, q, r)
    ensures IsBits(q) && IsBits(r) && |r| == 7 && |d| == |q| + 7
  {
  }
}
