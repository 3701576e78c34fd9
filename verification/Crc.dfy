/**
  The 16-bit CRC shared by both receivers (internal/std-t86/fec/crc.go and
  internal/std-t115/qpsknarrow/fec/crc.go).
  */
module Crc {
  import opened Words

  const POLY: nat := 0x1021
  const INIT: nat := 0xFFFF
  const TOP: nat := 0x8000

  type Word = x: nat | x < 0x1_0000

  lemma Pow15()
    ensures Pow2(15) == TOP && Pow2(16) == 0x1_0000
  {
    assert Pow2(5) == 32;
    Pow2Add(5, 5);
    Pow2Add(10, 5);
  }

  /** `uint16` exclusive or. */
  function Xor16(a: Word, b: Word): (r: Word)
    ensures r == Xor(a, b)
  {
    Pow15();
    XorBound(a, b, 16);
    Xor(a, b)
  }

  /** One bit of the division. */
  function Step(reg: Word, b: Bit): Word {
    var x := Xor16(reg, if b == 1 then TOP else 0);
    if x >= TOP then Xor16(2 * x % 0x1_0000, POLY) else 2 * x
  }

  function Run(reg: Word, m: seq<nat>): Word
    requires IsBits(m)
  {
    if m == [] then reg else Step(Run(reg, m[..|m| - 1]), m[|m| - 1])
  }

  /** The checksum of a message. */
  function Crc16Of(m: seq<nat>): Word
    requires IsBits(m)
  {
    Run(INIT, m)
  }

  method Crc16(input: seq<nat>, init: Word) returns (reg: Word)
    ensures reg == Run(init, LowBits(input))
  {
    hide Step;
    ghost var m := LowBits(input);
    reg := init;
    var i := 0;
    while i < |input|
      invariant 0 <= i <= |input| && reg == Run(init, m[..i])
    {
      assert m[..i + 1][..i] == m[..i] && m[..i + 1][i] == m[i];
      reg := Step(reg, input[i] % 2);
      i := i + 1;
    }
    assert m[..i] == m;
  }

  /** The bits of a word, most significant first. */
  function ToBits(v: nat, n: nat): (r: seq<nat>)
    ensures |r| == n && IsBits(r)
  {
    if n == 0 then [] else ToBits(v / 2, n - 1) + [v % 2]
  }

  /** The number a bit string spells, most significant bit first. */
  function BitsToInt(s: seq<nat>): nat
    requires IsBits(s)
  {
    if s == [] then 0 else 2 * BitsToInt(s[..|s| - 1]) + s[|s| - 1]
  }

  lemma {:induction false} BitsToIntToBits(v: nat, n: nat)
    requires v < Pow2(n)
    ensures BitsToInt(ToBits(v, n)) == v
  {
    if n > 0 {
      BitsToIntToBits(v / 2, n - 1);
      assert ToBits(v, n)[..n - 1] == ToBits(v / 2, n - 1);
    }
  }

  method Crc16Bits(input: seq<nat>) returns (out: seq<nat>)
    ensures out == ToBits(Crc16Of(LowBits(input)), 16)
  {
    hide Step;
    var v := Crc16(input, INIT);
    out := [];
    var i := 0;
    Pow15();
    ShrDivides(v, 16);
    while i < 16
      invariant 0 <= i <= 16 && out == ToBits(Shr(v, 16 - i), i)
    {
      ShrNext(v, 15 - i);
      out := out + [Shr(v, 15 - i) % 2];
      i := i + 1;
    }
  }

  // ---------------------------------------------------------------- arithmetic of the step

  lemma {:induction false} XorHigh(n: nat, p: nat, q: nat, x: nat, y: nat)
    requires x < Pow2(n) && y < Pow2(n)
    ensures Pow2(n) * p + x >= 0 && Pow2(n) * q + y >= 0
    ensures Xor(Pow2(n) * p + x, Pow2(n) * q + y) == Pow2(n) * Xor(p, q) + Xor(x, y)
    decreases n
  {
    if n > 0 {
      XorHigh(n - 1, p, q, x / 2, y / 2);
      XorHighStep(n, p, q, x, y);
    }
  }

  lemma XorHighStep(n: nat, p: nat, q: nat, x: nat, y: nat)
    requires n > 0 && x < Pow2(n) && y < Pow2(n)
    requires Pow2(n - 1) * p + x / 2 >= 0 && Pow2(n - 1) * q + y / 2 >= 0
    requires Xor(Pow2(n - 1) * p + x / 2, Pow2(n - 1) * q + y / 2) == Pow2(n - 1) * Xor(p, q) + Xor(x / 2, y / 2)
    ensures Pow2(n) * p + x >= 0 && Pow2(n) * q + y >= 0
    ensures Xor(Pow2(n) * p + x, Pow2(n) * q + y) == Pow2(n) * Xor(p, q) + Xor(x, y)
  {
    assert Pow2(n) == 2 * Pow2(n - 1);
    hide Xor, Pow2;
    var a, b := Pow2(n) * p + x, Pow2(n) * q + y;
    Half(n, p, x);
    Half(n, q, y);
    XorHalves(a, b);
    XorHalves(x, y);
    DoubleTimes(Pow2(n - 1), Xor(p, q));
    HalvesEqual(Xor(a, b), 2 * (Pow2(n - 1) * Xor(p, q)) + Xor(x, y));
  }

  lemma DoubleTimes(m: nat, z: nat)
    ensures m * z >= 0 && 2 * m * z == 2 * (m * z)
  {
  }

  lemma Half(n: nat, p: nat, x: nat)
    requires n > 0 && x < Pow2(n)
    ensures Pow2(n) * p + x >= 0
    ensures (Pow2(n) * p + x) % 2 == x % 2 && (Pow2(n) * p + x) / 2 == Pow2(n - 1) * p + x / 2
  {
    assert Pow2(n) * p == 2 * (Pow2(n - 1) * p);
    ModUnique(Pow2(n) * p + x, 2, Pow2(n - 1) * p + x / 2, x % 2);
  }

  /** Exclusive or acts on the top bit and on the rest separately. */
  lemma XorTop(a: Word, b: Word)
    ensures Xor(a, b) / TOP == (if a / TOP == b / TOP then 0 else 1)
    ensures Xor(a, b) % TOP == Xor(a % TOP, b % TOP) < TOP
  {
    Pow15();
    hide Xor, Pow2;
    XorHigh(15, a / TOP, b / TOP, a % TOP, b % TOP);
    XorBound(a % TOP, b % TOP, 15);
    XorSelf(a / TOP);
    OneBit();
  }

  lemma OneBit()
    ensures Xor(0, 1) == 1 && Xor(1, 0) == 1
  {
  }

  /** The step in one formula: shift out the top bit, and divide if it differs from the input. */
  lemma StepForm(reg: Word, b: Bit)
    ensures Step(reg, b) == Xor(2 * (reg % TOP), if reg / TOP != b then POLY else 0)
  {
    hide Xor;
    var w: Word := if b == 1 then TOP else 0;
    var x := Xor16(reg, w);
    XorTop(reg, w);
    XorZero(reg % TOP);
    XorZero(2 * (reg % TOP));
    WordParts(w);
    WordParts(x);
    WordParts(reg);
  }

  lemma WordParts(x: Word)
    ensures x / TOP <= 1 && (x >= TOP <==> x / TOP == 1)
    ensures 2 * x % 0x1_0000 == 2 * (x % TOP) && (x < TOP ==> 2 * x == 2 * (x % TOP))
    ensures (x == TOP ==> x % TOP == 0) && (x == 0 ==> x % TOP == 0)
  {
  }

  function Lo(x: nat): Bit { x % 2 }

  function Hi(x: nat): nat { x / 2 }

  lemma XorHiLo(a: nat, b: nat)
    ensures Lo(Xor(a, b)) == Xor1(Lo(a), Lo(b)) && Hi(Xor(a, b)) == Xor(Hi(a), Hi(b))
  {
    XorHalves(a, b);
  }

  lemma SameHiLo(x: nat, y: nat)
    ensures Lo(x) == Lo(y) && Hi(x) == Hi(y) ==> x == y
  {
  }

  lemma {:induction false} XorSwap(a: nat, b: nat, c: nat, d: nat)
    ensures Xor(Xor(a, b), Xor(c, d)) == Xor(Xor(a, c), Xor(b, d))
    decreases a + b + c + d
  {
    if a + b + c + d > 0 {
      XorSwap(Hi(a), Hi(b), Hi(c), Hi(d));
      hide Hi, Lo, Xor;
      XorHiLo(a, b);
      XorHiLo(c, d);
      XorHiLo(a, c);
      XorHiLo(b, d);
      XorHiLo(Xor(a, b), Xor(c, d));
      XorHiLo(Xor(a, c), Xor(b, d));
      XorAssoc4(Lo(a), Lo(b), Lo(c), Lo(d));
      SameHiLo(Xor(Xor(a, b), Xor(c, d)), Xor(Xor(a, c), Xor(b, d)));
    }
  }

  lemma HalvesEqual(x: nat, y: nat)
    requires x % 2 == y % 2 && x / 2 == y / 2
    ensures x == y
  {
  }

  lemma XorDouble(a: nat, b: nat)
    ensures Xor(2 * a, 2 * b) == 2 * Xor(a, b)
  {
    XorHalves(2 * a, 2 * b);
  }

  /** The step is linear over GF(2). */
  lemma StepLinear(a: Word, b: Word, x: Bit, y: Bit)
    ensures Step(Xor16(a, b), Xor1(x, y)) == Xor16(Step(a, x), Step(b, y))
  {
    StepForm(a, x);
    StepForm(b, y);
    StepForm(Xor16(a, b), Xor1(x, y));
    XorTop(a, b);
    var s := if a / TOP != x then POLY else 0;
    var t := if b / TOP != y then POLY else 0;
    XorDouble(a % TOP, b % TOP);
    XorSwap(2 * (a % TOP), s, 2 * (b % TOP), t);
    XorSelf(POLY);
    XorZero(POLY);
    XorZero(0);
    TopDiffers(a / TOP, b / TOP, x, y);
  }

  lemma TopDiffers(p: nat, q: nat, x: Bit, y: Bit)
    requires p <= 1 && q <= 1
    ensures Xor1(p, q) != Xor1(x, y) <==> (p != x) != (q != y)
  {
  }

  // ---------------------------------------------------------------- linearity over messages

  /** Checksums of sums are sums of checksums: `CRC16` differs from `CRC16Linear` only in the start value. */
  lemma {:induction false} RunLinear(r: Word, s: Word, a: seq<nat>, b: seq<nat>)
    requires |a| == |b| && IsBits(a) && IsBits(b)
    ensures Run(Xor16(r, s), XorBits(a, b)) == Xor16(Run(r, a), Run(s, b))
  {
    if a != [] {
      hide Step, Xor16;
      var n := |a| - 1;
      RunLinear(r, s, a[..n], b[..n]);
      assert XorBits(a, b)[..n] == XorBits(a[..n], b[..n]);
      StepLinear(Run(r, a[..n]), Run(s, b[..n]), a[n], b[n]);
    }
  }

  lemma {:induction false} RunConcat(reg: Word, a: seq<nat>, b: seq<nat>)
    requires IsBits(a) && IsBits(b)
    ensures IsBits(a + b) && Run(reg, a + b) == Run(Run(reg, a), b)
  {
    hide Step;
    if b == [] {
      assert a + b == a;
    } else {
      var n := |b| - 1;
      RunConcat(reg, a, b[..n]);
      assert (a + b)[..|a + b| - 1] == a + b[..n];
    }
  }

  // ---------------------------------------------------------------- self-check

  /** `x >> n` and, within 16 bits, `x << n`. */
  function Shr(x: nat, n: nat): nat { if n == 0 then x else Shr(x, n - 1) / 2 }

  function Shl(x: Word, n: nat): Word { if n == 0 then x else 2 * Shl(x, n - 1) % 0x1_0000 }

  lemma {:induction false} BitShr(x: nat, n: nat)
    ensures BitAt(x, n) == Shr(x, n) % 2
  {
    if n > 0 {
      BitShr(x / 2, n - 1);
      ShrFirst(x, n);
    }
  }

  lemma {:induction false} ShrFirst(x: nat, n: nat)
    requires n > 0
    ensures Shr(x, n) == Shr(x / 2, n - 1)
  {
    if n > 1 { ShrFirst(x, n - 1); }
  }

  lemma BitDoubled(y: Word, m: nat)
    requires 1 <= m <= 15
    ensures BitAt(2 * y % 0x1_0000, m) == BitAt(y, m - 1)
  {
    assert 2 * y % 0x1_0000 / 2 == y % TOP;
    Pow15();
    BitMasked(y, m - 1, 15);
  }

  lemma {:induction false} BitShl(x: Word, n: nat, m: nat)
    requires n <= m <= 15
    ensures BitAt(Shl(x, n), m) == BitAt(x, m - n)
  {
    if n > 0 {
      BitDoubled(Shl(x, n - 1), m);
      BitShl(x, n - 1, m - 1);
    }
  }

  lemma TopBit(x: Word)
    ensures BitAt(x, 15) == x / TOP
  {
    BitShr(x, 15);
    ShrDivides(x, 15);
    Pow15();
  }

  lemma {:induction false} ShrDivides(x: nat, n: nat)
    ensures Shr(x, n) == x / Pow2(n)
  {
    if n > 0 {
      ShrDivides(x, n - 1);
      HalvesOf(x, Pow2(n - 1));
    }
  }

  lemma HalvesOf(x: nat, c: nat)
    requires c > 0
    ensures x / c / 2 == x / (2 * c)
  {
    var q, r := x / (2 * c), x % (2 * c);
    assert x == 2 * c * q + r;
    if r < c {
      assert x == c * (2 * q) + r;
      ModUnique(x, c, 2 * q, r);
    } else {
      assert x == c * (2 * q + 1) + (r - c) by { assert c * (2 * q + 1) == 2 * c * q + c; }
      ModUnique(x, c, 2 * q + 1, r - c);
    }
  }

  /** Feeding the register its own leading bits shifts them out without any division. */
  lemma {:induction false} FeedBack(reg: Word, j: nat)
    requires j <= 16
    ensures Run(reg, ToBits(Shr(reg, 16 - j), j)) == Shl(reg, j)
  {
    if j > 0 {
      hide Step, Shr, BitAt;
      FeedBack(reg, j - 1);
      LeadingBit(reg, j);
      var v, y := Shr(reg, 16 - j), Shl(reg, j - 1);
      assert Shr(reg, 16 - (j - 1)) == v / 2 by { ShrNext(reg, 16 - j); }
      assert ToBits(v, j)[..j - 1] == ToBits(v / 2, j - 1) && ToBits(v, j)[j - 1] == v % 2;
      ShiftOut(y, v % 2);
    }
  }

  /** The next bit to feed is the one that is about to be shifted out. */
  lemma LeadingBit(reg: Word, j: nat)
    requires 0 < j <= 16
    ensures Shr(reg, 16 - j) % 2 == Shl(reg, j - 1) / TOP
  {
    hide Shr, Shl, BitAt;
    BitShl(reg, j - 1, 15);
    TopBit(Shl(reg, j - 1));
    BitShr(reg, 16 - j);
  }

  lemma ShrNext(x: nat, n: nat)
    ensures Shr(x, n + 1) == Shr(x, n) / 2
  {
  }

  lemma ShiftOut(y: Word, b: Bit)
    requires y / TOP == b
    ensures Step(y, b) == 2 * y % 0x1_0000
  {
    StepForm(y, b);
    XorZero(2 * (y % TOP));
  }

  /** The low `n` bits are zero. */
  predicate LowZero(x: nat, n: nat) {
    n == 0 || (x % 2 == 0 && LowZero(x / 2, n - 1))
  }

  /** Only the low `m` bits decide up to `n <= m`. */
  lemma {:induction false} LowZeroMasked(x: nat, n: nat, m: nat)
    requires n <= m
    ensures LowZero(x % Pow2(m), n) == LowZero(x, n)
    decreases n
  {
    if n > 0 {
      MaskedHalf(x, Pow2(m - 1));
      LowZeroMasked(x / 2, n - 1, m - 1);
    }
  }

  lemma LowZeroDouble(y: nat, n: nat)
    requires n > 0 && LowZero(y, n - 1)
    ensures LowZero(2 * y, n)
  {
    hide LowZero;
    assert 2 * y % 2 == 0 && 2 * y / 2 == y;
    LowZeroStep(2 * y, n);
  }

  lemma LowZeroStep(x: nat, n: nat)
    requires n > 0 && x % 2 == 0 && LowZero(x / 2, n - 1)
    ensures LowZero(x, n)
  {
  }

  lemma WordDouble(y: Word)
    ensures 2 * y % 0x1_0000 == 2 * (y % TOP)
  {
  }

  lemma {:induction false} ShlLowZero(x: Word, n: nat)
    requires n <= 16
    ensures LowZero(Shl(x, n), n)
  {
    hide LowZero, Pow2;
    if n == 0 {
      NoneZero(x);
    } else {
      ShlLowZero(x, n - 1);
      var y := Shl(x, n - 1);
      WordDouble(y);
      Pow15();
      LowZeroMasked(y, n - 1, 15);
      LowZeroDouble(y % TOP, n);
    }
  }

  lemma NoneZero(x: nat)
    ensures LowZero(x, 0)
  {
  }

  lemma {:induction false} LowZeroSmall(x: nat, n: nat)
    requires x < Pow2(n) && LowZero(x, n)
    ensures x == 0
  {
    if n > 0 { LowZeroSmall(x / 2, n - 1); }
  }

  /** A message followed by its checksum divides without remainder. */
  lemma SelfCheck(m: seq<nat>)
    requires IsBits(m)
    ensures IsBits(m + ToBits(Crc16Of(m), 16)) && Crc16Of(m + ToBits(Crc16Of(m), 16)) == 0
  {
    var v := Crc16Of(m);
    RunConcat(INIT, m, ToBits(v, 16));
    FeedBack(v, 16);
    ShlLowZero(v, 16);
    Pow15();
    LowZeroSmall(Shl(v, 16), 16);
  }

  // ---------------------------------------------------------------- bursts

  /** Backwards: if `n` low bits are zero after a step, `n-1` were zero before it. */
  lemma StepBack(reg: Word, b: Bit, n: nat)
    requires 0 < n <= 16 && LowZero(Step(reg, b), n)
    ensures LowZero(reg, n - 1)
  {
    hide Step, Xor;
    StepForm(reg, b);
    var x := reg % TOP;
    if reg / TOP != b {
      XorHalves(2 * x, POLY);
    } else {
      XorZero(2 * x);
      Pow15();
      LowZeroMasked(reg, n - 1, 15);
    }
  }

  lemma {:induction false} RunBack(reg: Word, m: seq<nat>, n: nat)
    requires IsBits(m) && |m| <= n <= 16 && LowZero(Run(reg, m), n)
    ensures LowZero(reg, n - |m|)
  {
    if m != [] {
      hide Step;
      StepBack(Run(reg, m[..|m| - 1]), m[|m| - 1], n);
      RunBack(reg, m[..|m| - 1], n - 1);
    }
  }

  /** Zero bits keep a non-empty register non-empty, and an empty one empty. */
  lemma {:induction false} ZerosPreserve(reg: Word, n: nat)
    ensures Run(reg, Zeros(n)) == 0 <==> reg == 0
  {
    if n > 0 {
      assert Zeros(n)[..n - 1] == Zeros(n - 1);
      ZerosPreserve(reg, n - 1);
      hide Step;
      StepZero(Run(reg, Zeros(n - 1)));
    }
  }

  lemma StepZero(r: Word)
    ensures Step(r, 0) == 0 <==> r == 0
  {
    StepForm(r, 0);
    XorZero(2 * (r % TOP));
    XorHalves(2 * (r % TOP), POLY);
    hide Xor, Step;
  }

  /** A burst that starts with an error and is at most 16 bits long leaves a non-zero register. */
  lemma BurstNonZero(w: seq<nat>)
    requires IsBits(w) && 0 < |w| <= 16 && w[0] == 1
    ensures Run(0, w) != 0
  {
    if Run(0, w) == 0 {
      var rest := w[1..];
      assert w == [1] + rest;
      RunConcat(0, [1], rest);
      assert [1][..0] == [];
      StepForm(0, 1);
      XorZero(POLY);
      assert Run(0, [1]) == POLY;
      AllLowZero(16);
      RunBack(POLY, rest, 16);
    }
  }

  lemma {:induction false} AllLowZero(n: nat)
    ensures LowZero(0, n)
  {
    if n > 0 { AllLowZero(n - 1); }
  }

  /**
    Every error burst of at most 16 bits is detected: messages of equal length
    that differ, and only between positions `i` and `i+16`, have different checksums.
    */
  lemma DetectsBursts(a: seq<nat>, b: seq<nat>, i: nat, w: nat, init: Word)
    requires IsBits(a) && IsBits(b) && |a| == |b| && 0 < w <= 16 && i + w <= |a|
    requires a[..i] == b[..i] && a[i + w..] == b[i + w..] && a[i] != b[i]
    ensures Run(init, a) != Run(init, b)
  {
    hide Step, Xor16;
    var e := XorBits(a, b);
    RunLinear(init, init, a, b);
    XorSelf(init);
    BurstShape(a, b, i, w);
    var z, burst := Zeros(|a| - i - w), e[i..i + w];
    RunConcat(0, Zeros(i) + burst, z);
    RunConcat(0, Zeros(i), burst);
    ZerosPreserve(0, i);
    BurstNonZero(burst);
    ZerosPreserve(Run(0, burst), |a| - i - w);
    if Run(init, a) == Run(init, b) {
      XorSelf(Run(init, a));
    }
  }

  lemma BurstShape(a: seq<nat>, b: seq<nat>, i: nat, w: nat)
    requires IsBits(a) && IsBits(b) && |a| == |b| && 0 < w && i + w <= |a|
    requires a[..i] == b[..i] && a[i + w..] == b[i + w..] && a[i] != b[i]
    ensures XorBits(a, b) == Zeros(i) + XorBits(a, b)[i..i + w] + Zeros(|a| - i - w)
    ensures XorBits(a, b)[i..i + w][0] == 1
  {
    forall j | 0 <= j < |a| && !(i <= j < i + w)
      ensures a[j] == b[j]
    {
      if j < i { assert a[..i][j] == b[..i][j]; } else { assert a[i + w..][j - i - w] == b[i + w..][j - i - w]; }
    }
  }

  /** Two different messages of equal length that agree outside a window of at most 16 bits have different checksums. */
  lemma {:induction false} DetectsWindow(a: seq<nat>, b: seq<nat>, i: nat, w: nat, init: Word)
    requires IsBits(a) && IsBits(b) && |a| == |b| && w <= 16 && i + w <= |a| && a != b
    requires a[..i] == b[..i] && a[i + w..] == b[i + w..]
    ensures Run(init, a) != Run(init, b)
    decreases w
  {
    assert a == a[..i] + a[i..i + w] + a[i + w..] && b == b[..i] + b[i..i + w] + b[i + w..];
    assert a[i..i + w] != b[i..i + w];
    if a[i] != b[i] {
      DetectsBursts(a, b, i, w, init);
    } else {
      assert a[..i + 1] == a[..i] + [a[i]] && b[..i + 1] == b[..i] + [b[i]];
      DetectsWindow(a, b, i + 1, w - 1, init);
    }
  }
}
