/**
  The two independent implementations of the seven-bit CRC of the S-codec
  transmission format (internal/std-t86/scodec/transmission.go): polynomial
  division in an array, and a shift register.  They are proved to compute the
  same remainder.
  */
module Crc7 {
  import opened Words
  import Crc

  /** Coefficients of the generator, constant term first; `0xA9` as a word. */
  const GEN: seq<nat> := [1, 0, 0, 1, 0, 1, 0, 1]
  const GEN_WORD: nat := 0xA9

  type Reg = x: nat | x < 128

  /** One bit of the serial division. */
  function Step(reg: Reg, b: Bit): Reg {
    var x := 2 * reg + b;
    if x >= 128 then Cleared(x) else x
  }

  function Cleared(x: nat): Reg
    requires 128 <= x < 256
  {
    ClearsTop(x);
    Xor(x, GEN_WORD)
  }

  lemma ClearsTop(x: nat)
    requires 128 <= x < 256
    ensures Xor(x, GEN_WORD) < 128
  {
    assert Pow2(7) == 128;
    assert GEN_WORD == Pow2(7) * 1 + 41 && x == Pow2(7) * 1 + (x - 128);
    Crc.XorHigh(7, 1, 1, x - 128, 41);
    XorSelf(1);
    XorBound(x - 128, 41, 7);
  }

  /** Remainder of the polynomial with coefficients `d[i..]`, highest power last. */
  function Remainder(d: seq<nat>, i: nat): Reg
    requires IsBits(d) && i <= |d|
    decreases |d| - i
  {
    if i == |d| then 0 else Step(Remainder(d, i + 1), d[i])
  }

  /** The same division fed from the front. */
  function Serial(reg: Reg, s: seq<nat>): Reg
    requires IsBits(s)
  {
    if s == [] then reg else Step(Serial(reg, s[..|s| - 1]), s[|s| - 1])
  }

  function Reversed(s: seq<nat>): (r: seq<nat>)
    requires IsBits(s)
    ensures |r| == |s| && IsBits(r)
  {
    seq(|s|, i requires 0 <= i < |s| => s[|s| - 1 - i])
  }

  lemma {:induction false} SerialIsRemainder(d: seq<nat>, i: nat)
    requires IsBits(d) && i <= |d|
    ensures Serial(0, Reversed(d[i..])) == Remainder(d, i)
    decreases |d| - i
  {
    if i < |d| {
      hide Step;
      SerialIsRemainder(d, i + 1);
      var r := Reversed(d[i..]);
      assert r[..|r| - 1] == Reversed(d[i + 1..]);
    }
  }

  // ---------------------------------------------------------------- the array division

  lemma {:induction false} ShortRemainder(d: seq<nat>, i: nat)
    requires IsBits(d) && i <= |d| <= i + 7
    ensures Remainder(d, i) == FromBits(d[i..])
    decreases |d| - i
  {
    if i < |d| {
      ShortRemainder(d, i + 1);
      assert d[i..][1..] == d[i + 1..];
      FromBitsBound(d[i + 1..]);
      Pow2Mono(|d| - i - 1, 6);
      assert Pow2(6) == 64;
    }
  }

  lemma GenWord()
    ensures FromBits(GEN) == GEN_WORD
  {
    assert GEN[7..] == [1] && FromBits([1]) == 1 by { assert [1][1..] == []; }
    assert GEN[6..][1..] == GEN[7..] && GEN[5..][1..] == GEN[6..] && GEN[4..][1..] == GEN[5..];
    assert GEN[3..][1..] == GEN[4..] && GEN[2..][1..] == GEN[3..] && GEN[1..][1..] == GEN[2..];
    assert FromBits(GEN[6..]) == 2 && FromBits(GEN[5..]) == 5 && FromBits(GEN[4..]) == 10;
    assert FromBits(GEN[3..]) == 21 && FromBits(GEN[2..]) == 42 && FromBits(GEN[1..]) == 84;
  }

  /** One division step on the eight-bit window: `low` enters, the top bit is cleared. */
  lemma WindowStep(w: seq<nat>, after: seq<nat>)
    requires |w| == 8 && IsBits(w) && |after| == 8 && IsBits(after)
    requires after == if w[7] == 1 then XorBits(w, GEN) else w
    ensures FromBits(w[1..]) < 128 && FromBits(after[..7]) == Step(FromBits(w[1..]), w[0])
  {
    TopOf(w);
    TopOf(after);
    WindowBound(w);
    if w[7] == 1 {
      FromBitsXor(w, GEN);
      GenWord();
    }
    hide FromBits, Xor;
  }

  lemma WindowBound(w: seq<nat>)
    requires |w| == 8 && IsBits(w)
    ensures FromBits(w[1..]) < 128 && FromBits(w) == 2 * FromBits(w[1..]) + w[0]
  {
    FromBitsBound(w[1..]);
    assert Pow2(7) == 128;
  }

  lemma TopOf(w: seq<nat>)
    requires |w| == 8 && IsBits(w)
    ensures FromBits(w) >= 128 <==> w[7] == 1
    ensures w[7] == 0 ==> FromBits(w[..7]) == FromBits(w)
  {
    assert Pow2(7) == 128;
    FromBitsSnoc(w[..7], w[7]);
    assert w == w[..7] + [w[7]];
    FromBitsBound(w[..7]);
  }

  /** The dividend: the payload above `shift` zero coefficients. */
  function Dividend(payload: seq<nat>, shift: nat): (d: seq<nat>)
    ensures |d| == shift + |payload| && IsBits(d)
  {
    Zeros(shift) + LowBits(payload)
  }

  method Crc7(payload: seq<nat>, shift: nat) returns (out: seq<nat>)
    requires shift + |payload| >= 7
    ensures |out| == 7 && IsBits(out)
    ensures FromBits(out) == Remainder(Dividend(payload, shift), 0)
  {
    var n := shift + |payload|;
    ghost var d0 := Dividend(payload, shift);
    var d := new nat[n](_ => 0);
    var k := 0;
    while k < |payload|
      invariant 0 <= k <= |payload|
      invariant forall j | 0 <= j < shift + k :: d[j] == d0[j]
    {
      d[shift + k] := payload[k] % 2;
      k := k + 1;
    }
    assert d[..] == d0;
    Divide(d);
    out := d[..7];
  }

  /** Subtracts the generator at `at` if the top coefficient of the window is set. */
  function DividedAt(d: seq<nat>, at: nat): (r: seq<nat>)
    requires at + 8 <= |d| && IsBits(d)
    ensures |r| == |d| && IsBits(r)
  {
    if d[at + 7] == 1 then d[..at] + XorBits(d[at..at + 8], GEN) + d[at + 8..] else d
  }

  /** Long division in place, from the highest coefficient down. */
  method Divide(d: array<nat>)
    requires d.Length >= 7 && IsBits(d[..])
    modifies d
    ensures IsBits(d[..]) && FromBits(d[..7]) == Remainder(old(d[..]), 0)
  {
    hide FromBits, Step, Remainder, DividedAt;
    ghost var d0 := d[..];
    var n := d.Length;
    ShortRemainder(d0, n - 7);
    var i := n - 1;
    assert d0[i - 6..i + 1] == d0[n - 7..];
    while i >= 7
      invariant 6 <= i < n && IsBits(d[..])
      invariant Divided(d0, d[..], i)
    {
      DivideStep(d0, d[..], i);
      DivideAt(d, i - 7);
      i := i - 1;
    }
    assert d[..][0..7] == d[..7];
  }

  /** Coefficients above `i` are spent; the seven below hold their remainder. */
  ghost predicate Divided(d0: seq<nat>, d: seq<nat>, i: nat)
    requires IsBits(d0) && |d| == |d0| && 6 <= i < |d0|
  {
    d[..i - 6] == d0[..i - 6] && FromBits(d[i - 6..i + 1]) == Remainder(d0, i - 6)
  }

  lemma DivideStep(d0: seq<nat>, d: seq<nat>, i: nat)
    requires IsBits(d0) && IsBits(d) && |d0| == |d| && 7 <= i < |d0| && Divided(d0, d, i)
    ensures Divided(d0, DividedAt(d, i - 7), i - 1)
  {
    hide FromBits, Step;
    var w, after := d[i - 7..i + 1], DividedAt(d, i - 7);
    assert w[1..] == d[i - 6..i + 1] && w[0] == d[..i - 6][i - 7] == d0[i - 7];
    assert after[i - 7..i + 1] == if w[7] == 1 then XorBits(w, GEN) else w;
    WindowStep(w, after[i - 7..i + 1]);
    assert after[i - 7..i + 1][..7] == after[i - 7..i];
    assert after[..i - 7] == d[..i - 6][..i - 7] == d0[..i - 7];
    assert Remainder(d0, i - 7) == Step(Remainder(d0, i - 6), d0[i - 7]);
  }

  method DivideAt(d: array<nat>, at: nat)
    requires at + 8 <= d.Length && IsBits(d[..])
    modifies d
    ensures d[..] == DividedAt(old(d[..]), at)
  {
    if d[at + 7] == 0 { return; }
    ghost var before := d[..];
    ghost var w := before[at..at + 8];
    var j := 0;
    while j < 8
      invariant 0 <= j <= 8
      invariant forall x | 0 <= x < d.Length && !(at <= x < at + j) :: d[x] == before[x]
      invariant forall x | 0 <= x < j :: d[at + x] == Xor1(w[x], GEN[x])
    {
      if GEN[j] != 0 {
        d[at + j] := 1 - d[at + j];
      }
      j := j + 1;
    }
    assert d[at..at + 8] == XorBits(w, GEN);
    assert d[..] == d[..at] + d[at..at + 8] + d[at + 8..];
    assert d[..at] == before[..at] && d[at + 8..] == before[at + 8..];
  }

  // ---------------------------------------------------------------- the shift register

  /** What the over-the-air checksum of a region is. */
  function OtaOf(region: seq<nat>): Reg {
    Serial(0, LowBits(region) + Zeros(7))
  }

  /** Filling the register needs no division. */
  lemma {:induction false} Filling(s: seq<nat>)
    requires IsBits(s) && |s| <= 7
    ensures Serial(0, s) == Crc.BitsToInt(s) < Pow2(|s|)
  {
    if s != [] {
      Filling(s[..|s| - 1]);
      Pow2Mono(|s| - 1, 6);
      assert Pow2(6) == 64;
    }
  }

  lemma SerialSnoc(reg: Reg, s: seq<nat>, b: Bit)
    requires IsBits(s)
    ensures IsBits(s + [b]) && Serial(reg, s + [b]) == Step(Serial(reg, s), b)
  {
    assert (s + [b])[..|s|] == s;
  }

  /** Loads the first seven bits. */
  method FillRegister(region: seq<nat>) returns (reg: Reg)
    requires |region| >= 7
    ensures reg == Serial(0, LowBits(region)[..7])
  {
    ghost var bits := LowBits(region);
    reg := 0;
    var i := 0;
    assert Pow2(7) == 128;
    while i < 7
      invariant 0 <= i <= 7 && reg == Crc.BitsToInt(bits[..i]) < Pow2(i)
    {
      assert bits[..i + 1][..i] == bits[..i];
      Pow2Mono(i + 1, 7);
      reg := 2 * reg + region[i] % 2;
      i := i + 1;
    }
    Filling(bits[..7]);
  }

  method Crc7Ota(region: seq<nat>) returns (reg: Reg)
    requires |region| >= 7
    ensures reg == OtaOf(region)
  {
    hide Step, Pow2;
    ghost var bits := LowBits(region);
    reg := FillRegister(region);
    var i := 7;
    while i < |region|
      invariant 7 <= i <= |region| && reg == Serial(0, bits[..i])
    {
      assert bits[..i + 1] == bits[..i] + [bits[i]];
      SerialSnoc(0, bits[..i], bits[i]);
      reg := Step(reg, region[i] % 2);
      i := i + 1;
    }
    assert bits[..i] == bits && bits + Zeros(0) == bits;
    i := 0;
    while i < 7
      invariant 0 <= i <= 7 && reg == Serial(0, bits + Zeros(i))
    {
      assert bits + Zeros(i + 1) == bits + Zeros(i) + [0];
      SerialSnoc(0, bits + Zeros(i), 0);
      reg := Step(reg, 0);
      i := i + 1;
    }
  }

  // ---------------------------------------------------------------- equivalence

  /** The two checksums agree bit for bit: shift 7 and the reversed region. */
  lemma ArrayIsOta(region: seq<nat>)
    requires IsBits(region)
    ensures Remainder(Dividend(Reversed(region), 7), 0) == OtaOf(region)
  {
    var d := Dividend(Reversed(region), 7);
    SerialIsRemainder(d, 0);
    assert d[0..] == d;
    assert Reversed(d) == region + Zeros(7);
  }
}
