/**
  Machine words as natural numbers.

  The decoders test and combine bits of registers with `&`, `^`, `|`, shifts and
  population counts.  Here a word is a `nat`, and each of those operations is
  defined bit by bit, least significant bit first.
  */
module Words {

  type Bit = b: nat | b <= 1

  /** A sequence of 0/1 values, the program's `[]uint8` bit vectors. */
  predicate IsBits(s: seq<int>) {
    forall i | 0 <= i < |s| :: 0 <= s[i] <= 1
  }

  /** Each element masked with `& 1`. */
  function LowBits(s: seq<nat>): (r: seq<nat>)
    ensures |r| == |s| && IsBits(r)
    ensures IsBits(s) ==> r == s
  {
    seq(|s|, i requires 0 <= i < |s| => s[i] % 2)
  }

  function Zeros(n: nat): (r: seq<nat>)
    ensures |r| == n && forall i | 0 <= i < n :: r[i] == 0
  {
    seq(n, _ => 0)
  }

  function Pow2(n: nat): (r: nat)
    ensures r > 0
  {
    if n == 0 then 1 else 2 * Pow2(n - 1)
  }

  /** Bit `j` of `x`: `(x >> j) & 1`. */
  function BitAt(x: nat, j: nat): Bit {
    if j == 0 then x % 2 else BitAt(x / 2, j - 1)
  }

  function And(a: nat, b: nat): nat {
    if a == 0 || b == 0 then 0
    else (if a % 2 == 1 && b % 2 == 1 then 1 else 0) + 2 * And(a / 2, b / 2)
  }

  function Xor(a: nat, b: nat): nat
    decreases a + b
  {
    if a == 0 && b == 0 then 0
    else (if a % 2 != b % 2 then 1 else 0) + 2 * Xor(a / 2, b / 2)
  }

  function OnesCount(a: nat): nat {
    if a == 0 then 0 else a % 2 + OnesCount(a / 2)
  }

  /** `v | (1 << j)`. */
  function SetBit(v: nat, j: nat): nat {
    if BitAt(v, j) == 1 then v else v + Pow2(j)
  }

  /** Parity of the masked word: the GF(2) inner product of `a` and `b`. */
  function Dot(a: nat, b: nat): Bit {
    OnesCount(And(a, b)) % 2
  }

  /** Addition in GF(2). */
  function Xor1(a: Bit, b: Bit): Bit {
    if a == b then 0 else 1
  }

  /** Multiplication in GF(2). */
  function And1(a: Bit, b: Bit): Bit {
    if a == 1 && b == 1 then 1 else 0
  }

  /** The word whose bit `j` is `s[j]`. */
  function FromBits(s: seq<nat>): nat {
    if s == [] then 0 else s[0] + 2 * FromBits(s[1..])
  }

  function XorBits(a: seq<nat>, b: seq<nat>): (r: seq<nat>)
    requires |a| == |b| && IsBits(a) && IsBits(b)
    ensures |r| == |a| && IsBits(r)
  {
    seq(|a|, i requires 0 <= i < |a| => Xor1(a[i], b[i]))
  }

  // ---------------------------------------------------------------- powers of two

  lemma {:induction false} Pow2Add(a: nat, b: nat)
    ensures Pow2(a + b) == Pow2(a) * Pow2(b)
  {
    if a > 0 {
      Pow2Add(a - 1, b);
      assert Pow2(a + b) == 2 * (Pow2(a - 1) * Pow2(b));
    }
  }

  lemma {:induction false} Pow2Mono(a: nat, b: nat)
    requires a <= b
    ensures Pow2(a) <= Pow2(b)
  {
    if a < b { Pow2Mono(a, b - 1); }
  }

  // ---------------------------------------------------------------- single bits

  lemma {:induction false} BitOfSmall(x: nat, j: nat)
    requires x < Pow2(j)
    ensures BitAt(x, j) == 0
  {
    if j > 0 { BitOfSmall(x / 2, j - 1); }
  }

  lemma {:induction false} BitXor(a: nat, b: nat, j: nat)
    ensures BitAt(Xor(a, b), j) == Xor1(BitAt(a, j), BitAt(b, j))
  {
    XorHalves(a, b);
    hide Xor;
    if j > 0 { BitXor(a / 2, b / 2, j - 1); }
  }

  lemma {:induction false} XorSelf(a: nat)
    ensures Xor(a, a) == 0
  {
    if a > 0 { XorSelf(a / 2); }
  }

  lemma {:induction false} XorZero(a: nat)
    ensures Xor(a, 0) == a && Xor(0, a) == a
  {
    if a > 0 { XorZero(a / 2); }
  }

  lemma {:induction false} XorBound(a: nat, b: nat, n: nat)
    requires a < Pow2(n) && b < Pow2(n)
    ensures Xor(a, b) < Pow2(n)
  {
    if n > 0 { XorBound(a / 2, b / 2, n - 1); }
  }

  lemma {:induction false} SetBitBits(v: nat, j: nat, i: nat)
    ensures BitAt(SetBit(v, j), i) == if i == j then 1 else BitAt(v, i)
  {
    SetBitHalves(v, j);
    if i > 0 && j > 0 { SetBitBits(v / 2, j - 1, i - 1); }
  }

  lemma SetBitHalves(v: nat, j: nat)
    ensures j == 0 ==> SetBit(v, j) % 2 == 1 && SetBit(v, j) / 2 == v / 2
    ensures j > 0 ==> SetBit(v, j) % 2 == v % 2 && SetBit(v, j) / 2 == SetBit(v / 2, j - 1)
  {
  }

  lemma {:induction false} AllZeroBits(x: nat, n: nat)
    requires x < Pow2(n) && forall j: nat | j < n :: BitAt(x, j) == 0
    ensures x == 0
  {
    if n > 0 {
      forall j: nat | j < n - 1
        ensures BitAt(x / 2, j) == 0
      {
        assert BitAt(x, j + 1) == 0;
      }
      AllZeroBits(x / 2, n - 1);
      assert BitAt(x, 0) == 0;
    }
  }

  // ---------------------------------------------------------------- inner product

  lemma AndLow(a: nat, b: nat)
    ensures And(a, b) == And1(a % 2, b % 2) + 2 * And(a / 2, b / 2)
  {
  }

  lemma OnesCountLow(b: Bit, x: nat)
    ensures OnesCount(b + 2 * x) == b + OnesCount(x)
  {
    assert (b + 2 * x) % 2 == b && (b + 2 * x) / 2 == x;
  }

  lemma DotStep(a: nat, b: nat)
    ensures Dot(a, b) == Xor1(And1(a % 2, b % 2), Dot(a / 2, b / 2))
  {
    hide And, OnesCount;
    AndLow(a, b);
    OnesCountLow(And1(a % 2, b % 2), And(a / 2, b / 2));
  }

  lemma XorHalves(a: nat, b: nat)
    ensures Xor(a, b) % 2 == Xor1(a % 2, b % 2) && Xor(a, b) / 2 == Xor(a / 2, b / 2)
  {
  }

  /** Swapping the middle terms of a GF(2) sum. */
  lemma XorAssoc4(a: Bit, b: Bit, c: Bit, d: Bit)
    ensures Xor1(Xor1(a, b), Xor1(c, d)) == Xor1(Xor1(a, c), Xor1(b, d))
  {
  }

  lemma {:induction false} DotXor(a: nat, b: nat, c: nat)
    ensures Dot(a, Xor(b, c)) == Xor1(Dot(a, b), Dot(a, c))
    decreases a
  {
    if a > 0 {
      DotXor(a / 2, b / 2, c / 2);
      DotStep(a, b);
      DotStep(a, c);
      DotStep(a, Xor(b, c));
      XorHalves(b, c);
      XorAssoc4(And1(a % 2, b % 2), Dot(a / 2, b / 2), And1(a % 2, c % 2), Dot(a / 2, c / 2));
    }
  }

  // ---------------------------------------------------------------- words from bits

  lemma FromBitsHalves(s: seq<nat>)
    requires IsBits(s) && s != []
    ensures FromBits(s) % 2 == s[0] && FromBits(s) / 2 == FromBits(s[1..])
  {
  }

  lemma {:induction false} FromBitsBound(s: seq<nat>)
    requires IsBits(s)
    ensures FromBits(s) < Pow2(|s|)
  {
    if s != [] { FromBitsBound(s[1..]); }
  }

  lemma {:induction false} FromBitsSnoc(s: seq<nat>, b: nat)
    requires b <= 1
    ensures FromBits(s + [b]) == FromBits(s) + if b == 1 then Pow2(|s|) else 0
  {
    if s == [] {
      assert s + [b] == [b];
      assert FromBits([b][1..]) == 0;
    } else {
      FromBitsSnoc(s[1..], b);
      assert (s + [b])[1..] == s[1..] + [b];
    }
  }

  /** Collecting bits with `|=`: one more position. */
  lemma SetBitAppends(s: seq<nat>, b: nat)
    requires IsBits(s) && b <= 1
    ensures FromBits(s + [b]) == if b == 1 then SetBit(FromBits(s), |s|) else FromBits(s)
  {
    FromBitsBound(s);
    BitOfSmall(FromBits(s), |s|);
    FromBitsSnoc(s, b);
  }

  lemma {:induction false} FromBitsXor(a: seq<nat>, b: seq<nat>)
    requires |a| == |b| && IsBits(a) && IsBits(b)
    ensures FromBits(XorBits(a, b)) == Xor(FromBits(a), FromBits(b))
  {
    if a != [] {
      FromBitsXor(a[1..], b[1..]);
      assert XorBits(a, b)[1..] == XorBits(a[1..], b[1..]);
      FromBitsHalves(a);
      FromBitsHalves(b);
      XorHalves(FromBits(a), FromBits(b));
    }
  }

  lemma {:induction false} FromBitsInjective(a: seq<nat>, b: seq<nat>)
    requires |a| == |b| && IsBits(a) && IsBits(b) && FromBits(a) == FromBits(b)
    ensures a == b
  {
    if a != [] {
      FromBitsHalves(a);
      FromBitsHalves(b);
      FromBitsInjective(a[1..], b[1..]);
      assert a == [a[0]] + a[1..] && b == [b[0]] + b[1..];
    }
  }

  /** A word is spelled by its bits. */
  lemma {:induction false} WordOf(x: nat, s: seq<nat>)
    requires x < Pow2(|s|) && IsBits(s) && forall j | 0 <= j < |s| :: s[j] == BitAt(x, j)
    ensures FromBits(s) == x
  {
    if s != [] {
      forall j | 0 <= j < |s| - 1
        ensures s[1..][j] == BitAt(x / 2, j)
      {
        assert s[j + 1] == BitAt(x, j + 1);
      }
      WordOf(x / 2, s[1..]);
    }
  }

  // ---------------------------------------------------------------- division

  lemma ModUnique(x: int, m: nat, q: int, r: int)
    requires 0 <= r < m && x == m * q + r
    ensures x % m == r && x / m == q
  {
    var d := x / m - q;
    assert m * d == r - x % m by {
      assert x == m * (x / m) + x % m;
      assert m * d == m * (x / m) - m * q;
    }
    MulSign(m, d);
  }

  lemma MulSign(m: int, d: int)
    requires m > 0
    ensures d >= 1 ==> m * d >= m
    ensures d <= -1 ==> m * d <= -m
  {
  }

  lemma MaskedHalf(x: nat, h: nat)
    requires h > 0
    ensures x % (2 * h) % 2 == x % 2 && x % (2 * h) / 2 == x / 2 % h
  {
    var q := x / (2 * h);
    var r := x % (2 * h);
    assert x == 2 * h * q + r;
    assert x / 2 == h * q + r / 2 by { assert 2 * h * q == 2 * (h * q); }
    ModUnique(x / 2, h, q, r / 2);
    assert r % 2 == x % 2 by { assert x == 2 * (h * q) + r; }
  }

  /** Masking keeps the low bits. */
  lemma {:induction false} BitMasked(x: nat, m: nat, n: nat)
    requires m < n
    ensures BitAt(x % Pow2(n), m) == BitAt(x, m)
    decreases m
  {
    MaskedHalf(x, Pow2(n - 1));
    if m > 0 { BitMasked(x / 2, m - 1, n - 1); }
  }
}
