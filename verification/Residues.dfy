/**
  Powers modulo p and the order of a residue: how a table of primitive roots is
  checked from the prime factors of `p-1`.
  */
module Residues {
  import opened Words
  import opened NumberTheory

  /** `v^j mod p`. */
  function PowMod(v: nat, j: nat, p: nat): (r: nat)
    requires p > 1
    ensures r < p
  {
    if j == 0 then 1 else v * PowMod(v, j - 1, p) % p
  }

  /** The powers of `v` below `p-1` are all different from 1, and `v^(p-1)` is 1. */
  ghost predicate PrimitiveRoot(p: nat, v: nat) {
    p > 2 && PowMod(v, p - 1, p) == 1 && forall j | 0 < j < p - 1 :: PowMod(v, j, p) != 1
  }

  lemma ModTimes(a: nat, b: nat, p: nat)
    requires p > 0
    ensures (a % p) * b % p == a * b % p
  {
    var q, r := a / p, a % p;
    assert a == p * q + r;
    assert a * b == p * (q * b + r * b / p) + r * b % p by {
      assert (p * q + r) * b == p * q * b + r * b;
      MulAssoc(p, q, b);
      MulDist(p, q * b, r * b / p);
    }
    ModUnique(a * b, p, q * b + r * b / p, r * b % p);
  }

  lemma ModAssoc(v: nat, x: nat, y: nat, p: nat)
    requires p > 0
    ensures v * (x * y % p) % p == (v * x % p) * y % p
  {
    ModTimes(x * y, v, p);
    ModTimes(v * x, y, p);
    MulAssoc(v, x, y);
    assert v * (x * y % p) == (x * y % p) * v;
    assert x * y * v == v * x * y;
  }

  lemma {:induction false} PowModAdd(p: nat, v: nat, i: nat, j: nat)
    requires p > 1
    ensures PowMod(v, i + j, p) == PowMod(v, i, p) * PowMod(v, j, p) % p
  {
    if i == 0 {
      ModUnique(PowMod(v, j, p), p, 0, PowMod(v, j, p));
    } else {
      PowModAdd(p, v, i - 1, j);
      ModAssoc(v, PowMod(v, i - 1, p), PowMod(v, j, p), p);
      PowModNext(p, v, i - 1);
      PowModNext(p, v, i - 1 + j);
    }
  }

  lemma PowModNext(p: nat, v: nat, j: nat)
    requires p > 1
    ensures PowMod(v, j + 1, p) == v * PowMod(v, j, p) % p
  {
  }

  /** Powers repeat with every exponent whose power is 1. */
  lemma {:induction false} PowModPeriod(p: nat, v: nat, d: nat, k: nat, r: nat)
    requires p > 1 && PowMod(v, d, p) == 1
    ensures d * k + r >= 0 && PowMod(v, d * k + r, p) == PowMod(v, r, p)
    decreases k
  {
    if k > 0 {
      PowModPeriod(p, v, d, k - 1, r);
      MulDist(d, k, 1);
      PowModAdd(p, v, d, d * (k - 1) + r);
      ModUnique(PowMod(v, r, p), p, 0, PowMod(v, r, p));
    }
  }

  /** The least positive exponent with power 1 divides every other one. */
  lemma {:induction false} LeastExponent(p: nat, v: nat, n: nat, j: nat) returns (d: nat)
    requires p > 1 && 0 < j && PowMod(v, j, p) == 1 && PowMod(v, n, p) == 1
    ensures 0 < d <= j && PowMod(v, d, p) == 1 && Divides(d, n)
    decreases j
  {
    var q, r := n / j, n % j;
    assert n == j * q + r;
    PowModPeriod(p, v, j, q, r);
    if r == 0 {
      d := j;
    } else {
      d := LeastExponent(p, v, n, r);
    }
  }

  // ---------------------------------------------------------------- all residues

  lemma RootPowerRange(p: nat, v: nat, e: nat)
    requires PrimitiveRoot(p, v) && e < p - 1
    ensures 1 <= PowMod(v, e, p) <= p - 1
  {
    PowModAdd(p, v, e, p - 1 - e);
    if PowMod(v, e, p) == 0 {
      ModUnique(0, p, 0, 0);
    }
  }

  /** Powers of a primitive root below `p-1` are distinct. */
  lemma RootPowersDistinct(p: nat, v: nat, e: nat, f: nat)
    requires PrimitiveRoot(p, v) && e < f < p - 1
    ensures PowMod(v, e, p) != PowMod(v, f, p)
  {
    var g := p - 1 - e;
    PowModAdd(p, v, g, e);
    PowModAdd(p, v, g, f);
    assert g + f == (p - 1) * 1 + (f - e);
    PowModPeriod(p, v, p - 1, 1, f - e);
    assert PowMod(v, f - e, p) != 1;
  }

  /** The first `n` powers. */
  ghost function FirstPowers(p: nat, v: nat, n: nat): set<int>
    requires p > 1
  {
    if n == 0 then {} else FirstPowers(p, v, n - 1) + {PowMod(v, n - 1, p) as int}
  }

  ghost predicate IsPower(p: nat, v: nat, n: nat, x: int) {
    p > 1 && exists e: nat | e < n :: PowMod(v, e, p) == x
  }

  lemma {:induction false} FirstPowersAre(p: nat, v: nat, n: nat)
    requires PrimitiveRoot(p, v) && n <= p - 1
    ensures |FirstPowers(p, v, n)| == n
    ensures forall x | x in FirstPowers(p, v, n) :: 0 < x < p && IsPower(p, v, n, x)
  {
    hide PowMod, PrimitiveRoot, IsPower;
    RootExceeds(p, v);
    if n > 0 {
      FirstPowersAre(p, v, n - 1);
      RootPowerRange(p, v, n - 1);
      NewPower(p, v, n);
      forall x | x in FirstPowers(p, v, n - 1)
        ensures IsPower(p, v, n, x)
      {
        OldPower(p, v, n, x);
      }
    }
  }

  lemma OldPower(p: nat, v: nat, n: nat, x: int)
    requires n > 0 && IsPower(p, v, n - 1, x)
    ensures IsPower(p, v, n, x)
  {
    hide PowMod;
    var e: nat :| e < n - 1 && PowMod(v, e, p) == x;
  }

  lemma NewPower(p: nat, v: nat, n: nat)
    requires PrimitiveRoot(p, v) && 0 < n <= p - 1
    ensures p > 1 && IsPower(p, v, n, PowMod(v, n - 1, p)) && !IsPower(p, v, n - 1, PowMod(v, n - 1, p))
  {
    hide PowMod, PrimitiveRoot;
    RootExceeds(p, v);
    if IsPower(p, v, n - 1, PowMod(v, n - 1, p)) {
      var e: nat :| e < n - 1 && PowMod(v, e, p) == PowMod(v, n - 1, p);
      RootPowersDistinct(p, v, e, n - 1);
    }
  }

  lemma RootExceeds(p: nat, v: nat)
    requires PrimitiveRoot(p, v)
    ensures p > 2
  {
  }

  ghost function Positives(n: nat): (r: set<int>)
    ensures |r| == n && forall x :: x in r <==> 0 < x <= n
  {
    if n == 0 then {} else Positives(n - 1) + {n as int}
  }

  lemma SameSize(a: set<int>, b: set<int>)
    requires a <= b && |a| == |b|
    ensures a == b
  {
    assert b == a + (b - a);
  }

  /** The powers of a primitive root run through all residues but 0. */
  lemma RootReaches(p: nat, v: nat, x: nat) returns (e: nat)
    requires PrimitiveRoot(p, v) && 0 < x < p
    ensures e < p - 1 && PowMod(v, e, p) == x
  {
    hide PowMod, PrimitiveRoot;
    RootExceeds(p, v);
    FirstPowersAre(p, v, p - 1);
    SameSize(FirstPowers(p, v, p - 1), Positives(p - 1));
    assert x in Positives(p - 1);
    assert IsPower(p, v, p - 1, x);
    e :| e < p - 1 && PowMod(v, e, p) == x;
  }

  /** A divisor of `p` with an inverse modulo `p` is 1. */
  lemma InvertibleDivisor(p: nat, d: nat, x: nat)
    requires p > 1 && d > 0 && Divides(d, p) && d * x % p == 1
    ensures d == 1
  {
    var q := d * x / p;
    ModParts(d * x, p);
    DividesTimes(d, p, q);
    Multiple(d, x);
    DividesSum(d, d * x, p * q);
    DivisorBound(d, 1);
  }

  lemma ModParts(a: nat, p: nat)
    requires p > 0
    ensures a == p * (a / p) + a % p
  {
  }

  /** Only a prime has a primitive root: a divisor, being a power of the root, is invertible. */
  lemma RootIsPrime(p: nat, v: nat)
    requires PrimitiveRoot(p, v)
    ensures IsPrime(p)
  {
    hide PowMod, Divides;
    forall d | 2 <= d < p
      ensures !Divides(d, p)
    {
      var e := RootReaches(p, v, d);
      PowModAdd(p, v, e, p - 1 - e);
      if Divides(d, p) {
        InvertibleDivisor(p, d, PowMod(v, p - 1 - e, p));
      }
    }
  }

  // ---------------------------------------------------------------- residues that are no roots

  lemma {:induction false} PowModPower(p: nat, x: nat, f: nat, n: nat)
    requires p > 1
    ensures f * n >= 0 && PowMod(PowMod(x, f, p), n, p) == PowMod(x, f * n, p)
  {
    if n > 0 {
      PowModPower(p, x, f, n - 1);
      MulDist(f, n, -1);
      PowModAdd(p, x, f, f * (n - 1));
      PowModNext(p, PowMod(x, f, p), n - 1);
    }
  }

  /** Fermat's little theorem, where a primitive root exists. */
  lemma Fermat(p: nat, v: nat, x: nat)
    requires PrimitiveRoot(p, v) && 0 < x < p
    ensures PowMod(x, p - 1, p) == 1
  {
    hide PowMod;
    RootExceeds(p, v);
    var e := RootReaches(p, v, x);
    PowModPower(p, v, e, p - 1);
    PowModPeriod(p, v, p - 1, e, 0);
    ZeroPower(p, v, 0);
    assert e * (p - 1) == (p - 1) * e + 0;
  }

  /** A proper power of another residue is no primitive root. */
  lemma PowerIsNoRoot(p: nat, v: nat, x: nat, f: nat, w: nat)
    requires PrimitiveRoot(p, v) && 0 < x < p && 1 < f < p - 1 && Divides(f, p - 1) && PowMod(x, f, p) == w
    ensures !PrimitiveRoot(p, w)
  {
    hide PowMod;
    Fermat(p, v, x);
    Quotient(f, p - 1);
    var n := (p - 1) / f;
    if n <= 0 { MulNonPos(f, n); }
    if n >= p - 1 { MulMono(2, f, p - 1, n); }
    PowModPower(p, x, f, n);
    assert PowMod(w, n, p) == 1;
  }

  lemma SquareIsNoRoot(p: nat, v: nat, x: nat, w: nat)
    requires PrimitiveRoot(p, v) && 0 < x < p && p > 3 && p % 2 == 1 && x * x % p == w
    ensures !PrimitiveRoot(p, w)
  {
    PowModNext(p, x, 0);
    PowModNext(p, x, 1);
    SmallPower(p, x);
    PowerIsNoRoot(p, v, x, 2, w);
  }

  lemma SmallPower(p: nat, x: nat)
    requires 0 < x < p && p > 1
    ensures PowMod(x, 1, p) == x
  {
    assert PowMod(x, 0, p) == 1;
  }

  lemma CubeIsNoRoot(p: nat, v: nat, x: nat, a: nat, w: nat)
    requires PrimitiveRoot(p, v) && 0 < x < p && p > 4 && (p - 1) % 3 == 0 && x * x % p == a && x * a % p == w
    ensures !PrimitiveRoot(p, w)
  {
    SmallPower(p, x);
    PowModNext(p, x, 1);
    PowModNext(p, x, 2);
    PowerIsNoRoot(p, v, x, 3, w);
  }

  lemma FifthPower(p: nat, x: nat, a: nat, b: nat, c: nat, w: nat)
    requires 0 < x < p && p > 1 && x * x % p == a && x * a % p == b && x * b % p == c && x * c % p == w
    ensures PowMod(x, 5, p) == w
  {
    SmallPower(p, x);
    PowModNext(p, x, 1);
    PowModNext(p, x, 2);
    PowModNext(p, x, 3);
    PowModNext(p, x, 4);
  }

  lemma FifthIsNoRoot(p: nat, v: nat, x: nat, a: nat, b: nat, c: nat, w: nat)
    requires PrimitiveRoot(p, v) && 0 < x < p && p > 6 && (p - 1) % 5 == 0
    requires x * x % p == a && x * a % p == b && x * b % p == c && x * c % p == w
    ensures !PrimitiveRoot(p, w)
  {
    FifthPower(p, x, a, b, c, w);
    PowerIsNoRoot(p, v, x, 5, w);
  }

  lemma TrivialIsNoRoot(p: nat, w: nat)
    requires p > 3 && w <= 1
    ensures !PrimitiveRoot(p, w)
  {
    if w == 0 {
      assert PowMod(0, p - 1, p) == 0 * PowMod(0, p - 2, p) % p;
    } else {
      SmallPower(p, 1);
    }
  }

  // ---------------------------------------------------------------- factorisations

  function Product(fs: seq<int>): int { if fs == [] then 1 else fs[0] * Product(fs[1..]) }

  /** The exponent `(p-1)/f`. */
  function Cofactor(p: nat, f: int): nat
    requires p > 0
  {
    if f > 0 then (p - 1) / f else 0
  }

  lemma EuclidsLemma(q: int, a: nat, b: int)
    requires IsPrime(q) && Divides(q, a * b)
    ensures Divides(q, a) || Divides(q, b)
  {
    if a == 0 {
    } else if !Divides(q, a) {
      PrimeCoprime(q, a);
      CancelCoprime(q, a, b);
    }
  }

  lemma {:induction false} PrimeInProduct(q: int, fs: seq<int>)
    requires IsPrime(q) && (forall f | f in fs :: IsPrime(f)) && Divides(q, Product(fs))
    ensures q in fs
  {
    if fs == [] {
      DivisorBound(q, 1);
    } else {
      assert IsPrime(fs[0]);
      EuclidsLemma(q, fs[0], Product(fs[1..]));
      if Divides(q, fs[0]) {
        DivisorBound(q, fs[0]);
        assert q == fs[0];
      } else {
        PrimeInProduct(q, fs[1..]);
      }
    }
  }

  /** Lucas' test: no proper divisor `(p-1)/f` of `p-1` is an exponent of 1. */
  lemma RootByFactors(p: nat, v: nat, fs: seq<int>)
    requires p > 2 && (forall f | f in fs :: IsPrime(f)) && Product(fs) == p - 1
    requires PowMod(v, p - 1, p) == 1
    requires forall f | f in fs :: PowMod(v, Cofactor(p, f), p) != 1
    ensures PrimitiveRoot(p, v)
  {
    forall j | 0 < j < p - 1
      ensures PowMod(v, j, p) != 1
    {
      if PowMod(v, j, p) == 1 {
        var d := LeastExponent(p, v, p - 1, j);
        NotMaximal(p, v, fs, d);
      }
    }
  }

  lemma NotMaximal(p: nat, v: nat, fs: seq<int>, d: nat)
    requires p > 2 && (forall f | f in fs :: IsPrime(f)) && Product(fs) == p - 1
    requires 0 < d < p - 1 && PowMod(v, d, p) == 1 && Divides(d, p - 1)
    ensures exists f :: f in fs && PowMod(v, Cofactor(p, f), p) == 1
  {
    var m := (p - 1) / d;
    Quotient(d, p - 1);
    if m <= 0 { MulNonPos(d, m); }
    var q := PrimeDivisor(m);
    var k := m / q;
    Quotient(q, m);
    MulAssoc(d, k, q);
    assert p - 1 == q * (d * k);
    Multiple(q, d * k);
    PrimeInProduct(q, fs);
    if k < 0 { MulNonPos(q, k); }
    ModUnique(p - 1, q, d * k, 0);
    PowModPeriod(p, v, d, k, 0);
  }

  lemma SmallPrime(n: int)
    requires 11 <= n < 121 && n % 2 != 0 && n % 3 != 0 && n % 5 != 0 && n % 7 != 0
    ensures IsPrime(n)
  {
    forall d | 2 <= d < n
      ensures !Divides(d, n)
    {
      if Divides(d, n) {
        Quotient(d, n);
        var e := n / d;
        var x := if d <= e then d else e;
        assert n == e * d;
        CofactorOf(n, d, e);
        Multiple(e, d);
        var q := PrimeDivisor(x);
        DividesTrans(q, x, n);
        assert q < 11 by { if x >= 11 { MulMono(11, d, 11, e); } }
        NoPrimeGaps(q);
      }
    }
  }

  lemma CofactorOf(n: int, d: int, e: int)
    requires n >= 2 && 2 <= d < n && n == e * d
    ensures 2 <= e
  {
    if e <= 0 { MulNonPos(d, e); }
  }

  lemma NoPrimeGaps(q: int)
    requires IsPrime(q) && q < 11
    ensures q == 2 || q == 3 || q == 5 || q == 7
  {
    assert !(2 < q && Divides(2, q));
    assert !(3 < q && Divides(3, q));
  }

  lemma TinyPrimes()
    ensures IsPrime(2) && IsPrime(3) && IsPrime(5) && IsPrime(7)
  {
  }

  // ---------------------------------------------------------------- square and multiply

  /** `y` is the square of `x`, times `v` when the exponent bit is set. */
  ghost predicate Squared(p: nat, v: nat, e: nat, x: nat, y: nat)
    requires p > 0
  {
    y == if e % 2 == 0 then x * x % p else x * x * v % p
  }

  lemma SquareStep(p: nat, v: nat, e: nat, x: nat, y: nat)
    requires p > 1 && PowMod(v, e / 2, p) == x && Squared(p, v, e, x, y)
    ensures PowMod(v, e, p) == y
  {
    var h := e / 2;
    PowModAdd(p, v, h, h);
    if e % 2 == 1 {
      ModTimes(x * x, v, p);
      assert PowMod(v, h + h + 1, p) == v * PowMod(v, h + h, p) % p;
    }
  }

  /** The residues met when `v^e` is computed from the leading bits of `e`. */
  lemma Power(p: nat, v: nat, e: nat, x1: nat, x2: nat, x3: nat, x4: nat, x5: nat, x6: nat, x7: nat, x8: nat)
    requires p > 1 && e < 256
    requires Squared(p, v, e / 128, 1, x1) && Squared(p, v, e / 64, x1, x2) && Squared(p, v, e / 32, x2, x3)
    requires Squared(p, v, e / 16, x3, x4) && Squared(p, v, e / 8, x4, x5) && Squared(p, v, e / 4, x5, x6)
    requires Squared(p, v, e / 2, x6, x7) && Squared(p, v, e, x7, x8)
    ensures PowMod(v, e, p) == x8
  {
    hide Squared, PowMod;
    assert PowMod(v, e / 128 / 2, p) == 1 by { ZeroPower(p, v, e / 128 / 2); }
    SquareStep(p, v, e / 128, 1, x1);
    assert e / 64 / 2 == e / 128;
    SquareStep(p, v, e / 64, x1, x2);
    assert e / 32 / 2 == e / 64;
    SquareStep(p, v, e / 32, x2, x3);
    assert e / 16 / 2 == e / 32;
    SquareStep(p, v, e / 16, x3, x4);
    assert e / 8 / 2 == e / 16;
    SquareStep(p, v, e / 8, x4, x5);
    assert e / 4 / 2 == e / 8;
    SquareStep(p, v, e / 4, x5, x6);
    assert e / 2 / 2 == e / 4;
    SquareStep(p, v, e / 2, x6, x7);
    SquareStep(p, v, e, x7, x8);
  }

  lemma ZeroPower(p: nat, v: nat, e: nat)
    requires p > 1 && e == 0
    ensures PowMod(v, e, p) == 1
  {
  }
}
