/**
  The number theory behind the turbo code's internal interleaver: greatest
  common divisors, primes (infinitely many), and the order of a residue.
  */
module NumberTheory {
  import opened Words

  // ---------------------------------------------------------------- divisibility

  predicate Divides(d: int, n: int)
    requires d > 0
  {
    n % d == 0
  }

  lemma Quotient(d: int, n: int)
    requires d > 0 && Divides(d, n)
    ensures n == d * (n / d)
  {
  }

  lemma Multiple(d: int, k: int)
    requires d > 0
    ensures Divides(d, d * k)
  {
    ModUnique(d * k, d, k, 0);
  }

  lemma DividesTimes(d: int, n: int, k: int)
    requires d > 0 && Divides(d, n)
    ensures Divides(d, n * k)
  {
    Quotient(d, n);
    Multiple(d, n / d * k);
    assert n * k == d * (n / d * k) by { MulAssoc(d, n / d, k); }
  }

  lemma MulAssoc(a: int, b: int, c: int)
    ensures a * b * c == a * (b * c)
  {
  }

  lemma MulDist(a: int, b: int, c: int)
    ensures a * (b + c) == a * b + a * c && a * (b - c) == a * b - a * c
  {
  }

  lemma DividesSum(d: int, m: int, n: int)
    requires d > 0 && Divides(d, m) && Divides(d, n)
    ensures Divides(d, m + n) && Divides(d, m - n)
  {
    Quotient(d, m);
    Quotient(d, n);
    MulDist(d, m / d, n / d);
    Multiple(d, m / d + n / d);
    Multiple(d, m / d - n / d);
  }

  lemma DividesTrans(a: int, b: int, n: int)
    requires a > 0 && b > 0 && Divides(a, b) && Divides(b, n)
    ensures Divides(a, n)
  {
    Quotient(b, n);
    DividesTimes(a, b, n / b);
  }

  lemma DivisorBound(d: int, n: int)
    requires d > 0 && n > 0 && Divides(d, n)
    ensures d <= n
  {
    Quotient(d, n);
    MulSign(d, n / d);
    if n / d <= 0 { MulNonPos(d, n / d); }
  }

  lemma MulNonPos(d: int, k: int)
    requires d > 0 && k <= 0
    ensures d * k <= 0
  {
  }

  // ---------------------------------------------------------------- greatest common divisor

  function Gcd(a: nat, b: nat): nat
    decreases b
  {
    if b == 0 then a else Gcd(b, a % b)
  }

  method ComputeGcd(a0: nat, b0: nat) returns (g: nat)
    ensures g == Gcd(a0, b0)
  {
    var a, b := a0, b0;
    while b != 0
      invariant Gcd(a, b) == Gcd(a0, b0)
      decreases b
    {
      a, b := b, a % b;
    }
    g := a;
  }

  lemma RemainderDivides(d: int, a: nat, b: nat)
    requires d > 0 && b > 0 && Divides(d, b)
    ensures Divides(d, a) <==> Divides(d, a % b)
  {
    var q, r := a / b, a % b;
    assert a == b * q + r;
    DividesTimes(d, b, q);
    hide Divides;
    if Divides(d, a) { DividesSum(d, a, b * q); }
    if Divides(d, r) { DividesSum(d, b * q, r); }
  }

  /** It divides both arguments, and every common divisor divides it. */
  lemma {:induction false} GcdIsGreatest(a: nat, b: nat, d: int)
    requires (a > 0 || b > 0) && d > 0
    ensures Gcd(a, b) > 0 && Divides(Gcd(a, b), a) && Divides(Gcd(a, b), b)
    ensures Divides(d, a) && Divides(d, b) ==> Divides(d, Gcd(a, b))
    decreases b
  {
    if b != 0 {
      GcdIsGreatest(b, a % b, d);
      RemainderDivides(Gcd(a, b), a, b);
      if Divides(d, b) { RemainderDivides(d, a, b); }
    }
  }

  /** The greatest common divisor is a combination of its arguments. */
  lemma {:induction false} Bezout(a: nat, b: nat) returns (x: int, y: int)
    requires a > 0 || b > 0
    ensures a * x + b * y == Gcd(a, b)
    decreases b
  {
    if b == 0 {
      x, y := 1, 0;
    } else {
      var u, v := Bezout(b, a % b);
      x, y := v, u - a / b * v;
      var q := a / b;
      assert a == b * q + a % b;
      calc {
        a * x + b * y;
        { MulDist(b, u, q * v); MulAssoc(b, q, v); }
        a * v + b * u - b * q * v;
        { assert a * v - b * q * v == (a - b * q) * v; }
        b * u + (a % b) * v;
      }
    }
  }

  lemma ScaleBezout(r: int, x: int, m: int, y: int, k: int)
    requires r * x + m * y == 1
    ensures k == r * k * x + m * (y * k)
  {
    MulDist(k, r * x, m * y);
    MulAssoc(r, k, x);
    MulAssoc(r, x, k);
    MulAssoc(m, y, k);
  }

  /** A number coprime to `m` can be cancelled from a multiple of `m`. */
  lemma CancelCoprime(m: int, r: nat, k: int)
    requires m > 0 && Gcd(r, m) == 1 && Divides(m, r * k)
    ensures Divides(m, k)
  {
    var x, y := Bezout(r, m);
    DividesTimes(m, r * k, x);
    Multiple(m, y * k);
    ScaleBezout(r, x, m, y, k);
    DividesSum(m, r * k * x, m * (y * k));
  }

  /** Multiplication by a coprime factor permutes the residues. */
  lemma CoprimeInjective(m: int, r: nat, i: nat, j: nat)
    requires m > 0 && Gcd(r, m) == 1 && i < m && j < m && (i * r) % m == (j * r) % m
    ensures i == j
  {
    SameRemainder(m, i * r, j * r);
    assert i * r - j * r == r * (i - j);
    CancelCoprime(m, r, i - j);
    if i - j > 0 { DivisorBound(m, i - j); }
    if j - i > 0 {
      Quotient(m, i - j);
      assert j - i == m * (-((i - j) / m));
      Multiple(m, -((i - j) / m));
      DivisorBound(m, j - i);
    }
  }

  lemma SameRemainder(m: int, a: int, b: int)
    requires m > 0 && a % m == b % m
    ensures Divides(m, a - b)
  {
    assert a == m * (a / m) + a % m && b == m * (b / m) + b % m;
    MulDist(m, a / m, b / m);
    Multiple(m, a / m - b / m);
  }

  // ---------------------------------------------------------------- primes

  ghost predicate IsPrime(n: int) {
    n >= 2 && forall d | 2 <= d < n :: !Divides(d, n)
  }

  /** Trial division. */
  method TestPrime(n: int) returns (prime: bool)
    ensures prime <==> IsPrime(n)
  {
    if n < 2 { return false; }
    var d := 2;
    while d * d <= n
      invariant 2 <= d
      invariant forall e | 2 <= e < d && e < n :: !Divides(e, n)
      decreases n - d
    {
      SquareAbove(d);
      if n % d == 0 {
        assert 2 <= d < n && Divides(d, n);
        return false;
      }
      d := d + 1;
    }
    forall e | d <= e < n
      ensures !Divides(e, n)
    {
      if Divides(e, n) { CofactorBelow(n, d, e); }
    }
    return true;
  }

  lemma SquareAbove(d: int)
    requires d >= 2
    ensures d * d > d
  {
  }

  /** A large divisor has a small cofactor. */
  lemma CofactorBelow(n: int, d: int, e: int)
    requires n >= 2 && 2 <= d <= e < n && n < d * d && Divides(e, n)
    ensures 2 <= n / e < d && n / e < n && Divides(n / e, n)
  {
    Quotient(e, n);
    var f := n / e;
    CofactorRange(n, d, e, f);
    assert n == f * e;
    Multiple(f, e);
  }

  lemma CofactorRange(n: int, d: int, e: int, f: int)
    requires 2 <= d <= e < n < d * d && n == e * f
    ensures 2 <= f < d
  {
    if f <= 0 { MulNonPos(e, f); }
    if f >= d { MulMono(d, e, d, f); }
  }

  lemma MulMono(a: int, b: int, c: int, d: int)
    requires 0 <= a <= b && 0 <= c <= d
    ensures a * c <= b * d
  {
    assert a * c <= a * d;
    assert a * d <= b * d;
  }

  function Factorial(n: nat): nat { if n == 0 then 1 else n * Factorial(n - 1) }

  lemma {:induction false} FactorialDivisible(n: nat, d: int)
    requires 1 <= d <= n
    ensures Divides(d, Factorial(n)) && Factorial(n) >= 1
    decreases n
  {
    if d == n {
      Multiple(n, Factorial(n - 1));
      if n > 1 { FactorialDivisible(n - 1, 1); }
      MulSign(n, Factorial(n - 1));
    } else {
      FactorialDivisible(n - 1, d);
      DividesTimes(d, Factorial(n - 1), n);
      MulSign(n, Factorial(n - 1));
    }
  }

  /** Every number from 2 on has a prime divisor. */
  lemma {:induction false} PrimeDivisor(n: int) returns (q: int)
    requires n >= 2
    ensures IsPrime(q) && q <= n && Divides(q, n)
    decreases n
  {
    if IsPrime(n) {
      q := n;
    } else {
      var d :| 2 <= d < n && Divides(d, n);
      q := PrimeDivisor(d);
      DividesTrans(q, d, n);
    }
  }

  /** There are infinitely many primes. */
  lemma PrimeAbove(n: nat) returns (q: int)
    ensures IsPrime(q) && q > n
  {
    if n == 0 {
      q := 2;
    } else {
      FactorialDivisible(n, 1);
      var f := Factorial(n);
      q := PrimeDivisor(f + 1);
      if q <= n {
        FactorialDivisible(n, q);
        DividesSum(q, f + 1, f);
      }
    }
  }

  /** A prime is coprime to every smaller positive number. */
  lemma PrimeCoprime(q: int, m: nat)
    requires IsPrime(q) && (0 < m < q || (m > 0 && !Divides(q, m)))
    ensures Gcd(q, m) == 1 && Gcd(m, q) == 1
  {
    GcdIsGreatest(q, m, 1);
    GcdIsGreatest(m, q, 1);
    DivisorBound(Gcd(q, m), q);
    DivisorBound(Gcd(q, m), m);
    DivisorBound(Gcd(m, q), q);
    DivisorBound(Gcd(m, q), m);
  }
}
