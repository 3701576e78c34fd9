/**
  The in-place Walsh-Hadamard transform
  (internal/std-t115/qpsknarrow/fec/scramblesearch.go, `walshHadamard`).
  */
module Walsh {
  import opened Words

  /** `x` times minus one to the number of common bits of `m` and `s`. */
  function Signed(x: real, m: nat, s: nat): real { if Dot(m, s) == 1 then -x else x }

  /** The naive sum: element `k` enters with the sign of `base + k` against `s`. */
  function Corr(x: seq<real>, base: nat, s: nat): real {
    if x == [] then 0.0 else Signed(x[0], base, s) + Corr(x[1..], base + 1, s)
  }

  function Sums(a: seq<real>, b: seq<real>): (r: seq<real>)
    requires |a| == |b|
    ensures |r| == |a|
  {
    seq(|a|, i requires 0 <= i < |a| => a[i] + b[i])
  }

  function Diffs(a: seq<real>, b: seq<real>): (r: seq<real>)
    requires |a| == |b|
    ensures |r| == |a|
  {
    seq(|a|, i requires 0 <= i < |a| => a[i] - b[i])
  }

  /** The transform of a block of length `2^n`, by halves. */
  function Transform(x: seq<real>, n: nat): (r: seq<real>)
    requires |x| == Pow2(n)
    ensures |r| == |x|
  {
    if n == 0 then x
    else
      var h := Pow2(n - 1);
      var a, b := Transform(x[..h], n - 1), Transform(x[h..], n - 1);
      Sums(a, b) + Diffs(a, b)
  }

  // ---------------------------------------------------------------- the transform is the naive sum

  /** `s` with bit `n` set to `b`. */
  function Put(s: nat, n: nat, b: Bit): nat { if b == 1 then s + Pow2(n) else s }

  lemma PutHalves(s: nat, n: nat, b: Bit)
    requires n > 0
    ensures Put(s, n, b) % 2 == s % 2 && Put(s, n, b) / 2 == Put(s / 2, n - 1, b)
  {
    assert Pow2(n) == 2 * Pow2(n - 1);
    hide Pow2;
  }

  /** Top bits multiply separately. */
  lemma {:induction false} DotTop(n: nat, m: nat, s: nat, a: Bit, b: Bit)
    requires m < Pow2(n) && s < Pow2(n)
    ensures Dot(Put(m, n, a), Put(s, n, b)) == Xor1(Dot(m, s), And1(a, b))
  {
    if n == 0 {
      BitDot(0, 0);
      BitDot(a, b);
    } else {
      SmallHalf(m, n);
      SmallHalf(s, n);
      hide Put, Pow2, Dot, And1, Xor1;
      DotTop(n - 1, m / 2, s / 2, a, b);
      DotStep(Put(m, n, a), Put(s, n, b));
      DotStep(m, s);
      PutHalves(m, n, a);
      PutHalves(s, n, b);
      XorRegroup(And1(m % 2, s % 2), Dot(m / 2, s / 2), And1(a, b));
    }
  }

  lemma SmallHalf(m: nat, n: nat)
    requires n > 0 && m < Pow2(n)
    ensures m / 2 < Pow2(n - 1)
  {
  }

  lemma BitDot(a: Bit, b: Bit)
    ensures Dot(a, b) == And1(a, b)
  {
    DotStep(a, b);
    assert Dot(0, 0) == 0;
  }

  lemma XorRegroup(a: Bit, b: Bit, c: Bit)
    ensures Xor1(a, Xor1(b, c)) == Xor1(Xor1(a, b), c)
  {
  }

  lemma {:induction false} CorrConcat(a: seq<real>, b: seq<real>, base: nat, s: nat)
    ensures Corr(a + b, base, s) == Corr(a, base, s) + Corr(b, base + |a|, s)
  {
    if a == [] {
      assert a + b == b;
    } else {
      hide Signed;
      CorrConcat(a[1..], b, base + 1, s);
      assert (a + b)[1..] == a[1..] + b;
    }
  }

  /** The lower half does not see the top bit of `s`. */
  lemma {:induction false} CorrLower(x: seq<real>, n: nat, base: nat, s: nat, b: Bit)
    requires base + |x| <= Pow2(n) && s < Pow2(n)
    ensures Corr(x, base, Put(s, n, b)) == Corr(x, base, s)
  {
    if x != [] {
      hide Pow2, Put, Dot;
      CorrLower(x[1..], n, base + 1, s, b);
      DotTop(n, base, s, 0, b);
      NotPut(base, n);
    }
  }

  lemma NotPut(s: nat, n: nat)
    ensures Put(s, n, 0) == s && Put(s, n, 1) == Pow2(n) + s
  {
  }

  /** The upper half changes sign with it. */
  lemma {:induction false} CorrUpper(x: seq<real>, n: nat, base: nat, s: nat, b: Bit)
    requires base + |x| <= Pow2(n) && s < Pow2(n)
    ensures Corr(x, Pow2(n) + base, Put(s, n, b)) == if b == 1 then -Corr(x, base, s) else Corr(x, base, s)
  {
    if x != [] {
      hide Pow2, Put, Signed;
      CorrUpper(x[1..], n, base + 1, s, b);
      UpperSign(x[0], n, base, s, b);
    }
  }

  lemma UpperSign(x: real, n: nat, base: nat, s: nat, b: Bit)
    requires base < Pow2(n) && s < Pow2(n)
    ensures Signed(x, Pow2(n) + base, Put(s, n, b)) == if b == 1 then -Signed(x, base, s) else Signed(x, base, s)
  {
    hide Pow2, Put, Dot;
    DotTop(n, base, s, 1, b);
    NotPut(base, n);
  }

  /** Element `s` of the transform is the sum over `m` of `x[m]` times minus one to the number of common bits of `m` and `s`. */
  lemma {:induction false} TransformIsSum(x: seq<real>, n: nat, s: nat)
    requires |x| == Pow2(n) && s < Pow2(n)
    ensures Transform(x, n)[s] == Corr(x, 0, s)
  {
    hide Corr, Transform, Dot;
    if n == 0 {
      SumOfOne(x);
    } else {
      var h := Pow2(n - 1);
      var b: Bit := if s < h then 0 else 1;
      var s0 := if s < h then s else s - h;
      TransformHalves(x, n, s);
      TransformIsSum(x[..h], n - 1, s0);
      TransformIsSum(x[h..], n - 1, s0);
      assert x == x[..h] + x[h..] && s == Put(s0, n - 1, b);
      hide Pow2, Put;
      CorrConcat(x[..h], x[h..], 0, s);
      CorrLower(x[..h], n - 1, 0, s0, b);
      CorrUpper(x[h..], n - 1, 0, s0, b);
    }
  }

  lemma SumOfOne(x: seq<real>)
    requires |x| == 1
    ensures Transform(x, 0)[0] == Corr(x, 0, 0)
  {
    assert Dot(0, 0) == 0 by { BitDot(0, 0); }
    assert Corr(x[1..], 1, 0) == 0.0;
  }

  lemma TransformHalves(x: seq<real>, n: nat, s: nat)
    requires n > 0 && |x| == Pow2(n) && s < Pow2(n)
    ensures Pow2(n) == 2 * Pow2(n - 1)
    ensures var h := Pow2(n - 1);
      var a, b := Transform(x[..h], n - 1), Transform(x[h..], n - 1);
      Transform(x, n)[s] == if s < h then a[s] + b[s] else a[s - h] - b[s - h]
  {
  }

  // ---------------------------------------------------------------- in place

  /** `i` is a multiple of `len`. */
  predicate Aligned(i: nat, len: nat) {
    i == 0 || (0 < len <= i && Aligned(i - len, len))
  }

  /** Distinct multiples are at least `len` apart. */
  lemma {:induction false} AlignedGap(i: nat, j: nat, len: nat)
    requires Aligned(i, len) && Aligned(j, len) && i < j
    ensures i + len <= j
  {
    if i > 0 { AlignedGap(i - len, j - len, len); }
  }

  lemma {:induction false} AlignedHalf(i: nat, len: nat)
    requires Aligned(i, 2 * len) && len > 0
    ensures Aligned(i, len) && Aligned(i + len, len)
  {
    if i > 0 {
      AlignedHalf(i - 2 * len, len);
      assert Aligned(i - len, len);
    }
  }

  lemma {:induction false} AlignedPow(k: nat, n: nat)
    requires k <= n
    ensures Aligned(Pow2(n), Pow2(k))
  {
    if k < n {
      AlignedPow(k, n - 1);
      AlignedSum(Pow2(n - 1), Pow2(n - 1), Pow2(k));
    } else {
      assert Aligned(0, Pow2(k));
    }
  }

  lemma {:induction false} AlignedSum(i: nat, j: nat, len: nat)
    requires Aligned(i, len) && Aligned(j, len)
    ensures Aligned(i + j, len)
  {
    if i > 0 {
      AlignedSum(i - len, j, len);
      assert i + j - len == (i - len) + j;
    }
  }

  /** Block of length `2^k` at `i` holds its own transform. */
  ghost predicate Done(x: seq<real>, orig: seq<real>, i: nat, k: nat) {
    i + Pow2(k) <= |x| && |x| == |orig| && x[i..i + Pow2(k)] == Transform(orig[i..i + Pow2(k)], k)
  }

  /** All aligned blocks of length `2^k` that lie in `lo..hi` are done. */
  ghost predicate AllDone(x: seq<real>, orig: seq<real>, lo: nat, hi: nat, k: nat) {
    forall i | lo <= i && i + Pow2(k) <= hi && Aligned(i, Pow2(k)) :: Done(x, orig, i, k)
  }

  method WalshHadamard(x: array<real>, ghost n: nat)
    requires x.Length == Pow2(n)
    modifies x
    ensures x[..] == Transform(old(x[..]), n)
    ensures forall s | 0 <= s < x.Length :: x[s] == Corr(old(x[..]), 0, s)
  {
    hide Corr, Transform, Done, AllDone, Aligned, Pow2;
    ghost var orig := x[..];
    var length := 1;
    ghost var k := 0;
    StartDone(orig);
    while length < x.Length
      invariant 0 <= k <= n && length == Pow2(k) && x.Length == Pow2(n) && |orig| == x.Length
      invariant AllDone(x[..], orig, 0, x.Length, k)
      decreases n - k
    {
      Grows(k, n);
      var i := 0;
      ghost var was := x[..];
      FromStart(was, orig, k);
      while i < x.Length
        invariant 0 <= i <= x.Length && Aligned(i, Pow2(k + 1))
        invariant AllDone(x[..], orig, 0, i, k + 1) && AllDone(x[..], orig, i, x.Length, k)
      {
        ghost var before := x[..];
        AlignedGap(i, x.Length, Pow2(k + 1));
        Halves(before, orig, i, x.Length, k);
        ButterflyBlock(x, i, length);
        BlockDone(before, x[..], orig, i, k);
        NextAligned(i, Pow2(k + 1));
        i := i + 2 * length;
      }
      length := 2 * length;
      k := k + 1;
    }
    Finish(x[..], orig, k, n);
  }

  lemma StartDone(orig: seq<real>)
    ensures Pow2(0) == 1 && AllDone(orig, orig, 0, |orig|, 0)
  {
  }

  lemma Grows(k: nat, n: nat)
    requires Pow2(k) < Pow2(n)
    ensures k < n && Pow2(k + 1) == 2 * Pow2(k) && Aligned(Pow2(n), Pow2(k + 1)) && Aligned(0, Pow2(k + 1))
  {
    hide Aligned;
    if k >= n { Pow2Mono(n, k); }
    AlignedPow(k + 1, n);
    AlignedZero(Pow2(k + 1));
  }

  lemma AlignedZero(len: nat)
    ensures Aligned(0, len)
  {
  }

  lemma NextAligned(i: nat, len: nat)
    requires len > 0 && Aligned(i, len)
    ensures Aligned(i + len, len)
  {
  }

  lemma FromStart(x: seq<real>, orig: seq<real>, k: nat)
    requires |x| == |orig|
    ensures AllDone(x, orig, 0, 0, k + 1)
  {
    assert Pow2(k + 1) > 0;
  }

  /** The two halves of the block at hand are done for the smaller length. */
  lemma Halves(x: seq<real>, orig: seq<real>, i: nat, hi: nat, k: nat)
    requires Aligned(i, Pow2(k + 1)) && AllDone(x, orig, i, hi, k) && i + Pow2(k + 1) <= hi
    ensures Done(x, orig, i, k) && Done(x, orig, i + Pow2(k), k)
  {
    hide Done, Aligned;
    AlignedHalf(i, Pow2(k));
  }

  /** Outside `lo..hi` nothing changed. */
  ghost predicate SameOutside(x: seq<real>, was: seq<real>, lo: int, hi: int) {
    |x| == |was| && forall t | 0 <= t < |x| && !(lo <= t < hi) :: x[t] == was[t]
  }

  /** The array after the butterflies of one block. */
  function Butterfly(x: seq<real>, i: nat, length: nat): (r: seq<real>)
    requires i + 2 * length <= |x|
    ensures |r| == |x|
  {
    var a, b := x[i..i + length], x[i + length..i + 2 * length];
    x[..i] + Sums(a, b) + Diffs(a, b) + x[i + 2 * length..]
  }

  lemma ButterflyAt(x: seq<real>, i: nat, length: nat, j: nat)
    requires i + 2 * length <= |x| && i <= j < i + length
    ensures Butterfly(x, i, length)[j] == x[j] + x[j + length]
    ensures Butterfly(x, i, length)[j + length] == x[j] - x[j + length]
  {
  }

  /** One block: sums into the first half, differences into the second. */
  method ButterflyBlock(x: array<real>, i: nat, length: nat)
    requires i + 2 * length <= x.Length
    modifies x
    ensures x[..] == Butterfly(old(x[..]), i, length)
  {
    ghost var was := x[..];
    ghost var target := Butterfly(was, i, length);
    assert forall t | 0 <= t < i || i + 2 * length <= t < x.Length :: target[t] == was[t];
    hide Butterfly;
    var j := i;
    while j < i + length
      invariant i <= j <= i + length
      invariant forall t | 0 <= t < j || i + length <= t < j + length || i + 2 * length <= t < x.Length :: x[t] == target[t]
      invariant forall t | j <= t < i + length || j + length <= t < i + 2 * length :: x[t] == was[t]
    {
      ButterflyAt(was, i, length, j);
      var a, b := x[j], x[j + length];
      x[j], x[j + length] := a + b, a - b;
      j := j + 1;
    }
  }

  lemma BlockDone(before: seq<real>, x: seq<real>, orig: seq<real>, i: nat, k: nat)
    requires |x| == |before| == |orig| && i + Pow2(k + 1) <= |x| && Aligned(i, Pow2(k + 1)) && Pow2(k + 1) == 2 * Pow2(k)
    requires Done(before, orig, i, k) && Done(before, orig, i + Pow2(k), k)
    requires AllDone(before, orig, 0, i, k + 1) && AllDone(before, orig, i, |x|, k)
    requires x == Butterfly(before, i, Pow2(k))
    ensures AllDone(x, orig, 0, i + 2 * Pow2(k), k + 1) && AllDone(x, orig, i + 2 * Pow2(k), |x|, k)
  {
    hide Transform, Aligned, Pow2, Done, SameOutside, Butterfly;
    ButterflyParts(before, i, Pow2(k));
    NewBlock(before, x, orig, i, k);
    var k1 := k + 1;
    forall j | 0 <= j && j + Pow2(k1) <= i + 2 * Pow2(k) && Aligned(j, Pow2(k1))
      ensures Done(x, orig, j, k1)
    {
      if j < i {
        AlignedGap(j, i, Pow2(k1));
        Keeps(before, x, orig, i, i + 2 * Pow2(k), j, k1);
      }
    }
    forall j | i + 2 * Pow2(k) <= j && j + Pow2(k) <= |x| && Aligned(j, Pow2(k))
      ensures Done(x, orig, j, k)
    {
      Keeps(before, x, orig, i, i + 2 * Pow2(k), j, k);
    }
  }

  lemma ButterflyParts(x: seq<real>, i: nat, length: nat)
    requires i + 2 * length <= |x|
    ensures var r := Butterfly(x, i, length);
      && SameOutside(r, x, i, i + 2 * length)
      && r[i..i + length] == Sums(x[i..i + length], x[i + length..i + 2 * length])
      && r[i + length..i + 2 * length] == Diffs(x[i..i + length], x[i + length..i + 2 * length])
  {
    hide Sums, Diffs;
  }

  lemma Keeps(before: seq<real>, x: seq<real>, orig: seq<real>, lo: nat, hi: nat, j: nat, k: nat)
    requires SameOutside(x, before, lo, hi) && (j + Pow2(k) <= lo || hi <= j) && Done(before, orig, j, k)
    ensures Done(x, orig, j, k)
  {
    hide Transform, Pow2;
    assert x[j..j + Pow2(k)] == before[j..j + Pow2(k)];
  }

  lemma NewBlock(before: seq<real>, x: seq<real>, orig: seq<real>, i: nat, k: nat)
    requires |x| == |before| == |orig| && i + Pow2(k + 1) <= |x| && Pow2(k + 1) == 2 * Pow2(k)
    requires Done(before, orig, i, k) && Done(before, orig, i + Pow2(k), k)
    requires x[i..i + Pow2(k)] == Sums(before[i..i + Pow2(k)], before[i + Pow2(k)..i + 2 * Pow2(k)])
    requires x[i + Pow2(k)..i + 2 * Pow2(k)] == Diffs(before[i..i + Pow2(k)], before[i + Pow2(k)..i + 2 * Pow2(k)])
    ensures Done(x, orig, i, k + 1)
  {
    hide Sums, Diffs;
    var h := Pow2(k);
    var o := orig[i..i + 2 * h];
    assert o[..h] == orig[i..i + h] && o[h..] == orig[i + h..i + 2 * h];
    assert x[i..i + 2 * h] == x[i..i + h] + x[i + h..i + 2 * h];
    assert i + h + h == i + 2 * h;
  }

  lemma Finish(x: seq<real>, orig: seq<real>, k: nat, n: nat)
    requires k <= n && |x| == |orig| == Pow2(n) && Pow2(k) >= Pow2(n) && AllDone(x, orig, 0, |x|, k)
    ensures x == Transform(orig, n) && forall s | 0 <= s < |x| :: x[s] == Corr(orig, 0, s)
  {
    hide Transform, Corr, Aligned;
    if k < n { Pow2Mono(k + 1, n); }
    AlignedZero(Pow2(k));
    assert Done(x, orig, 0, k);
    assert x[0..0 + Pow2(k)] == x && orig[0..0 + Pow2(k)] == orig;
    forall s | 0 <= s < |x|
      ensures x[s] == Corr(orig, 0, s)
    {
      TransformIsSum(orig, n, s);
    }
  }
}
