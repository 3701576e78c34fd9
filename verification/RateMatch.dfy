/**
  Rate matching of the STD-T115 channels
  (internal/std-t115/qpsknarrow/fec/ratematch.go), section 4.2.7.5 of
  3GPP TS 25.212: an error accumulator spreads repetitions or deletions evenly.
  */
module RateMatch {
  import opened Words

  // ---------------------------------------------------------------- repetition

  /** Extra copies inserted among the first `m` inputs: the ceiling of `m * dN / nIn`. */
  function Repeats(nIn: nat, dN: nat, m: nat): nat
    requires nIn > 0
  {
    (m * dN + nIn - 1) / nIn
  }

  /** The accumulator after `m` inputs and `r` extra copies. */
  function Debt(nIn: nat, dN: nat, m: nat, r: nat): int {
    1 - 2 * (m * dN) + 2 * (nIn * r)
  }

  lemma DebtStep(nIn: nat, dN: nat, m: nat, r: nat)
    ensures Debt(nIn, dN, m + 1, r) == Debt(nIn, dN, m, r) - 2 * dN
    ensures Debt(nIn, dN, m, r + 1) == Debt(nIn, dN, m, r) + 2 * nIn
  {
    assert (m + 1) * dN == m * dN + dN;
    assert nIn * (r + 1) == nIn * r + nIn;
  }

  lemma CeilDiv(a: nat, n: nat, r: nat)
    requires n > 0
    ensures n * r < a <==> r < (a + n - 1) / n
  {
    var q := (a + n - 1) / n;
    var z := (a + n - 1) % n;
    assert a + n - 1 == n * q + z;
    if r < q {
      assert n * (r + 1) <= n * q;
      assert n * (r + 1) == n * r + n;
    } else {
      assert n * q <= n * r;
    }
  }

  /** The accumulator is not positive exactly while copies are owed. */
  lemma DebtSign(nIn: nat, dN: nat, m: nat, r: nat)
    requires nIn > 0
    ensures Debt(nIn, dN, m, r) <= 0 <==> r < Repeats(nIn, dN, m)
  {
    CeilDiv(m * dN, nIn, r);
  }

  lemma RepeatsEnds(nIn: nat, dN: nat)
    requires nIn > 0
    ensures Repeats(nIn, dN, 0) == 0 && Repeats(nIn, dN, nIn) == dN
  {
    hide Repeats;
    DebtSign(nIn, dN, nIn, dN);
    DebtSign(nIn, dN, 0, 0);
    if dN > 0 {
      DebtSign(nIn, dN, nIn, dN - 1);
      DebtStep(nIn, dN, nIn, dN - 1);
    }
  }

  lemma Quotient(d: nat, n: nat)
    requires n > 0
    ensures n * (d / n) <= d < n * (d / n) + n
  {
  }

  /** One input gets `dN / nIn` or one more extra copies. */
  lemma RepeatsStep(nIn: nat, dN: nat, m: nat)
    requires nIn > 0
    ensures dN / nIn <= Repeats(nIn, dN, m + 1) - Repeats(nIn, dN, m) <= dN / nIn + 1
  {
    hide Repeats;
    AtMost(nIn, dN, m, Repeats(nIn, dN, m), dN / nIn);
    AtLeast(nIn, dN, m, Repeats(nIn, dN, m), dN / nIn);
  }

  lemma AtMost(nIn: nat, dN: nat, m: nat, r: nat, q: nat)
    requires nIn > 0 && q == dN / nIn && r == Repeats(nIn, dN, m)
    ensures Repeats(nIn, dN, m + 1) <= r + q + 1
  {
    hide Repeats, Debt;
    Quotient(dN, nIn);
    Distribute(nIn, q);
    DebtSign(nIn, dN, m, r);
    DebtSign(nIn, dN, m + 1, r + q + 1);
    DebtStep(nIn, dN, m, r + q + 1);
    DebtSum(nIn, dN, m, r, q + 1);
  }

  lemma AtLeast(nIn: nat, dN: nat, m: nat, r: nat, q: nat)
    requires nIn > 0 && q == dN / nIn && r == Repeats(nIn, dN, m)
    ensures r + q <= Repeats(nIn, dN, m + 1)
  {
    hide Repeats, Debt;
    Quotient(dN, nIn);
    if r > 0 {
      DebtSign(nIn, dN, m + 1, r + q - 1);
      DebtStep(nIn, dN, m, r + q - 1);
      DebtSign(nIn, dN, m, r - 1);
      DebtSum(nIn, dN, m, r - 1, q);
    } else if q > 0 {
      DebtSign(nIn, dN, m + 1, q - 1);
      DebtStep(nIn, dN, m, q - 1);
      DebtZero(nIn, dN, m);
      DebtSum(nIn, dN, m, 0, q - 1);
      Distribute(nIn, q - 1);
    }
  }

  lemma Distribute(n: nat, q: nat)
    ensures n * (q + 1) == n * q + n
  {
  }

  lemma DebtSum(nIn: nat, dN: nat, m: nat, r: nat, q: nat)
    ensures Debt(nIn, dN, m, r + q) == Debt(nIn, dN, m, r) + 2 * (nIn * q)
  {
    assert nIn * (r + q) == nIn * r + nIn * q;
  }

  lemma DebtZero(nIn: nat, dN: nat, m: nat)
    ensures Debt(nIn, dN, m, 0) <= 1
  {
  }

  function Copies(i: nat, n: nat): (s: seq<nat>)
    ensures |s| == n && forall k | 0 <= k < n :: s[k] == i
  {
    seq(n, _ => i)
  }

  function Multiplicity(nIn: nat, dN: nat, i: nat): (n: nat)
    requires nIn > 0
    ensures n >= 1
  {
    RepeatsStep(nIn, dN, i);
    1 + Repeats(nIn, dN, i + 1) - Repeats(nIn, dN, i)
  }

  /** Source indices of the first `m` inputs with their copies. */
  function Repeated(nIn: nat, dN: nat, m: nat): seq<nat>
    requires nIn > 0
  {
    if m == 0 then [] else Repeated(nIn, dN, m - 1) + Copies(m - 1, Multiplicity(nIn, dN, m - 1))
  }

  /** The accumulator loop. */
  method RepetitionPattern(nIn: nat, nOut: nat) returns (src: seq<nat>)
    requires nIn <= nOut
    ensures src == if nIn == 0 then [] else Repeated(nIn, nOut - nIn, nIn)
  {
    hide Debt, Repeats, Multiplicity;
    var dN := nOut - nIn;
    var ePlus, eMinus := 2 * nIn, 2 * dN;
    var e: int := 1;
    src := [];
    var m := 0;
    if nIn > 0 {
      RepeatsEnds(nIn, dN);
      FirstDebt(nIn, dN);
    }
    while m < nIn
      invariant 0 <= m <= nIn
      invariant nIn > 0 ==> src == Repeated(nIn, dN, m) && e == Debt(nIn, dN, m, Repeats(nIn, dN, m))
      invariant nIn == 0 ==> src == []
    {
      ghost var r, c := Repeats(nIn, dN, m), 0;
      ghost var before := src;
      DebtStep(nIn, dN, m, r);
      RepeatsStep(nIn, dN, m);
      e := e - eMinus;
      src := src + [m];
      DebtSign(nIn, dN, m + 1, r);
      while e <= 0
        invariant r + c <= Repeats(nIn, dN, m + 1)
        invariant e == Debt(nIn, dN, m + 1, r + c) && src == before + Copies(m, c + 1)
        decreases -e
      {
        DebtSign(nIn, dN, m + 1, r + c);
        DebtStep(nIn, dN, m + 1, r + c);
        src := src + [m];
        e := e + ePlus;
        c := c + 1;
      }
      DebtSign(nIn, dN, m + 1, r + c);
      CopiesDone(nIn, dN, m, c);
      m := m + 1;
    }
  }

  lemma FirstDebt(nIn: nat, dN: nat)
    requires nIn > 0
    ensures Debt(nIn, dN, 0, 0) == 1
  {
  }

  lemma CopiesDone(nIn: nat, dN: nat, m: nat, c: nat)
    requires nIn > 0 && Repeats(nIn, dN, m) + c == Repeats(nIn, dN, m + 1)
    ensures Multiplicity(nIn, dN, m) == c + 1
  {
    hide Repeats;
  }

  lemma {:induction false} RepeatedLength(nIn: nat, dN: nat, m: nat)
    requires nIn > 0
    ensures |Repeated(nIn, dN, m)| == m + Repeats(nIn, dN, m)
  {
    hide Repeats;
    RepeatsEnds(nIn, dN);
    if m > 0 { RepeatedLength(nIn, dN, m - 1); }
  }

  lemma {:induction false} RepeatedSorted(nIn: nat, dN: nat, m: nat)
    requires nIn > 0
    ensures forall k | 0 <= k < |Repeated(nIn, dN, m)| :: Repeated(nIn, dN, m)[k] < m
    ensures forall j, k | 0 <= j < k < |Repeated(nIn, dN, m)| :: Repeated(nIn, dN, m)[j] <= Repeated(nIn, dN, m)[k]
  {
    hide Multiplicity;
    if m > 0 { RepeatedSorted(nIn, dN, m - 1); }
  }

  lemma {:induction false} CopiesCount(i: nat, n: nat, x: nat)
    ensures multiset(Copies(i, n))[x] == if x == i then n else 0
  {
    if n > 0 {
      CopiesCount(i, n - 1, x);
      assert Copies(i, n) == Copies(i, n - 1) + [i];
    }
  }

  lemma {:induction false} RepeatedCount(nIn: nat, dN: nat, m: nat, i: nat)
    requires nIn > 0
    ensures multiset(Repeated(nIn, dN, m))[i] == if i < m then Multiplicity(nIn, dN, i) else 0
  {
    hide Multiplicity;
    if m > 0 {
      RepeatedCount(nIn, dN, m - 1, i);
      CopiesCount(m - 1, Multiplicity(nIn, dN, m - 1), i);
    }
  }

  function Times(src: seq<nat>, i: nat): nat { multiset(src)[i] }

  /** Even repetition: exact length, in order, every index, multiplicities within one of each other. */
  ghost predicate Even(src: seq<nat>, nIn: nat, nOut: nat) {
    && |src| == nOut
    && (forall k | 0 <= k < |src| :: src[k] < nIn)
    && (forall j, k | 0 <= j < k < |src| :: src[j] <= src[k])
    && (forall i: nat | i < nIn :: i in src)
    && (forall i: nat, j: nat | i < nIn && j < nIn :: Times(src, i) <= Times(src, j) + 1)
  }

  lemma RepeatedIsEven(nIn: nat, nOut: nat)
    requires 0 < nIn <= nOut
    ensures Even(Repeated(nIn, nOut - nIn, nIn), nIn, nOut)
  {
    hide Repeated, Repeats;
    var dN := nOut - nIn;
    var src := Repeated(nIn, dN, nIn);
    RepeatedLength(nIn, dN, nIn);
    RepeatsEnds(nIn, dN);
    RepeatedSorted(nIn, dN, nIn);
    forall i: nat | i < nIn
      ensures i in src && 1 + dN / nIn <= Times(src, i) <= 2 + dN / nIn
    {
      RepeatedCount(nIn, dN, nIn, i);
      RepeatsStep(nIn, dN, i);
      assert i in multiset(src);
    }
  }

  // ---------------------------------------------------------------- puncturing

  /** The accumulator before input `m`. */
  function Accumulator(eIni: int, ePlus: int, eMinus: int, m: nat): int {
    if m == 0 then eIni
    else
      var e := Accumulator(eIni, ePlus, eMinus, m - 1) - eMinus;
      if e <= 0 then e + ePlus else e
  }

  predicate IsKept(eIni: int, ePlus: int, eMinus: int, m: nat) {
    Accumulator(eIni, ePlus, eMinus, m) - eMinus > 0
  }

  /** Kept indices below `m`. */
  function Kept(eIni: int, ePlus: int, eMinus: int, m: nat): seq<nat> {
    if m == 0 then []
    else Kept(eIni, ePlus, eMinus, m - 1) + if IsKept(eIni, ePlus, eMinus, m - 1) then [m - 1] else []
  }

  method PuncturePattern(nIn: nat, eIni: int, ePlus: int, eMinus: int) returns (keep: seq<nat>)
    ensures keep == Kept(eIni, ePlus, eMinus, nIn)
  {
    var e := eIni;
    keep := [];
    var m := 0;
    while m < nIn
      invariant 0 <= m <= nIn && e == Accumulator(eIni, ePlus, eMinus, m) && keep == Kept(eIni, ePlus, eMinus, m)
    {
      e := e - eMinus;
      if e <= 0 {
        e := e + ePlus;
      } else {
        keep := keep + [m];
      }
      m := m + 1;
    }
  }

  /** Deletions among the first `m` inputs, in closed form. */
  function Deleted(eIni: int, ePlus: int, eMinus: int, m: nat): int
    requires ePlus > 0
  {
    (m * eMinus - eIni) / ePlus + 1
  }

  predicate Proper(eIni: int, ePlus: int, eMinus: int) {
    0 < eMinus <= ePlus && 0 < eIni <= ePlus
  }

  /** The accumulator after `m` inputs and `d` deletions. */
  function Level(eIni: int, ePlus: int, eMinus: int, m: nat, d: int): int {
    eIni - m * eMinus + d * ePlus
  }

  lemma LevelStep(eIni: int, ePlus: int, eMinus: int, m: nat, d: int)
    ensures Level(eIni, ePlus, eMinus, m + 1, d) == Level(eIni, ePlus, eMinus, m, d) - eMinus
    ensures Level(eIni, ePlus, eMinus, m, d + 1) == Level(eIni, ePlus, eMinus, m, d) + ePlus
  {
    assert (m + 1) * eMinus == m * eMinus + eMinus;
    assert (d + 1) * ePlus == d * ePlus + ePlus;
  }

  lemma LessFactor(n: int, p: int, q: int)
    requires n > 0 && n * p < n * q + n
    ensures p <= q
  {
    assert n * (q + 1 - p) == n * q + n - n * p;
    MulSign(n, q + 1 - p);
  }

  lemma FloorUnique(a: int, n: int, q: int)
    requires n > 0 && n * q <= a < n * q + n
    ensures a / n == q
  {
    var p := a / n;
    assert n * p <= a < n * p + n;
    LessFactor(n, p, q);
    LessFactor(n, q, p);
  }

  /** There is one deletion count that keeps the accumulator in range. */
  lemma DeletedIs(eIni: int, ePlus: int, eMinus: int, m: nat, d: int)
    requires ePlus > 0 && 1 <= Level(eIni, ePlus, eMinus, m, d) <= ePlus
    ensures Deleted(eIni, ePlus, eMinus, m) == d
  {
    assert ePlus * (d - 1) == d * ePlus - ePlus;
    FloorUnique(m * eMinus - eIni, ePlus, d - 1);
  }

  lemma FirstLevel(eIni: int, ePlus: int, eMinus: int)
    ensures Level(eIni, ePlus, eMinus, 0, 0) == eIni
  {
  }

  /** The accumulator stays in `1..ePlus` and the deletions are the closed form. */
  lemma {:induction false} AccumulatorInRange(eIni: int, ePlus: int, eMinus: int, m: nat)
    requires Proper(eIni, ePlus, eMinus)
    ensures 1 <= Accumulator(eIni, ePlus, eMinus, m) <= ePlus
    ensures |Kept(eIni, ePlus, eMinus, m)| == m - Deleted(eIni, ePlus, eMinus, m)
    ensures Accumulator(eIni, ePlus, eMinus, m) == Level(eIni, ePlus, eMinus, m, Deleted(eIni, ePlus, eMinus, m))
  {
    hide Deleted, Level;
    if m == 0 {
      FirstLevel(eIni, ePlus, eMinus);
      DeletedIs(eIni, ePlus, eMinus, 0, 0);
    } else {
      AccumulatorInRange(eIni, ePlus, eMinus, m - 1);
      var d := Deleted(eIni, ePlus, eMinus, m - 1);
      LevelStep(eIni, ePlus, eMinus, m - 1, d);
      LevelStep(eIni, ePlus, eMinus, m, d);
      DeletedIs(eIni, ePlus, eMinus, m, if IsKept(eIni, ePlus, eMinus, m - 1) then d else d + 1);
    }
  }

  lemma {:induction false} KeptMembers(eIni: int, ePlus: int, eMinus: int, m: nat)
    ensures forall i | i in Kept(eIni, ePlus, eMinus, m) :: i < m && IsKept(eIni, ePlus, eMinus, i)
    ensures forall i | 0 <= i < m && IsKept(eIni, ePlus, eMinus, i) :: i in Kept(eIni, ePlus, eMinus, m)
  {
    if m > 0 {
      hide IsKept;
      KeptMembers(eIni, ePlus, eMinus, m - 1);
    }
  }

  lemma {:induction false} KeptSorted(eIni: int, ePlus: int, eMinus: int, m: nat)
    ensures forall k | 0 <= k < |Kept(eIni, ePlus, eMinus, m)| :: Kept(eIni, ePlus, eMinus, m)[k] < m
    ensures forall j, k | 0 <= j < k < |Kept(eIni, ePlus, eMinus, m)| :: Kept(eIni, ePlus, eMinus, m)[j] < Kept(eIni, ePlus, eMinus, m)[k]
  {
    if m > 0 {
      hide IsKept;
      KeptSorted(eIni, ePlus, eMinus, m - 1);
    }
  }

  /** An index is kept exactly if the number of deletions does not grow there. */
  lemma KeptByCount(eIni: int, ePlus: int, eMinus: int, m: nat)
    requires Proper(eIni, ePlus, eMinus)
    ensures IsKept(eIni, ePlus, eMinus, m)
       <==> ((m + 1) * eMinus - eIni) / ePlus == (m * eMinus - eIni) / ePlus
  {
    hide Accumulator;
    AccumulatorInRange(eIni, ePlus, eMinus, m);
    AccumulatorInRange(eIni, ePlus, eMinus, m + 1);
    KeptSnoc(eIni, ePlus, eMinus, m);
    assert Deleted(eIni, ePlus, eMinus, m + 1) == ((m + 1) * eMinus - eIni) / ePlus + 1;
    hide IsKept;
  }

  lemma KeptSnoc(eIni: int, ePlus: int, eMinus: int, m: nat)
    ensures |Kept(eIni, ePlus, eMinus, m + 1)|
         == |Kept(eIni, ePlus, eMinus, m)| + if IsKept(eIni, ePlus, eMinus, m) then 1 else 0
  {
  }

  // ---------------------------------------------------------------- soft values

  /** The bits sent for a pattern. */
  method ApplyPattern(bits: seq<nat>, src: seq<nat>) returns (out: seq<nat>)
    requires forall i | 0 <= i < |src| :: src[i] < |bits|
    ensures |out| == |src| && forall i | 0 <= i < |src| :: out[i] == bits[src[i]]
  {
    out := [];
    var i := 0;
    while i < |src|
      invariant 0 <= i <= |src| && |out| == i
      invariant forall j | 0 <= j < i :: out[j] == bits[src[j]]
    {
      out := out + [bits[src[i]]];
      i := i + 1;
    }
  }

  /** Sum of the ratios of the first `n` positions that repeat index `j`. */
  function Collapsed(llr: seq<real>, src: seq<nat>, n: nat, j: nat): real
    requires n <= |src| <= |llr|
  {
    if n == 0 then 0.0
    else Collapsed(llr, src, n - 1, j) + if src[n - 1] == j then llr[n - 1] else 0.0
  }

  /** All sums. */
  function Collapse(llr: seq<real>, src: seq<nat>, n: nat): (r: seq<real>)
    requires |src| <= |llr|
    ensures |r| == n && forall j | 0 <= j < n :: r[j] == Collapsed(llr, src, |src|, j)
  {
    seq(n, j requires 0 <= j < n => Collapsed(llr, src, |src|, j))
  }

  method CollapseLLR(llr: seq<real>, src: seq<nat>, nIn: nat) returns (out: array<real>)
    requires |src| <= |llr| && forall i | 0 <= i < |src| :: src[i] < nIn
    ensures fresh(out) && out[..] == Collapse(llr, src, nIn)
  {
    out := new real[nIn](_ => 0.0);
    var i := 0;
    while i < |src|
      invariant 0 <= i <= |src|
      invariant forall j | 0 <= j < nIn :: out[j] == Collapsed(llr, src, i, j)
    {
      out[src[i]] := out[src[i]] + llr[i];
      i := i + 1;
    }
  }

  /** The ratio that the last of the first `n` writes leaves at `j`. */
  function Placed(llr: seq<real>, keep: seq<nat>, n: nat, j: nat): real
    requires n <= |keep|
  {
    if n == 0 then 0.0
    else if keep[n - 1] == j && n - 1 < |llr| then llr[n - 1]
    else Placed(llr, keep, n - 1, j)
  }

  /** All places. */
  function Expand(llr: seq<real>, keep: seq<nat>, n: nat): (r: seq<real>)
    ensures |r| == n && forall j | 0 <= j < n :: r[j] == Placed(llr, keep, |keep|, j)
  {
    seq(n, j requires 0 <= j < n => Placed(llr, keep, |keep|, j))
  }

  method ExpandPuncturedLLR(llr: seq<real>, keep: seq<nat>, nIn: nat) returns (out: array<real>)
    requires |keep| <= |llr| && forall i | 0 <= i < |keep| :: keep[i] < nIn
    ensures fresh(out) && out[..] == Expand(llr, keep, nIn)
  {
    out := new real[nIn](_ => 0.0);
    var i := 0;
    while i < |keep|
      invariant 0 <= i <= |keep|
      invariant forall j | 0 <= j < nIn :: out[j] == Placed(llr, keep, i, j)
    {
      out[keep[i]] := llr[i];
      i := i + 1;
    }
  }

  /** Expansion puts each ratio at its index and zero at punctured ones. */
  lemma {:induction false} PlacedAt(llr: seq<real>, keep: seq<nat>, n: nat, j: nat)
    requires n <= |keep| <= |llr|
    requires forall a, b | 0 <= a < b < |keep| :: keep[a] < keep[b]
    ensures forall i | 0 <= i < n && keep[i] == j :: Placed(llr, keep, n, j) == llr[i]
    ensures (forall i | 0 <= i < n :: keep[i] != j) ==> Placed(llr, keep, n, j) == 0.0
  {
    if n > 0 { PlacedAt(llr, keep, n - 1, j); }
  }
}
