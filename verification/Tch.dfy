/**
  The STD-T115 traffic channel's puncturing map
  (internal/std-t115/qpsknarrow/fec/tch.go).
  */
module Tch {
  import opened Words
  import opened RateMatch

  const TURBO_IN := 520
  const TURBO_OUT := 1572
  const CODED := 804
  const X := 524  // positions of each of the three streams
  const DN2 := 384
  const DN3 := 384

  predicate InSecond(k: nat) { IsKept(X, 2 * X, 2 * DN2, k) }

  predicate InThird(k: nat) { IsKept(X, X, DN3, k) }

  /** Turbo output indices transmitted for position `k` of the three streams. */
  function Triple(k: nat): seq<nat> {
    [3 * k] + (if InSecond(k) then [3 * k + 1] else []) + (if InThird(k) then [3 * k + 2] else [])
  }

  function TxPrefix(n: nat): seq<nat> {
    if n == 0 then [] else TxPrefix(n - 1) + Triple(n - 1)
  }

  /** Marks the indices of `keep`. */
  method Marks(keep: seq<nat>, n: nat) returns (marked: array<bool>)
    requires forall i | 0 <= i < |keep| :: keep[i] < n
    ensures fresh(marked) && marked.Length == n && forall k: nat | k < n :: marked[k] <==> k in keep
  {
    marked := new bool[n](_ => false);
    var i := 0;
    while i < |keep|
      invariant 0 <= i <= |keep| && forall k: nat | k < n :: marked[k] <==> k in keep[..i]
    {
      marked[keep[i]] := true;
      i := i + 1;
    }
    assert keep[..i] == keep;
  }

  method TxMap() returns (out: seq<nat>)
    ensures out == TxPrefix(X)
  {
    var x := TURBO_OUT / 3;
    var dn := TURBO_OUT - CODED;
    var dn2 := dn / 2;
    var dn3 := dn - dn2;
    hide IsKept, Kept, Accumulator, TxPrefix;
    var keep2 := PuncturePattern(x, x, 2 * x, 2 * dn2);
    var keep3 := PuncturePattern(x, x, 1 * x, 1 * dn3);
    KeptSorted(X, 2 * X, 2 * DN2, x);
    KeptSorted(X, X, DN3, x);
    var in2 := Marks(keep2, x);
    var in3 := Marks(keep3, x);
    forall k: nat | k < x
      ensures (in2[k] <==> InSecond(k)) && (in3[k] <==> InThird(k))
    {
      KeptIff(X, 2 * X, 2 * DN2, x, k);
      KeptIff(X, X, DN3, x, k);
    }
    out := Merge(in2, in3);
  }

  /** Systematic bits with the marked bits of both parity streams. */
  method Merge(in2: array<bool>, in3: array<bool>) returns (out: seq<nat>)
    requires in2.Length == in3.Length
    requires forall k: nat | k < in2.Length :: (in2[k] <==> InSecond(k)) && (in3[k] <==> InThird(k))
    ensures out == TxPrefix(in2.Length)
  {
    hide InSecond, InThird;
    out := [];
    var k := 0;
    while k < in2.Length
      invariant 0 <= k <= in2.Length && out == TxPrefix(k)
    {
      out := out + [3 * k];
      if in2[k] {
        out := out + [3 * k + 1];
      }
      if in3[k] {
        out := out + [3 * k + 2];
      }
      assert out == TxPrefix(k) + Triple(k);
      k := k + 1;
    }
  }

  lemma KeptIff(eIni: int, ePlus: int, eMinus: int, n: nat, k: nat)
    requires k < n
    ensures k in Kept(eIni, ePlus, eMinus, n) <==> IsKept(eIni, ePlus, eMinus, k)
  {
    hide IsKept;
    KeptMembers(eIni, ePlus, eMinus, n);
  }

  lemma {:induction false} TxLength(n: nat)
    ensures |TxPrefix(n)| == n + |Kept(X, 2 * X, 2 * DN2, n)| + |Kept(X, X, DN3, n)|
  {
    if n > 0 {
      hide IsKept;
      TxLength(n - 1);
    }
  }

  lemma {:induction false} TxSorted(n: nat)
    ensures forall i | 0 <= i < |TxPrefix(n)| :: TxPrefix(n)[i] < 3 * n
    ensures forall i, j | 0 <= i < j < |TxPrefix(n)| :: TxPrefix(n)[i] < TxPrefix(n)[j]
  {
    if n > 0 {
      hide InSecond, InThird;
      TxSorted(n - 1);
    }
  }

  lemma {:induction false} TxSystematic(n: nat, k: nat)
    requires k < n
    ensures 3 * k in TxPrefix(n)
  {
    if k < n - 1 { TxSystematic(n - 1, k); }
  }

  /** The map is strictly increasing, fills the burst and sends every systematic bit. */
  ghost predicate GoodMap(tx: seq<nat>) {
    && |tx| == CODED
    && (forall i | 0 <= i < |tx| :: tx[i] < TURBO_OUT)
    && (forall i, j | 0 <= i < j < |tx| :: tx[i] < tx[j])
    && (forall k: nat | k < X :: 3 * k in tx)
  }

  lemma MapIsGood()
    ensures GoodMap(TxPrefix(X))
  {
    hide TxPrefix;
    PrefixIsGood(X);
  }

  /** Each parity stream loses 384 of its 524 bits. */
  lemma Counts()
    ensures Deleted(X, 2 * X, 2 * DN2, X) == 384 && Deleted(X, X, DN3, X) == 384
  {
  }

  lemma PrefixIsGood(n: nat)
    requires n == X
    ensures GoodMap(TxPrefix(n))
  {
    hide TxPrefix, Kept, Accumulator, Deleted;
    Counts();
    TxLength(n);
    AccumulatorInRange(X, 2 * X, 2 * DN2, n);
    AccumulatorInRange(X, X, DN3, n);
    TxSorted(n);
    forall k: nat | k < X
      ensures 3 * k in TxPrefix(n)
    {
      TxSystematic(n, k);
    }
  }

  lemma {:induction false} TxContains(n: nat, k: nat)
    requires k < n
    ensures 3 * k + 1 in TxPrefix(n) <==> InSecond(k)
    ensures 3 * k + 2 in TxPrefix(n) <==> InThird(k)
  {
    hide InSecond, InThird;
    if k < n - 1 {
      TxContains(n - 1, k);
    } else {
      TxSorted(n - 1);
    }
  }

  /** Exactly these turbo outputs are sent: all systematic bits, and of each parity stream 140 of 524, evenly spread. */
  lemma TxMembers(k: nat)
    requires k < 524
    ensures 3 * k in TxPrefix(524)
    ensures 3 * k + 1 in TxPrefix(524) <==> (768 * (k + 1) - 524) / 1048 == (768 * k - 524) / 1048
    ensures 3 * k + 2 in TxPrefix(524) <==> (384 * (k + 1) - 524) / 524 == (384 * k - 524) / 524
  {
    hide TxPrefix, IsKept;
    TxSystematic(524, k);
    TxContains(524, k);
    KeptByCount(524, 1048, 768, k);
    KeptByCount(524, 524, 384, k);
  }

  method ExpandLLR(llr: seq<real>, txMap: seq<nat>) returns (out: array<real>)
    requires forall i | 0 <= i < |txMap| :: txMap[i] < TURBO_OUT
    ensures fresh(out) && out[..] == Expand(llr, txMap, TURBO_OUT)
  {
    out := new real[TURBO_OUT](_ => 0.0);
    var i := 0;
    while i < |txMap|
      invariant 0 <= i <= |txMap|
      invariant forall j | 0 <= j < TURBO_OUT :: out[j] == Placed(llr, txMap, i, j)
    {
      if i < |llr| {
        out[txMap[i]] := llr[i];
      }
      i := i + 1;
    }
  }
}
