/**
  Blind identification of the STD-T115 scrambling initial value
  (internal/std-t115/qpsknarrow/fec/scramblesearch.go).

  The control channel repeats coded bits.  Two transmissions of the same bit
  differ exactly in their scrambling bits, which is one parity equation on the
  initial value; a Walsh-Hadamard transform scores all 65536 values at once.
  */
module ScrambleSearch {
  import opened Words
  import opened Walsh
  import opened Channels
  import opened Bcjr
  import opened Turbo
  import RateMatch
  import Lfsr16
  import Crc

  const INITS := 0x1_0000

  type Word = Crc.Word

  // ---------------------------------------------------------------- parity equations

  /** Whether scrambling bits `p` and `q` differ for an initial value. */
  function Diff(s: Word, p: nat, q: nat): Bit { Xor1(Lfsr16.Out(s, p), Lfsr16.Out(s, q)) }

  lemma DiffLinear(a: Word, b: Word, p: nat, q: nat)
    ensures Diff(Crc.Xor16(a, b), p, q) == Xor1(Diff(a, p, q), Diff(b, p, q))
  {
    hide Crc.Xor16, Lfsr16.Out;
    Lfsr16.OutLinear(a, b, p);
    Lfsr16.OutLinear(a, b, q);
    XorAssoc4(Lfsr16.Out(a, p), Lfsr16.Out(b, p), Lfsr16.Out(a, q), Lfsr16.Out(b, q));
  }

  lemma DiffZero(p: nat, q: nat)
    ensures Diff(0, p, q) == 0
  {
    hide Diff;
    DiffLinear(0, 0, p, q);
    XorSelf(0);
  }

  lemma {:induction false} XorPut(s: nat, n: nat)
    requires s < Pow2(n)
    ensures Xor(s, Pow2(n)) == s + Pow2(n)
  {
    if n == 0 {
      XorZero(1);
    } else {
      XorPut(s / 2, n - 1);
      XorHalves(s, Pow2(n));
    }
  }

  lemma {:induction false} DotUnit(a: nat, j: nat)
    ensures Dot(a, Pow2(j)) == BitAt(a, j)
  {
    DotStep(a, Pow2(j));
    if j == 0 {
      assert Pow2(0) == 1 && And(a / 2, 0) == 0;
    } else {
      DotUnit(a / 2, j - 1);
    }
  }

  /** Bits of the mask say for which single-bit initial values the two positions differ. */
  ghost predicate IsMask(m: nat, n: nat, p: nat, q: nat)
    requires n <= 16
  {
    forall j: nat | j < n :: Unit(j) < INITS && BitAt(m, j) == Diff(Unit(j), p, q)
  }

  function Unit(j: nat): nat { Pow2(j) }

  lemma UnitIsWord(j: nat)
    requires j < 16
    ensures Unit(j) < INITS
  {
    Pow2Mono(j, 15);
    Crc.Pow15();
  }

  /** The mask's parity with an initial value says whether the two scrambling bits differ. */
  lemma {:induction false} MaskParity(m: nat, n: nat, s: nat, p: nat, q: nat)
    requires n <= 16 && s < Pow2(n) && IsMask(m, n, p, q)
    ensures s < INITS && Dot(m, s) == Diff(s, p, q)
  {
    Crc.Pow15();
    Pow2Mono(n, 16);
    if n == 0 {
      DiffZero(p, q);
      assert And(m, 0) == 0;
    } else if s < Pow2(n - 1) {
      MaskParity(m, n - 1, s, p, q);
    } else {
      var s0 := s - Pow2(n - 1);
      MaskParity(m, n - 1, s0, p, q);
      UnitIsWord(n - 1);
      MaskBit(m, n, s0, p, q);
    }
  }

  lemma MaskBit(m: nat, n: nat, s0: nat, p: nat, q: nat)
    requires 0 < n <= 16 && s0 < Pow2(n - 1) && s0 + Pow2(n - 1) < INITS && IsMask(m, n, p, q)
    requires s0 < INITS && Dot(m, s0) == Diff(s0, p, q)
    ensures Dot(m, s0 + Pow2(n - 1)) == Diff(s0 + Pow2(n - 1), p, q)
  {
    hide Diff, Dot, Pow2, Xor;
    var u := Unit(n - 1);
    XorPut(s0, n - 1);
    DotXor(m, s0, u);
    DotUnit(m, n - 1);
    DiffLinear(s0, u, p, q);
  }

  // ---------------------------------------------------------------- masks

  lemma {:induction false} SetBitBound(v: nat, j: nat, n: nat)
    requires v < Pow2(n) && j < n
    ensures SetBit(v, j) < Pow2(n)
  {
    hide SetBit;
    var h := Pow2(n - 1);
    assert Pow2(n) == 2 * h;
    hide Pow2;
    SetBitHalves(v, j);
    assert v / 2 < h;
    if j > 0 { SetBitBound(v / 2, j - 1, n - 1); }
    assert SetBit(v, j) / 2 < h;
  }

  /** The scrambling sequences of the sixteen single-bit initial values, top bit first. */
  ghost predicate IsBasis(basis: seq<seq<nat>>) {
    |basis| == 16 && forall b | 0 <= b < 16 :: BasisRow(basis[b], 15 - b)
  }

  ghost predicate BasisRow(row: seq<nat>, j: nat) {
    Unit(j) < INITS && |row| == CCH_CODED && forall p | 0 <= p < CCH_CODED :: row[p] == Lfsr16.Out(Unit(j), p)
  }

  method ScrambleBasis() returns (basis: seq<seq<nat>>)
    ensures IsBasis(basis)
  {
    hide Lfsr16.Out;
    basis := [];
    var i := 0;
    while i < 16
      invariant 0 <= i <= 16 && |basis| == i && forall b | 0 <= b < i :: BasisRow(basis[b], 15 - b)
    {
      UnitIsWord(15 - i);
      var row := Lfsr16.Scramble(Unit(15 - i), CCH_CODED);
      basis := basis + [row];
      i := i + 1;
    }
  }

  /** `m` is a 16-bit word and the mask of positions `p` and `q`. */
  ghost predicate MaskFor(m: nat, p: nat, q: nat) { m < INITS && IsMask(m, 16, p, q) }

  /** Bits at and above `lo` are final, those below still clear. */
  ghost predicate MaskAbove(m: nat, lo: nat, p: nat, q: nat) {
    m < Pow2(16) && forall j: nat | j < 16 :: Unit(j) < INITS && BitAt(m, j) == if j >= lo then Diff(Unit(j), p, q) else 0
  }

  method MaskOf(basis: seq<seq<nat>>, p: nat, q: nat) returns (m: nat)
    requires IsBasis(basis) && p < CCH_CODED && q < CCH_CODED
    ensures MaskFor(m, p, q)
  {
    hide Lfsr16.Out, BitAt, SetBit, Pow2, Unit;
    m := 0;
    MaskStart(p, q);
    var b := 0;
    while b < 16
      invariant 0 <= b <= 16 && MaskAbove(m, 16 - b, p, q)
    {
      assert BasisRow(basis[b], 15 - b);
      MaskStep(m, 15 - b, p, q);
      if basis[b][p] != basis[b][q] {
        m := SetBit(m, 15 - b);
      }
      b := b + 1;
    }
    Crc.Pow15();
  }

  lemma MaskStart(p: nat, q: nat)
    ensures MaskAbove(0, 16, p, q)
  {
    hide Diff;
    forall j: nat | j < 16
      ensures Unit(j) < INITS && BitAt(0, j) == 0
    {
      UnitIsWord(j);
      BitOfSmall(0, j);
    }
  }

  lemma MaskStep(m: nat, j: nat, p: nat, q: nat)
    requires j < 16 && Unit(j) < INITS && MaskAbove(m, j + 1, p, q)
    ensures MaskAbove(if Diff(Unit(j), p, q) == 1 then SetBit(m, j) else m, j, p, q)
  {
    hide Diff, SetBit, BitAt, Pow2, Unit;
    SetBitBound(m, j, 16);
    forall i: nat | i < 16
      ensures BitAt(SetBit(m, j), i) == if i == j then 1 else BitAt(m, i)
    {
      SetBitBits(m, j, i);
    }
  }

  // ---------------------------------------------------------------- repetition pairs

  type Pair = (nat, nat)

  /** Two positions that carry the same coded bit. */
  predicate SameBit(src: seq<nat>, p: Pair) {
    p.0 < p.1 < |src| && src[p.0] == src[p.1]
  }

  /** First position below `n` with source index `v`, or `n`. */
  function FirstAt(src: seq<nat>, n: nat, v: nat): (r: nat)
    requires n <= |src|
    ensures r <= n && (r < n ==> src[r] == v) && forall i | 0 <= i < r :: src[i] != v
  {
    if n == 0 then 0
    else
      var r := FirstAt(src, n - 1, v);
      if r < n - 1 then r else if src[n - 1] == v then n - 1 else n
  }

  /** Every repeated position paired with the first one of its bit. */
  function PairsOf(src: seq<nat>, n: nat): seq<Pair>
    requires n <= |src|
  {
    if n == 0 then []
    else PairsOf(src, n - 1) + var f := FirstAt(src, n - 1, src[n - 1]); if f < n - 1 then [(f, n - 1)] else []
  }

  lemma {:induction false} PairsAreSame(src: seq<nat>, n: nat)
    requires n <= |src|
    ensures forall k | 0 <= k < |PairsOf(src, n)| :: SameBit(src, PairsOf(src, n)[k])
  {
    if n > 0 { PairsAreSame(src, n - 1); }
  }

  /** One equation for each position beyond the first of its bit. */
  lemma {:induction false} PairsCount(src: seq<nat>, nIn: nat, n: nat)
    requires n <= |src| && RateMatch.Even(src, nIn, |src|)
    ensures |PairsOf(src, n)| + (if n == 0 then 0 else src[n - 1] + 1) == n
  {
    if n > 0 {
      PairsCount(src, nIn, n - 1);
      var v, f := src[n - 1], FirstAt(src, n - 1, src[n - 1]);
      NoGap(src, nIn, n - 1);
      if n > 1 && f < n - 1 {
        assert src[f] <= src[n - 2] <= v;
      }
      if n > 1 && f == n - 1 {
        assert src[n - 2] != v && src[n - 2] <= v;
      }
    }
  }

  lemma NoGap(src: seq<nat>, nIn: nat, i: nat)
    requires i < |src| && RateMatch.Even(src, nIn, |src|)
    ensures src[i] <= if i == 0 then 0 else src[i - 1] + 1
  {
    var v: nat := if i == 0 then 0 else src[i - 1] + 1;
    if v < nIn {
      assert v in src;
      var j :| 0 <= j < |src| && src[j] == v;
      assert j >= i;
    }
  }

  method CchRepetitionPairs() returns (pairs: seq<Pair>)
    ensures |ControlMap()| == CCH_CODED && |pairs| == CCH_CODED - CCH_TURBO_OUT
    ensures pairs == PairsOf(ControlMap(), CCH_CODED)
    ensures forall k | 0 <= k < |pairs| :: SameBit(ControlMap(), pairs[k])
  {
    hide RateMatch.Repeated, PairsOf, FirstAt;
    RateMatch.RepeatedIsEven(CCH_TURBO_OUT, CCH_CODED);
    var src := RateMatch.RepetitionPattern(CCH_TURBO_OUT, CCH_CODED);
    pairs := CollectPairs(src, CCH_TURBO_OUT);
    PairsAreSame(src, CCH_CODED);
    PairsCount(src, CCH_TURBO_OUT, CCH_CODED);
    LastIndex(src, CCH_TURBO_OUT);
  }

  lemma LastIndex(src: seq<nat>, nIn: nat)
    requires nIn > 0 && RateMatch.Even(src, nIn, |src|)
    ensures |src| > 0 && src[|src| - 1] == nIn - 1
  {
    assert nIn - 1 in src;
    var j :| 0 <= j < |src| && src[j] == nIn - 1;
    assert src[j] <= src[|src| - 1];
  }

  method CollectPairs(src: seq<nat>, nIn: nat) returns (pairs: seq<Pair>)
    requires forall i | 0 <= i < |src| :: src[i] < nIn
    ensures pairs == PairsOf(src, |src|)
  {
    var first := new int[nIn](_ => -1);
    pairs := [];
    var pos := 0;
    while pos < |src|
      invariant 0 <= pos <= |src| && pairs == PairsOf(src, pos)
      invariant forall v: nat | v < nIn :: first[v] == if FirstAt(src, pos, v) < pos then FirstAt(src, pos, v) else -1
    {
      var v := src[pos];
      if first[v] < 0 {
        first[v] := pos;
      } else {
        pairs := pairs + [(first[v], pos)];
      }
      pos := pos + 1;
    }
  }

  // ---------------------------------------------------------------- scores

  function MinAbs(a: real, b: real): real { if Abs(a) < Abs(b) then Abs(a) else Abs(b) }

  /** Weight of one equation: positive if the two values agree in sign. */
  function Weight(llr: seq<real>, p: Pair): real
    requires p.0 < |llr| && p.1 < |llr|
  {
    var a, b := llr[p.0], llr[p.1];
    if (a < 0.0) != (b < 0.0) then -MinAbs(a, b) else MinAbs(a, b)
  }

  ghost predicate InRange(pairs: seq<Pair>, n: nat) {
    forall k | 0 <= k < |pairs| :: pairs[k].0 < n && pairs[k].1 < n
  }

  /** What the first `k` equations of a frame say for the initial value `s`. */
  ghost function FrameScore(pairs: seq<Pair>, masks: seq<nat>, llr: seq<real>, k: nat, s: nat): real
    requires k <= |pairs| == |masks| && InRange(pairs, |llr|)
  {
    if k == 0 then 0.0
    else FrameScore(pairs, masks, llr, k - 1, s) + Signed(Weight(llr, pairs[k - 1]), masks[k - 1], s)
  }

  ghost function FrameTotal(pairs: seq<Pair>, llr: seq<real>, k: nat): real
    requires k <= |pairs| && InRange(pairs, |llr|)
  {
    if k == 0 then 0.0 else FrameTotal(pairs, llr, k - 1) + Abs(Weight(llr, pairs[k - 1]))
  }

  ghost predicate Frames(pairs: seq<Pair>, added: seq<seq<real>>) {
    forall i | 0 <= i < |added| :: |added[i]| == CCH_CODED && InRange(pairs, |added[i]|)
  }

  ghost function Score(pairs: seq<Pair>, masks: seq<nat>, added: seq<seq<real>>, s: nat): real
    requires |pairs| == |masks| && Frames(pairs, added)
  {
    if added == [] then 0.0
    else
      var n := |added| - 1;
      Score(pairs, masks, added[..n], s) + FrameScore(pairs, masks, added[n], |pairs|, s)
  }

  ghost function Total(pairs: seq<Pair>, added: seq<seq<real>>): real
    requires Frames(pairs, added)
  {
    if added == [] then 0.0
    else
      var n := |added| - 1;
      Total(pairs, added[..n]) + FrameTotal(pairs, added[n], |pairs|)
  }

  lemma SignedBound(x: real, m: nat, s: nat)
    ensures -Abs(x) <= Signed(x, m, s) <= Abs(x)
  {
  }

  lemma {:induction false} FrameBound(pairs: seq<Pair>, masks: seq<nat>, llr: seq<real>, k: nat, s: nat)
    requires k <= |pairs| == |masks| && InRange(pairs, |llr|)
    ensures FrameScore(pairs, masks, llr, k, s) <= FrameTotal(pairs, llr, k) && FrameTotal(pairs, llr, k) >= 0.0
  {
    if k > 0 {
      hide Weight, Signed;
      FrameBound(pairs, masks, llr, k - 1, s);
      SignedBound(Weight(llr, pairs[k - 1]), masks[k - 1], s);
    }
  }

  /** No initial value scores more than the total weight. */
  lemma {:induction false} ScoreBound(pairs: seq<Pair>, masks: seq<nat>, added: seq<seq<real>>, s: nat)
    requires |pairs| == |masks| && Frames(pairs, added)
    ensures Score(pairs, masks, added, s) <= Total(pairs, added) && Total(pairs, added) >= 0.0
  {
    if added != [] {
      var n := |added| - 1;
      ScoreBound(pairs, masks, added[..n], s);
      FrameBound(pairs, masks, added[n], |pairs|, s);
    }
  }

  /** The frame is a repeated code word scrambled with `s`, received without a sign error. */
  ghost predicate ScrambledBy(llr: seq<real>, s: nat) {
    && |ControlMap()| == CCH_CODED && (forall i | 0 <= i < CCH_CODED :: ControlMap()[i] < CCH_TURBO_OUT)
    && exists cw: seq<nat> :: |cw| == CCH_TURBO_OUT && IsBits(cw) && NoneAgainst(Scrambled(Picked(cw, ControlMap()), s), llr)
  }

  ghost predicate GoodEquations(pairs: seq<Pair>, masks: seq<nat>) {
    && |pairs| == |masks|
    && forall k | 0 <= k < |pairs| :: SameBit(ControlMap(), pairs[k]) && MaskFor(masks[k], pairs[k].0, pairs[k].1)
  }

  /** Every equation votes for the initial value in use with its full weight. */
  lemma EquationHolds(llr: seq<real>, s: nat, p: Pair, m: nat)
    requires s < INITS && ScrambledBy(llr, s) && |llr| == CCH_CODED
    requires SameBit(ControlMap(), p) && MaskFor(m, p.0, p.1)
    ensures Signed(Weight(llr, p), m, s) == Abs(Weight(llr, p))
  {
    hide ControlMap, IsMask, Lfsr16.Out, Dot;
    Crc.Pow15();
    MaskParity(m, 16, s, p.0, p.1);
    var cw: seq<nat> :| |cw| == CCH_TURBO_OUT && IsBits(cw) && NoneAgainst(Scrambled(Picked(cw, ControlMap()), s), llr);
    var sent := Scrambled(Picked(cw, ControlMap()), s);
    assert Agrees(sent[p.0], llr[p.0]) && Agrees(sent[p.1], llr[p.1]);
    assert s % 0x1_0000 == s;
    XorShared(cw[ControlMap()[p.0]], Lfsr16.Out(s, p.0), Lfsr16.Out(s, p.1));
    assert sent[p.0] == sent[p.1] <==> Diff(s, p.0, p.1) == 0;
  }

  lemma XorShared(c: Bit, x: Bit, y: Bit)
    ensures Xor1(c, x) == Xor1(c, y) <==> Xor1(x, y) == 0
  {
  }

  lemma {:induction false} FrameAttains(pairs: seq<Pair>, masks: seq<nat>, llr: seq<real>, k: nat, s: nat)
    requires k <= |pairs| && GoodEquations(pairs, masks) && InRange(pairs, |llr|) && |llr| == CCH_CODED
    requires s < INITS && ScrambledBy(llr, s)
    ensures FrameScore(pairs, masks, llr, k, s) == FrameTotal(pairs, llr, k)
  {
    if k > 0 {
      hide Weight, Signed, ScrambledBy, MaskFor, ControlMap;
      FrameAttains(pairs, masks, llr, k - 1, s);
      EquationHolds(llr, s, pairs[k - 1], masks[k - 1]);
    }
  }

  ghost predicate AllScrambledBy(added: seq<seq<real>>, s: nat) {
    forall i | 0 <= i < |added| :: ScrambledBy(added[i], s)
  }

  /** The initial value in use scores the total weight. */
  lemma {:induction false} ScoreAttains(pairs: seq<Pair>, masks: seq<nat>, added: seq<seq<real>>, s: nat)
    requires GoodEquations(pairs, masks) && Frames(pairs, added) && s < INITS && AllScrambledBy(added, s)
    ensures Score(pairs, masks, added, s) == Total(pairs, added)
  {
    if added != [] {
      hide ScrambledBy, GoodEquations;
      var n := |added| - 1;
      ScoreAttains(pairs, masks, added[..n], s);
      FrameAttains(pairs, masks, added[n], |pairs|, s);
    }
  }

  // ---------------------------------------------------------------- the accumulator

  lemma {:induction false} CorrUpdate(x: seq<real>, base: nat, i: nat, w: real, s: nat)
    requires i < |x|
    ensures Corr(x[i := x[i] + w], base, s) == Corr(x, base, s) + Signed(w, base + i, s)
  {
    var y := x[i := x[i] + w];
    if i == 0 {
      assert y[1..] == x[1..];
    } else {
      assert y[1..] == x[1..][i - 1 := x[1..][i - 1] + w];
      hide Signed;
      CorrUpdate(x[1..], base + 1, i - 1, w, s);
    }
  }

  lemma {:induction false} CorrZeros(x: seq<real>, base: nat, s: nat)
    requires forall i | 0 <= i < |x| :: x[i] == 0.0
    ensures Corr(x, base, s) == 0.0
  {
    if x != [] { CorrZeros(x[1..], base + 1, s); }
  }

  datatype Ratio = Infinite | Finite(r: real)

  datatype Result = Result(init: nat, score: real, confidence: real, prominence: Ratio, frames: nat)

  /** Every repetition of the control channel is among the pairs. */
  ghost predicate AllRepeats(pairs: seq<Pair>) {
    |ControlMap()| == CCH_CODED && pairs == PairsOf(ControlMap(), CCH_CODED)
  }

  /** Pairs of repeated positions and their masks. */
  method Equations() returns (pairs: seq<Pair>, masks: seq<nat>)
    ensures |ControlMap()| == CCH_CODED && |pairs| == |masks| == CCH_CODED - CCH_TURBO_OUT
    ensures GoodEquations(pairs, masks) && InRange(pairs, CCH_CODED) && AllRepeats(pairs)
  {
    hide ControlMap, IsBasis, MaskFor, SameBit, GoodEquations, PairsOf;
    pairs := CchRepetitionPairs();
    PairsInRange(pairs);
    var basis := ScrambleBasis();
    masks := [];
    var k := 0;
    while k < |pairs|
      invariant 0 <= k <= |pairs| && |masks| == k
      invariant forall j | 0 <= j < k :: MaskFor(masks[j], pairs[j].0, pairs[j].1)
    {
      var m := MaskOf(basis, pairs[k].0, pairs[k].1);
      masks := masks + [m];
      k := k + 1;
    }
    EquationsDone(pairs, masks);
  }

  lemma PairsInRange(pairs: seq<Pair>)
    requires |ControlMap()| == CCH_CODED && forall k | 0 <= k < |pairs| :: SameBit(ControlMap(), pairs[k])
    ensures InRange(pairs, CCH_CODED)
  {
    hide ControlMap;
  }

  lemma EquationsDone(pairs: seq<Pair>, masks: seq<nat>)
    requires |pairs| == |masks|
    requires forall k | 0 <= k < |pairs| :: SameBit(ControlMap(), pairs[k])
    requires forall k | 0 <= k < |pairs| :: MaskFor(masks[k], pairs[k].0, pairs[k].1)
    ensures GoodEquations(pairs, masks)
  {
    hide ControlMap, MaskFor, SameBit;
  }

  class ScrambleFinder {
    const pairs: seq<Pair>
    const masks: seq<nat>
    const acc: array<real>
    var frames: nat
    var totalW: real
    ghost var added: seq<seq<real>>

    ghost predicate Wired() {
      && GoodEquations(pairs, masks) && |pairs| == |masks| && AllRepeats(pairs) && InRange(pairs, CCH_CODED)
      && acc.Length == INITS
    }

    ghost predicate Valid()
      reads this, acc
    {
      && Wired() && Frames(pairs, added)
      && frames == |added| && totalW == Total(pairs, added)
      && forall s | 0 <= s < INITS :: Corr(acc[..], 0, s) == Score(pairs, masks, added, s)
    }

    constructor ()
      ensures Valid() && fresh(acc) && added == []
      ensures |pairs| == CCH_CODED - CCH_TURBO_OUT
    {
      hide ControlMap, GoodEquations, AllRepeats;
      var ps, ms := Equations();
      pairs, masks, frames, totalW, added := ps, ms, 0, 0.0, [];
      acc := new real[INITS](_ => 0.0);
      new;
      forall s | 0 <= s < INITS
        ensures Corr(acc[..], 0, s) == 0.0
      {
        CorrZeros(acc[..], 0, s);
      }
    }

    method Reset()
      requires Valid()
      modifies this, acc
      ensures Valid() && added == []
    {
      hide GoodEquations, AllRepeats;
      var i := 0;
      while i < acc.Length
        invariant 0 <= i <= acc.Length && forall j | 0 <= j < i :: acc[j] == 0.0
      {
        acc[i] := 0.0;
        i := i + 1;
      }
      frames, totalW, added := 0, 0.0, [];
      forall s | 0 <= s < INITS
        ensures Corr(acc[..], 0, s) == 0.0
      {
        CorrZeros(acc[..], 0, s);
      }
    }

    /** Add one frame; frames of the wrong length are refused and change nothing. */
    method Add(llr: seq<real>) returns (ok: bool)
      requires Valid()
      modifies this, acc
      ensures Valid() && ok == (|llr| == CCH_CODED)
      ensures added == if ok then old(added) + [llr] else old(added)
    {
      hide GoodEquations, AllRepeats, Signed, Corr, Score, Total, Weight;
      if |llr| != CCH_CODED {
        return false;
      }
      ghost var before := added;
      var k := 0;
      while k < |pairs|
        invariant 0 <= k <= |pairs| && Wired() && added == before && frames == |before|
        invariant totalW == Total(pairs, before) + FrameTotal(pairs, llr, k)
        invariant forall s | 0 <= s < INITS ::
          Corr(acc[..], 0, s) == Score(pairs, masks, before, s) + FrameScore(pairs, masks, llr, k, s)
      {
        var p := pairs[k];
        var a, b := llr[p.0], llr[p.1];
        var w := MinAbs(a, b);
        if (a < 0.0) != (b < 0.0) {
          w := -w;
        }
        WeightIs(llr, p, w);
        MaskRange(pairs, masks, k);
        ghost var was := acc[..];
        acc[masks[k]] := acc[masks[k]] + w;
        assert acc[..] == was[masks[k] := was[masks[k]] + w];
        forall s | 0 <= s < INITS
          ensures Corr(acc[..], 0, s) == Score(pairs, masks, before, s) + FrameScore(pairs, masks, llr, k + 1, s)
        {
          CorrUpdate(was, 0, masks[k], w, s);
        }
        totalW := totalW + Abs(w);
        k := k + 1;
      }
      frames := frames + 1;
      added := added + [llr];
      forall s | 0 <= s < INITS
        ensures Corr(acc[..], 0, s) == Score(pairs, masks, added, s)
      {
        ScoreSnoc(pairs, masks, before, llr, s);
      }
      TotalSnoc(pairs, before, llr);
      return true;
    }

    /** The best initial value, with its confidence. */
    method Best() returns (r: Result)
      requires Valid()
      ensures frames == 0 ==> r == Result(0, 0.0, 0.0, Finite(0.0), 0)
      ensures frames > 0 ==>
        && IsBest(r, pairs, masks, added) && r.frames == frames
        && r.confidence == (if totalW > 0.0 then r.score / totalW else 0.0)
        && r.score <= totalW
        && (forall s | 1 <= s < INITS && AllScrambledBy(added, s) ::
              r.score == totalW && (totalW > 0.0 ==> r.confidence == 1.0))
    {
      hide GoodEquations, AllRepeats, Corr, Score, Total, AllScrambledBy, Transform;
      if frames == 0 {
        return Result(0, 0.0, 0.0, Finite(0.0), 0);
      }
      ghost var a0 := acc[..];
      assert forall s | 0 <= s < INITS :: Corr(a0, 0, s) == Score(pairs, masks, added, s);
      var sc := new real[INITS];
      forall i | 0 <= i < INITS { sc[i] := acc[i]; }
      assert sc[..] == a0;
      Crc.Pow15();
      WalshHadamard(sc, 16);
      assert forall s | 0 <= s < INITS :: sc[..][s] == Corr(a0, 0, s);
      var best, second, bestIdx := FindTop(sc[..]);
      var prom := if Less(Fin(0.0), second) then Finite(best / second.v) else Infinite;
      var conf := if totalW > 0.0 then best / totalW else 0.0;
      r := Result(bestIdx, best, conf, prom, frames);
      TopIsBest(sc[..], r, second, pairs, masks, added);
      ScoreBound(pairs, masks, added, bestIdx);
      SelfRatio(totalW);
      forall s | 1 <= s < INITS && AllScrambledBy(added, s)
        ensures best == totalW
      {
        ScoreAttains(pairs, masks, added, s);
        assert sc[..][s] <= best;
      }
    }
  }

  lemma SelfRatio(x: real)
    ensures x > 0.0 ==> x / x == 1.0
  {
  }

  lemma TopIsBest(sc: seq<real>, r: Result, second: Metric, pairs: seq<Pair>, masks: seq<nat>, added: seq<seq<real>>)
    requires |pairs| == |masks| && Frames(pairs, added) && |sc| == INITS
    requires forall s | 0 <= s < INITS :: sc[s] == Score(pairs, masks, added, s)
    requires IsTop(sc, INITS, r.score, second, r.init)
    requires r.prominence == if Less(Fin(0.0), second) then Finite(r.score / second.v) else Infinite
    ensures IsBest(r, pairs, masks, added)
  {
    hide Score;
    forall s | 1 <= s < INITS
      ensures Score(pairs, masks, added, s) <= r.score && (s < r.init ==> Score(pairs, masks, added, s) < r.score)
    {
      assert sc[s] <= r.score;
    }
    if Less(Fin(0.0), second) {
      var s :| 1 <= s < INITS && s != r.init && sc[s] == second.v;
      assert IsRunnerUp(r, Score(pairs, masks, added, s));
      forall t | 1 <= t < INITS && t != r.init
        ensures Score(pairs, masks, added, t) <= Score(pairs, masks, added, s)
      {
        assert !Less(second, Fin(sc[t]));
      }
    } else {
      forall s | 1 <= s < INITS && s != r.init
        ensures Score(pairs, masks, added, s) <= 0.0
      {
        assert !Less(second, Fin(sc[s]));
      }
    }
  }

  /** The first maximum, and the maximum of the others, over the nonzero indices. */
  ghost predicate IsTop(sc: seq<real>, n: nat, best: real, second: Metric, idx: nat) {
    && n <= |sc| && 1 <= idx < n && sc[idx] == best
    && (forall s | 1 <= s < n :: sc[s] <= best && (s < idx ==> sc[s] < best))
    && (forall s | 1 <= s < n && s != idx :: !Less(second, Fin(sc[s])))
    && (second.Fin? ==> exists s :: 1 <= s < n && s != idx && sc[s] == second.v)
  }

  method FindTop(sc: seq<real>) returns (best: real, second: Metric, bestIdx: nat)
    requires |sc| >= 2
    ensures IsTop(sc, |sc|, best, second, bestIdx)
  {
    var top: Metric := NegInf;
    second, bestIdx, best := NegInf, 0, 0.0;
    var s := 1;
    while s < |sc|
      invariant 1 <= s <= |sc|
      invariant s == 1 ==> top == NegInf && second == NegInf
      invariant s > 1 ==> top == Fin(best) && IsTop(sc, s, best, second, bestIdx)
    {
      var v := sc[s];
      if Less(top, Fin(v)) {
        second, top, best, bestIdx := top, Fin(v), v, s;
      } else if Less(second, Fin(v)) {
        second := Fin(v);
      }
      s := s + 1;
    }
  }

  /** `r` names the first best-scoring nonzero initial value; its prominence compares it with the runner-up. */
  ghost predicate IsBest(r: Result, pairs: seq<Pair>, masks: seq<nat>, added: seq<seq<real>>)
    requires |pairs| == |masks| && Frames(pairs, added)
  {
    && 1 <= r.init < INITS && r.score == Score(pairs, masks, added, r.init)
    && (forall s | 1 <= s < INITS :: Score(pairs, masks, added, s) <= r.score && (s < r.init ==> Score(pairs, masks, added, s) < r.score))
    && (r.prominence == Infinite ==> forall s | 1 <= s < INITS && s != r.init :: Score(pairs, masks, added, s) <= 0.0)
    && (r.prominence != Infinite ==>
          exists s :: 1 <= s < INITS && s != r.init && IsRunnerUp(r, Score(pairs, masks, added, s))
                      && forall t | 1 <= t < INITS && t != r.init :: Score(pairs, masks, added, t) <= Score(pairs, masks, added, s))
  }

  predicate IsRunnerUp(r: Result, second: real) {
    second > 0.0 && r.prominence == Finite(r.score / second)
  }

  lemma WeightIs(llr: seq<real>, p: Pair, w: real)
    requires p.0 < |llr| && p.1 < |llr|
    requires w == if (llr[p.0] < 0.0) != (llr[p.1] < 0.0) then -MinAbs(llr[p.0], llr[p.1]) else MinAbs(llr[p.0], llr[p.1])
    ensures w == Weight(llr, p)
  {
  }

  lemma MaskRange(pairs: seq<Pair>, masks: seq<nat>, k: nat)
    requires k < |pairs| && GoodEquations(pairs, masks)
    ensures |masks| == |pairs| && masks[k] < INITS
  {
    hide IsMask, ControlMap;
  }

  lemma ScoreSnoc(pairs: seq<Pair>, masks: seq<nat>, added: seq<seq<real>>, llr: seq<real>, s: nat)
    requires |pairs| == |masks| && Frames(pairs, added) && |llr| == CCH_CODED && InRange(pairs, |llr|)
    ensures Score(pairs, masks, added + [llr], s)
         == Score(pairs, masks, added, s) + FrameScore(pairs, masks, llr, |pairs|, s)
  {
    hide FrameScore;
    assert (added + [llr])[..|added|] == added;
  }

  lemma TotalSnoc(pairs: seq<Pair>, added: seq<seq<real>>, llr: seq<real>)
    requires Frames(pairs, added) && |llr| == CCH_CODED && InRange(pairs, |llr|)
    ensures Total(pairs, added + [llr]) == Total(pairs, added) + FrameTotal(pairs, llr, |pairs|)
  {
    hide FrameTotal;
    assert (added + [llr])[..|added|] == added;
  }
}
