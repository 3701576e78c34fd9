/**
  Why the blind search of STD-T115 finds the initial value in use
  (internal/std-t115/qpsknarrow/fec/scramblesearch.go): no other value satisfies
  the equations of the repeated bits, because seventeen of them determine the register.
  */
module InitUnique {
  import opened Words
  import opened Walsh
  import opened Channels
  import opened Bcjr
  import opened ScrambleSearch
  import Turbo
  import RateMatch
  import Lfsr16
  import Crc

  // ---------------------------------------------------------------- the register

  /** Adjacent outputs are equal at `k`. */
  predicate Level(z: seq<nat>, k: int)
    requires 0 <= k && k + 1 < |z|
  {
    z[k] == z[k + 1]
  }

  /** Outputs sixteen and more after the start are sums of earlier ones. */
  predicate Fed(z: seq<nat>, k: int)
    requires 16 <= k < |z|
  {
    (z[k] == 1) == (((z[k - 16] == 1) != (z[k - 14] == 1)) != ((z[k - 13] == 1) != (z[k - 11] == 1)))
  }

  lemma AllFed(z: seq<nat>)
    requires |z| == 39 && forall k | 16 <= k < 39 :: Fed(z, k)
    ensures Fed(z, 16) && Fed(z, 17) && Fed(z, 18) && Fed(z, 19) && Fed(z, 20) && Fed(z, 21) && Fed(z, 22) && Fed(z, 23)
    ensures Fed(z, 24) && Fed(z, 25) && Fed(z, 26) && Fed(z, 27) && Fed(z, 28) && Fed(z, 29) && Fed(z, 30) && Fed(z, 31)
    ensures Fed(z, 32) && Fed(z, 33) && Fed(z, 34) && Fed(z, 35) && Fed(z, 36) && Fed(z, 37) && Fed(z, 38)
  {
  }

  /** Level at these seventeen places, the register is empty. */
  lemma SeventeenDecide(z: seq<nat>)
    requires |z| == 39 && IsBits(z) && forall k | 16 <= k < 39 :: Fed(z, k)
    requires Level(z, 0) && Level(z, 2) && Level(z, 4) && Level(z, 6) && Level(z, 9) && Level(z, 11) && Level(z, 13)
    requires Level(z, 16) && Level(z, 18) && Level(z, 20) && Level(z, 23) && Level(z, 25) && Level(z, 27) && Level(z, 30)
    requires Level(z, 32) && Level(z, 34) && Level(z, 37)
    ensures z[0] == 0 && z[1] == 0 && z[2] == 0 && z[3] == 0 && z[4] == 0 && z[5] == 0 && z[6] == 0 && z[7] == 0
    ensures z[8] == 0 && z[9] == 0 && z[10] == 0 && z[11] == 0 && z[12] == 0 && z[13] == 0 && z[14] == 0 && z[15] == 0
  {
    AllFed(z);
  }

  function Outputs(t: Word): (z: seq<nat>)
    ensures |z| == 39 && IsBits(z)
  {
    seq(39, k requires 0 <= k < 39 => Lfsr16.Out(t, k))
  }

  lemma OutputsFed(t: Word)
    ensures forall k | 16 <= k < 39 :: Fed(Outputs(t), k)
  {
    hide Lfsr16.Out;
    forall k | 16 <= k < 39
      ensures Fed(Outputs(t), k)
    {
      Lfsr16.OutIs(t, k);
    }
  }

  /** Where the first seventeen repeated bits are sent. */
  const PLACES: seq<nat> := [0, 2, 4, 6, 9, 11, 13, 16, 18, 20, 23, 25, 27, 30, 32, 34, 37]

  lemma AllLevel(z: seq<nat>)
    requires |z| == 39 && forall i | 0 <= i < 17 :: Level(z, PLACES[i])
    ensures Level(z, 0) && Level(z, 2) && Level(z, 4) && Level(z, 6) && Level(z, 9) && Level(z, 11) && Level(z, 13)
    ensures Level(z, 16) && Level(z, 18) && Level(z, 20) && Level(z, 23) && Level(z, 25) && Level(z, 27) && Level(z, 30)
    ensures Level(z, 32) && Level(z, 34) && Level(z, 37)
  {
    hide Level;
    assert Level(z, PLACES[0]) && Level(z, PLACES[1]) && Level(z, PLACES[2]) && Level(z, PLACES[3]) && Level(z, PLACES[4]);
    assert Level(z, PLACES[5]) && Level(z, PLACES[6]) && Level(z, PLACES[7]) && Level(z, PLACES[8]) && Level(z, PLACES[9]);
    assert Level(z, PLACES[10]) && Level(z, PLACES[11]) && Level(z, PLACES[12]) && Level(z, PLACES[13]);
    assert Level(z, PLACES[14]) && Level(z, PLACES[15]) && Level(z, PLACES[16]);
  }

  lemma LevelIs(t: Word, k: nat)
    requires k < 38 && Diff(t, k, k + 1) == 0
    ensures Level(Outputs(t), k)
  {
    hide Lfsr16.Out;
  }

  /** No nonzero register content satisfies the first seventeen equations. */
  lemma EquationsDecide(t: Word)
    requires forall i | 0 <= i < 17 :: Diff(t, PLACES[i], PLACES[i] + 1) == 0
    ensures t == 0
  {
    hide Lfsr16.Out, Fed, Level, Diff;
    var z := Outputs(t);
    OutputsFed(t);
    forall i | 0 <= i < 17
      ensures Level(z, PLACES[i])
    {
      LevelIs(t, PLACES[i]);
    }
    AllLevel(z);
    SeventeenDecide(z);
    StartZero(t);
    Crc.Pow15();
    AllZeroBits(t, 16);
  }

  lemma StartZero(t: Word)
    requires forall k | 0 <= k < 16 :: Outputs(t)[k] == 0
    ensures forall j: nat | j < 16 :: BitAt(t, j) == 0
  {
    hide Lfsr16.Out;
    forall j: nat | j < 16
      ensures BitAt(t, j) == 0
    {
      Lfsr16.OutIs(t, 15 - j);
      assert Outputs(t)[15 - j] == 0;
    }
  }

  // ---------------------------------------------------------------- where repeated bits are

  /** First place of input `m`. */
  function PlaceOf(m: nat): nat { m + RateMatch.Repeats(348, 264, m) }

  lemma {:induction false} RepeatedPlace(n: nat, m: nat, c: nat)
    requires m < n && c < RateMatch.Multiplicity(348, 264, m)
    ensures PlaceOf(m) + c < |RateMatch.Repeated(348, 264, n)| && RateMatch.Repeated(348, 264, n)[PlaceOf(m) + c] == m
  {
    hide RateMatch.Multiplicity, RateMatch.Repeats;
    RateMatch.RepeatedLength(348, 264, n - 1);
    if m < n - 1 { RepeatedPlace(n - 1, m, c); }
  }

  /** Two adjacent places of a bit are one of the pairs. */
  lemma {:induction false} PairListed(src: seq<nat>, n: nat, k: nat)
    requires k + 1 < n <= |src| && src[k] == src[k + 1] && forall i | 0 <= i < k :: src[i] != src[k]
    ensures (k, k + 1) in PairsOf(src, n)
  {
    if n == k + 2 {
      var f := FirstAt(src, k + 1, src[k + 1]);
      assert f == k;
      var rest := PairsOf(src, n - 1);
      assert PairsOf(src, n) == rest + [(k, k + 1)];
      assert PairsOf(src, n)[|rest|] == (k, k + 1);
    } else {
      PairListed(src, n - 1, k);
    }
  }

  /** The seventeen places are among the equations. */
  lemma PlaceListed(pairs: seq<Pair>, m: nat)
    requires AllRepeats(pairs) && m < 348 && RateMatch.Multiplicity(348, 264, m) == 2
    ensures (PlaceOf(m), PlaceOf(m) + 1) in pairs
  {
    hide RateMatch.Multiplicity, PairsOf, PlaceOf, RateMatch.Repeats, RateMatch.Repeated;
    var src, k := ControlMap(), PlaceOf(m);
    RepeatedPlace(348, m, 0);
    RepeatedPlace(348, m, 1);
    RateMatch.RepeatedSorted(348, 264, 348);
    FirstPlace(m);
    PairListed(src, 612, k);
  }

  /** Nothing before the first place of `m` carries bit `m`. */
  lemma FirstPlace(m: nat)
    requires m < 348
    ensures PlaceOf(m) <= |ControlMap()| && forall i | 0 <= i < PlaceOf(m) :: ControlMap()[i] != m
  {
    hide RateMatch.Repeated, RateMatch.Repeats;
    RateMatch.RepeatedLength(348, 264, m);
    RateMatch.RepeatedSorted(348, 264, m);
    RepeatedPrefix(348, m);
    var early := RateMatch.Repeated(348, 264, m);
    forall i | 0 <= i < PlaceOf(m)
      ensures ControlMap()[i] != m
    {
      assert ControlMap()[i] == ControlMap()[..|early|][i] == early[i];
    }
  }

  lemma {:induction false} RepeatedPrefix(n: nat, m: nat)
    requires m <= n
    ensures |RateMatch.Repeated(348, 264, m)| <= |RateMatch.Repeated(348, 264, n)|
    ensures RateMatch.Repeated(348, 264, n)[..|RateMatch.Repeated(348, 264, m)|] == RateMatch.Repeated(348, 264, m)
  {
    hide RateMatch.Multiplicity;
    if m < n {
      RepeatedPrefix(n - 1, m);
    }
  }

  /** The input whose copies start at place `i` of the list. */
  const INPUTS: seq<nat> := [0, 1, 2, 3, 5, 6, 7, 9, 10, 11, 13, 14, 15, 17, 18, 19, 21]

  lemma InputAt(i: nat)
    requires i < 17
    ensures PlaceOf(INPUTS[i]) == PLACES[i] && RateMatch.Multiplicity(348, 264, INPUTS[i]) == 2
  {
  }

  lemma PlacesListed(pairs: seq<Pair>)
    requires AllRepeats(pairs)
    ensures forall i | 0 <= i < 17 :: (PLACES[i], PLACES[i] + 1) in pairs
  {
    hide AllRepeats, RateMatch.Multiplicity, PlaceOf;
    forall i | 0 <= i < 17
      ensures (PLACES[i], PLACES[i] + 1) in pairs
    {
      InputAt(i);
      PlaceListed(pairs, INPUTS[i]);
    }
  }

  // ---------------------------------------------------------------- scores

  /** An equation weighs as much as the fainter of its two values, and for equal signs is positive. */
  lemma WeightMeaning(llr: seq<real>, p: Pair)
    requires p.0 < |llr| && p.1 < |llr|
    ensures var w, a, b := Weight(llr, p), llr[p.0], llr[p.1];
      && ((a < 0.0) == (b < 0.0) ==> w >= 0.0) && ((a < 0.0) != (b < 0.0) ==> w <= 0.0)
      && (w * w == a * a || w * w == b * b) && w * w <= a * a && w * w <= b * b
  {
    var x, y := MinAbs(llr[p.0], llr[p.1]), if Turbo.Abs(llr[p.0]) < Turbo.Abs(llr[p.1]) then llr[p.1] else llr[p.0];
    SmallerSquare(x, Turbo.Abs(y));
  }

  lemma SmallerSquare(x: real, y: real)
    requires 0.0 <= x <= y
    ensures x * x <= y * y
  {
  }

  /** An equation votes fully for `s`. */
  predicate Votes(pairs: seq<Pair>, masks: seq<nat>, llr: seq<real>, k: nat, s: nat)
    requires k < |pairs| == |masks| && pairs[k].0 < |llr| && pairs[k].1 < |llr|
  {
    Signed(Weight(llr, pairs[k]), masks[k], s) == Turbo.Abs(Weight(llr, pairs[k]))
  }

  /** A value that scores the whole weight of a frame has every equation on its side. */
  lemma {:induction false} FrameVotes(pairs: seq<Pair>, masks: seq<nat>, llr: seq<real>, n: nat, s: nat)
    requires n <= |pairs| == |masks| && InRange(pairs, |llr|)
    requires FrameScore(pairs, masks, llr, n, s) == FrameTotal(pairs, llr, n)
    ensures forall k | 0 <= k < n :: Votes(pairs, masks, llr, k, s)
  {
    if n > 0 {
      FrameBound(pairs, masks, llr, n - 1, s);
      SignedBound(Weight(llr, pairs[n - 1]), masks[n - 1], s);
      hide Weight, Signed;
      FrameVotes(pairs, masks, llr, n - 1, s);
    }
  }

  lemma {:induction false} ScoreVotes(pairs: seq<Pair>, masks: seq<nat>, added: seq<seq<real>>, s: nat, i: nat)
    requires |pairs| == |masks| && Frames(pairs, added) && i < |added|
    requires Score(pairs, masks, added, s) == Total(pairs, added)
    ensures forall k | 0 <= k < |pairs| :: Votes(pairs, masks, added[i], k, s)
  {
    hide FrameScore, FrameTotal, Votes;
    var n := |added| - 1;
    ScoreBound(pairs, masks, added[..n], s);
    FrameBound(pairs, masks, added[n], |pairs|, s);
    if i == n {
      FrameVotes(pairs, masks, added[n], |pairs|, s);
    } else {
      ScoreVotes(pairs, masks, added[..n], s, i);
    }
  }

  /** Two values that an audible equation votes for agree on it. */
  lemma VotesAgree(pairs: seq<Pair>, masks: seq<nat>, llr: seq<real>, k: nat, s: Word, t: Word)
    requires k < |pairs| == |masks| && pairs[k].0 < |llr| && pairs[k].1 < |llr|
    requires llr[pairs[k].0] != 0.0 && llr[pairs[k].1] != 0.0
    requires Votes(pairs, masks, llr, k, s) && Votes(pairs, masks, llr, k, t)
    requires MaskFor(masks[k], pairs[k].0, pairs[k].1)
    ensures Diff(Crc.Xor16(s, t), pairs[k].0, pairs[k].1) == 0
  {
    hide IsMask, Lfsr16.Out, Dot, Crc.Xor16;
    Crc.Pow15();
    var p, q := pairs[k].0, pairs[k].1;
    MaskParity(masks[k], 16, s, p, q);
    MaskParity(masks[k], 16, t, p, q);
    DiffLinear(s, t, p, q);
  }

  predicate NoneSilent(llr: seq<real>) { forall k | 0 <= k < |llr| :: llr[k] != 0.0 }

  /** Some frame was received without a silent position. */
  ghost predicate Audible(added: seq<seq<real>>) { exists i | 0 <= i < |added| :: NoneSilent(added[i]) }

  /** From frames without a sign error, one of them without a silent position, the search finds the value in use. */
  lemma InitFound(pairs: seq<Pair>, masks: seq<nat>, added: seq<seq<real>>, s: Word, r: Result)
    requires GoodEquations(pairs, masks) && AllRepeats(pairs) && Frames(pairs, added) && IsBest(r, pairs, masks, added)
    requires 1 <= s && AllScrambledBy(added, s) && Audible(added)
    ensures r.init == s
  {
    hide Score, Total, AllRepeats, AllScrambledBy, Votes, ControlMap, MaskFor, Crc.Xor16, Diff;
    var i :| 0 <= i < |added| && NoneSilent(added[i]);
    ScoreAttains(pairs, masks, added, s);
    ScoreBound(pairs, masks, added, r.init);
    ScoreVotes(pairs, masks, added, s, i);
    ScoreVotes(pairs, masks, added, r.init, i);
    PlacesListed(pairs);
    var t: Word := r.init;
    forall j | 0 <= j < 17
      ensures Diff(Crc.Xor16(s, t), PLACES[j], PLACES[j] + 1) == 0
    {
      var k :| 0 <= k < |pairs| && pairs[k] == (PLACES[j], PLACES[j] + 1);
      VotesAgree(pairs, masks, added[i], k, s, t);
    }
    EquationsDecide(Crc.Xor16(s, t));
    XorEqual(s, t);
  }

  lemma {:induction false} XorEqual(a: nat, b: nat)
    requires Xor(a, b) == 0
    ensures a == b
    decreases a + b
  {
    if a + b > 0 { XorEqual(a / 2, b / 2); }
  }
}
