/**
  Which scrambling seeds the blind search can tell apart
  (internal/std-t86/fec/seedsearch.go and internal/std-t86/fec/scrambler.go).

  Inside a block the syndrome of every scrambling sequence vanishes, as if the
  sequence were a code word; only the five syndrome bits at either end depend on
  the seed.  Four seeds at a time share all ten of them: `s` and the exclusive or
  of `s` with 231, 379 and 412.
  */
module SeedClasses {
  import opened Words
  import opened Conv
  import opened SeedSearch
  import Lfsr9

  // ---------------------------------------------------------------- the syndrome of a register sequence

  /** A block-long sequence with the scrambler's recurrence. */
  ghost predicate Recurs(z: seq<nat>) {
    IsBits(z) && |z| == 256 && forall k | 9 <= k < 256 :: RecursAt(z, k)
  }

  predicate RecursAt(z: seq<nat>, k: int)
    requires 9 <= k < |z|
  {
    (z[k] == 1) == ((z[k - 9] == 1) != (z[k - 5] == 1))
  }

  /** What symbol pair `m` adds at tap `j`. */
  predicate Tap(z: seq<nat>, m: int, j: nat)
    requires |z| == 256
  {
    0 <= m < 128 && if j == 1 then z[2 * m + 1] == 1 else if j == 2 || j == 4 then z[2 * m] == 1 else z[2 * m] != z[2 * m + 1]
  }

  lemma TapIs(z: seq<nat>, m: int, j: nat)
    requires IsBits(z) && |z| == 256 && j < 6
    ensures On(TermIf(z, 128, m, j)) == Tap(z, m, j)
  {
    hide Term;
    if 0 <= m < 128 {
      TermTaps(z, m, j);
    }
  }

  lemma SixOn(a: Bit, b: Bit, c: Bit, d: Bit, e: Bit, f: Bit)
    ensures On(Xor1(Xor1(Xor1(Xor1(Xor1(a, b), c), d), e), f)) == (((((On(a) != On(b)) != On(c)) != On(d)) != On(e)) != On(f))
  {
  }

  predicate SynAt(z: seq<nat>, i: int)
    requires |z| == 256
  {
    ((((Tap(z, i, 0) != Tap(z, i - 1, 1)) != Tap(z, i - 2, 2)) != Tap(z, i - 3, 3)) != Tap(z, i - 4, 4)) != Tap(z, i - 5, 5)
  }

  lemma SyndromeIs(z: seq<nat>, i: nat)
    requires IsBits(z) && |z| == 256 && i < SYN_BITS
    ensures SyndromeOf(z)[i] == if SynAt(z, i) then 1 else 0
  {
    hide Xor1, TermIf, Window, SynPrefix, Tap;
    SyndromeWindow(z, 128, i);
    SixTerms(z, 128, i);
    SixOn(TermIf(z, 128, i, 0), TermIf(z, 128, i - 1, 1), TermIf(z, 128, i - 2, 2), TermIf(z, 128, i - 3, 3),
          TermIf(z, 128, i - 4, 4), TermIf(z, 128, i - 5, 5));
    TapIs(z, i, 0);
    TapIs(z, i - 1, 1);
    TapIs(z, i - 2, 2);
    TapIs(z, i - 3, 3);
    TapIs(z, i - 4, 4);
    TapIs(z, i - 5, 5);
  }

  /** Inside the block the syndrome of every scrambling sequence vanishes. */
  lemma InsideCancels(z: seq<nat>, i: nat)
    requires Recurs(z) && 5 <= i < 128
    ensures !SynAt(z, i)
  {
    var t := 2 * i - 10;
    assert RecursAt(z, t + 9) && RecursAt(z, t + 10) && RecursAt(z, t + 11);
  }

  lemma OutsideNothing(z: seq<nat>, i: nat)
    requires |z| == 256 && i >= 133
    ensures !SynAt(z, i)
  {
  }

  // ---------------------------------------------------------------- long steps of the register

  /** The recurrence with steps `a` times as long. */
  ghost predicate Strides(z: seq<nat>, a: nat) {
    forall k | 0 <= k && k + 9 * a < |z| :: StridesAt(z, a, k)
  }

  predicate StridesAt(z: seq<nat>, a: nat, k: int)
    requires 0 <= k && k + 9 * a < |z|
  {
    (z[k + 9 * a] == 1) == ((z[k] == 1) != (z[k + 4 * a] == 1))
  }

  /** Squaring the recurrence doubles its steps. */
  lemma Doubles(z: seq<nat>, a: nat)
    requires Strides(z, a)
    ensures Strides(z, 2 * a)
  {
    forall k | 0 <= k && k + 9 * (2 * a) < |z|
      ensures StridesAt(z, 2 * a, k)
    {
      assert StridesAt(z, a, k) && StridesAt(z, a, k + 4 * a) && StridesAt(z, a, k + 9 * a);
    }
  }

  lemma SixteenFold(z: seq<nat>)
    requires Recurs(z)
    ensures Strides(z, 1) && Strides(z, 2) && Strides(z, 4) && Strides(z, 8) && Strides(z, 16)
  {
    forall k | 0 <= k && k + 9 < |z|
      ensures StridesAt(z, 1, k)
    {
      assert RecursAt(z, k + 9);
    }
    Doubles(z, 1);
    Doubles(z, 2);
    Doubles(z, 4);
    Doubles(z, 8);
  }

  /** The last ten bits of the block in terms of early ones. */
  predicate EndAt(z: seq<nat>, j: int)
    requires |z| == 256 && 0 <= j < 10
  {
    (z[246 + j] == 1) == (((((z[6 + j] == 1) != (z[10 + j] == 1)) != (z[12 + j] == 1)) != (z[14 + j] == 1)) != (z[20 + j] == 1))
  }

  lemma EndIs(z: seq<nat>, j: nat)
    requires Recurs(z) && j < 10
    ensures EndAt(z, j)
  {
    SixteenFold(z);
    assert StridesAt(z, 16, 102 + j) && StridesAt(z, 16, 22 + j);
    assert StridesAt(z, 8, 30 + j) && StridesAt(z, 8, 14 + j);
    assert StridesAt(z, 4, 26 + j) && StridesAt(z, 4, 10 + j) && StridesAt(z, 4, 6 + j);
    assert StridesAt(z, 2, 12 + j);
  }

  // ---------------------------------------------------------------- sequences that are code words

  /** The first nine bits of a sequence that the syndrome does not see. */
  predicate Unseen(z: seq<nat>)
    requires |z| >= 9
  {
    && z[1] == z[0] && z[5] == z[0] && z[6] == z[0] && z[7] == z[2]
    && (z[3] == 1) == ((z[0] == 1) != (z[2] == 1)) && z[4] == z[3] && z[8] == z[3]
  }

  /** The first thirty bits follow from nine. */
  lemma FirstThirty(z: seq<nat>)
    requires Recurs(z)
    ensures RecursAt(z, 9) && RecursAt(z, 10) && RecursAt(z, 11) && RecursAt(z, 12) && RecursAt(z, 13) && RecursAt(z, 14)
    ensures RecursAt(z, 15) && RecursAt(z, 16) && RecursAt(z, 17) && RecursAt(z, 18) && RecursAt(z, 19) && RecursAt(z, 20)
    ensures RecursAt(z, 21) && RecursAt(z, 22) && RecursAt(z, 23) && RecursAt(z, 24) && RecursAt(z, 25) && RecursAt(z, 26)
    ensures RecursAt(z, 27) && RecursAt(z, 28) && RecursAt(z, 29)
    ensures EndAt(z, 0) && EndAt(z, 1) && EndAt(z, 2) && EndAt(z, 3) && EndAt(z, 4) && EndAt(z, 5) && EndAt(z, 6)
    ensures EndAt(z, 7) && EndAt(z, 8) && EndAt(z, 9)
  {
    hide RecursAt, EndAt;
    forall j: nat | j < 10
      ensures EndAt(z, j)
    {
      EndIs(z, j);
    }
  }

  /** How many syndrome bits at the ends are set. */
  function EndWeight(z: seq<nat>): nat
    requires |z| == 256
  {
    (if SynAt(z, 0) then 1 else 0) + (if SynAt(z, 1) then 1 else 0) + (if SynAt(z, 2) then 1 else 0)
    + (if SynAt(z, 3) then 1 else 0) + (if SynAt(z, 4) then 1 else 0) + (if SynAt(z, 128) then 1 else 0)
    + (if SynAt(z, 129) then 1 else 0) + (if SynAt(z, 130) then 1 else 0) + (if SynAt(z, 131) then 1 else 0)
    + (if SynAt(z, 132) then 1 else 0)
  }

  lemma UnseenEnds(z: seq<nat>)
    requires Recurs(z) && Unseen(z)
    ensures EndWeight(z) == 0
  {
    FirstThirty(z);
    hide Recurs;
  }

  lemma SeenEnds(z: seq<nat>)
    requires Recurs(z) && !Unseen(z)
    ensures EndWeight(z) >= 2
  {
    FirstThirty(z);
    hide Recurs;
  }

  // ---------------------------------------------------------------- seeds

  /** The seeds that the search cannot tell apart. */
  predicate Alike(a: nat, b: nat) {
    Xor(a, b) == 0 || Xor(a, b) == 231 || Xor(a, b) == 379 || Xor(a, b) == 412
  }

  /** Difference of two scrambling sequences. */
  function Between(a: nat, b: nat): (z: seq<nat>)
    ensures |z| == 256 && IsBits(z)
  {
    XorBits(Lfsr9.Pn(a, 256), Lfsr9.Pn(b, 256))
  }

  lemma BetweenRecurs(a: nat, b: nat)
    ensures Recurs(Between(a, b))
  {
    hide Lfsr9.Pn;
    var z := Between(a, b);
    forall k | 9 <= k < 256
      ensures RecursAt(z, k)
    {
      Lfsr9.PnIs(a, 256, k);
      Lfsr9.PnIs(b, 256, k);
    }
  }

  lemma BetweenStarts(a: nat, b: nat, k: nat)
    requires a < 512 && b < 512 && k < 9
    ensures Between(a, b)[k] == BitAt(Xor(a, b), k)
  {
    hide Lfsr9.Pn, Xor, BitAt;
    Lfsr9.PnIs(a, 256, k);
    Lfsr9.PnIs(b, 256, k);
    BitXor(a, b, k);
    assert a % 512 == a && b % 512 == b;
  }

  /** The starts of the sequences of 0, 231, 379 and 412. */
  function Start(p: bool, q: bool): (s: seq<nat>)
    ensures |s| == 9 && IsBits(s)
  {
    if p then if q then [1, 1, 1, 0, 0, 1, 1, 1, 0] else [1, 1, 0, 1, 1, 1, 1, 0, 1]
    else if q then [0, 0, 1, 1, 1, 0, 0, 1, 1] else [0, 0, 0, 0, 0, 0, 0, 0, 0]
  }

  function Word(p: bool, q: bool): nat { if p then if q then 231 else 379 else if q then 412 else 0 }

  lemma StartSpells(p: bool, q: bool)
    ensures FromBits(Start(p, q)) == Word(p, q)
  {
    assert Pow2(9) == 512;
    forall j | 0 <= j < 9
      ensures Start(p, q)[j] == BitAt(Word(p, q), j)
    {
      BitsOfWords(p, q, j);
    }
    WordOf(Word(p, q), Start(p, q));
  }

  lemma BitsOfWords(p: bool, q: bool, j: nat)
    requires j < 9
    ensures Start(p, q)[j] == BitAt(Word(p, q), j)
  {
    assert BitAt(231, 4) == BitAt(14, 0) && BitAt(231, 8) == BitAt(14, 4) == 0 && BitAt(231, 5) == BitAt(14, 1);
    assert BitAt(379, 4) == BitAt(23, 0) && BitAt(379, 8) == BitAt(23, 4) == 1 && BitAt(379, 5) == BitAt(23, 1);
    assert BitAt(412, 4) == BitAt(25, 0) && BitAt(412, 8) == BitAt(25, 4) == 1 && BitAt(412, 5) == BitAt(25, 1);
    BitOfSmall(0, 0);
  }

  lemma UnseenStarts(z: seq<nat>)
    requires IsBits(z) && |z| >= 9
    ensures Unseen(z) <==> z[..9] == Start(z[0] == 1, z[2] == 1)
  {
    if Unseen(z) {
      assert z[..9] == [z[0], z[1], z[2], z[3], z[4], z[5], z[6], z[7], z[8]];
    }
    if z[..9] == Start(z[0] == 1, z[2] == 1) {
      assert forall j | 0 <= j < 9 :: z[j] == z[..9][j];
    }
  }

  lemma UnseenWords(z: seq<nat>)
    requires IsBits(z) && |z| >= 9
    ensures var x := FromBits(z[..9]);
      Unseen(z) <==> x == 0 || x == 231 || x == 379 || x == 412
  {
    hide FromBits, Start, Unseen;
    UnseenStarts(z);
    StartSpells(z[0] == 1, z[2] == 1);
    forall p: bool, q: bool | FromBits(z[..9]) == Word(p, q)
      ensures Unseen(z)
    {
      StartSpells(p, q);
      FromBitsInjective(z[..9], Start(p, q));
      StartOf(z, p, q);
    }
    assert Word(false, false) == 0 && Word(true, true) == 231 && Word(true, false) == 379 && Word(false, true) == 412;
  }

  lemma StartOf(z: seq<nat>, p: bool, q: bool)
    requires IsBits(z) && |z| >= 9 && z[..9] == Start(p, q)
    ensures p == (z[0] == 1) && q == (z[2] == 1)
  {
    assert z[0] == z[..9][0] && z[2] == z[..9][2];
  }

  lemma AlikeIsUnseen(a: nat, b: nat)
    requires a < 512 && b < 512
    ensures Alike(a, b) <==> Unseen(Between(a, b))
  {
    hide Xor, BitAt, Between, Unseen, FromBits;
    var z, x := Between(a, b), Xor(a, b);
    assert Pow2(9) == 512;
    XorBound(a, b, 9);
    forall k | 0 <= k < 9
      ensures z[..9][k] == BitAt(x, k)
    {
      BetweenStarts(a, b, k);
    }
    WordOf(x, z[..9]);
    UnseenWords(z);
  }

  // ---------------------------------------------------------------- distances between seeds

  lemma ZeroSum(s: seq<nat>)
    requires forall i | 0 <= i < |s| :: s[i] == 0
    ensures Sum(s) == 0
  {
    assert s == Zeros(|s|);
    SumZeros(|s|);
  }

  /** Only the ten end bits count. */
  lemma EndSum(z: seq<nat>)
    requires Recurs(z)
    ensures Sum(SyndromeOf(z)) == EndWeight(z)
  {
    hide Sum, SyndromeOf, SynAt, RecursAt;
    var s := SyndromeOf(z);
    forall i: nat | i < SYN_BITS
      ensures s[i] == if (i < 5 || 128 <= i < 133) && SynAt(z, i) then 1 else 0
    {
      SynBits(z, i);
    }
    SumFive(s, 0);
    SumFive(s, 128);
    ZeroSum(s[5..128]);
    ZeroSum(s[133..192]);
    SumConcat(s[0..5], s[5..128]);
    SumConcat(s[0..128], s[128..133]);
    SumConcat(s[0..133], s[133..192]);
    assert s[0..5] + s[5..128] == s[0..128] && s[0..128] + s[128..133] == s[0..133] && s[0..133] + s[133..192] == s;
  }

  lemma SynBits(z: seq<nat>, i: nat)
    requires Recurs(z) && i < SYN_BITS
    ensures SyndromeOf(z)[i] == if (i < 5 || 128 <= i < 133) && SynAt(z, i) then 1 else 0
  {
    hide SyndromeOf, SynAt;
    SyndromeIs(z, i);
    if 5 <= i < 128 {
      InsideCancels(z, i);
    } else if i >= 133 {
      OutsideNothing(z, i);
    }
  }

  lemma SumFive(s: seq<nat>, i: nat)
    requires i + 5 <= |s|
    ensures Sum(s[i..i + 5]) == s[i] + s[i + 1] + s[i + 2] + s[i + 3] + s[i + 4]
  {
    hide Sum;
    SumSix(s[i..i + 5] + [0]);
    SumConcat(s[i..i + 5], [0]);
    ZeroSum([0]);
  }

  /** Seeds that are alike have the same syndrome; those of all others differ in at least two bits. */
  lemma SeedDistance(a: nat, b: nat)
    requires a < 512 && b < 512
    ensures Alike(a, b) ==> Differences(SyndromeOf(Lfsr9.Pn(a, 256)), SyndromeOf(Lfsr9.Pn(b, 256))) == 0
    ensures !Alike(a, b) ==> Differences(SyndromeOf(Lfsr9.Pn(a, 256)), SyndromeOf(Lfsr9.Pn(b, 256))) >= 2
  {
    hide Lfsr9.Pn, Sum, SynPrefix, Alike, Unseen, Recurs, EndWeight;
    var z := Between(a, b);
    BetweenRecurs(a, b);
    EndSum(z);
    if Unseen(z) { UnseenEnds(z); } else { SeenEnds(z); }
    AlikeIsUnseen(a, b);
    SynLinear(Lfsr9.Pn(a, 256), Lfsr9.Pn(b, 256), 128);
  }

  lemma {:induction false} NoDifference(a: seq<nat>, b: seq<nat>)
    requires |a| == |b| && IsBits(a) && IsBits(b) && Sum(XorBits(a, b)) == 0
    ensures a == b
  {
    if a != [] {
      assert XorBits(a, b)[1..] == XorBits(a[1..], b[1..]);
      NoDifference(a[1..], b[1..]);
      assert a == [a[0]] + a[1..] && b == [b[0]] + b[1..];
    }
  }

  lemma AlikeMismatch(cac: seq<nat>, a: nat, b: nat)
    requires a < 512 && b < 512 && Alike(a, b)
    ensures Mismatch(cac, a) == Mismatch(cac, b)
  {
    hide Lfsr9.Pn, Sum, SynPrefix, Alike;
    SeedDistance(a, b);
    NoDifference(SyndromeOf(Lfsr9.Pn(a, 256)), SyndromeOf(Lfsr9.Pn(b, 256)));
  }

  /** Whatever was received, seeds that are alike have the same weight. */
  lemma {:induction false} AlikeWeights(pushed: seq<seq<nat>>, a: nat, b: nat)
    requires a < 512 && b < 512 && Alike(a, b)
    ensures Total(pushed, a) == Total(pushed, b)
  {
    if pushed != [] {
      hide Mismatch, Alike;
      AlikeWeights(pushed[..|pushed| - 1], a, b);
      AlikeMismatch(pushed[|pushed| - 1], a, b);
    }
  }

  lemma OtherMismatch(cac: seq<nat>, s: nat, seed: nat)
    requires s < 512 && seed < 512 && !Alike(s, seed)
    ensures Mismatch(cac, s) + Mismatch(cac, seed) >= 2
  {
    hide Lfsr9.Pn, Sum, SynPrefix, Alike;
    SeedDistance(s, seed);
    var p, q, r := SyndromeOf(Lfsr9.Pn(s, 256)), SyndromeOf(Lfsr9.Pn(seed, 256)), SyndromeOf(LowBits(cac));
    SumXor(XorBits(p, r), XorBits(q, r));
    assert XorBits(XorBits(p, r), XorBits(q, r)) == XorBits(p, q);
  }

  /** Every other seed weighs at least two for each block, less what channel errors can hide. */
  lemma {:induction false} OthersWeigh(blocks: seq<Block>, seed: nat, s: nat)
    requires forall i | 0 <= i < |blocks| :: Genuine(blocks[i])
    requires s < 512 && seed < 512 && !Alike(s, seed)
    ensures Total(Received(blocks), s) + Total(Received(blocks), seed) >= 2 * |blocks|
  {
    if blocks != [] {
      hide Mismatch, Codeword, Alike;
      var n := |blocks| - 1;
      OthersWeigh(blocks[..n], seed, s);
      assert Received(blocks)[..n] == Received(blocks[..n]);
      OtherMismatch(blocks[n].received, s, seed);
    }
  }

  /**
    With fewer channel errors than a fifth of the blocks, the seed that ranks first is the smallest of the
    four that are alike to the one in use: it is the one in use exactly if none of these is smaller.
    */
  lemma SeedFound(blocks: seq<Block>, seed: nat, weights: seq<nat>, best: nat)
    requires seed < 512 && best < 512 == |weights|
    requires forall i | 0 <= i < |blocks| :: Genuine(blocks[i])
    requires 5 * TotalErrors(blocks, seed) < |blocks|
    requires forall s | 0 <= s < 512 :: weights[s] == Total(Received(blocks), s)
    requires forall s | 0 <= s < 512 && s != best :: SeedSearch.Before(weights, best, s)
    ensures Alike(best, seed) && forall s: nat | s < 512 && Alike(s, seed) :: best <= s
    ensures best == seed <==> forall s: nat | s < 512 && Alike(s, seed) :: seed <= s
  {
    hide Total, TotalErrors, Alike, Genuine;
    WeightBound(blocks, seed);
    SelfAlike(seed);
    assert best == seed || SeedSearch.Before(weights, best, seed);
    if !Alike(best, seed) {
      OthersWeigh(blocks, seed, best);
    }
    forall s: nat | s < 512 && Alike(s, seed)
      ensures best <= s
    {
      AlikeWeights(Received(blocks), s, seed);
      AlikeWeights(Received(blocks), best, seed);
      assert s == best || SeedSearch.Before(weights, best, s);
    }
  }

  lemma SelfAlike(seed: nat)
    ensures Alike(seed, seed)
  {
    XorSelf(seed);
  }

  /** From four candidates on, the seed in use is among them. */
  lemma SeedAmongCandidates(blocks: seq<Block>, seed: nat, weights: seq<nat>, r: seq<nat>)
    requires seed < 512 == |weights| && |r| >= 4
    requires forall i | 0 <= i < |blocks| :: Genuine(blocks[i])
    requires 5 * TotalErrors(blocks, seed) < |blocks|
    requires forall s | 0 <= s < 512 :: weights[s] == Total(Received(blocks), s)
    requires forall i | 0 <= i < |r| :: r[i] < 512
    requires forall i, j | 0 <= i < j < |r| :: SeedSearch.Before(weights, r[i], r[j])
    requires forall c, s | c in r && 0 <= s < 512 && s !in r :: SeedSearch.Before(weights, c, s)
    ensures seed in r
  {
    hide Total, TotalErrors, Alike, Genuine;
    if seed !in r {
      forall i | 0 <= i < 4
        ensures r[i] != seed && Alike(r[i], seed)
      {
        assert r[i] in r && SeedSearch.Before(weights, r[i], seed);
        WeightBound(blocks, seed);
        if !Alike(r[i], seed) {
          OthersWeigh(blocks, seed, r[i]);
        }
      }
      assert SeedSearch.Before(weights, r[0], r[1]) && SeedSearch.Before(weights, r[0], r[2]);
      assert SeedSearch.Before(weights, r[0], r[3]) && SeedSearch.Before(weights, r[1], r[2]);
      assert SeedSearch.Before(weights, r[1], r[3]) && SeedSearch.Before(weights, r[2], r[3]);
      ThreeOthers(r[0], seed);
      ThreeOthers(r[1], seed);
      ThreeOthers(r[2], seed);
      ThreeOthers(r[3], seed);
    }
  }

  lemma ThreeOthers(a: nat, seed: nat)
    requires Alike(a, seed) && a != seed
    ensures a == Xor(seed, 231) || a == Xor(seed, 379) || a == Xor(seed, 412)
  {
    XorUndone(a, seed);
    XorZero(seed);
    hide Xor;
  }

  lemma {:induction false} XorUndone(a: nat, b: nat)
    ensures Xor(b, Xor(a, b)) == a
    decreases a + b
  {
    if a + b > 0 {
      XorUndone(a / 2, b / 2);
      XorHalves(a, b);
      XorHalves(b, Xor(a, b));
      hide Xor;
      SameHalves(Xor(b, Xor(a, b)), a);
    }
  }

  lemma SameHalves(x: nat, y: nat)
    requires x % 2 == y % 2 && x / 2 == y / 2
    ensures x == y
  {
  }

  /** Received without an error, a block has no channel errors. */
  lemma NoErrors(b: Block, seed: nat)
    requires Genuine(b) && b.received == Lfsr9.Scrambled(b.sent, seed)
    ensures TotalErrors([b], seed) == 0
  {
    hide Lfsr9.Pn, Codeword, Sum;
    assert LowBits(b.received) == b.received;
    assert XorBits(b.received, b.received) == Zeros(256);
    SumZeros(256);
    assert [b][..0] == [];
    assert TotalErrors([b][..0], seed) == 0;
  }

  /** Any message, scrambled with seed 231 and received without an error, is answered with 0, which is no seed in use. */
  lemma SeedMissed(info: seq<nat>, weights: seq<nat>, best: nat)
    requires IsBits(info) && |info| == 123 && CONTROL.Valid() && best < 512 == |weights|
    requires forall s | 0 <= s < 512 :: weights[s] == Total([Lfsr9.Scrambled(Encode(CONTROL, info), 231)], s)
    requires forall s | 0 <= s < 512 && s != best :: SeedSearch.Before(weights, best, s)
    ensures best == 0
  {
    hide Total, Encode, Lfsr9.Scrambled, TotalErrors;
    var sent := Encode(CONTROL, info);
    EncodedIsCodeword(info);
    var b := Block(info + Zeros(5), sent, Lfsr9.Scrambled(sent, 231));
    NoErrors(b, 231);
    assert Received([b]) == [b.received];
    SeedFound([b], 231, weights, best);
    XorZero(231);
    assert Alike(0, 231);
  }
}
