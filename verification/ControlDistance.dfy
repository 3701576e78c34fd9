/**
  How many errors the control channel's code corrects: different code words
  differ in at least eight places, so the decoder recovers every message from
  `e` wrong and `f` erased symbols if `2*e + f < 8`
  (internal/std-t86/fec/conv.go and internal/std-t86/control/cac.go).
  */
module ControlDistance {
  import opened Words
  import opened Conv
  import opened ConvAlgebra
  import opened SeedSearch
  import Crc
  import Lfsr9
  import Cac

  // ---------------------------------------------------------------- the weight of a path

  /** Ones sent in the first `k` steps of the path `u`. */
  function Weight(u: seq<nat>, k: nat): nat
    requires IsBits(u)
  {
    if k == 0 then 0 else Weight(u, k - 1) + First(u, k - 1) + Second(u, k - 1)
  }

  /** The number for the two newest bits `x0` and `x1`. */
  function Pick(x0: Bit, x1: Bit, a: nat, b: nat, c: nat, d: nat): nat {
    if x1 == 0 then if x0 == 0 then a else b else if x0 == 0 then c else d
  }

  /** Least weight of a way from the first one of an input to each state, newest bit first; back in state 0 it is eight. */
  function Cost(x0: Bit, x1: Bit, x2: Bit, x3: Bit, x4: Bit): nat {
    if x4 == 0 then
      if x3 == 0 then
        if x2 == 0 then Pick(x0, x1, 8, 2, 3, 3) else Pick(x0, x1, 4, 4, 4, 3)
      else
        if x2 == 0 then Pick(x0, x1, 5, 4, 5, 5) else Pick(x0, x1, 5, 5, 3, 4)
    else
      if x3 == 0 then
        if x2 == 0 then Pick(x0, x1, 6, 6, 6, 4) else Pick(x0, x1, 5, 5, 4, 4)
      else
        if x2 == 0 then Pick(x0, x1, 6, 6, 5, 3) else Pick(x0, x1, 5, 3, 5, 5)
  }

  /** Ones sent for a register content, newest bit first. */
  function Ones(x0: Bit, x1: Bit, x2: Bit, x3: Bit, x4: Bit, x5: Bit): nat {
    Xor1(Xor1(Xor1(x0, x1), x3), x5) + Xor1(Xor1(Xor1(Xor1(x0, x2), x3), x4), x5)
  }

  /** No step is shorter than the costs it connects. */
  lemma StepCost(x0: Bit, x1: Bit, x2: Bit, x3: Bit, x4: Bit, x5: Bit)
    ensures Cost(x0, x1, x2, x3, x4) <= Cost(x1, x2, x3, x4, x5) + Ones(x0, x1, x2, x3, x4, x5)
  {
  }

  /** The cost of the state of the path after `k` steps. */
  function CostAt(u: seq<nat>, k: int): nat
    requires IsBits(u)
  {
    Cost(At(u, k - 1), At(u, k - 2), At(u, k - 3), At(u, k - 4), At(u, k - 5))
  }

  /** Once a path has left state 0, its weight is at least the cost of its state. */
  lemma {:induction false} Climbs(u: seq<nat>, k: nat, i: nat)
    requires IsBits(u) && i < k <= |u| && u[i] == 1 && forall j | 0 <= j < i :: u[j] == 0
    ensures Weight(u, k) >= CostAt(u, k)
  {
    hide Cost, First, Second, At, Ones;
    if k == i + 1 {
      FirstOne(u, i);
    } else {
      Climbs(u, k - 1, i);
      OnesAre(u, k - 1);
      StepCost(At(u, k - 1), At(u, k - 2), At(u, k - 3), At(u, k - 4), At(u, k - 5), At(u, k - 6));
    }
  }

  lemma OnesAre(u: seq<nat>, k: int)
    requires IsBits(u)
    ensures Ones(At(u, k), At(u, k - 1), At(u, k - 2), At(u, k - 3), At(u, k - 4), At(u, k - 5)) == First(u, k) + Second(u, k)
  {
    hide At;
  }

  lemma FirstOne(u: seq<nat>, i: nat)
    requires IsBits(u) && i < |u| && u[i] == 1 && forall j | 0 <= j < i :: u[j] == 0
    ensures Weight(u, i + 1) >= CostAt(u, i + 1)
  {
  }

  /** Free distance eight: a flushed path with a one in it has at least eight ones. */
  lemma FreeDistance(u: seq<nat>, m: nat)
    requires IsBits(u) && |u| >= 5 && (forall j | |u| - 5 <= j < |u| :: u[j] == 0) && m < |u| && u[m] == 1
    ensures Weight(u, |u|) >= 8
  {
    var i := LeastOne(u, m);
    Climbs(u, |u|, i);
    assert CostAt(u, |u|) == 8;
  }

  lemma {:induction false} LeastOne(u: seq<nat>, m: nat) returns (i: nat)
    requires IsBits(u) && m < |u| && u[m] == 1
    ensures i <= m && u[i] == 1 && forall j | 0 <= j < i :: u[j] == 0
  {
    if j :| 0 <= j < m && u[j] == 1 {
      i := LeastOne(u, j);
    } else {
      i := m;
    }
  }

  // ---------------------------------------------------------------- distances

  lemma TapsLinear(u: seq<nat>, x: seq<nat>, k: int)
    requires IsBits(u) && IsBits(x) && |u| == |x|
    ensures First(XorBits(u, x), k) == Xor1(First(u, k), First(x, k))
    ensures Second(XorBits(u, x), k) == Xor1(Second(u, k), Second(x, k))
  {
    AtLinear(u, x, k);
    AtLinear(u, x, k - 1);
    AtLinear(u, x, k - 2);
    AtLinear(u, x, k - 3);
    AtLinear(u, x, k - 4);
    AtLinear(u, x, k - 5);
    hide At, Xor1;
    SumOfFour(At(u, k), At(u, k - 1), At(u, k - 3), At(u, k - 5), At(x, k), At(x, k - 1), At(x, k - 3), At(x, k - 5));
    SumOfFour(At(u, k), At(u, k - 2), At(u, k - 3), At(u, k - 4), At(x, k), At(x, k - 2), At(x, k - 3), At(x, k - 4));
    XorAssoc4(Xor1(Xor1(Xor1(At(u, k), At(u, k - 2)), At(u, k - 3)), At(u, k - 4)),
              Xor1(Xor1(Xor1(At(x, k), At(x, k - 2)), At(x, k - 3)), At(x, k - 4)), At(u, k - 5), At(x, k - 5));
  }

  lemma SumOfFour(a: Bit, b: Bit, c: Bit, d: Bit, e: Bit, f: Bit, g: Bit, h: Bit)
    ensures Xor1(Xor1(Xor1(Xor1(a, e), Xor1(b, f)), Xor1(c, g)), Xor1(d, h))
         == Xor1(Xor1(Xor1(Xor1(a, b), c), d), Xor1(Xor1(Xor1(e, f), g), h))
  {
    hide Xor1;
    XorAssoc4(a, e, b, f);
    XorAssoc4(Xor1(a, b), Xor1(e, f), c, g);
    XorAssoc4(Xor1(Xor1(a, b), c), Xor1(Xor1(e, f), g), d, h);
  }

  lemma AtLinear(u: seq<nat>, x: seq<nat>, k: int)
    requires IsBits(u) && IsBits(x) && |u| == |x|
    ensures At(XorBits(u, x), k) == Xor1(At(u, k), At(x, k))
  {
  }

  lemma PairMismatch(a: Bit, b: Bit, c: Bit, d: Bit)
    ensures Mismatches([a, b], [c, d]) == Xor1(a, c) + Xor1(b, d)
  {
    assert [a, b][1..] == [b] && [c, d][1..] == [d];
    assert Mismatches([b], [d]) == Xor1(b, d) + Mismatches([b][1..], [d][1..]);
  }

  lemma PairDistance(u: seq<nat>, x: seq<nat>, v: seq<nat>, w: seq<nat>, k: nat)
    requires Codeword(u, v) && Codeword(x, w) && |u| == |x| && k < |u|
    ensures Mismatches(v[2 * k..2 * k + 2], w[2 * k..2 * k + 2]) == First(XorBits(u, x), k) + Second(XorBits(u, x), k)
  {
    hide First, Second, Mismatches;
    TapsLinear(u, x, k);
    var p, q := v[2 * k..2 * k + 2], w[2 * k..2 * k + 2];
    assert p == [v[2 * k], v[2 * k + 1]] && q == [w[2 * k], w[2 * k + 1]];
    PairMismatch(v[2 * k], v[2 * k + 1], w[2 * k], w[2 * k + 1]);
  }

  /** Two code words differ where the code word of the difference has ones. */
  lemma {:induction false} DistanceIsWeight(u: seq<nat>, x: seq<nat>, v: seq<nat>, w: seq<nat>, k: nat)
    requires Codeword(u, v) && Codeword(x, w) && |u| == |x| && k <= |u|
    ensures Mismatches(v[..2 * k], w[..2 * k]) == Weight(XorBits(u, x), k)
  {
    hide First, Second, Mismatches, XorBits;
    if k == 0 {
      NoPlaces();
    } else {
      var i := 2 * (k - 1);
      DistanceIsWeight(u, x, v, w, k - 1);
      PairDistance(u, x, v, w, k - 1);
      assert v[..2 * k] == v[..i] + v[i..i + 2] && w[..2 * k] == w[..i] + w[i..i + 2];
      MismatchesConcat(v[..i], v[i..i + 2], w[..i], w[i..i + 2]);
    }
  }

  lemma NoPlaces()
    ensures Mismatches([], []) == 0
  {
  }

  /** Code words of different messages differ in at least eight symbols. */
  lemma CodewordsFarApart(m: seq<nat>, d: seq<nat>)
    requires IsBits(m) && IsBits(d) && |m| == |d| && m != d && CONTROL.Valid()
    ensures |Encode(CONTROL, m)| == |Encode(CONTROL, d)| && IsBits(Encode(CONTROL, m))
    ensures Mismatches(Encode(CONTROL, m), Encode(CONTROL, d)) >= 8
  {
    hide Encode, Mismatches, Weight;
    var u, x, v, w := m + Zeros(5), d + Zeros(5), Encode(CONTROL, m), Encode(CONTROL, d);
    EncodedIsCodeword(m);
    EncodedIsCodeword(d);
    DistanceIsWeight(u, x, v, w, |u|);
    assert v[..2 * |u|] == v && w[..2 * |u|] == w;
    var j :| 0 <= j < |m| && m[j] != d[j];
    FreeDistance(XorBits(u, x), j);
  }

  /** Wherever `v` and `w` differ, a received symbol disagrees with one of them or is erased. */
  lemma {:induction false} Triangle(r: seq<nat>, v: seq<nat>, w: seq<nat>)
    requires |r| == |v| == |w| && IsBits(v) && IsBits(w)
    ensures Mismatches(v, w) <= Mismatches(r, v) + Mismatches(r, w) + multiset(r)[ERASURE]
  {
    if r != [] {
      Triangle(r[1..], v[1..], w[1..]);
      assert r == [r[0]] + r[1..];
    }
  }

  /** From `e` wrong and `f` erased symbols with `2*e + f < 8` the decoder recovers the message. */
  lemma Corrects(m: seq<nat>, received: seq<nat>, dec: seq<nat>)
    requires IsBits(m) && CONTROL.Valid() && |received| == |Encode(CONTROL, m)|
    requires 2 * Mismatches(received, Encode(CONTROL, m)) + multiset(received)[ERASURE] < 8
    requires IsBits(dec) && |dec| == |m| && |dec| + 5 == StepCount(CONTROL, received) && MostLikely(CONTROL, received, dec)
    ensures dec == m
  {
    WholeReceived(m, received);
    if dec != m {
      BestDecision(m, received, dec);
      hide MostLikely, Encode, Mismatches, StepCount;
      CodewordsFarApart(m, dec);
      Triangle(received, Encode(CONTROL, m), Encode(CONTROL, dec));
    }
  }

  lemma BestDecision(m: seq<nat>, received: seq<nat>, dec: seq<nat>)
    requires IsBits(m) && CONTROL.Valid() && |received| == |Encode(CONTROL, m)| && Whole(CONTROL, received) == received
    requires IsBits(dec) && |dec| == |m| && |dec| + 5 == StepCount(CONTROL, received) && MostLikely(CONTROL, received, dec)
    ensures |Encode(CONTROL, dec)| == |received|
    ensures Mismatches(received, Encode(CONTROL, dec)) <= Mismatches(received, Encode(CONTROL, m))
  {
    hide Encode, Mismatches, StepCount;
  }

  lemma WholeReceived(m: seq<nat>, received: seq<nat>)
    requires IsBits(m) && CONTROL.Valid() && |received| == |Encode(CONTROL, m)|
    ensures StepCount(CONTROL, received) == |m| + 5 && Whole(CONTROL, received) == received
  {
    assert CONTROL.N() == 2;
  }

  /** Eight is the exact distance: the messages 101 and 000 are sent that close together. */
  lemma EightApart()
    ensures CONTROL.Valid() && |Encode(CONTROL, [1, 0, 1])| == |Encode(CONTROL, [0, 0, 0])|
    ensures IsBits(Encode(CONTROL, [1, 0, 1])) && Mismatches(Encode(CONTROL, [1, 0, 1]), Encode(CONTROL, [0, 0, 0])) == 8
  {
    hide Encode, Mismatches, Weight, First, Second;
    var m, d := [1, 0, 1], [0, 0, 0];
    var u, x, v, w := m + Zeros(5), d + Zeros(5), Encode(CONTROL, m), Encode(CONTROL, d);
    EncodedIsCodeword(m);
    EncodedIsCodeword(d);
    DistanceIsWeight(u, x, v, w, 8);
    assert v[..16] == v && w[..16] == w;
    assert XorBits(u, x) == [1, 0, 1, 0, 0, 0, 0, 0];
    WeightOf101();
  }

  lemma WeightOf101()
    ensures Weight([1, 0, 1, 0, 0, 0, 0, 0], 8) == 8
  {
    var e := [1, 0, 1, 0, 0, 0, 0, 0];
    assert Weight(e, 4) == 5 by { assert Weight(e, 2) == 3; }
    assert Weight(e, 6) == 5;
  }

  // ---------------------------------------------------------------- received slots

  lemma {:induction false} SumKeepsDistance(a: seq<nat>, b: seq<nat>, p: seq<nat>)
    requires IsBits(a) && IsBits(b) && IsBits(p) && |a| == |b| == |p|
    ensures Mismatches(XorBits(a, p), XorBits(b, p)) == Mismatches(a, b)
  {
    if a != [] {
      SumKeepsDistance(a[1..], b[1..], p[1..]);
      assert XorBits(a, p)[1..] == XorBits(a[1..], p[1..]) && XorBits(b, p)[1..] == XorBits(b[1..], p[1..]);
    }
  }

  lemma ScrambledIs(a: seq<nat>, seed: int)
    requires IsBits(a)
    ensures Lfsr9.Scrambled(a, seed) == XorBits(a, Lfsr9.Pn(seed, |a|))
  {
    hide Lfsr9.Pn;
  }

  /** Scrambling keeps the number of wrong bits. */
  lemma ScrambledDistance(a: seq<nat>, b: seq<nat>, seed: int)
    requires IsBits(a) && IsBits(b) && |a| == |b|
    ensures Mismatches(Lfsr9.Scrambled(a, seed), Lfsr9.Scrambled(b, seed)) == Mismatches(a, b)
  {
    hide Lfsr9.Scrambled, Lfsr9.Pn, Mismatches, XorBits;
    ScrambledIs(a, seed);
    ScrambledIs(b, seed);
    SumKeepsDistance(a, b, Lfsr9.Pn(seed, |a|));
  }

  lemma {:induction false} NoErasures(r: seq<nat>)
    requires IsBits(r)
    ensures multiset(r)[ERASURE] == 0
  {
    if r != [] {
      NoErasures(r[1..]);
      assert r == [r[0]] + r[1..];
    }
  }

  /** Of the bits received at most three are wrong: the payload comes out, and its checksum matches. */
  lemma BlockCorrects(payload: seq<nat>, info: seq<nat>, seed: int, coded: seq<nat>, decoded: seq<nat>, ok: bool)
    requires Cac.IsMessage(payload, info) && CONTROL.Valid()
    requires IsBits(coded) && |coded| == |Encode(CONTROL, info)|
    requires Mismatches(coded, Lfsr9.Scrambled(Encode(CONTROL, info), seed)) <= 3
    requires Cac.IsDecoding(Lfsr9.Scrambled(coded, seed), |payload|, decoded, ok)
    ensures decoded == payload && ok
  {
    var cw, r := Encode(CONTROL, info), Lfsr9.Scrambled(coded, seed);
    Lfsr9.Involution(cw, seed);
    ScrambledDistance(coded, Lfsr9.Scrambled(cw, seed), seed);
    NoErasures(r);
    WholeReceived(info, r);
    hide Lfsr9.Scrambled, MostLikely, Encode, StepCount, Mismatches, Cac.IsDecoding, Crc.Crc16Of;
    forall dec: seq<nat> | IsBits(dec) && |dec| == |info| && MostLikely(CONTROL, r, dec)
      ensures dec == info
    {
      Corrects(info, r, dec);
    }
    Cac.OnlyDecision(payload, info, r, decoded, ok);
  }

  /** The control channel survives any three wrong bits of a slot. */
  lemma CacCorrects(payload: seq<nat>, info: seq<nat>, seed: int, cac: seq<nat>, r: Cac.Outcome)
    requires Cac.IsMessage(payload, info) && |payload| == 104 && CONTROL.Valid()
    requires IsBits(cac) && |cac| == 256 == |Encode(CONTROL, info)|
    requires Mismatches(cac, Lfsr9.Scrambled(Encode(CONTROL, info), seed)) <= 3
    requires r.Decoded? <==> |cac| == Cac.CAC_LEN
    requires r.Decoded? ==> Cac.IsDecoding(Lfsr9.Scrambled(cac, seed), Cac.PAYLOAD_LEN, r.payload, r.crcOk)
    ensures r == Cac.Decoded(payload, true)
  {
    BlockCorrects(payload, info, seed, cac, r.payload, r.crcOk);
  }
}
