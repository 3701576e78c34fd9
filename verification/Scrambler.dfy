/**
  The nine-bit scrambler of STD-T86 (internal/std-t86/fec/scrambler.go).
  */
module Lfsr9 {
  import opened Words

  type Reg = x: nat | x < 512

  function Step(r: Reg): Reg {
    r / 2 + 256 * Xor1(r % 2, BitAt(r, 4))
  }

  function State(r: Reg, k: nat): Reg { if k == 0 then r else Step(State(r, k - 1)) }

  /** The pseudo-noise sequence of a seed. */
  function Pn(seed: int, n: nat): (s: seq<nat>)
    ensures |s| == n && IsBits(s)
  {
    seq(n, k requires 0 <= k < n => State(seed % 512, k) % 2)
  }

  method LfsrPn(seed: int, length: nat) returns (out: seq<nat>)
    ensures out == Pn(seed, length)
  {
    hide Step;
    var reg: Reg := seed % 512;
    out := [];
    var k := 0;
    while k < length
      invariant 0 <= k <= length && reg == State(seed % 512, k) && |out| == k
      invariant forall j | 0 <= j < k :: out[j] == Pn(seed, length)[j]
    {
      out := out + [reg % 2];
      reg := Step(reg);
      k := k + 1;
    }
  }

  /** What scrambling with a seed does; descrambling is the same operation. */
  function Scrambled(input: seq<nat>, seed: int): (r: seq<nat>)
    ensures |r| == |input| && IsBits(r)
  {
    seq(|input|, i requires 0 <= i < |input| => Xor1(input[i] % 2, Pn(seed, |input|)[i]))
  }

  method Descramble(input: seq<nat>, seed: int) returns (out: seq<nat>)
    ensures out == Scrambled(input, seed)
  {
    var pn := LfsrPn(seed, |input|);
    out := [];
    var i := 0;
    while i < |input|
      invariant 0 <= i <= |input| && |out| == i
      invariant forall j | 0 <= j < i :: out[j] == Scrambled(input, seed)[j]
    {
      out := out + [Xor1(input[i] % 2, pn[i])];
      i := i + 1;
    }
  }

  lemma StepBit(r: Reg, j: nat)
    requires j < 9
    ensures BitAt(Step(r), j) == if j < 8 then BitAt(r, j + 1) else Xor1(r % 2, BitAt(r, 4))
  {
    hide BitAt;
    var f := Xor1(r % 2, BitAt(r, 4));
    assert Pow2(8) == 256;
    BitOfSmall(r / 2, 8);
    SetBitBits(r / 2, 8, j);
    BitShifted(r, j);
  }

  lemma BitShifted(r: nat, j: nat)
    ensures BitAt(r / 2, j) == BitAt(r, j + 1)
  {
  }

  /** Bit `j` of the register is what comes out `j` steps later. */
  lemma {:induction false} StageIsLater(r: Reg, k: nat, j: nat)
    requires j < 9
    ensures BitAt(State(r, k), j) == State(r, k + j) % 2
    decreases j
  {
    if j > 0 {
      hide Step;
      StageIsLater(r, k + 1, j - 1);
      StepBit(State(r, k), j - 1);
    }
  }

  /** The sequence starts with the seed, low bit first, and each later bit is the sum of the ones nine and five before. */
  lemma PnIs(seed: int, n: nat, k: nat)
    requires k < n
    ensures k < 9 ==> Pn(seed, n)[k] == BitAt(seed % 512, k)
    ensures k >= 9 ==> Pn(seed, n)[k] == Xor1(Pn(seed, n)[k - 9], Pn(seed, n)[k - 5])
  {
    var r := seed % 512;
    hide Step;
    if k < 9 {
      StageIsLater(r, 0, k);
    } else {
      StageIsLater(r, k - 8, 8);
      StepBit(State(r, k - 9), 8);
      StageIsLater(r, k - 9, 4);
    }
  }

  /** Descrambling undoes scrambling with the same seed. */
  lemma Involution(input: seq<nat>, seed: int)
    ensures Scrambled(Scrambled(input, seed), seed) == LowBits(input)
  {
  }
}

/**
  The sixteen-bit scrambler of STD-T115
  (internal/std-t115/qpsknarrow/fec/scrambler.go).
  */
module Lfsr16 {
  import opened Words
  import opened Crc

  /** Stage `j`, counted from the top bit. */
  function Stage(r: Word, j: nat): Bit
    requires j <= 15
  {
    BitAt(r, 15 - j)
  }

  function Feedback(r: Word): Bit {
    Xor1(Xor1(Xor1(Stage(r, 0), Stage(r, 2)), Stage(r, 3)), Stage(r, 5))
  }

  function Step(r: Word): Word { 2 * (r % TOP) + Feedback(r) }

  function State(r: Word, k: nat): Word { if k == 0 then r else Step(State(r, k - 1)) }

  /** Output bit `k` for initial value `init`. */
  function Out(init: Word, k: nat): Bit { Stage(State(init, k), 0) }

  method Scramble(init: int, length: nat) returns (out: seq<nat>)
    ensures |out| == length && forall k | 0 <= k < length :: out[k] == Out(init % 0x1_0000, k)
  {
    hide Step;
    var reg: Word := init % 0x1_0000;
    out := [];
    var k := 0;
    while k < length
      invariant 0 <= k <= length && reg == State(init % 0x1_0000, k) && |out| == k
      invariant forall j | 0 <= j < k :: out[j] == Out(init % 0x1_0000, j)
    {
      out := out + [Stage(reg, 0)];
      reg := Step(reg);
      k := k + 1;
    }
  }

  lemma StepStage(r: Word, j: nat)
    requires j <= 15
    ensures Stage(Step(r), j) == if j < 15 then Stage(r, j + 1) else Feedback(r)
  {
    hide Feedback;
    LowBit(r % TOP, Feedback(r), 15 - j);
    if j < 15 {
      Pow15();
      BitMasked(r, 14 - j, 15);
    }
  }

  lemma LowBit(x: nat, b: Bit, j: nat)
    ensures BitAt(2 * x + b, j) == if j == 0 then b else BitAt(x, j - 1)
  {
    assert (2 * x + b) % 2 == b && (2 * x + b) / 2 == x;
  }

  lemma {:induction false} StageIsLater(r: Word, k: nat, j: nat)
    requires j <= 15
    ensures Stage(State(r, k), j) == Out(r, k + j)
    decreases j
  {
    if j > 0 {
      hide Step, Stage;
      StageIsLater(r, k + 1, j - 1);
      StepStage(State(r, k), j - 1);
    }
  }

  /** The sequence starts with the initial value, top bit first; each later bit is the sum of those 16, 14, 13 and 11 before. */
  lemma OutIs(init: Word, k: nat)
    ensures k < 16 ==> Out(init, k) == BitAt(init, 15 - k)
    ensures k >= 16 ==>
      Out(init, k) == Xor1(Xor1(Out(init, k - 16), Out(init, k - 14)), Xor1(Out(init, k - 13), Out(init, k - 11)))
  {
    hide Step, Stage, Out;
    if k < 16 {
      StageIsLater(init, 0, k);
      StageIs(init, k);
    } else {
      StageIsLater(init, k - 15, 15);
      StepStage(State(init, k - 16), 15);
      StageIsLater(init, k - 16, 0);
      StageIsLater(init, k - 16, 2);
      StageIsLater(init, k - 16, 3);
      StageIsLater(init, k - 16, 5);
    }
  }

  lemma StageIs(r: Word, j: nat)
    requires j <= 15
    ensures Stage(r, j) == BitAt(r, 15 - j)
  {
  }

  lemma StageLinear(a: Word, b: Word, j: nat)
    requires j <= 15
    ensures Stage(Xor16(a, b), j) == Xor1(Stage(a, j), Stage(b, j))
  {
    BitXor(a, b, 15 - j);
  }

  lemma FeedbackLinear(a: Word, b: Word)
    ensures Feedback(Xor16(a, b)) == Xor1(Feedback(a), Feedback(b))
  {
    hide Stage, Xor16;
    StageLinear(a, b, 0);
    StageLinear(a, b, 2);
    StageLinear(a, b, 3);
    StageLinear(a, b, 5);
  }

  lemma XorOdd(x: nat, y: nat, f: Bit, g: Bit)
    ensures Xor(2 * x + f, 2 * y + g) == 2 * Xor(x, y) + Xor1(f, g)
  {
    XorHalves(2 * x + f, 2 * y + g);
  }

  /** The register sequence is linear in its initial value. */
  lemma StepLinear(a: Word, b: Word)
    ensures Step(Xor16(a, b)) == Xor16(Step(a), Step(b))
  {
    hide Feedback, Xor;
    XorTop(a, b);
    FeedbackLinear(a, b);
    XorOdd(a % TOP, b % TOP, Feedback(a), Feedback(b));
  }

  lemma {:induction false} StateLinear(a: Word, b: Word, k: nat)
    ensures State(Xor16(a, b), k) == Xor16(State(a, k), State(b, k))
  {
    if k > 0 {
      hide Step, Xor16;
      StateLinear(a, b, k - 1);
      StepLinear(State(a, k - 1), State(b, k - 1));
    }
  }

  lemma OutLinear(a: Word, b: Word, k: nat)
    ensures Out(Xor16(a, b), k) == Xor1(Out(a, k), Out(b, k))
  {
    StateLinear(a, b, k);
    StageLinear(State(a, k), State(b, k), 0);
  }
}
