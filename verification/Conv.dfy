/**
  The convolutional encoder and the Viterbi decoder with erasures
  (internal/std-t86/fec/conv.go).

  The specification is the trellis: `End(u)` is the state an input `u` leads to
  from state 0 and `Coded(u)` is what the encoder sends on the way.  The decoder
  is proved to be maximum likelihood with respect to it.
  */
module Conv {
  import opened Words

  const ERASURE: nat := 2
  const INF: int := 0x4000_0000

  type Int32 = x: int | -0x8000_0000 <= x < 0x8000_0000

  /** Generator polynomials and constraint length. */
  datatype Code = Code(polys: seq<nat>, K: nat) {
    /** One `uint16` word must hold one bit for each polynomial, and a state must hold the newest bit. */
    predicate Valid() { 2 <= K && 1 <= |polys| <= 16 }

    function N(): (n: nat) { |polys| }

    /** Number of trellis states, `1 << (K-1)`. */
    function S(): (s: nat)
      requires K >= 1
    {
      Pow2(K - 1)
    }
  }

  const CONTROL := Code([0x2B, 0x3D], 6)  // octal 53 and 75

  /** Where group `t` of `n` elements starts: `t*n`. */
  function Offset(t: nat, n: nat): nat { t * n }

  lemma OffsetStep(t: nat, m: nat, n: nat)
    requires t < m
    ensures Offset(t + 1, n) == Offset(t, n) + n <= Offset(m, n)
  {
    Distribute(t, 1, n);
    Distribute(t + 1, m - t - 1, n);
  }

  lemma Distribute(a: nat, b: nat, n: nat)
    ensures (a + b) * n == a * n + b * n
  {
  }

  // ---------------------------------------------------------------- the trellis

  function Next(c: Code, s: nat, b: Bit): (r: nat)
    requires c.Valid()
    ensures r < c.S()
  {
    (2 * s + b) % c.S()
  }

  /** The output symbols for register content `reg`, one for each polynomial. */
  function Symbols(c: Code, reg: nat): (r: seq<nat>)
    ensures |r| == c.N() && IsBits(r)
  {
    seq(|c.polys|, j requires 0 <= j < |c.polys| => Dot(reg, c.polys[j]))
  }

  /** What the encoder sends on input `b` in state `s`. */
  function Sent(c: Code, s: nat, b: Bit): (r: seq<nat>)
    ensures |r| == c.N() && IsBits(r)
  {
    Symbols(c, 2 * s + b)
  }

  function End(c: Code, u: seq<nat>): (r: nat)
    requires c.Valid() && IsBits(u)
    ensures r < c.S()
  {
    if u == [] then 0 else Next(c, End(c, u[..|u| - 1]), u[|u| - 1])
  }

  function Coded(c: Code, u: seq<nat>): (r: seq<nat>)
    requires c.Valid() && IsBits(u)
    ensures |r| == Offset(|u|, c.N()) && IsBits(r)
  {
    if u == [] then []
    else
      var v := u[..|u| - 1];
      OffsetStep(|v|, |u|, c.N());
      Coded(c, v) + Sent(c, End(c, v), u[|u| - 1])
  }

  /** The code word of a message: the message followed by `K-1` flushing zeros. */
  function Encode(c: Code, m: seq<nat>): (r: seq<nat>)
    requires c.Valid() && IsBits(m)
    ensures |r| == Offset(|m| + c.K - 1, c.N()) && IsBits(r)
  {
    Coded(c, m + Zeros(c.K - 1))
  }

  /** Number of disagreements of received symbols with `w`, not counting erasures. */
  function Mismatches(received: seq<nat>, w: seq<nat>): nat
    requires |received| == |w|
  {
    if received == [] then 0
    else (if received[0] != ERASURE && received[0] % 2 != w[0] then 1 else 0) + Mismatches(received[1..], w[1..])
  }

  // ---------------------------------------------------------------- the encoder

  method ConvEncode(input: seq<nat>, c: Code) returns (out: seq<nat>)
    requires c.Valid()
    ensures out == Encode(c, LowBits(input))
  {
    hide Pow2, Offset, Next, And, OnesCount;
    var mask := Pow2(c.K);
    ghost var u := LowBits(input) + Zeros(c.K - 1);
    out := [];
    var reg := 0;
    var i := 0;
    while i < |input| + c.K - 1
      invariant 0 <= i <= |input| + c.K - 1 && reg >= 0
      invariant IsBits(u) && reg % c.S() == End(c, u[..i])
      invariant out == Coded(c, u[..i])
    {
      var b := if i < |input| then input[i] % 2 else 0;
      EncodeStep(c, u, i, reg, b);
      reg := (2 * reg + b) % mask;
      var j := 0;
      ghost var before := out;
      while j < |c.polys|
        invariant 0 <= j <= |c.polys|
        invariant out == before + Symbols(c, reg)[..j]
      {
        assert Symbols(c, reg)[..j + 1] == Symbols(c, reg)[..j] + [Symbols(c, reg)[j]];
        out := out + [OnesCount(And(reg, c.polys[j])) % 2];
        j := j + 1;
      }
      assert Symbols(c, reg)[..j] == Symbols(c, reg);
      i := i + 1;
    }
    assert u[..i] == u;
  }

  /** Shifting a bit into the K-bit register only depends on the K-1 newest bits. */
  lemma ShiftIn(c: Code, reg: nat, b: Bit)
    requires c.Valid()
    ensures (2 * reg + b) % Pow2(c.K) == 2 * (reg % c.S()) + b
    ensures (2 * (reg % c.S()) + b) % c.S() == Next(c, reg % c.S(), b)
  {
    var q := reg / c.S();
    assert 2 * reg + b == Pow2(c.K) * q + (2 * (reg % c.S()) + b);
    ModUnique(2 * reg + b, Pow2(c.K), q, 2 * (reg % c.S()) + b);
  }

  lemma EncodeStep(c: Code, u: seq<nat>, i: nat, reg: nat, b: Bit)
    requires c.Valid() && IsBits(u) && i < |u| && b == u[i]
    requires reg % c.S() == End(c, u[..i])
    ensures (2 * reg + b) % Pow2(c.K) % c.S() == End(c, u[..i + 1])
    ensures Coded(c, u[..i + 1]) == Coded(c, u[..i]) + Symbols(c, (2 * reg + b) % Pow2(c.K))
  {
    assert u[..i + 1][..i] == u[..i] && u[..i + 1][i] == b;
    ShiftIn(c, reg, b);
  }

  // ---------------------------------------------------------------- the table

  /** The trellis table: entry `2*s + b` packs the symbols sent on input `b` in state `s`. */
  function TableEntry(c: Code, k: nat): nat {
    FromBits(Symbols(c, k))
  }

  method NewViterbiTable(c: Code) returns (out: seq<nat>)
    requires c.Valid()
    ensures |out| == 2 * c.S()
    ensures forall k | 0 <= k < |out| :: out[k] == TableEntry(c, k) < 0x1_0000
  {
    out := [];
    var s := 0;
    while s < c.S()
      invariant 0 <= s <= c.S() && |out| == 2 * s
      invariant forall k | 0 <= k < |out| :: out[k] == TableEntry(c, k) < 0x1_0000
    {
      var b := 0;
      while b <= 1
        invariant 0 <= b <= 2 && |out| == 2 * s + b
        invariant forall k | 0 <= k < |out| :: out[k] == TableEntry(c, k) < 0x1_0000
      {
        var reg := 2 * s + b;
        var v := 0;
        var j := 0;
        while j < |c.polys|
          invariant 0 <= j <= |c.polys|
          invariant v == FromBits(Symbols(c, reg)[..j])
        {
          SetBitAppends(Symbols(c, reg)[..j], Symbols(c, reg)[j]);
          assert Symbols(c, reg)[..j + 1] == Symbols(c, reg)[..j] + [Symbols(c, reg)[j]];
          if OnesCount(And(reg, c.polys[j])) % 2 == 1 {
            v := SetBit(v, j);
          }
          j := j + 1;
        }
        assert Symbols(c, reg)[..j] == Symbols(c, reg);
        Fits16(Symbols(c, reg));
        out := out + [v];
        b := b + 1;
      }
      s := s + 1;
    }
  }

  lemma Fits16(s: seq<nat>)
    requires IsBits(s) && |s| <= 16
    ensures FromBits(s) < 0x1_0000
  {
    FromBitsBound(s);
    Pow2Mono(|s|, 16);
    assert Pow2(8) == 0x100;
    Pow2Add(8, 8);
  }

  // ---------------------------------------------------------------- branch metrics

  function HardBits(chunk: seq<nat>): (r: seq<nat>)
    ensures |r| == |chunk| && IsBits(r)
  {
    seq(|chunk|, i requires 0 <= i < |chunk| => if chunk[i] == ERASURE then 0 else chunk[i] % 2)
  }

  function ValidBits(chunk: seq<nat>): (r: seq<nat>)
    ensures |r| == |chunk| && IsBits(r)
  {
    seq(|chunk|, i requires 0 <= i < |chunk| => if chunk[i] == ERASURE then 0 else 1)
  }

  /** The population count of the masked difference word counts the disagreements. */
  lemma {:induction false} BranchMetric(chunk: seq<nat>, w: seq<nat>)
    requires |chunk| == |w| && IsBits(w)
    ensures OnesCount(And(Xor(FromBits(w), FromBits(HardBits(chunk))), FromBits(ValidBits(chunk)))) == Mismatches(chunk, w)
  {
    if chunk != [] {
      BranchMetric(chunk[1..], w[1..]);
      assert HardBits(chunk)[1..] == HardBits(chunk[1..]);
      assert ValidBits(chunk)[1..] == ValidBits(chunk[1..]);
      FromBitsHalves(w);
      FromBitsHalves(HardBits(chunk));
      FromBitsHalves(ValidBits(chunk));
      BranchBit(FromBits(w), FromBits(HardBits(chunk)), FromBits(ValidBits(chunk)));
    }
  }

  lemma BranchBit(w: nat, hard: nat, valid: nat)
    ensures OnesCount(And(Xor(w, hard), valid))
         == (if w % 2 != hard % 2 && valid % 2 == 1 then 1 else 0) + OnesCount(And(Xor(w / 2, hard / 2), valid / 2))
  {
    XorHalves(w, hard);
    AndHalves(Xor(w, hard), valid);
  }

  lemma AndHalves(a: nat, b: nat)
    ensures And(a, b) % 2 == And1(a % 2, b % 2) && And(a, b) / 2 == And(a / 2, b / 2)
    ensures OnesCount(And(a, b)) == And1(a % 2, b % 2) + OnesCount(And(a / 2, b / 2))
  {
  }

  lemma {:induction false} MismatchesConcat(a: seq<nat>, b: seq<nat>, v: seq<nat>, w: seq<nat>)
    requires |a| == |v| && |b| == |w|
    ensures Mismatches(a + b, v + w) == Mismatches(a, v) + Mismatches(b, w)
  {
    if a == [] {
      assert a + b == b && v + w == w;
    } else {
      MismatchesConcat(a[1..], b, v[1..], w);
      assert (a + b)[1..] == a[1..] + b && (v + w)[1..] == v[1..] + w;
    }
  }

  lemma {:induction false} MismatchesBound(a: seq<nat>, w: seq<nat>)
    requires |a| == |w|
    ensures Mismatches(a, w) <= |a|
  {
    if a != [] { MismatchesBound(a[1..], w[1..]); }
  }

  // ---------------------------------------------------------------- path metrics

  /** Received symbols grouped by trellis step. */
  ghost predicate Steps(c: Code, steps: seq<seq<nat>>) {
    forall t | 0 <= t < |steps| :: |steps[t]| == c.N()
  }

  /** Distance between the received steps and the path `u`. */
  ghost function Distance(c: Code, steps: seq<seq<nat>>, u: seq<nat>): nat
    requires c.Valid() && Steps(c, steps) && IsBits(u) && |u| == |steps|
  {
    if u == [] then 0
    else
      var t := |u| - 1;
      Distance(c, steps[..t], u[..t]) + Mismatches(steps[t], Sent(c, End(c, u[..t]), u[t]))
  }

  lemma PathStep(c: Code, u: seq<nat>, b: Bit)
    requires c.Valid() && IsBits(u)
    ensures IsBits(u + [b]) && (u + [b])[..|u|] == u
    ensures End(c, u + [b]) == Next(c, End(c, u), b)
  {
    var v := u + [b];
    assert v[..|v| - 1] == u;
  }

  lemma DistanceStep(c: Code, steps: seq<seq<nat>>, chunk: seq<nat>, u: seq<nat>, b: Bit)
    requires c.Valid() && Steps(c, steps) && |chunk| == c.N() && IsBits(u) && |u| == |steps|
    ensures Steps(c, steps + [chunk]) && IsBits(u + [b]) && End(c, u + [b]) == Next(c, End(c, u), b)
    ensures Distance(c, steps + [chunk], u + [b])
         == Distance(c, steps, u) + Mismatches(chunk, Sent(c, End(c, u), b))
  {
    PathStep(c, u, b);
    assert (steps + [chunk])[..|u|] == steps;
  }

  /** The predecessor of state `s` that decision `d` names. */
  function Pred(c: Code, s: nat, d: nat): nat
    requires c.Valid()
  {
    if d == 1 then s / 2 + c.S() / 2 else s / 2
  }

  /** Both predecessors of `s` lead to `s` on input `s % 2`, and there are no others. */
  lemma Predecessors(c: Code, s: nat, p: nat, b: Bit)
    requires c.Valid() && s < c.S() && p < c.S()
    ensures Pred(c, s, 0) < c.S() && Pred(c, s, 1) < c.S()
    ensures Next(c, p, b) == s <==> b == s % 2 && (p == Pred(c, s, 0) || p == Pred(c, s, 1))
  {
    assert c.S() == 2 * Pow2(c.K - 2);
    var h := Pow2(c.K - 2);
    if p < h {
      ModUnique(2 * p + b, c.S(), 0, 2 * p + b);
    } else {
      ModUnique(2 * p + b, c.S(), 1, 2 * p + b - c.S());
    }
  }

  /** Cost of entering state `s` through decision `d` with path metrics `pm`. */
  function Candidate(c: Code, chunk: seq<nat>, pm: seq<int>, s: nat, d: nat): int
    requires c.Valid() && |chunk| == c.N() && |pm| == c.S() && s < c.S()
  {
    Predecessors(c, s, 0, 0);
    pm[Pred(c, s, d)] + Mismatches(chunk, Sent(c, Pred(c, s, d), s % 2))
  }

  /** One row of add-compare-select: survivor decisions `row` and new metrics `next`. */
  ghost predicate Selected(c: Code, chunk: seq<nat>, pm: seq<int>, next: seq<int>, row: seq<nat>)
    requires c.Valid() && |chunk| == c.N() && |pm| == |next| == |row| == c.S()
  {
    forall s | 0 <= s < c.S() :: Entered(c, chunk, pm, s, next[s], row[s])
  }

  /** Decision `d` with cost `x` is a cheapest way to enter state `s`, and the second one only if it is strictly cheaper. */
  ghost predicate Entered(c: Code, chunk: seq<nat>, pm: seq<int>, s: nat, x: int, d: nat)
    requires c.Valid() && |chunk| == c.N() && |pm| == c.S() && s < c.S()
  {
    && d <= 1
    && x == Candidate(c, chunk, pm, s, d)
    && x <= Candidate(c, chunk, pm, s, 0)
    && x <= Candidate(c, chunk, pm, s, 1)
    && (d == 1 ==> x < Candidate(c, chunk, pm, s, 0))
  }

  ghost predicate Rows(c: Code, rows: seq<seq<nat>>)
    requires c.Valid()
  {
    forall t | 0 <= t < |rows| :: |rows[t]| == c.S()
  }

  /** The path that the stored decisions trace back from state `s`. */
  ghost function Survivor(c: Code, rows: seq<seq<nat>>, s: nat): (u: seq<nat>)
    requires c.Valid() && Rows(c, rows) && s < c.S()
    ensures |u| == |rows| && IsBits(u)
  {
    if rows == [] then []
    else
      var last := |rows| - 1;
      Predecessors(c, s, 0, 0);
      Survivor(c, rows[..last], Pred(c, s, rows[last][s])) + [s % 2]
  }

  /** No path is cheaper than the metric of its end state. */
  ghost predicate NoneCheaper(c: Code, steps: seq<seq<nat>>, pm: seq<int>)
    requires c.Valid() && |pm| == c.S() && Steps(c, steps)
  {
    forall u: seq<nat> | |u| == |steps| && IsBits(u) :: pm[End(c, u)] <= Distance(c, steps, u)
  }

  /** Every metric below the sentinel is the distance of its survivor path. */
  ghost predicate Attained(c: Code, steps: seq<seq<nat>>, pm: seq<int>, rows: seq<seq<nat>>)
    requires c.Valid() && |pm| == c.S() && Steps(c, steps) && Rows(c, rows) && |rows| == |steps|
  {
    forall s | 0 <= s < c.S() && pm[s] < INF ::
      End(c, Survivor(c, rows, s)) == s && Distance(c, steps, Survivor(c, rows, s)) == pm[s]
  }

  lemma CandidateCovers(c: Code, chunk: seq<nat>, pm: seq<int>, p: nat, b: Bit)
    requires c.Valid() && |chunk| == c.N() && |pm| == c.S() && p < c.S()
    ensures var s := Next(c, p, b);
      exists d :: 0 <= d <= 1 && Candidate(c, chunk, pm, s, d) == pm[p] + Mismatches(chunk, Sent(c, p, b))
  {
    var s := Next(c, p, b);
    Predecessors(c, s, p, b);
    var d := if p == Pred(c, s, 0) then 0 else 1;
    assert Candidate(c, chunk, pm, s, d) == pm[p] + Mismatches(chunk, Sent(c, p, b));
  }

  lemma NoneCheaperStep(c: Code, steps: seq<seq<nat>>, chunk: seq<nat>, pm: seq<int>, next: seq<int>, row: seq<nat>)
    requires c.Valid() && |pm| == |next| == |row| == c.S() && Steps(c, steps) && |chunk| == c.N()
    requires NoneCheaper(c, steps, pm) && Selected(c, chunk, pm, next, row)
    ensures Steps(c, steps + [chunk]) && NoneCheaper(c, steps + [chunk], next)
  {
    forall u: seq<nat> | |u| == |steps| + 1 && IsBits(u)
      ensures next[End(c, u)] <= Distance(c, steps + [chunk], u)
    {
      var v, b := u[..|steps|], u[|steps|];
      assert u == v + [b];
      DistanceStep(c, steps, chunk, v, b);
      assert pm[End(c, v)] <= Distance(c, steps, v);
      CandidateCovers(c, chunk, pm, End(c, v), b);
    }
  }

  lemma SurvivorStep(c: Code, rows: seq<seq<nat>>, row: seq<nat>, s: nat)
    requires c.Valid() && Rows(c, rows) && |row| == c.S() && s < c.S() && row[s] <= 1
    ensures Rows(c, rows + [row]) && Pred(c, s, row[s]) < c.S()
    ensures Survivor(c, rows + [row], s) == Survivor(c, rows, Pred(c, s, row[s])) + [s % 2]
    ensures Next(c, Pred(c, s, row[s]), s % 2) == s
  {
    Predecessors(c, s, 0, 0);
    Predecessors(c, s, Pred(c, s, row[s]), s % 2);
    assert (rows + [row])[..|rows|] == rows;
  }

  lemma AttainedStep(c: Code, steps: seq<seq<nat>>, chunk: seq<nat>, pm: seq<int>, next: seq<int>, row: seq<nat>,
                     rows: seq<seq<nat>>)
    requires c.Valid() && |pm| == |next| == |row| == c.S() && Steps(c, steps) && |chunk| == c.N()
    requires Rows(c, rows) && |rows| == |steps| && Attained(c, steps, pm, rows)
    requires Selected(c, chunk, pm, next, row)
    ensures Steps(c, steps + [chunk]) && Rows(c, rows + [row])
    ensures Attained(c, steps + [chunk], next, rows + [row])
  {
    forall s | 0 <= s < c.S() && next[s] < INF
      ensures End(c, Survivor(c, rows + [row], s)) == s
      ensures Distance(c, steps + [chunk], Survivor(c, rows + [row], s)) == next[s]
    {
      SurvivorStep(c, rows, row, s);
      var p := Pred(c, s, row[s]);
      var u := Survivor(c, rows, p);
      DistanceStep(c, steps, chunk, u, s % 2);
      assert pm[p] < INF;
    }
  }

  // ---------------------------------------------------------------- ties

  /** Where `u` and `x` last differ, `u` has the 0. */
  predicate Prior(u: seq<nat>, x: seq<nat>)
    requires |u| == |x|
  {
    u == x || exists i | 0 <= i < |u| :: u[i] < x[i] && u[i + 1..] == x[i + 1..]
  }

  lemma LastDifference(u: seq<nat>, x: seq<nat>) returns (i: nat)
    requires |u| == |x| && Prior(u, x) && u != x
    ensures i < |u| && u[i] < x[i] && forall m | i < m < |u| :: u[m] == x[m]
  {
    i :| 0 <= i < |u| && u[i] < x[i] && u[i + 1..] == x[i + 1..];
    forall m | i < m < |u|
      ensures u[m] == x[m]
    {
      assert u[i + 1..][m - i - 1] == x[i + 1..][m - i - 1];
    }
  }

  /** Only one of several inputs can be prior to all of them. */
  lemma PriorUnique(u: seq<nat>, x: seq<nat>)
    requires |u| == |x| && Prior(u, x) && Prior(x, u)
    ensures u == x
  {
    if u != x {
      var i := LastDifference(u, x);
      var j := LastDifference(x, u);
    }
  }

  lemma PriorExtends(u: seq<nat>, x: seq<nat>, tail: seq<nat>)
    requires |u| == |x| && Prior(u, x)
    ensures Prior(u + tail, x + tail)
  {
    if u != x {
      var i :| 0 <= i < |u| && u[i] < x[i] && u[i + 1..] == x[i + 1..];
      var a, b := u + tail, x + tail;
      assert a[i + 1..] == u[i + 1..] + tail && b[i + 1..] == x[i + 1..] + tail;
      assert a[i] < b[i] && a[i + 1..] == b[i + 1..];
    }
  }

  lemma PriorTruncates(u: seq<nat>, x: seq<nat>, tail: seq<nat>)
    requires |u| == |x| && Prior(u + tail, x + tail)
    ensures Prior(u, x)
  {
    var a, b := u + tail, x + tail;
    if u != x {
      assert u == a[..|u|] && x == b[..|u|];
      var i :| 0 <= i < |a| && a[i] < b[i] && a[i + 1..] == b[i + 1..];
      assert i < |u|;
      assert u[i + 1..] == a[i + 1..][..|u| - i - 1] && x[i + 1..] == b[i + 1..][..|u| - i - 1];
    }
  }

  lemma EndLast(c: Code, u: seq<nat>)
    requires c.Valid() && IsBits(u) && u != []
    ensures End(c, u) == (2 * End(c, u[..|u| - 1]) + u[|u| - 1]) % Pow2(c.K - 1)
  {
  }

  lemma BitDouble(y: nat, b: Bit, j: nat)
    ensures BitAt(2 * y + b, j) == if j == 0 then b else BitAt(y, j - 1)
  {
    assert (2 * y + b) % 2 == b && (2 * y + b) / 2 == y;
  }

  /** Bit `j` of the state is the input `j` steps back. */
  lemma {:induction false} EndBits(c: Code, u: seq<nat>, j: nat)
    requires c.Valid() && IsBits(u) && j < c.K - 1
    ensures BitAt(End(c, u), j) == if j < |u| then u[|u| - 1 - j] else 0
  {
    if u == [] {
      BitOfSmall(0, j);
    } else {
      var v, b := u[..|u| - 1], u[|u| - 1];
      EndLast(c, u);
      hide End, Pow2, BitAt;
      BitMasked(2 * End(c, v) + b, j, c.K - 1);
      BitDouble(End(c, v), b, j);
      if j > 0 { EndBits(c, v, j - 1); }
    }
  }

  /** The two predecessors of a state differ in the oldest bit only. */
  lemma PredBits(c: Code, s: nat, j: nat)
    requires c.Valid() && s < c.S() && j < c.K - 1
    ensures j < c.K - 2 ==> BitAt(Pred(c, s, 0), j) == BitAt(Pred(c, s, 1), j)
    ensures BitAt(Pred(c, s, 0), c.K - 2) == 0 && BitAt(Pred(c, s, 1), c.K - 2) == 1
  {
    var h := Pow2(c.K - 2);
    assert c.S() == 2 * h;
    BitOfSmall(s / 2, c.K - 2);
    SetBitBits(s / 2, c.K - 2, j);
    SetBitBits(s / 2, c.K - 2, c.K - 2);
  }

  /** Of two paths into the predecessors of a state, the one into the even predecessor is prior. */
  lemma PredPrior(c: Code, s: nat, u: seq<nat>, x: seq<nat>)
    requires c.Valid() && s < c.S() && IsBits(u) && IsBits(x) && |u| == |x|
    requires End(c, u) == Pred(c, s, 0) && End(c, x) == Pred(c, s, 1)
    ensures Prior(u, x)
  {
    hide Pow2, End, Pred, BitAt;
    var k := c.K - 2;
    PredBits(c, s, k);
    EndBits(c, u, k);
    EndBits(c, x, k);
    var i := |u| - 1 - k;
    forall m | i < m < |u|
      ensures u[m] == x[m]
    {
      PredBits(c, s, |u| - 1 - m);
      EndBits(c, u, |u| - 1 - m);
      EndBits(c, x, |u| - 1 - m);
    }
    assert u[i + 1..] == x[i + 1..];
  }

  /** Of all cheapest paths into a state, the survivor is the prior one. */
  ghost predicate Earliest(c: Code, steps: seq<seq<nat>>, pm: seq<int>, rows: seq<seq<nat>>)
    requires c.Valid() && |pm| == c.S() && Steps(c, steps) && Rows(c, rows) && |rows| == |steps|
  {
    forall x: seq<nat> | |x| == |steps| && IsBits(x) && Distance(c, steps, x) == pm[End(c, x)] < INF ::
      Prior(Survivor(c, rows, End(c, x)), x)
  }

  lemma EarliestStep(c: Code, steps: seq<seq<nat>>, chunk: seq<nat>, pm: seq<int>, next: seq<int>, row: seq<nat>,
                     rows: seq<seq<nat>>)
    requires c.Valid() && |pm| == |next| == |row| == c.S() && Steps(c, steps) && |chunk| == c.N()
    requires Rows(c, rows) && |rows| == |steps| && Selected(c, chunk, pm, next, row)
    requires NoneCheaper(c, steps, pm) && Attained(c, steps, pm, rows) && Earliest(c, steps, pm, rows)
    ensures Steps(c, steps + [chunk]) && Rows(c, rows + [row])
    ensures Earliest(c, steps + [chunk], next, rows + [row])
  {
    hide Distance, End, Survivor, Prior, Selected, NoneCheaper, Attained;
    forall x: seq<nat> | |x| == |steps| + 1 && IsBits(x)
                         && Distance(c, steps + [chunk], x) == next[End(c, x)] < INF
      ensures Prior(Survivor(c, rows + [row], End(c, x)), x)
    {
      var y, b := x[..|steps|], x[|steps|];
      assert x == y + [b];
      EarliestPath(c, steps, chunk, pm, next, row, rows, y, b);
    }
  }

  lemma EarliestPath(c: Code, steps: seq<seq<nat>>, chunk: seq<nat>, pm: seq<int>, next: seq<int>, row: seq<nat>,
                     rows: seq<seq<nat>>, y: seq<nat>, b: Bit)
    requires c.Valid() && |pm| == |next| == |row| == c.S() && Steps(c, steps) && |chunk| == c.N()
    requires Rows(c, rows) && |rows| == |steps| == |y| && Selected(c, chunk, pm, next, row)
    requires NoneCheaper(c, steps, pm) && Attained(c, steps, pm, rows) && Earliest(c, steps, pm, rows)
    requires Steps(c, steps + [chunk]) && Rows(c, rows + [row]) && IsBits(y + [b])
    requires Distance(c, steps + [chunk], y + [b]) == next[End(c, y + [b])] < INF
    ensures Prior(Survivor(c, rows + [row], End(c, y + [b])), y + [b])
  {
    hide Mismatches, Sent, Prior, Pow2, Next, Pred;
    assert IsBits(y) by { assert forall i | 0 <= i < |y| :: y[i] == (y + [b])[i]; }
    DistanceStep(c, steps, chunk, y, b);
    var s, p := End(c, y + [b]), End(c, y);
    assert Entered(c, chunk, pm, s, next[s], row[s]);
    Predecessors(c, s, p, b);
    SurvivorStep(c, rows, row, s);
    assert pm[p] <= Distance(c, steps, y);
    var q := Pred(c, s, row[s]);
    var u := Survivor(c, rows, q);
    assert pm[p] == Distance(c, steps, y);
    if p == q {
      assert Prior(u, y);
    } else {
      assert row[s] == 0 && p == Pred(c, s, 1);
      assert pm[q] < INF;
      PredPrior(c, s, u, y);
    }
    PriorExtends(u, y, [b]);
  }

  // ---------------------------------------------------------------- grouping

  /** Number of complete trellis steps received. */
  function StepCount(c: Code, coded: seq<nat>): (t: nat)
    requires c.Valid()
    ensures Offset(t, c.N()) <= |coded|
  {
    |coded| / |c.polys|
  }

  /** The first `t` groups of `n` consecutive elements. */
  function Group(a: seq<nat>, n: nat, t: nat): (r: seq<seq<nat>>)
    requires Offset(t, n) <= |a|
    ensures |r| == t && forall i | 0 <= i < t :: |r[i]| == n
  {
    if t == 0 then []
    else
      assert t * n == (t - 1) * n + n;
      Group(a, n, t - 1) + [a[Offset(t - 1, n)..Offset(t - 1, n) + n]]
  }

  lemma GroupSnoc(a: seq<nat>, n: nat, t: nat, m: nat)
    requires t < m && Offset(m, n) <= |a|
    ensures Offset(t, n) + n == Offset(t + 1, n) <= Offset(m, n)
    ensures Group(a, n, t + 1) == Group(a, n, t) + [a[Offset(t, n)..Offset(t, n) + n]]
  {
    OffsetStep(t, m, n);
  }

  lemma {:induction false} GroupPrefix(a: seq<nat>, b: seq<nat>, n: nat, t: nat)
    requires Offset(t, n) <= |a| && Offset(t, n) <= |b| && a[..Offset(t, n)] == b[..Offset(t, n)]
    ensures Group(a, n, t) == Group(b, n, t)
  {
    if t > 0 {
      OffsetStep(t - 1, t, n);
      hide Offset;
      var i := Offset(t - 1, n);
      assert a[..i] == a[..i + n][..i] == b[..i];
      GroupPrefix(a, b, n, t - 1);
      assert a[i..i + n] == a[..i + n][i..] == b[i..i + n];
    }
  }

  lemma DistanceGrows(c: Code, steps: seq<seq<nat>>, chunk: seq<nat>, a: seq<nat>, v: seq<nat>, b: Bit)
    requires c.Valid() && Steps(c, steps) && IsBits(v) && |v| == |steps| && |chunk| == c.N()
    requires |a| == |Coded(c, v)| && Distance(c, steps, v) == Mismatches(a, Coded(c, v))
    ensures Coded(c, v + [b]) == Coded(c, v) + Sent(c, End(c, v), b)
    ensures Distance(c, steps + [chunk], v + [b]) == Mismatches(a + chunk, Coded(c, v + [b]))
  {
    hide Offset, Pow2, Mismatches, Sent, Next, Distance, End, Coded, Steps;
    DistanceStep(c, steps, chunk, v, b);
    CodedSnoc(c, v, b);
    MismatchesConcat(a, chunk, Coded(c, v), Sent(c, End(c, v), b));
  }

  lemma CodedSnoc(c: Code, v: seq<nat>, b: Bit)
    requires c.Valid() && IsBits(v)
    ensures IsBits(v + [b]) && Coded(c, v + [b]) == Coded(c, v) + Sent(c, End(c, v), b)
  {
    hide Offset, Pow2, Sent, Next, End;
    PathStep(c, v, b);
  }

  lemma {:induction false} DistanceIsMismatches(c: Code, received: seq<nat>, u: seq<nat>)
    requires c.Valid() && IsBits(u) && Offset(|u|, c.N()) <= |received|
    ensures Distance(c, Group(received, c.N(), |u|), u) == Mismatches(received[..Offset(|u|, c.N())], Coded(c, u))
  {
    if u != [] {
      var t := |u| - 1;
      OffsetStep(t, |u|, c.N());
      DistanceIsMismatches(c, received, u[..t]);
      DistanceIsMismatchesStep(c, received, u[..t], u[t]);
      assert u[..t] + [u[t]] == u;
    }
  }

  lemma DistanceIsMismatchesStep(c: Code, received: seq<nat>, v: seq<nat>, b: Bit)
    requires c.Valid() && IsBits(v) && Offset(|v|, c.N()) <= |received| && Offset(|v| + 1, c.N()) <= |received|
    requires Distance(c, Group(received, c.N(), |v|), v) == Mismatches(received[..Offset(|v|, c.N())], Coded(c, v))
    ensures Distance(c, Group(received, c.N(), |v| + 1), v + [b])
         == Mismatches(received[..Offset(|v| + 1, c.N())], Coded(c, v + [b]))
  {
    hide Offset, Pow2, Mismatches, Sent, Next, Coded, Distance, Group, End;
    var n, t := c.N(), |v|;
    GroupSnoc(received, n, t, t + 1);
    var i := Offset(t, n);
    var a, chunk, steps := received[..i], received[i..i + n], Group(received, n, t);
    DistanceGrows(c, steps, chunk, a, v, b);
    assert received[..Offset(t + 1, n)] == a + chunk;
    assert Group(received, n, t + 1) == steps + [chunk];
  }

  // ---------------------------------------------------------------- the decoder

  /** Distance of one branch, by word operations. */
  method Branch(c: Code, tab: seq<nat>, sym: nat, valid: nat, ghost chunk: seq<nat>, p: nat, b: Bit) returns (bm: nat)
    requires c.Valid() && |chunk| == c.N() && p < c.S()
    requires |tab| == 2 * c.S() && forall k | 0 <= k < |tab| :: tab[k] == TableEntry(c, k)
    requires sym == FromBits(HardBits(chunk)) && valid == FromBits(ValidBits(chunk))
    ensures bm == Mismatches(chunk, Sent(c, p, b)) <= c.N()
  {
    BranchMetric(chunk, Sent(c, p, b));
    MismatchesBound(chunk, Sent(c, p, b));
    bm := OnesCount(And(Xor(tab[2 * p + b], sym), valid));
  }

  /** Compares the two ways into state `ns`. */
  method CompareSelect(c: Code, tab: seq<nat>, sym: nat, valid: nat, ghost chunk: seq<nat>, pm: array<Int32>, ns: nat)
    returns (x: Int32, d: nat)
    requires c.Valid() && |chunk| == c.N() && ns < c.S() == pm.Length
    requires |tab| == 2 * c.S() && forall k | 0 <= k < |tab| :: tab[k] == TableEntry(c, k)
    requires sym == FromBits(HardBits(chunk)) && valid == FromBits(ValidBits(chunk))
    requires forall s | 0 <= s < c.S() :: 0 <= pm[s] < 0x8000_0000 - c.N()
    ensures Entered(c, chunk, pm[..], ns, x, d)
  {
    hide Pow2, FromBits, Mismatches, TableEntry, HardBits, ValidBits, Sent;
    var half := c.S() / 2;
    var p0 := ns / 2;
    var p1 := p0 + half;
    var b := ns % 2;
    Predecessors(c, ns, 0, 0);
    var bm0 := Branch(c, tab, sym, valid, chunk, p0, b);
    var bm1 := Branch(c, tab, sym, valid, chunk, p1, b);
    var c0: Int32 := pm[p0] + bm0;
    var c1: Int32 := pm[p1] + bm1;
    assert c0 == Candidate(c, chunk, pm[..], ns, 0) && c1 == Candidate(c, chunk, pm[..], ns, 1);
    if c1 < c0 {
      x, d := c1, 1;
    } else {
      x, d := c0, 0;
    }
  }

  /** One trellis step over all states: fills `next` and row `base..base+S` of `prev`. */
  method AddCompareSelect(c: Code, tab: seq<nat>, sym: nat, valid: nat, ghost chunk: seq<nat>,
                          pm: array<Int32>, next: array<Int32>, prev: array<nat>, base: nat)
    requires c.Valid() && |chunk| == c.N()
    requires |tab| == 2 * c.S() && forall k | 0 <= k < |tab| :: tab[k] == TableEntry(c, k)
    requires sym == FromBits(HardBits(chunk)) && valid == FromBits(ValidBits(chunk))
    requires pm.Length == next.Length == c.S() && pm != next
    requires base + c.S() <= prev.Length
    requires forall s | 0 <= s < c.S() :: 0 <= pm[s] < 0x8000_0000 - c.N()
    modifies next, prev
    ensures pm[..] == old(pm[..])
    ensures Selected(c, chunk, pm[..], next[..], prev[base..base + c.S()])
    ensures prev[..base] == old(prev[..base])
  {
    hide Entered, Pow2, FromBits, TableEntry, HardBits, ValidBits;
    ghost var metrics: seq<int> := pm[..];
    var ns := 0;
    while ns < c.S()
      invariant 0 <= ns <= c.S()
      invariant pm[..] == old(pm[..]) && pm[..] == metrics
      invariant prev[..base] == old(prev[..base])
      invariant forall s | 0 <= s < ns :: Entered(c, chunk, metrics, s, next[s], prev[base + s])
    {
      var x, d := CompareSelect(c, tab, sym, valid, chunk, pm, ns);
      next[ns] := x;
      prev[base + ns] := d;
      ns := ns + 1;
    }
  }

  // ---------------------------------------------------------------- flushing

  lemma ModMod(x: nat, q: nat, r: nat)
    requires q > 0 && r > 0
    ensures q * r > 0 && x % (q * r) % q == x % q
  {
    assert q * r > 0;
    var y := x % (q * r);
    var d := x / (q * r);
    assert x == q * (r * d + y / q) + y % q by {
      assert x == q * r * d + y;
      assert q * r * d == q * (r * d);
      assert q * (r * d) + q * (y / q) == q * (r * d + y / q);
    }
    ModUnique(x, q, r * d + y / q, y % q);
  }

  lemma ModDouble(s: nat, b: Bit, q: nat)
    requires q > 0
    ensures (2 * s + b) % (2 * q) == 2 * (s % q) + b
  {
    assert 2 * s + b == 2 * q * (s / q) + (2 * (s % q) + b) by {
      assert s == q * (s / q) + s % q;
      assert 2 * q * (s / q) == 2 * (q * (s / q));
    }
    ModUnique(2 * s + b, 2 * q, s / q, 2 * (s % q) + b);
  }

  lemma NextLowBits(c: Code, s: nat, b: Bit, j: nat)
    requires c.Valid() && 1 <= j <= c.K - 1
    ensures Next(c, s, b) % Pow2(j) == 0 <==> b == 0 && s % Pow2(j - 1) == 0
  {
    Pow2Add(j, c.K - 1 - j);
    ModMod(2 * s + b, Pow2(j), Pow2(c.K - 1 - j));
    ModDouble(s, b, Pow2(j - 1));
  }

  /** The low `j` bits of the state are the newest `j` input bits. */
  lemma {:induction false} TailZeros(c: Code, u: seq<nat>, j: nat)
    requires c.Valid() && IsBits(u) && j <= c.K - 1 && j <= |u|
    ensures End(c, u) % Pow2(j) == 0 <==> u[|u| - j..] == Zeros(j)
  {
    if j > 0 {
      var t := |u| - 1;
      TailZeros(c, u[..t], j - 1);
      NextLowBits(c, End(c, u[..t]), u[t], j);
      assert u[|u| - j..] == u[..t][t - (j - 1)..] + [u[t]];
      assert Zeros(j) == Zeros(j - 1) + [0];
      if u[|u| - j..] == Zeros(j) {
        assert u[|u| - j..][..j - 1] == Zeros(j)[..j - 1] && u[|u| - j..][j - 1] == 0;
        assert u[..t][t - (j - 1)..] == Zeros(j - 1);
      }
    }
  }

  /** Every flushed message ends in state 0 ... */
  lemma FlushedEnds(c: Code, m: seq<nat>)
    requires c.Valid() && IsBits(m)
    ensures End(c, m + Zeros(c.K - 1)) == 0
  {
    var j, u := c.K - 1, m + Zeros(c.K - 1);
    assert u[|u| - j..] == Zeros(j);
    TailZeros(c, u, j);
    SmallMod(End(c, u), c.S());
  }

  /** ... and every path that ends in state 0 is a flushed message. */
  lemma EndsFlushed(c: Code, u: seq<nat>)
    requires c.Valid() && IsBits(u) && |u| >= c.K - 1 && End(c, u) == 0
    ensures u == u[..|u| - (c.K - 1)] + Zeros(c.K - 1)
  {
    var j := c.K - 1;
    TailZeros(c, u, j);
    SmallMod(0, c.S());
    assert u == u[..|u| - j] + u[|u| - j..];
  }

  lemma SmallMod(x: nat, m: nat)
    requires x < m
    ensures x % m == x
  {
  }

  // ---------------------------------------------------------------- maximum likelihood

  lemma MetricsStart(c: Code, pm: seq<int>)
    requires c.Valid() && |pm| == c.S() && pm[0] == 0
    requires forall s | 1 <= s < c.S() :: pm[s] == INF
    ensures NoneCheaper(c, [], pm) && Attained(c, [], pm, []) && Earliest(c, [], pm, [])
  {
  }

  lemma MetricBound(c: Code, chunk: seq<nat>, pm: seq<int>, next: seq<int>, row: seq<nat>, bound: int)
    requires c.Valid() && |chunk| == c.N() && |pm| == |next| == |row| == c.S()
    requires Selected(c, chunk, pm, next, row)
    requires forall s | 0 <= s < c.S() :: 0 <= pm[s] <= bound
    ensures forall s | 0 <= s < c.S() :: 0 <= next[s] <= bound + c.N()
  {
    forall s | 0 <= s < c.S()
      ensures 0 <= next[s] <= bound + c.N()
    {
      assert Entered(c, chunk, pm, s, next[s], row[s]);
      Predecessors(c, s, 0, 0);
      MismatchesBound(chunk, Sent(c, Pred(c, s, row[s]), s % 2));
    }
  }

  /** The all-zero path keeps the sentinel out of every minimum. */
  lemma ZeroPath(c: Code, received: seq<nat>, t: nat, pm: seq<int>)
    requires c.Valid() && Offset(t, c.N()) <= |received| && Offset(t, c.N()) < INF && |pm| == c.S()
    requires NoneCheaper(c, Group(received, c.N(), t), pm)
    ensures pm[0] < INF
  {
    var z := Zeros(t);
    ZerosStay(c, t);
    assert pm[End(c, z)] <= Distance(c, Group(received, c.N(), t), z);
    DistanceIsMismatches(c, received, z);
    MismatchesBound(received[..Offset(t, c.N())], Coded(c, z));
  }

  lemma {:induction false} ZerosStay(c: Code, t: nat)
    requires c.Valid()
    ensures End(c, Zeros(t)) == 0
  {
    if t > 0 {
      ZerosStay(c, t - 1);
      assert Zeros(t)[..t - 1] == Zeros(t - 1);
      assert Next(c, 0, 0) == 0;
    }
  }

  /** The complete trellis steps of the received symbols. */
  function Whole(c: Code, coded: seq<nat>): (r: seq<nat>)
    requires c.Valid()
    ensures |r| == Offset(StepCount(c, coded), c.N())
  {
    coded[..Offset(StepCount(c, coded), c.N())]
  }

  /** `m` explains the received symbols at least as well as every other message of its length. */
  ghost predicate MostLikely(c: Code, coded: seq<nat>, m: seq<nat>)
    requires c.Valid() && IsBits(m) && |m| + c.K - 1 == StepCount(c, coded)
  {
    forall x: seq<nat> | |x| == |m| && IsBits(x) ::
      Mismatches(Whole(c, coded), Encode(c, m)) <= Mismatches(Whole(c, coded), Encode(c, x))
  }

  /** The same among unterminated paths. */
  ghost predicate MostLikelyPath(c: Code, coded: seq<nat>, u: seq<nat>)
    requires c.Valid() && IsBits(u) && |u| == StepCount(c, coded)
  {
    forall x: seq<nat> | |x| == |u| && IsBits(x) ::
      Mismatches(Whole(c, coded), Coded(c, u)) <= Mismatches(Whole(c, coded), Coded(c, x))
  }

  ghost predicate Decided(c: Code, coded: seq<nat>, pm: seq<int>, rows: seq<seq<nat>>)
    requires c.Valid()
  {
    var t := StepCount(c, coded);
    && |pm| == c.S() && Rows(c, rows) && |rows| == t
    && NoneCheaper(c, Group(Whole(c, coded), c.N(), t), pm)
    && Attained(c, Group(Whole(c, coded), c.N(), t), pm, rows)
    && Earliest(c, Group(Whole(c, coded), c.N(), t), pm, rows)
  }

  lemma SurvivorIsBest(c: Code, coded: seq<nat>, pm: seq<int>, rows: seq<seq<nat>>, s: nat, x: seq<nat>)
    requires c.Valid() && Decided(c, coded, pm, rows) && s < c.S() && pm[s] < INF
    requires IsBits(x) && |x| == StepCount(c, coded) && pm[s] <= pm[End(c, x)]
    ensures Mismatches(Whole(c, coded), Coded(c, Survivor(c, rows, s))) <= Mismatches(Whole(c, coded), Coded(c, x))
  {
    var t, r := StepCount(c, coded), Whole(c, coded);
    assert r[..Offset(t, c.N())] == r;
    DistanceIsMismatches(c, r, Survivor(c, rows, s));
    DistanceIsMismatches(c, r, x);
  }

  lemma SurvivorEnds(c: Code, coded: seq<nat>, pm: seq<int>, rows: seq<seq<nat>>, s: nat)
    requires c.Valid() && Decided(c, coded, pm, rows) && s < c.S() && pm[s] < INF
    ensures End(c, Survivor(c, rows, s)) == s
  {
    hide Survivor, End, Pow2, Offset, Whole, Group, NoneCheaper, Earliest, Distance;
  }

  lemma TerminatedBest(c: Code, coded: seq<nat>, pm: seq<int>, rows: seq<seq<nat>>)
    requires c.Valid() && Decided(c, coded, pm, rows) && pm[0] < INF
    requires StepCount(c, coded) >= c.K - 1
    ensures MostLikely(c, coded, Survivor(c, rows, 0)[..|rows| - (c.K - 1)])
  {
    hide Offset, Pow2, Next, StepCount, Group, Survivor, End, Coded, Encode, Mismatches, Whole, NoneCheaper, Attained,
         Earliest;
    SurvivorEnds(c, coded, pm, rows, 0);
    var m := Survivor(c, rows, 0)[..|rows| - (c.K - 1)];
    SurvivorEncodes(c, rows);
    forall x: seq<nat> | |x| == |m| && IsBits(x)
      ensures Mismatches(Whole(c, coded), Encode(c, m)) <= Mismatches(Whole(c, coded), Encode(c, x))
    {
      BeatsMessage(c, coded, pm, rows, x);
    }
  }

  lemma SurvivorEncodes(c: Code, rows: seq<seq<nat>>)
    requires c.Valid() && Rows(c, rows) && |rows| >= c.K - 1 && End(c, Survivor(c, rows, 0)) == 0
    ensures Encode(c, Survivor(c, rows, 0)[..|rows| - (c.K - 1)]) == Coded(c, Survivor(c, rows, 0))
  {
    hide Offset, Pow2, Next;
    EndsFlushed(c, Survivor(c, rows, 0));
  }

  lemma BeatsMessage(c: Code, coded: seq<nat>, pm: seq<int>, rows: seq<seq<nat>>, x: seq<nat>)
    requires c.Valid() && Decided(c, coded, pm, rows) && pm[0] < INF
    requires IsBits(x) && |x| + c.K - 1 == StepCount(c, coded)
    ensures Mismatches(Whole(c, coded), Coded(c, Survivor(c, rows, 0))) <= Mismatches(Whole(c, coded), Encode(c, x))
  {
    hide Survivor, End, Coded, Mismatches, Pow2, Offset, StepCount, Whole, Group;
    FlushedEnds(c, x);
    SurvivorIsBest(c, coded, pm, rows, 0, x + Zeros(c.K - 1));
  }

  /** Of all most likely messages, `m` has the 0 where it last differs from another one. */
  ghost predicate PriorMessage(c: Code, coded: seq<nat>, m: seq<nat>)
    requires c.Valid() && |m| + c.K - 1 == StepCount(c, coded)
  {
    forall x: seq<nat> | |x| == |m| && IsBits(x) && MostLikely(c, coded, x) :: Prior(m, x)
  }

  /** Of all most likely paths, `u` ends in the lowest state, and there it has the 0 where it last differs from another one. */
  ghost predicate PriorPath(c: Code, coded: seq<nat>, u: seq<nat>)
    requires c.Valid() && IsBits(u) && |u| == StepCount(c, coded)
  {
    forall x: seq<nat> | |x| == |u| && IsBits(x) && MostLikelyPath(c, coded, x) ::
      End(c, u) <= End(c, x) && (End(c, u) == End(c, x) ==> Prior(u, x))
  }

  /** A path as cheap as the survivor of its end state comes after it. */
  lemma TiePrior(c: Code, coded: seq<nat>, pm: seq<int>, rows: seq<seq<nat>>, s: nat, x: seq<nat>)
    requires c.Valid() && Decided(c, coded, pm, rows) && s < c.S() && pm[s] < INF
    requires IsBits(x) && |x| == StepCount(c, coded)
    requires Mismatches(Whole(c, coded), Coded(c, x)) <= Mismatches(Whole(c, coded), Coded(c, Survivor(c, rows, s)))
    ensures pm[End(c, x)] <= pm[s]
    ensures End(c, x) == s ==> Prior(Survivor(c, rows, s), x)
  {
    hide Survivor, Prior, Coded, Mismatches, Pow2, Offset, End, Next, Distance;
    var t, r := StepCount(c, coded), Whole(c, coded);
    assert r[..Offset(t, c.N())] == r;
    DistanceIsMismatches(c, r, Survivor(c, rows, s));
    DistanceIsMismatches(c, r, x);
    assert pm[End(c, x)] <= Distance(c, Group(r, c.N(), t), x);
  }

  lemma TerminatedPrior(c: Code, coded: seq<nat>, pm: seq<int>, rows: seq<seq<nat>>)
    requires c.Valid() && Decided(c, coded, pm, rows) && pm[0] < INF
    requires StepCount(c, coded) >= c.K - 1
    ensures PriorMessage(c, coded, Survivor(c, rows, 0)[..|rows| - (c.K - 1)])
  {
    hide Offset, Pow2, Next, StepCount, Group, Survivor, End, Coded, Encode, Mismatches, Whole, Prior;
    var u := Survivor(c, rows, 0);
    var m := u[..|rows| - (c.K - 1)];
    forall x: seq<nat> | |x| == |m| && IsBits(x) && MostLikely(c, coded, x)
      ensures Prior(m, x)
    {
      MessagePrior(c, coded, pm, rows, x);
    }
  }

  lemma MessagePrior(c: Code, coded: seq<nat>, pm: seq<int>, rows: seq<seq<nat>>, x: seq<nat>)
    requires c.Valid() && Decided(c, coded, pm, rows) && pm[0] < INF
    requires IsBits(x) && |x| + c.K - 1 == StepCount(c, coded) && MostLikely(c, coded, x)
    ensures Prior(Survivor(c, rows, 0)[..|rows| - (c.K - 1)], x)
  {
    hide Survivor, End, Coded, Encode, Mismatches, Pow2, Offset, StepCount, Whole, Group, Prior, Next, NoneCheaper, Attained,
         Earliest;
    var u, z := Survivor(c, rows, 0), Zeros(c.K - 1);
    var m := u[..|rows| - (c.K - 1)];
    SurvivorEnds(c, coded, pm, rows, 0);
    EndsFlushed(c, u);
    FlushedEnds(c, x);
    SurvivorEncodes(c, rows);
    EncodeIsCoded(c, x);
    assert IsBits(m);
    assert Mismatches(Whole(c, coded), Encode(c, x)) <= Mismatches(Whole(c, coded), Encode(c, m));
    TiePrior(c, coded, pm, rows, 0, x + z);
    PriorTruncates(m, x, z);
  }

  lemma EncodeIsCoded(c: Code, m: seq<nat>)
    requires c.Valid() && IsBits(m)
    ensures IsBits(m + Zeros(c.K - 1)) && Encode(c, m) == Coded(c, m + Zeros(c.K - 1))
  {
  }

  lemma UnterminatedPrior(c: Code, coded: seq<nat>, pm: seq<int>, rows: seq<seq<nat>>, s: nat)
    requires c.Valid() && Decided(c, coded, pm, rows) && s < c.S() && pm[s] < INF
    requires forall x | 0 <= x < s :: pm[s] < pm[x]
    ensures PriorPath(c, coded, Survivor(c, rows, s))
  {
    hide Survivor, Coded, Mismatches, Pow2, Offset, StepCount, Whole, Group, Prior, Next, Distance;
    var u := Survivor(c, rows, s);
    forall x: seq<nat> | |x| == |rows| && IsBits(x) && MostLikelyPath(c, coded, x)
      ensures End(c, u) <= End(c, x) && (End(c, u) == End(c, x) ==> Prior(u, x))
    {
      TiePrior(c, coded, pm, rows, s, x);
    }
  }

  /** What the forward recursion keeps: metrics `pm` and decisions `rows` for the received `steps`. */
  ghost predicate Progress(c: Code, steps: seq<seq<nat>>, pm: seq<int>, rows: seq<seq<nat>>, bound: int)
    requires c.Valid()
  {
    && |pm| == c.S() && Steps(c, steps) && Rows(c, rows) && |rows| == |steps|
    && (forall s | 0 <= s < c.S() :: 0 <= pm[s] <= bound)
    && NoneCheaper(c, steps, pm)
    && Attained(c, steps, pm, rows)
    && Earliest(c, steps, pm, rows)
  }

  lemma ProgressStep(c: Code, steps: seq<seq<nat>>, chunk: seq<nat>, pm: seq<int>, next: seq<int>, row: seq<nat>,
                     rows: seq<seq<nat>>, bound: int)
    requires c.Valid() && Progress(c, steps, pm, rows, bound) && |next| == |row| == c.S() && |chunk| == c.N()
    requires Selected(c, chunk, pm, next, row)
    ensures Progress(c, steps + [chunk], next, rows + [row], bound + c.N())
  {
    MetricBound(c, chunk, pm, next, row, bound);
    NoneCheaperStep(c, steps, chunk, pm, next, row);
    AttainedStep(c, steps, chunk, pm, next, row, rows);
    EarliestStep(c, steps, chunk, pm, next, row, rows);
  }

  lemma ForwardStart(c: Code, r: seq<nat>, pm: seq<int>, prev: seq<nat>)
    requires c.Valid() && |pm| == c.S() && pm[0] == 0
    requires forall s | 1 <= s < c.S() :: pm[s] == INF
    ensures Progress(c, Group(r, c.N(), 0), pm, Group(prev, c.S(), 0), INF)
  {
    MetricsStart(c, pm);
  }

  /** One trellis step of the forward pass. */
  method ForwardStep(coded: seq<nat>, c: Code, tab: seq<nat>, pm: array<Int32>, next: array<Int32>, prev: array<nat>,
                     at: nat, base: nat, ghost steps: seq<seq<nat>>, ghost rows: seq<seq<nat>>, ghost bound: int)
    requires c.Valid() && at + c.N() <= |coded| && base + c.S() <= prev.Length
    requires |tab| == 2 * c.S() && forall k | 0 <= k < |tab| :: tab[k] == TableEntry(c, k)
    requires pm.Length == next.Length == c.S() && pm != next
    requires Progress(c, steps, pm[..], rows, bound) && bound + c.N() < 0x8000_0000
    modifies next, prev
    ensures prev[..base] == old(prev[..base]) && pm[..] == old(pm[..])
    ensures Progress(c, steps + [coded[at..at + c.N()]], next[..], rows + [prev[base..base + c.S()]], bound + c.N())
  {
    ghost var chunk := coded[at..at + c.N()];
    var sym, valid := PackStep(coded, at, c.N(), chunk);
    ghost var metrics := pm[..];
    AddCompareSelect(c, tab, sym, valid, chunk, pm, next, prev, base);
    ProgressStep(c, steps, chunk, metrics, next[..], prev[base..base + c.S()], rows, bound);
  }

  /** Add-compare-select over all received steps. */
  method Forward(coded: seq<nat>, c: Code, nSteps: nat) returns (pm: array<Int32>, prev: array<nat>)
    requires c.Valid() && nSteps == StepCount(c, coded) && Offset(nSteps, c.N()) < INF
    ensures pm.Length == c.S() && prev.Length == Offset(nSteps, c.S())
    ensures Progress(c, Group(coded, c.N(), nSteps), pm[..], Group(prev[..], c.S(), nSteps), INF + Offset(nSteps, c.N()))
  {
    hide Progress, Pow2, Group, StepCount;
    var tab := NewViterbiTable(c);
    var n, S := |c.polys|, c.S();
    pm := new Int32[S](_ => INF);
    pm[0] := 0;
    var next := new Int32[S];
    prev := new nat[Offset(nSteps, S)](_ => 0);
    ForwardStart(c, coded, pm[..], prev[..]);
    assert Offset(0, n) == 0 && Offset(0, S) == 0;
    hide Offset;
    var t := 0;
    while t < nSteps
      invariant 0 <= t <= nSteps && Offset(t, n) <= |coded| && Offset(t, S) <= prev.Length
      invariant pm.Length == next.Length == S && pm != next && prev.Length == Offset(nSteps, S)
      invariant fresh(pm) && fresh(next) && fresh(prev)
      invariant Progress(c, Group(coded, n, t), pm[..], Group(prev[..], S, t), INF + Offset(t, n))
    {
      ghost var before := prev[..];
      GroupSnoc(coded, n, t, nSteps);
      OffsetStep(t, nSteps, n);
      OffsetStep(t, nSteps, S);
      var at, base := Offset(t, n), Offset(t, S);
      ForwardStep(coded, c, tab, pm, next, prev, at, base, Group(coded, n, t), Group(prev[..], S, t), INF + at);
      GroupPrefix(before, prev[..], S, t);
      GroupSnoc(prev[..], S, t, nSteps);
      pm, next := next, pm;
      t := t + 1;
    }
  }

  /** Follows the stored decisions backwards from `final`. */
  method TraceBack(c: Code, prev: array<nat>, nSteps: nat, final: nat) returns (dec: seq<nat>)
    requires c.Valid() && prev.Length == Offset(nSteps, c.S()) && final < c.S()
    ensures dec == Survivor(c, Group(prev[..], c.S(), nSteps), final)
  {
    hide Pow2, Group, Offset, Survivor;
    var S := c.S();
    var half := S / 2;
    ghost var decisions := prev[..];
    ghost var path := Survivor(c, Group(decisions, S, nSteps), final);
    var bits := new nat[nSteps](_ => 0);
    var state := final;
    var t := nSteps;
    while t > 0
      invariant 0 <= t <= nSteps && 0 <= state < S && prev[..] == decisions
      invariant Offset(t, S) <= |decisions|
      invariant OnPath(c, decisions, t, state, bits[t..], path)
    {
      t := t - 1;
      var base := Offset(t, S);
      PathBack(c, decisions, t, nSteps, state, bits[t + 1..], path);
      bits[t] := state % 2;
      assert bits[t..] == [state % 2] + bits[t + 1..];
      var p0 := state / 2;
      if prev[base + state] == 1 {
        state := p0 + half;
      } else {
        state := p0;
      }
    }
    PathDone(c, decisions, state, bits[..], path);
    assert bits[0..] == bits[..];
    dec := bits[..];
  }

  /** `tail` completes the path traced back from `state` after `t` steps. */
  ghost predicate OnPath(c: Code, prev: seq<nat>, t: nat, state: nat, tail: seq<nat>, path: seq<nat>)
    requires c.Valid() && Offset(t, c.S()) <= |prev| && state < c.S()
  {
    path == Survivor(c, Group(prev, c.S(), t), state) + tail
  }

  lemma PathDone(c: Code, prev: seq<nat>, state: nat, tail: seq<nat>, path: seq<nat>)
    requires c.Valid() && Offset(0, c.S()) <= |prev| && state < c.S() && OnPath(c, prev, 0, state, tail, path)
    ensures tail == path
  {
  }

  lemma PathBack(c: Code, prev: seq<nat>, t: nat, m: nat, s: nat, tail: seq<nat>, path: seq<nat>)
    requires c.Valid() && t < m && Offset(m, c.S()) <= |prev| && s < c.S() && Offset(t + 1, c.S()) <= |prev|
    requires OnPath(c, prev, t + 1, s, tail, path)
    ensures Offset(t, c.S()) + c.S() <= |prev| && Pred(c, s, prev[Offset(t, c.S()) + s]) < c.S()
    ensures OnPath(c, prev, t, Pred(c, s, prev[Offset(t, c.S()) + s]), [s % 2] + tail, path)
  {
    GroupSnoc(prev, c.S(), t, m);
    hide Offset, Group, Pow2;
    var i := Offset(t, c.S());
    SurvivorBack(c, Group(prev, c.S(), t), prev[i..i + c.S()], s, tail);
  }

  lemma SurvivorBack(c: Code, rows: seq<seq<nat>>, row: seq<nat>, s: nat, tail: seq<nat>)
    requires c.Valid() && Rows(c, rows) && |row| == c.S() && s < c.S()
    ensures Rows(c, rows + [row]) && Pred(c, s, row[s]) < c.S()
    ensures Survivor(c, rows + [row], s) + tail == Survivor(c, rows, Pred(c, s, row[s])) + ([s % 2] + tail)
  {
    Predecessors(c, s, 0, 0);
    assert (rows + [row])[..|rows|] == rows;
  }

  method BestState(pm: array<Int32>) returns (state: nat)
    requires pm.Length > 0
    ensures state < pm.Length && forall x | 0 <= x < pm.Length :: pm[state] <= pm[x]
    ensures forall x | 0 <= x < state :: pm[state] < pm[x]
  {
    state := 0;
    var best := pm[0];
    var s := 1;
    while s < pm.Length
      invariant 1 <= s <= pm.Length && 0 <= state < s && best == pm[state]
      invariant forall x | 0 <= x < s :: best <= pm[x]
      invariant forall x | 0 <= x < state :: best < pm[x]
    {
      if pm[s] < best {
        best, state := pm[s], s;
      }
      s := s + 1;
    }
  }

  lemma ForwardDecides(c: Code, coded: seq<nat>, pm: seq<int>, rows: seq<seq<nat>>)
    requires c.Valid() && Offset(StepCount(c, coded), c.N()) < INF
    requires Progress(c, Group(coded, c.N(), StepCount(c, coded)), pm, rows, INF + Offset(StepCount(c, coded), c.N()))
    ensures Decided(c, coded, pm, rows) && pm[0] < INF
  {
    hide Offset, StepCount, Pow2;
    var t := StepCount(c, coded);
    GroupPrefix(coded, Whole(c, coded), c.N(), t);
    ZeroPath(c, Whole(c, coded), t, pm);
  }

  method ViterbiDecode(coded: seq<nat>, c: Code, terminated: bool) returns (dec: seq<nat>)
    requires c.Valid() && Offset(StepCount(c, coded), c.N()) < INF
    requires terminated ==> StepCount(c, coded) >= c.K - 1
    ensures IsBits(dec)
    ensures terminated ==> |dec| + c.K - 1 == StepCount(c, coded) && MostLikely(c, coded, dec)
    ensures !terminated ==> |dec| == StepCount(c, coded) && MostLikelyPath(c, coded, dec)
    ensures terminated ==> PriorMessage(c, coded, dec)
    ensures !terminated ==> PriorPath(c, coded, dec)
  {
    hide MostLikely, MostLikelyPath, PriorMessage, PriorPath, Decided, Progress, Survivor, Offset, StepCount, Pow2, Group;
    var nSteps := StepCount(c, coded);
    var pm, prev := Forward(coded, c, nSteps);
    ghost var rows := Group(prev[..], c.S(), nSteps);
    ForwardDecides(c, coded, pm[..], rows);
    var state := 0;
    if !terminated {
      state := BestState(pm);
    }
    dec := TraceBack(c, prev, nSteps, state);
    if terminated {
      TerminatedBest(c, coded, pm[..], rows);
      TerminatedPrior(c, coded, pm[..], rows);
      dec := dec[..nSteps - (c.K - 1)];
    } else {
      UnterminatedBest(c, coded, pm[..], rows, state);
      UnterminatedPrior(c, coded, pm[..], rows, state);
    }
  }

  lemma UnterminatedBest(c: Code, coded: seq<nat>, pm: seq<int>, rows: seq<seq<nat>>, s: nat)
    requires c.Valid() && Decided(c, coded, pm, rows) && s < c.S() && pm[s] < INF
    requires forall x | 0 <= x < c.S() :: pm[s] <= pm[x]
    ensures MostLikelyPath(c, coded, Survivor(c, rows, s))
  {
    forall x: seq<nat> | |x| == |rows| && IsBits(x)
      ensures Mismatches(Whole(c, coded), Coded(c, Survivor(c, rows, s))) <= Mismatches(Whole(c, coded), Coded(c, x))
    {
      SurvivorIsBest(c, coded, pm, rows, s, x);
    }
  }

  /** The received bits and the non-erasure mask of one step, as words. */
  method PackStep(coded: seq<nat>, base: nat, n: nat, ghost chunk: seq<nat>) returns (sym: nat, valid: nat)
    requires base + n <= |coded| && chunk == coded[base..base + n]
    ensures sym == FromBits(HardBits(chunk)) && valid == FromBits(ValidBits(chunk))
  {
    sym, valid := 0, 0;
    var j := 0;
    while j < n
      invariant 0 <= j <= n
      invariant sym == FromBits(HardBits(chunk)[..j]) && valid == FromBits(ValidBits(chunk)[..j])
    {
      ghost var h, v := HardBits(chunk), ValidBits(chunk);
      assert h[..j + 1] == h[..j] + [h[j]] && v[..j + 1] == v[..j] + [v[j]];
      SetBitAppends(h[..j], h[j]);
      SetBitAppends(v[..j], v[j]);
      var x := coded[base + j];
      if x != ERASURE {
        valid := SetBit(valid, j);
        if x % 2 == 1 {
          sym := SetBit(sym, j);
        }
      }
      j := j + 1;
    }
    assert HardBits(chunk)[..n] == HardBits(chunk) && ValidBits(chunk)[..n] == ValidBits(chunk);
  }

  // ---------------------------------------------------------------- outside the validity range

  /** With constraint length 1 the trellis only has the input 0: what is sent for the message 1 is not decoded to it. */
  lemma OneStateFails()
    ensures var c := Code([1], 1);
      Mismatches(Symbols(c, 1), Symbols(c, 1)) == 0 && Mismatches(Symbols(c, 1), Symbols(c, 0)) == 1
  {
    var c := Code([1], 1);
    assert And(1, 1) == 1 && OnesCount(1) == 1;
    assert Symbols(c, 1) == [1] && Symbols(c, 0) == [0];
    assert Mismatches([1], [1]) == 0 + Mismatches([1][1..], [1][1..]);
    assert Mismatches([1], [0]) == 1 + Mismatches([1][1..], [0][1..]);
  }

  /** Seventeen polynomials do not fit a 16-bit table word: these inputs differ in what is sent, but not in the word. */
  lemma WordTooShort()
    ensures var c := Code(Zeros(16) + [1], 2);
      Symbols(c, 1) != Symbols(c, 0) && FromBits(Symbols(c, 1)) % 0x1_0000 == FromBits(Symbols(c, 0)) % 0x1_0000
  {
    hide Symbols, FromBits, Pow2;
    LastSymbolOnly(0);
    LastSymbolOnly(1);
    assert (Zeros(16) + [1])[16] != (Zeros(16) + [0])[16];
    FromBitsSnoc(Zeros(16), 0);
    FromBitsSnoc(Zeros(16), 1);
    SixteenBits();
  }

  lemma SixteenBits()
    ensures Pow2(16) == 0x1_0000
  {
    Pow2Add(8, 8);
    assert Pow2(8) == 256;
  }

  lemma LastSymbolOnly(b: Bit)
    ensures Symbols(Code(Zeros(16) + [1], 2), b) == Zeros(16) + [b]
  {
    var c := Code(Zeros(16) + [1], 2);
    assert And(1, 1) == 1 && OnesCount(1) == 1 && Dot(b, 1) == b;
    forall j | 0 <= j < 17
      ensures Symbols(c, b)[j] == (Zeros(16) + [b])[j]
    {
    }
  }
}
