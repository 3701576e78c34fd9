/**
  The eight-state recursive systematic code of the turbo codec and its
  max-log decoder `bcjr` (internal/std-t115/qpsknarrow/fec/turbo.go).

  Log likelihood ratios are reals; `negInf` is a distinguished value.
  */
module Bcjr {
  import opened Words

  type St = s: nat | s < 8 witness 0

  // ---------------------------------------------------------------- the constituent code

  function R1(s: St): Bit { s % 2 }
  function R2(s: St): Bit { s / 2 % 2 }
  function R3(s: St): Bit { s / 4 }

  function Feedback(s: St, u: Bit): Bit { Xor1(Xor1(u, R2(s)), R3(s)) }

  /** Next state of `rscStep`. */
  function Next(s: St, u: Bit): St { Feedback(s, u) + 2 * R1(s) + 4 * R2(s) }

  /** Parity output of `rscStep`. */
  function Parity(s: St, u: Bit): Bit { Xor1(Xor1(Feedback(s, u), R1(s)), R3(s)) }

  /** The input `rscTailStep` chooses: it feeds a zero into the register. */
  function TailBit(s: St): Bit { Xor1(R2(s), R3(s)) }

  function TailNext(s: St): St { Next(s, TailBit(s)) }

  /** The register shifts: the feedback bit enters, the oldest bit leaves. */
  lemma NextShifts(s: St, u: Bit)
    ensures R1(Next(s, u)) == Feedback(s, u) && R2(Next(s, u)) == R1(s) && R3(Next(s, u)) == R2(s)
  {
    hide R1, R2, R3, Feedback;
    Unpack(Feedback(s, u), R1(s), R2(s));
  }

  lemma Unpack(a: Bit, b: Bit, c: Bit)
    ensures R1(a + 2 * b + 4 * c) == a && R2(a + 2 * b + 4 * c) == b && R3(a + 2 * b + 4 * c) == c
  {
    var s := a + 2 * b + 4 * c;
    assert s / 4 == c;
    assert s / 2 == b + 2 * c;
  }

  lemma ZeroState(s: St)
    requires R1(s) == 0 && R2(s) == 0 && R3(s) == 0
    ensures s == 0
  {
    assert s / 2 == s / 2 % 2;
  }

  /** Three tail steps reach state 0 from every state. */
  lemma TailTerminates(s: St)
    ensures TailNext(TailNext(TailNext(s))) == 0
  {
    var s1 := TailNext(s);
    var s2 := TailNext(s1);
    var s3 := TailNext(s2);
    NextShifts(s, TailBit(s));
    NextShifts(s1, TailBit(s1));
    NextShifts(s2, TailBit(s2));
    hide R1, R2, R3, Next;
    ZeroState(s3);
  }

  /** State after the input `u`, from state 0. */
  function StateAfter(u: seq<nat>): St
    requires IsBits(u)
  {
    if u == [] then 0 else Next(StateAfter(u[..|u| - 1]), u[|u| - 1])
  }

  lemma StateSnoc(u: seq<nat>, b: Bit)
    requires IsBits(u)
    ensures IsBits(u + [b]) && StateAfter(u + [b]) == Next(StateAfter(u), b)
  {
    var v := u + [b];
    assert v[..|v| - 1] == u && v[|v| - 1] == b;
  }

  // ---------------------------------------------------------------- metrics

  datatype Metric = NegInf | Fin(v: real)

  predicate Less(a: Metric, b: Metric) {
    b.Fin? && (a.NegInf? || a.v < b.v)
  }

  function Plus(a: Metric, x: real): Metric {
    if a.Fin? then Fin(a.v + x) else NegInf
  }

  /** `max2` and the running maxima: `b` replaces `a` only when it is larger. */
  function Max2(a: Metric, b: Metric): Metric {
    if Less(a, b) then b else a
  }

  /** Likelihood ratios seen by one constituent decoder: channel, parity, a priori, tail. */
  datatype Llrs = Llrs(lx: seq<real>, lz: seq<real>, la: seq<real>, lxTail: seq<real>, lzTail: seq<real>) {
    predicate Valid() { |lz| == |la| == |lx| && |lxTail| == |lzTail| == 3 }
    function K(): nat { |lx| }
  }

  /** A bit's share of the metric: positive ratios favour 0. */
  function Gain(b: Bit, l: real): real { if b == 1 then -l / 2.0 else l / 2.0 }

  /** Branch metric of step `i`. */
  function Gamma(ch: Llrs, i: nat, s: St, u: Bit): real
    requires ch.Valid() && i < ch.K()
  {
    Gain(u, ch.lx[i] + ch.la[i]) + Gain(Parity(s, u), ch.lz[i])
  }

  function GammaTail(ch: Llrs, t: nat, s: St): real
    requires ch.Valid() && t < 3
  {
    Gain(TailBit(s), ch.lxTail[t]) + Gain(Parity(s, TailBit(s)), ch.lzTail[t])
  }

  /** Metric of the tail from state `s` at tail step `t`. */
  function TailFrom(ch: Llrs, t: nat, s: St): real
    requires ch.Valid() && t <= 3
    decreases 3 - t
  {
    if t == 3 then 0.0 else GammaTail(ch, t, s) + TailFrom(ch, t + 1, TailNext(s))
  }

  /** Metric of the path `u` from state 0. */
  function Forward(ch: Llrs, u: seq<nat>): real
    requires ch.Valid() && IsBits(u) && |u| <= ch.K()
  {
    if u == [] then 0.0
    else
      var v := u[..|u| - 1];
      Forward(ch, v) + Gamma(ch, |v|, StateAfter(v), u[|v|])
  }

  /** Metric of the path `w` from state `s` at step `i` to the end, tail included. */
  function Backward(ch: Llrs, i: nat, s: St, w: seq<nat>): real
    requires ch.Valid() && IsBits(w) && i + |w| == ch.K()
    decreases |w|
  {
    if w == [] then TailFrom(ch, 0, s)
    else Gamma(ch, i, s, w[0]) + Backward(ch, i + 1, Next(s, w[0]), w[1..])
  }

  /** Metric of the whole terminated path with input `u`. */
  function Path(ch: Llrs, u: seq<nat>): real
    requires ch.Valid() && IsBits(u) && |u| == ch.K()
  {
    Backward(ch, 0, 0, u)
  }

  lemma ForwardSnoc(ch: Llrs, u: seq<nat>, b: Bit)
    requires ch.Valid() && IsBits(u) && |u| < ch.K()
    ensures IsBits(u + [b]) && Forward(ch, u + [b]) == Forward(ch, u) + Gamma(ch, |u|, StateAfter(u), b)
    ensures StateAfter(u + [b]) == Next(StateAfter(u), b)
  {
    StateSnoc(u, b);
    var v := u + [b];
    assert v[..|v| - 1] == u && v[|u|] == b;
  }

  lemma BackwardUnfold(ch: Llrs, i: nat, s: St, w: seq<nat>)
    requires ch.Valid() && IsBits(w) && w != [] && i + |w| == ch.K()
    ensures Backward(ch, i, s, w) == Gamma(ch, i, s, w[0]) + Backward(ch, i + 1, Next(s, w[0]), w[1..])
  {
  }

  /** A path splits at every step. */
  lemma {:induction false} PathSplits(ch: Llrs, u: seq<nat>, i: nat)
    requires ch.Valid() && IsBits(u) && |u| == ch.K() && i <= |u|
    ensures Path(ch, u) == Forward(ch, u[..i]) + Backward(ch, i, StateAfter(u[..i]), u[i..])
  {
    if i == 0 {
      assert u[0..] == u;
    } else {
      PathSplits(ch, u, i - 1);
      PathSplitMoves(ch, u, i - 1);
    }
  }

  lemma PathSplitMoves(ch: Llrs, u: seq<nat>, i: nat)
    requires ch.Valid() && IsBits(u) && |u| == ch.K() && i < |u|
    ensures Forward(ch, u[..i]) + Backward(ch, i, StateAfter(u[..i]), u[i..])
         == Forward(ch, u[..i + 1]) + Backward(ch, i + 1, StateAfter(u[..i + 1]), u[i + 1..])
  {
    hide Gamma, Next, Backward, Forward, StateAfter;
    assert u[..i + 1] == u[..i] + [u[i]];
    ForwardSnoc(ch, u[..i], u[i]);
    BackwardUnfold(ch, i, StateAfter(u[..i]), u[i..]);
    assert u[i..][1..] == u[i + 1..];
  }

  // ---------------------------------------------------------------- what the recursions compute

  /** `m` is the largest metric over all terminated paths whose bit `i` is `b`. */
  ghost predicate BestWith(ch: Llrs, i: nat, b: Bit, m: real)
    requires ch.Valid() && i < ch.K()
  {
    && (forall u: seq<nat> | |u| == ch.K() && IsBits(u) && u[i] == b :: Path(ch, u) <= m)
    && (exists u: seq<nat> :: |u| == ch.K() && IsBits(u) && u[i] == b && Path(ch, u) == m)
  }

  /** `le` is the exact max-log a posteriori ratio of bit `i`, less what was already known. */
  ghost predicate Extrinsic(ch: Llrs, i: nat, le: real)
    requires ch.Valid() && i < ch.K()
  {
    exists m0, m1 :: BestWith(ch, i, 0, m0) && BestWith(ch, i, 1, m1) && le == (m0 - m1) - ch.lx[i] - ch.la[i]
  }

  /** `alpha` row `i`: best path metric from state 0 to each state. */
  ghost predicate AlphaRow(ch: Llrs, i: nat, row: seq<Metric>)
    requires ch.Valid() && i <= ch.K()
  {
    && |row| == 8
    && (forall u: seq<nat> | |u| == i && IsBits(u) :: row[StateAfter(u)].Fin? && Forward(ch, u) <= row[StateAfter(u)].v)
    && (forall s: St | row[s].Fin? :: ReachedBy(ch, i, s, row[s].v))
  }

  ghost predicate ReachedBy(ch: Llrs, i: nat, s: St, m: real)
    requires ch.Valid() && i <= ch.K()
  {
    exists u: seq<nat> :: |u| == i && IsBits(u) && StateAfter(u) == s && Forward(ch, u) == m
  }

  /** `beta` row `i`: best path metric from each state to the end of the tail. */
  ghost predicate BetaRow(ch: Llrs, i: nat, row: seq<Metric>)
    requires ch.Valid() && i <= ch.K()
  {
    && |row| == 8
    && (forall s: St :: row[s].Fin?)
    && (forall s: St, w: seq<nat> | |w| == ch.K() - i && IsBits(w) :: Backward(ch, i, s, w) <= row[s].v)
    && (forall s: St :: FinishedBy(ch, i, s, row[s].v))
  }

  ghost predicate FinishedBy(ch: Llrs, i: nat, s: St, m: real)
    requires ch.Valid() && i <= ch.K()
  {
    exists w: seq<nat> :: |w| == ch.K() - i && IsBits(w) && Backward(ch, i, s, w) == m
  }

  /** `beta` in the tail: only states that still reach 0 have a path. */
  function TailBeta(ch: Llrs, t: nat, s: St): Metric
    requires ch.Valid() && t <= 3
    decreases 3 - t
  {
    if t == 3 then (if s == 0 then Fin(0.0) else NegInf)
    else Plus(TailBeta(ch, t + 1, TailNext(s)), GammaTail(ch, t, s))
  }

  lemma TailBetaStart(ch: Llrs, s: St)
    requires ch.Valid()
    ensures TailBeta(ch, 0, s) == Fin(TailFrom(ch, 0, s))
  {
    var s1 := TailNext(s);
    var s2 := TailNext(s1);
    TailTerminates(s);
    assert TailBeta(ch, 2, s2) == Fin(TailFrom(ch, 2, s2));
    assert TailBeta(ch, 1, s1) == Fin(TailFrom(ch, 1, s1));
  }

  // ---------------------------------------------------------------- one step of each recursion

  /** Value of trellis edge `(s, u)` when entering it costs `from`. */
  function Edge(ch: Llrs, i: nat, from: Metric, s: St, u: Bit): Metric
    requires ch.Valid() && i < ch.K()
  {
    Plus(from, Gamma(ch, i, s, u))
  }

  /** Edge `e` of the sixteen of one trellis step. */
  function From(e: nat): St
    requires e < 16
  {
    e / 2
  }

  function Input(e: nat): Bit { e % 2 }

  /** `next` holds the best of the first `m` edges out of `row` into each state. */
  ghost predicate RelaxedTo(ch: Llrs, i: nat, row: seq<Metric>, m: nat, next: seq<Metric>)
    requires ch.Valid() && i < ch.K() && m <= 16 && |row| == 8
  {
    && |next| == 8
    && (forall e: nat | e < m :: !Less(next[Next(From(e), Input(e))], Edge(ch, i, row[From(e)], From(e), Input(e))))
    && (forall s: St | next[s].Fin? :: EnteredFrom(ch, i, row, m, s, next[s]))
  }

  ghost predicate EnteredFrom(ch: Llrs, i: nat, row: seq<Metric>, m: nat, s: St, x: Metric)
    requires ch.Valid() && i < ch.K() && m <= 16 && |row| == 8
  {
    exists e: nat :: e < m && Next(From(e), Input(e)) == s && x == Edge(ch, i, row[From(e)], From(e), Input(e))
  }

  lemma Relax(ch: Llrs, i: nat, row: seq<Metric>, m: nat, next: seq<Metric>)
    requires ch.Valid() && i < ch.K() && m < 16 && |row| == 8 && RelaxedTo(ch, i, row, m, next)
    ensures var s, v := Next(From(m), Input(m)), Edge(ch, i, row[From(m)], From(m), Input(m));
      RelaxedTo(ch, i, row, m + 1, next[s := Max2(next[s], v)])
  {
    hide Next, Edge, From, Input;
    var s, v := Next(From(m), Input(m)), Edge(ch, i, row[From(m)], From(m), Input(m));
    var next' := next[s := Max2(next[s], v)];
    forall x: St | next'[x].Fin?
      ensures EnteredFrom(ch, i, row, m + 1, x, next'[x])
    {
      if next'[x] == next[x] {
        var e: nat :| e < m && Next(From(e), Input(e)) == x && next[x] == Edge(ch, i, row[From(e)], From(e), Input(e));
        assert e < m + 1;
      }
    }
  }

  lemma AlphaStep(ch: Llrs, i: nat, row: seq<Metric>, next: seq<Metric>)
    requires ch.Valid() && i < ch.K() && AlphaRow(ch, i, row) && RelaxedTo(ch, i, row, 16, next)
    ensures AlphaRow(ch, i + 1, next)
  {
    forall u: seq<nat> | |u| == i + 1 && IsBits(u)
      ensures next[StateAfter(u)].Fin? && Forward(ch, u) <= next[StateAfter(u)].v
    {
      AlphaCovers(ch, i, row, next, u);
    }
    forall s: St | next[s].Fin?
      ensures ReachedBy(ch, i + 1, s, next[s].v)
    {
      AlphaAttains(ch, i, row, next, s);
    }
  }

  function EdgeOf(s: nat, u: nat): nat { 2 * s + u }

  lemma EdgeIndex(s: St, u: Bit)
    ensures EdgeOf(s, u) < 16 && From(EdgeOf(s, u)) == s && Input(EdgeOf(s, u)) == u
  {
  }

  lemma AlphaCovers(ch: Llrs, i: nat, row: seq<Metric>, next: seq<Metric>, u: seq<nat>)
    requires ch.Valid() && i < ch.K() && AlphaRow(ch, i, row) && RelaxedTo(ch, i, row, 16, next)
    requires |u| == i + 1 && IsBits(u)
    ensures next[StateAfter(u)].Fin? && Forward(ch, u) <= next[StateAfter(u)].v
  {
    hide Next, Gamma, From, Input, Forward;
    var v, b := u[..i], u[i];
    assert v + [b] == u;
    ForwardSnoc(ch, v, b);
    var s := StateAfter(v);
    EdgeIndex(s, b);
    var e := EdgeOf(s, b);
    assert row[s].Fin? && Forward(ch, v) <= row[s].v;
    assert !Less(next[Next(From(e), Input(e))], Edge(ch, i, row[From(e)], From(e), Input(e)));
  }

  lemma AlphaAttains(ch: Llrs, i: nat, row: seq<Metric>, next: seq<Metric>, s: St)
    requires ch.Valid() && i < ch.K() && AlphaRow(ch, i, row) && RelaxedTo(ch, i, row, 16, next) && next[s].Fin?
    ensures ReachedBy(ch, i + 1, s, next[s].v)
  {
    hide Next, Gamma, From, Input, Forward, StateAfter;
    assert EnteredFrom(ch, i, row, 16, s, next[s]);
    var e: nat :| e < 16 && Next(From(e), Input(e)) == s && next[s] == Edge(ch, i, row[From(e)], From(e), Input(e));
    assert row[From(e)].Fin?;
    assert ReachedBy(ch, i, From(e), row[From(e)].v);
    var v: seq<nat> :| |v| == i && IsBits(v) && StateAfter(v) == From(e) && Forward(ch, v) == row[From(e)].v;
    ForwardSnoc(ch, v, Input(e));
    assert |v + [Input(e)]| == i + 1;
  }

  /** `best` is the better of the two edges out of `s` into a finished row. */
  lemma BetaStep(ch: Llrs, i: nat, after: seq<Metric>, row: seq<Metric>)
    requires ch.Valid() && i < ch.K() && BetaRow(ch, i + 1, after) && |row| == 8
    requires forall s: St :: row[s] == Max2(Edge(ch, i, after[Next(s, 0)], s, 0), Edge(ch, i, after[Next(s, 1)], s, 1))
    ensures BetaRow(ch, i, row)
  {
    hide Next, Gamma, Backward;
    forall s: St, w: seq<nat> | |w| == ch.K() - i && IsBits(w)
      ensures Backward(ch, i, s, w) <= row[s].v
    {
      BackwardCons(ch, i, s, w[0], w[1..]);
      assert [w[0]] + w[1..] == w;
      assert Backward(ch, i + 1, Next(s, w[0]), w[1..]) <= after[Next(s, w[0])].v;
    }
    forall s: St
      ensures FinishedBy(ch, i, s, row[s].v)
    {
      var b: Bit := if row[s] == Edge(ch, i, after[Next(s, 0)], s, 0) then 0 else 1;
      assert FinishedBy(ch, i + 1, Next(s, b), after[Next(s, b)].v);
      var w: seq<nat> :| |w| == ch.K() - (i + 1) && IsBits(w) && Backward(ch, i + 1, Next(s, b), w) == after[Next(s, b)].v;
      BackwardCons(ch, i, s, b, w);
      assert |[b] + w| == ch.K() - i;
    }
  }

  lemma BackwardCons(ch: Llrs, i: nat, s: St, b: Bit, w: seq<nat>)
    requires ch.Valid() && IsBits(w) && i + 1 + |w| == ch.K()
    ensures IsBits([b] + w) && Backward(ch, i, s, [b] + w) == Gamma(ch, i, s, b) + Backward(ch, i + 1, Next(s, b), w)
  {
    assert ([b] + w)[1..] == w;
  }

  // ---------------------------------------------------------------- the forward tail

  /** State after `t` tail steps from `s`. */
  function TailWalk(s: St, t: nat): St { if t == 0 then s else TailNext(TailWalk(s, t - 1)) }

  /** Metric of those `t` steps. */
  function TailSum(ch: Llrs, s: St, t: nat): real
    requires ch.Valid() && t <= 3
  {
    if t == 0 then 0.0 else TailSum(ch, s, t - 1) + GammaTail(ch, t - 1, TailWalk(s, t - 1))
  }

  lemma TailSumIsTailFrom(ch: Llrs, s: St)
    requires ch.Valid()
    ensures TailWalk(s, 3) == 0 && TailSum(ch, s, 3) == TailFrom(ch, 0, s)
  {
    hide GammaTail, TailNext;
    var s1, s2, s3 := TailWalk(s, 1), TailWalk(s, 2), TailWalk(s, 3);
    TailTerminates(s);
    assert TailWalk(s, 0) == s;
    assert s1 == TailNext(s);
    assert s2 == TailNext(s1);
    assert s3 == TailNext(s2);
    assert TailFrom(ch, 2, s2) == GammaTail(ch, 2, s2) + TailFrom(ch, 3, s3);
    assert TailFrom(ch, 1, s1) == GammaTail(ch, 1, s1) + TailFrom(ch, 2, s2);
    assert TailSum(ch, s, 1) == GammaTail(ch, 0, s);
    assert TailSum(ch, s, 2) == TailSum(ch, s, 1) + GammaTail(ch, 1, s1);
  }

  /** `alpha` row `k+t`: best metric over whole messages followed by `t` tail steps. */
  ghost predicate AlphaTailRow(ch: Llrs, t: nat, row: seq<Metric>)
    requires ch.Valid() && t <= 3
  {
    && |row| == 8
    && (forall u: seq<nat> | |u| == ch.K() && IsBits(u) ::
          var x := row[TailWalk(StateAfter(u), t)];
          x.Fin? && Forward(ch, u) + TailSum(ch, StateAfter(u), t) <= x.v)
    && (forall s: St | row[s].Fin? :: TailReachedBy(ch, t, s, row[s].v))
  }

  ghost predicate TailReachedBy(ch: Llrs, t: nat, s: St, m: real)
    requires ch.Valid() && t <= 3
  {
    exists u: seq<nat> :: |u| == ch.K() && IsBits(u) && TailWalk(StateAfter(u), t) == s
      && Forward(ch, u) + TailSum(ch, StateAfter(u), t) == m
  }

  /** `next` holds the best of the first `m` tail edges out of `row`. */
  ghost predicate TailRelaxed(ch: Llrs, t: nat, row: seq<Metric>, m: nat, next: seq<Metric>)
    requires ch.Valid() && t < 3 && m <= 8 && |row| == 8
  {
    && |next| == 8
    && (forall s: St | s < m :: !Less(next[TailNext(s)], Plus(row[s], GammaTail(ch, t, s))))
    && (forall s: St | next[s].Fin? :: TailEnteredFrom(ch, t, row, m, s, next[s]))
  }

  ghost predicate TailEnteredFrom(ch: Llrs, t: nat, row: seq<Metric>, m: nat, s: St, x: Metric)
    requires ch.Valid() && t < 3 && m <= 8 && |row| == 8
  {
    exists p: St :: p < m && TailNext(p) == s && x == Plus(row[p], GammaTail(ch, t, p))
  }

  lemma TailRelax(ch: Llrs, t: nat, row: seq<Metric>, m: St, next: seq<Metric>)
    requires ch.Valid() && t < 3 && |row| == 8 && TailRelaxed(ch, t, row, m, next)
    ensures TailRelaxed(ch, t, row, m + 1, next[TailNext(m) := Max2(next[TailNext(m)], Plus(row[m], GammaTail(ch, t, m)))])
  {
    hide TailNext, GammaTail;
    var next' := next[TailNext(m) := Max2(next[TailNext(m)], Plus(row[m], GammaTail(ch, t, m)))];
    forall x: St | next'[x].Fin?
      ensures TailEnteredFrom(ch, t, row, m + 1, x, next'[x])
    {
      if next'[x] == next[x] {
        var p: St :| p < m && TailNext(p) == x && next[x] == Plus(row[p], GammaTail(ch, t, p));
        assert p < m + 1;
      }
    }
  }

  lemma AlphaTailStart(ch: Llrs, row: seq<Metric>)
    requires ch.Valid() && AlphaRow(ch, ch.K(), row)
    ensures AlphaTailRow(ch, 0, row)
  {
    forall s: St | row[s].Fin?
      ensures TailReachedBy(ch, 0, s, row[s].v)
    {
      assert ReachedBy(ch, ch.K(), s, row[s].v);
      var u: seq<nat> :| |u| == ch.K() && IsBits(u) && StateAfter(u) == s && Forward(ch, u) == row[s].v;
      assert TailWalk(StateAfter(u), 0) == s && Forward(ch, u) + TailSum(ch, StateAfter(u), 0) == row[s].v;
    }
  }

  lemma AlphaTailStep(ch: Llrs, t: nat, row: seq<Metric>, next: seq<Metric>)
    requires ch.Valid() && t < 3 && AlphaTailRow(ch, t, row) && TailRelaxed(ch, t, row, 8, next)
    ensures AlphaTailRow(ch, t + 1, next)
  {
    hide TailNext, GammaTail, Forward, StateAfter;
    forall u: seq<nat> | |u| == ch.K() && IsBits(u)
      ensures var x := next[TailWalk(StateAfter(u), t + 1)];
        x.Fin? && Forward(ch, u) + TailSum(ch, StateAfter(u), t + 1) <= x.v
    {
      var s := TailWalk(StateAfter(u), t);
      assert !Less(next[TailNext(s)], Plus(row[s], GammaTail(ch, t, s)));
      assert TailWalk(StateAfter(u), t + 1) == TailNext(s);
    }
    forall s: St | next[s].Fin?
      ensures TailReachedBy(ch, t + 1, s, next[s].v)
    {
      assert TailEnteredFrom(ch, t, row, 8, s, next[s]);
      var p: St :| TailNext(p) == s && next[s] == Plus(row[p], GammaTail(ch, t, p));
      assert TailReachedBy(ch, t, p, row[p].v);
      var u: seq<nat> :| |u| == ch.K() && IsBits(u) && TailWalk(StateAfter(u), t) == p
        && Forward(ch, u) + TailSum(ch, StateAfter(u), t) == row[p].v;
      assert TailWalk(StateAfter(u), t + 1) == s;
      assert TailSum(ch, StateAfter(u), t + 1) == TailSum(ch, StateAfter(u), t) + GammaTail(ch, t, p);
    }
  }

  // ---------------------------------------------------------------- the recursions as loops

  const NegRow: seq<Metric> := [NegInf, NegInf, NegInf, NegInf, NegInf, NegInf, NegInf, NegInf]

  method ForwardRow(ch: Llrs, i: nat, row: seq<Metric>) returns (next: seq<Metric>)
    requires ch.Valid() && i < ch.K() && |row| == 8
    ensures RelaxedTo(ch, i, row, 16, next)
  {
    hide Next, Gamma;
    next := NegRow;
    var s: nat := 0;
    while s < 8
      invariant 0 <= s <= 8 && RelaxedTo(ch, i, row, 2 * s, next)
    {
      var u: nat := 0;
      while u < 2
        invariant 0 <= u <= 2 && RelaxedTo(ch, i, row, 2 * s + u, next)
      {
        EdgeIndex(s, u);
        Relax(ch, i, row, 2 * s + u, next);
        var ns := Next(s, u);
        var v := Edge(ch, i, row[s], s, u);
        if Less(next[ns], v) {
          next := next[ns := v];
        } else {
          assert next[ns := next[ns]] == next;
        }
        u := u + 1;
      }
      s := s + 1;
    }
  }

  method ForwardTailRow(ch: Llrs, t: nat, row: seq<Metric>) returns (next: seq<Metric>)
    requires ch.Valid() && t < 3 && |row| == 8
    ensures TailRelaxed(ch, t, row, 8, next)
  {
    hide TailNext, GammaTail;
    next := NegRow;
    var s: nat := 0;
    while s < 8
      invariant 0 <= s <= 8 && TailRelaxed(ch, t, row, s, next)
    {
      TailRelax(ch, t, row, s, next);
      var ns := TailNext(s);
      var v := Plus(row[s], GammaTail(ch, t, s));
      if Less(next[ns], v) {
        next := next[ns := v];
      } else {
        assert next[ns := next[ns]] == next;
      }
      s := s + 1;
    }
  }

  method BackwardTailRow(ch: Llrs, t: nat, after: seq<Metric>) returns (row: seq<Metric>)
    requires ch.Valid() && t < 3 && |after| == 8 && forall s: St :: after[s] == TailBeta(ch, t + 1, s)
    ensures |row| == 8 && forall s: St :: row[s] == TailBeta(ch, t, s)
  {
    hide TailNext, GammaTail;
    row := NegRow;
    var s: nat := 0;
    while s < 8
      invariant 0 <= s <= 8 && |row| == 8
      invariant forall x: St | x < s :: row[x] == TailBeta(ch, t, x)
      invariant forall x: St | x >= s :: row[x] == NegInf
    {
      var v := Plus(after[TailNext(s)], GammaTail(ch, t, s));
      if Less(row[s], v) {
        row := row[s := v];
      }
      s := s + 1;
    }
  }

  method BackwardRow(ch: Llrs, i: nat, after: seq<Metric>) returns (row: seq<Metric>)
    requires ch.Valid() && i < ch.K() && BetaRow(ch, i + 1, after)
    ensures BetaRow(ch, i, row)
  {
    hide Next, Gamma, BetaRow;
    row := NegRow;
    assert |after| == 8 && forall s: St :: after[s].Fin? by { BetaRowFin(ch, i + 1, after); }
    var s: nat := 0;
    while s < 8
      invariant 0 <= s <= 8 && |row| == 8
      invariant forall x: St | x < s ::
        row[x] == Max2(Edge(ch, i, after[Next(x, 0)], x, 0), Edge(ch, i, after[Next(x, 1)], x, 1))
    {
      var best := NegInf;
      best := Max2(best, Edge(ch, i, after[Next(s, 0)], s, 0));
      best := Max2(best, Edge(ch, i, after[Next(s, 1)], s, 1));
      row := row[s := best];
      s := s + 1;
    }
    BetaStep(ch, i, after, row);
  }

  lemma BetaRowFin(ch: Llrs, i: nat, row: seq<Metric>)
    requires ch.Valid() && i <= ch.K() && BetaRow(ch, i, row)
    ensures |row| == 8 && forall s: St :: row[s].Fin?
  {
  }

  // ---------------------------------------------------------------- combining

  /** Value of the best path through edge `(s, u)` of step `i`. */
  function Through(ch: Llrs, i: nat, alpha: seq<Metric>, beta: seq<Metric>, s: St, u: Bit): Metric
    requires ch.Valid() && i < ch.K() && |alpha| == |beta| == 8
  {
    if beta[Next(s, u)].NegInf? then NegInf
    else Plus(Plus(alpha[s], Gamma(ch, i, s, u)), beta[Next(s, u)].v)
  }

  /** `m` is the best value through an edge with input `u` out of the first `n` states. */
  ghost predicate BestThrough(ch: Llrs, i: nat, alpha: seq<Metric>, beta: seq<Metric>, u: Bit, n: nat, m: Metric)
    requires ch.Valid() && i < ch.K() && |alpha| == |beta| == 8
  {
    && (forall s: St | s < n :: !Less(m, Through(ch, i, alpha, beta, s, u)))
    && (m.Fin? ==> exists s: St :: s < n && m == Through(ch, i, alpha, beta, s, u))
  }

  method Combine(ch: Llrs, i: nat, alpha: seq<Metric>, beta: seq<Metric>) returns (m0: Metric, m1: Metric)
    requires ch.Valid() && i < ch.K() && |alpha| == |beta| == 8
    ensures BestThrough(ch, i, alpha, beta, 0, 8, m0) && BestThrough(ch, i, alpha, beta, 1, 8, m1)
  {
    hide Through;
    m0, m1 := NegInf, NegInf;
    var s: nat := 0;
    while s < 8
      invariant 0 <= s <= 8
      invariant BestThrough(ch, i, alpha, beta, 0, s, m0) && BestThrough(ch, i, alpha, beta, 1, s, m1)
    {
      m0 := Max2(m0, Through(ch, i, alpha, beta, s, 0));
      m1 := Max2(m1, Through(ch, i, alpha, beta, s, 1));
      s := s + 1;
    }
  }

  lemma BoundedThrough(ch: Llrs, i: nat, alpha: seq<Metric>, beta: seq<Metric>, b: Bit, m: Metric, u: seq<nat>)
    requires ch.Valid() && i < ch.K() && AlphaRow(ch, i, alpha) && BetaRow(ch, i + 1, beta)
    requires BestThrough(ch, i, alpha, beta, b, 8, m)
    requires |u| == ch.K() && IsBits(u) && u[i] == b
    ensures m.Fin? && Path(ch, u) <= m.v
  {
    hide Gamma, Next, Path, Forward, Backward, StateAfter;
    PathSplits(ch, u, i);
    BackwardUnfold(ch, i, StateAfter(u[..i]), u[i..]);
    assert u[i..][1..] == u[i + 1..];
    var s := StateAfter(u[..i]);
    assert !Less(m, Through(ch, i, alpha, beta, s, b));
    assert alpha[s].Fin? && Forward(ch, u[..i]) <= alpha[s].v;
    assert Backward(ch, i + 1, Next(s, b), u[i + 1..]) <= beta[Next(s, b)].v;
  }

  lemma AttainedThrough(ch: Llrs, i: nat, alpha: seq<Metric>, beta: seq<Metric>, b: Bit, m: Metric)
    returns (u: seq<nat>)
    requires ch.Valid() && i < ch.K() && AlphaRow(ch, i, alpha) && BetaRow(ch, i + 1, beta)
    requires BestThrough(ch, i, alpha, beta, b, 8, m) && m.Fin?
    ensures |u| == ch.K() && IsBits(u) && u[i] == b && Path(ch, u) == m.v
  {
    hide Gamma, Next, Path, Forward, Backward, StateAfter, AlphaRow, BetaRow, BestThrough, Through;
    var s := BestState(ch, i, alpha, beta, b, m);
    var x := Next(s, b);
    var v := ReachingPath(ch, i, alpha, s);
    var w := FinishingPath(ch, i + 1, beta, x);
    ThroughIs(ch, i, alpha, beta, s, b);
    u := v + ([b] + w);
    assert u[..i] == v && u[i..] == [b] + w;
    PathSplits(ch, u, i);
    BackwardCons(ch, i, s, b, w);
  }

  lemma BestState(ch: Llrs, i: nat, alpha: seq<Metric>, beta: seq<Metric>, b: Bit, m: Metric) returns (s: St)
    requires ch.Valid() && i < ch.K() && AlphaRow(ch, i, alpha) && BetaRow(ch, i + 1, beta)
    requires BestThrough(ch, i, alpha, beta, b, 8, m) && m.Fin?
    ensures |alpha| == |beta| == 8 && m == Through(ch, i, alpha, beta, s, b) && alpha[s].Fin?
  {
    hide Gamma, Next, Forward, Backward, StateAfter;
    s :| m == Through(ch, i, alpha, beta, s, b);
  }

  lemma ThroughIs(ch: Llrs, i: nat, alpha: seq<Metric>, beta: seq<Metric>, s: St, b: Bit)
    requires ch.Valid() && i < ch.K() && |alpha| == |beta| == 8 && alpha[s].Fin? && beta[Next(s, b)].Fin?
    ensures Through(ch, i, alpha, beta, s, b) == Fin(alpha[s].v + Gamma(ch, i, s, b) + beta[Next(s, b)].v)
  {
    hide Gamma, Next;
  }

  lemma ReachingPath(ch: Llrs, i: nat, alpha: seq<Metric>, s: St) returns (v: seq<nat>)
    requires ch.Valid() && i <= ch.K() && AlphaRow(ch, i, alpha) && |alpha| == 8 && alpha[s].Fin?
    ensures |v| == i && IsBits(v) && StateAfter(v) == s && Forward(ch, v) == alpha[s].v
  {
    hide StateAfter, Forward;
    assert ReachedBy(ch, i, s, alpha[s].v);
    v :| |v| == i && IsBits(v) && StateAfter(v) == s && Forward(ch, v) == alpha[s].v;
  }

  lemma FinishingPath(ch: Llrs, i: nat, beta: seq<Metric>, s: St) returns (w: seq<nat>)
    requires ch.Valid() && i <= ch.K() && BetaRow(ch, i, beta)
    ensures |beta| == 8 && beta[s].Fin? && |w| == ch.K() - i && IsBits(w) && Backward(ch, i, s, w) == beta[s].v
  {
    hide Backward;
    assert FinishedBy(ch, i, s, beta[s].v);
    w :| |w| == ch.K() - i && IsBits(w) && Backward(ch, i, s, w) == beta[s].v;
  }

  lemma CombineIsBest(ch: Llrs, i: nat, alpha: seq<Metric>, beta: seq<Metric>, b: Bit, m: Metric)
    requires ch.Valid() && i < ch.K() && AlphaRow(ch, i, alpha) && BetaRow(ch, i + 1, beta)
    requires BestThrough(ch, i, alpha, beta, b, 8, m)
    ensures m.Fin? && BestWith(ch, i, b, m.v)
  {
    hide Path, Through, AlphaRow, BetaRow;
    var x := Zeros(ch.K())[i := b];
    BoundedThrough(ch, i, alpha, beta, b, m, x);
    forall u: seq<nat> | |u| == ch.K() && IsBits(u) && u[i] == b
      ensures Path(ch, u) <= m.v
    {
      BoundedThrough(ch, i, alpha, beta, b, m, u);
    }
    var u := AttainedThrough(ch, i, alpha, beta, b, m);
  }

  lemma AlphaStart(ch: Llrs)
    requires ch.Valid()
    ensures AlphaRow(ch, 0, NegRow[0 := Fin(0.0)])
  {
    assert IsBits([]) && StateAfter([]) == 0 && Forward(ch, []) == 0.0;
  }

  lemma BetaTailIsRow(ch: Llrs, row: seq<Metric>)
    requires ch.Valid() && |row| == 8 && forall s: St :: row[s] == TailBeta(ch, 0, s)
    ensures BetaRow(ch, ch.K(), row)
  {
    forall s: St
      ensures row[s] == Fin(TailFrom(ch, 0, s)) && FinishedBy(ch, ch.K(), s, row[s].v)
    {
      TailBetaStart(ch, s);
      assert IsBits([]) && Backward(ch, ch.K(), s, []) == TailFrom(ch, 0, s);
    }
  }

  /** `m` is the largest metric of all terminated paths. */
  ghost predicate BestPath(ch: Llrs, m: real)
    requires ch.Valid()
  {
    && (forall u: seq<nat> | |u| == ch.K() && IsBits(u) :: Path(ch, u) <= m)
    && (exists u: seq<nat> :: |u| == ch.K() && IsBits(u) && Path(ch, u) == m)
  }

  method ForwardPass(ch: Llrs) returns (alpha: array<seq<Metric>>)
    requires ch.Valid()
    ensures alpha.Length == ch.K() + 4 && fresh(alpha)
    ensures forall i | 0 <= i <= ch.K() :: AlphaRow(ch, i, alpha[i])
    ensures AlphaTailRow(ch, 3, alpha[ch.K() + 3])
  {
    hide AlphaRow, AlphaTailRow, RelaxedTo, TailRelaxed;
    var k := |ch.lx|;
    alpha := new seq<Metric>[k + 4](_ => NegRow);
    alpha[0] := alpha[0][0 := Fin(0.0)];
    AlphaStart(ch);
    var i := 0;
    while i < k
      invariant 0 <= i <= k
      invariant forall j | 0 <= j < alpha.Length :: |alpha[j]| == 8
      invariant forall j | 0 <= j <= i :: AlphaRow(ch, j, alpha[j])
    {
      var next := ForwardRow(ch, i, alpha[i]);
      AlphaStep(ch, i, alpha[i], next);
      AlphaRow8(ch, i + 1, next);
      alpha[i + 1] := next;
      i := i + 1;
    }
    AlphaTailStart(ch, alpha[k]);
    var t := 0;
    while t < 3
      invariant 0 <= t <= 3 && |alpha[k + t]| == 8
      invariant forall j | 0 <= j <= k :: AlphaRow(ch, j, alpha[j])
      invariant AlphaTailRow(ch, t, alpha[k + t])
    {
      var next := ForwardTailRow(ch, t, alpha[k + t]);
      AlphaTailStep(ch, t, alpha[k + t], next);
      AlphaTailRow8(ch, t + 1, next);
      alpha[k + t + 1] := next;
      t := t + 1;
    }
  }

  lemma AlphaRow8(ch: Llrs, i: nat, row: seq<Metric>)
    requires ch.Valid() && i <= ch.K() && AlphaRow(ch, i, row)
    ensures |row| == 8
  {
  }

  lemma AlphaTailRow8(ch: Llrs, t: nat, row: seq<Metric>)
    requires ch.Valid() && t <= 3 && AlphaTailRow(ch, t, row)
    ensures |row| == 8
  {
  }

  method BackwardPass(ch: Llrs) returns (beta: array<seq<Metric>>)
    requires ch.Valid()
    ensures beta.Length == ch.K() + 4 && fresh(beta)
    ensures forall i | 0 <= i <= ch.K() :: BetaRow(ch, i, beta[i])
  {
    hide BetaRow, TailBeta;
    var k := |ch.lx|;
    beta := new seq<Metric>[k + 4](_ => NegRow);
    beta[k + 3] := beta[k + 3][0 := Fin(0.0)];
    TailBetaEnd(ch);
    var t := 3;
    while t > 0
      invariant 0 <= t <= 3
      invariant |beta[k + t]| == 8 && forall s: St :: beta[k + t][s] == TailBeta(ch, t, s)
    {
      t := t - 1;
      beta[k + t] := BackwardTailRow(ch, t, beta[k + t + 1]);
    }
    BetaTailIsRow(ch, beta[k]);
    var i := k;
    while i > 0
      invariant 0 <= i <= k
      invariant forall j | i <= j <= k :: BetaRow(ch, j, beta[j])
    {
      i := i - 1;
      beta[i] := BackwardRow(ch, i, beta[i + 1]);
    }
  }

  lemma TailBetaEnd(ch: Llrs)
    requires ch.Valid()
    ensures forall s: St :: NegRow[0 := Fin(0.0)][s] == TailBeta(ch, 3, s)
  {
  }

  /** The decoder's extrinsic output is exact max-log MAP. */
  method Bcjr(ch: Llrs) returns (le: seq<real>)
    requires ch.Valid()
    ensures |le| == ch.K()
    ensures forall i | 0 <= i < |le| :: Extrinsic(ch, i, le[i])
  {
    hide AlphaRow, AlphaTailRow, BetaRow, BestThrough, BestWith;
    var alpha := ForwardPass(ch);
    var beta := BackwardPass(ch);
    var k := |ch.lx|;
    le := [];
    var i := 0;
    while i < k
      invariant 0 <= i <= k && |le| == i
      invariant forall j | 0 <= j <= k :: AlphaRow(ch, j, alpha[j])
      invariant forall j | 0 <= j <= k :: BetaRow(ch, j, beta[j])
      invariant forall j | 0 <= j < i :: Extrinsic(ch, j, le[j])
    {
      AlphaRow8(ch, i, alpha[i]);
      BetaRowFin(ch, i + 1, beta[i + 1]);
      var m0, m1 := Combine(ch, i, alpha[i], beta[i + 1]);
      CombineIsBest(ch, i, alpha[i], beta[i + 1], 0, m0);
      CombineIsBest(ch, i, alpha[i], beta[i + 1], 1, m1);
      if m0.NegInf? || m1.NegInf? {
        le := le + [0.0];
      } else {
        le := le + [(m0.v - m1.v) - ch.lx[i] - ch.la[i]];
      }
      i := i + 1;
    }
  }

  lemma WholePath(ch: Llrs, u: seq<nat>)
    requires ch.Valid() && |u| == ch.K() && IsBits(u)
    ensures TailWalk(StateAfter(u), 3) == 0
    ensures Forward(ch, u) + TailSum(ch, StateAfter(u), 3) == Path(ch, u)
  {
    TailSumIsTailFrom(ch, StateAfter(u));
    PathSplits(ch, u, |u|);
    assert u[..|u|] == u && u[|u|..] == [];
  }

  /** The forward recursion ends in state 0 alone, with the best terminated metric. */
  lemma ForwardEnds(ch: Llrs, last: seq<Metric>)
    requires ch.Valid() && AlphaTailRow(ch, 3, last)
    ensures last[0].Fin? && BestPath(ch, last[0].v)
    ensures forall s: St | s != 0 :: last[s].NegInf?
  {
    hide Path, TailSum, TailWalk, Forward, StateAfter;
    forall u: seq<nat> | |u| == ch.K() && IsBits(u)
      ensures last[0].Fin? && Path(ch, u) <= last[0].v
    {
      WholePath(ch, u);
    }
    assert IsBits(Zeros(ch.K()));
    forall s: St | last[s].Fin?
      ensures s == 0
    {
      assert TailReachedBy(ch, 3, s, last[s].v);
      var u: seq<nat> :| |u| == ch.K() && IsBits(u) && TailWalk(StateAfter(u), 3) == s;
      WholePath(ch, u);
    }
    assert TailReachedBy(ch, 3, 0, last[0].v);
    var u: seq<nat> :| |u| == ch.K() && IsBits(u) && TailWalk(StateAfter(u), 3) == 0
      && Forward(ch, u) + TailSum(ch, StateAfter(u), 3) == last[0].v;
    WholePath(ch, u);
  }

  /** The backward recursion arrives at the same metric. */
  lemma BackwardEnds(ch: Llrs, first: seq<Metric>)
    requires ch.Valid() && BetaRow(ch, 0, first)
    ensures BestPath(ch, first[0].v)
  {
    hide Backward;
    assert FinishedBy(ch, 0, 0, first[0].v);
    var w: seq<nat> :| |w| == ch.K() && IsBits(w) && Backward(ch, 0, 0, w) == first[0].v;
    assert Path(ch, w) == first[0].v;
  }

  lemma EndsAgree(ch: Llrs, last: seq<Metric>, first: seq<Metric>)
    requires ch.Valid() && AlphaTailRow(ch, 3, last) && BetaRow(ch, 0, first)
    ensures last[0] == first[0] && BestPath(ch, first[0].v)
  {
    hide AlphaTailRow, Path;
    AlphaTailRow8(ch, 3, last);
    ForwardEnds(ch, last);
    BackwardEnds(ch, first);
  }
}
