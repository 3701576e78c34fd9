/**
  The receive chains of the control and the traffic channel
  (internal/std-t115/qpsknarrow/decoder/decoder.go): undo the scrambling on soft
  values, undo the rate matching, turbo decode and check the CRC.
  */
module Channels {
  import opened Words
  import opened RateMatch
  import opened Turbo
  import Interleaver
  import Crc
  import Lfsr16
  import Tch

  const CCH_INFO := 96
  const CCH_TURBO_IN := 112
  const CCH_TURBO_OUT := 348
  const CCH_CODED := 612
  const FRAME_BITS := 900

  /** What the scrambler makes of the transmitted bits. */
  function Scrambled(bits: seq<nat>, init: int): (r: seq<nat>)
    requires IsBits(bits)
    ensures |r| == |bits| && IsBits(r)
  {
    seq(|bits|, i requires 0 <= i < |bits| => Xor1(bits[i], Lfsr16.Out(init % 0x1_0000, i)))
  }

  function Unscrambled(llr: seq<real>, init: int): (r: seq<real>)
    ensures |r| == |llr|
  {
    seq(|llr|, i requires 0 <= i < |llr| => if Lfsr16.Out(init % 0x1_0000, i) == 1 then -llr[i] else llr[i])
  }

  /** Sign changes in place. */
  method Unscramble(llr: array<real>, pn: seq<nat>, ghost init: int)
    requires llr.Length <= |pn| && forall i | 0 <= i < |pn| :: pn[i] == Lfsr16.Out(init % 0x1_0000, i)
    modifies llr
    ensures llr[..] == Unscrambled(old(llr[..]), init)
  {
    hide Lfsr16.Out;
    ghost var was := llr[..];
    var i := 0;
    while i < llr.Length
      invariant 0 <= i <= llr.Length
      invariant forall j | 0 <= j < i :: llr[j] == Unscrambled(was, init)[j]
      invariant forall j | i <= j < llr.Length :: llr[j] == was[j]
    {
      if pn[i] == 1 {
        llr[i] := -llr[i];
      }
      i := i + 1;
    }
  }

  /** No soft value speaks against the transmitted bits. */
  ghost predicate NoneAgainst(sent: seq<nat>, llr: seq<real>) {
    |sent| == |llr| && forall i | 0 <= i < |llr| :: Agrees(sent[i], llr[i])
  }

  lemma UnscrambleAgrees(bits: seq<nat>, llr: seq<real>, init: int)
    requires IsBits(bits) && NoneAgainst(Scrambled(bits, init), llr)
    ensures NoneAgainst(bits, Unscrambled(llr, init))
    ensures forall i | 0 <= i < |llr| && llr[i] != 0.0 :: Unscrambled(llr, init)[i] != 0.0
  {
    hide Lfsr16.Out;
    forall i | 0 <= i < |llr|
      ensures Agrees(bits[i], Unscrambled(llr, init)[i])
    {
      assert Agrees(Scrambled(bits, init)[i], llr[i]);
    }
  }

  /** The bits picked by a rate matching pattern. */
  function Picked(cw: seq<nat>, src: seq<nat>): (r: seq<nat>)
    requires forall i | 0 <= i < |src| :: src[i] < |cw|
    ensures |r| == |src| && (IsBits(cw) ==> IsBits(r))
  {
    seq(|src|, i requires 0 <= i < |src| => cw[src[i]])
  }

  /** Every 1 among the first `k` systematic bits of `cw` is heard in at least one of its positions. */
  ghost predicate Heard(cw: seq<nat>, src: seq<nat>, llr: seq<real>, k: nat) {
    && |src| == |llr|
    && forall j | 0 <= j < k && 3 * j < |cw| && cw[3 * j] == 1 :: exists i :: 0 <= i < |src| && src[i] == 3 * j && llr[i] != 0.0
  }

  // ---------------------------------------------------------------- collapsing repetitions

  lemma {:induction false} CollapsedAgrees(cw: seq<nat>, llr: seq<real>, src: seq<nat>, n: nat, j: nat)
    requires n <= |src| == |llr| && j < |cw| && forall i | 0 <= i < |src| :: src[i] < |cw|
    requires NoneAgainst(Picked(cw, src), llr)
    ensures Agrees(cw[j], Collapsed(llr, src, n, j))
    ensures forall i | 0 <= i < n && src[i] == j && llr[i] != 0.0 :: Collapsed(llr, src, n, j) != 0.0
  {
    if n > 0 {
      CollapsedAgrees(cw, llr, src, n - 1, j);
      assert Agrees(Picked(cw, src)[n - 1], llr[n - 1]);
    }
  }

  /** Collapsing the repetitions leaves nothing against the code word either. */
  lemma CollapseConsistent(x: seq<nat>, cw: seq<nat>, llr: seq<real>, src: seq<nat>, out: seq<real>)
    requires |cw| == |out| == TurboOutLen(|x|) && |src| == |llr|
    requires forall i | 0 <= i < |src| :: src[i] < |cw|
    requires forall i | 0 <= i < |x| :: cw[3 * i] == x[i]
    requires NoneAgainst(Picked(cw, src), llr) && Heard(cw, src, llr, |x|)
    requires forall j | 0 <= j < |out| :: out[j] == Collapsed(llr, src, |src|, j)
    ensures Consistent(x, cw, out)
  {
    hide Collapsed, NoneAgainst;
    forall j | 0 <= j < |out|
      ensures Agrees(cw[j], out[j])
    {
      CollapsedAgrees(cw, llr, src, |src|, j);
    }
    forall i | 0 <= i < |x| && x[i] == 1
      ensures out[3 * i] < 0.0
    {
      CollapsedAgrees(cw, llr, src, |src|, 3 * i);
      assert cw[3 * i] == 1;
    }
  }

  /** Expanding the punctured values leaves nothing against the code word. */
  lemma ExpandConsistent(x: seq<nat>, cw: seq<nat>, llr: seq<real>, tx: seq<nat>, out: seq<real>)
    requires |cw| == |out| == TurboOutLen(|x|) && |tx| == |llr|
    requires forall i | 0 <= i < |tx| :: tx[i] < |cw|
    requires forall i, j | 0 <= i < j < |tx| :: tx[i] < tx[j]
    requires forall i | 0 <= i < |x| :: cw[3 * i] == x[i]
    requires NoneAgainst(Picked(cw, tx), llr) && Heard(cw, tx, llr, |x|)
    requires forall j | 0 <= j < |out| :: out[j] == Placed(llr, tx, |tx|, j)
    ensures Consistent(x, cw, out)
  {
    hide Placed;
    forall j | 0 <= j < |out|
      ensures Agrees(cw[j], out[j])
    {
      PlacedAgrees(cw, llr, tx, j);
    }
    forall i | 0 <= i < |x| && x[i] == 1
      ensures out[3 * i] < 0.0
    {
      assert cw[3 * i] == 1;
      PlacedAgrees(cw, llr, tx, 3 * i);
      var p :| 0 <= p < |tx| && tx[p] == 3 * i && llr[p] != 0.0;
      assert Agrees(Picked(cw, tx)[p], llr[p]);
    }
  }

  lemma PlacedAgrees(cw: seq<nat>, llr: seq<real>, tx: seq<nat>, j: nat)
    requires |tx| == |llr| && j < |cw|
    requires forall i | 0 <= i < |tx| :: tx[i] < |cw|
    requires forall a, b | 0 <= a < b < |tx| :: tx[a] < tx[b]
    requires NoneAgainst(Picked(cw, tx), llr)
    ensures Agrees(cw[j], Placed(llr, tx, |tx|, j))
    ensures forall i | 0 <= i < |tx| && tx[i] == j :: Placed(llr, tx, |tx|, j) == llr[i]
  {
    hide Placed;
    PlacedAt(llr, tx, |tx|, j);
    if i :| 0 <= i < |tx| && tx[i] == j {
      assert Agrees(Picked(cw, tx)[i], llr[i]);
    }
  }

  // ---------------------------------------------------------------- the two receivers

  /** `x` was sent over a channel that left no value against it. */
  ghost predicate Sent(x: seq<nat>, cw: seq<nat>, src: seq<nat>, llr: seq<real>, init: int) {
    && IsBits(x) && |x| <= Interleaver.MAX_BLOCK && IsBits(cw) && Encodes(x, cw) && |cw| == TurboOutLen(|x|)
    && |src| == |llr| && (forall i | 0 <= i < |src| :: src[i] < |cw|)
    && NoneAgainst(Scrambled(Picked(cw, src), init), llr)
    && Heard(cw, src, llr, |x|)
  }

  lemma SystematicBits(x: seq<nat>, cw: seq<nat>)
    requires IsBits(x) && |x| <= Interleaver.MAX_BLOCK && Encodes(x, cw)
    ensures |cw| == TurboOutLen(|x|) && forall i | 0 <= i < |x| :: cw[3 * i] == x[i]
  {
    hide Interleaver.Pattern, TailAt, ParityAt;
    Interleaver.PatternPermutes(|x|);
  }

  lemma HeardUnscrambled(cw: seq<nat>, src: seq<nat>, llr: seq<real>, k: nat, init: int)
    requires Heard(cw, src, llr, k)
    ensures Heard(cw, src, Unscrambled(llr, init), k)
  {
    hide Lfsr16.Out;
    var r := Unscrambled(llr, init);
    forall j | 0 <= j < k && 3 * j < |cw| && cw[3 * j] == 1
      ensures exists i :: 0 <= i < |src| && src[i] == 3 * j && r[i] != 0.0
    {
      var i :| 0 <= i < |src| && src[i] == 3 * j && llr[i] != 0.0;
      assert r[i] != 0.0;
    }
  }

  lemma ControlCandidate(x: seq<nat>, cw: seq<nat>, src: seq<nat>, llr: seq<real>, init: int, out: seq<real>)
    requires |x| == CCH_TURBO_IN && |out| == CCH_TURBO_OUT && Sent(x, cw, src, llr, init)
    requires out == Collapse(Unscrambled(llr, init), src, CCH_TURBO_OUT)
    ensures Candidate(x, cw, CCH_TURBO_IN, out)
  {
    hide Encodes, Scrambled, NoneAgainst, Heard, Collapsed, Unscrambled, Consistent;
    SystematicBits(x, cw);
    UnscrambleAgrees(Picked(cw, src), llr, init);
    HeardUnscrambled(cw, src, llr, |x|, init);
    CollapseConsistent(x, cw, Unscrambled(llr, init), src, out);
  }

  lemma TrafficCandidate(x: seq<nat>, cw: seq<nat>, tx: seq<nat>, llr: seq<real>, init: int, out: seq<real>)
    requires |x| == Tch.TURBO_IN && |out| == Tch.TURBO_OUT && Sent(x, cw, tx, llr, init) && Tch.GoodMap(tx)
    requires out == Expand(Unscrambled(llr, init), tx, Tch.TURBO_OUT)
    ensures Candidate(x, cw, Tch.TURBO_IN, out)
  {
    hide Encodes, Scrambled, NoneAgainst, Heard, Placed, Unscrambled, Consistent;
    SystematicBits(x, cw);
    UnscrambleAgrees(Picked(cw, tx), llr, init);
    HeardUnscrambled(cw, tx, llr, |x|, init);
    ExpandConsistent(x, cw, Unscrambled(llr, init), tx, out);
  }

  /** Source indices of the control channel's repetition. */
  function ControlMap(): seq<nat> {
    Repeated(CCH_TURBO_OUT, CCH_CODED - CCH_TURBO_OUT, CCH_TURBO_OUT)
  }

  /** `out` is what the iterations of turbo decoding make of `llr`. */
  ghost predicate IsTurboDecoding(llr: seq<real>, k: nat, iters: nat, out: seq<nat>) {
    && |llr| == TurboOutLen(k) && k <= Interleaver.MAX_BLOCK
    && Interleaver.IsPermutation(Interleaver.Pattern(k), k) && IsDecoding(llr, k, iters, out)
  }

  /** Decode one control channel burst. */
  method DecodeControl(llr: array<real>, init: int, iters: nat) returns (info: seq<nat>, crcOk: bool)
    requires llr.Length == CCH_CODED && iters >= 1
    modifies llr
    ensures |info| == CCH_TURBO_IN && IsBits(info) && (crcOk <==> Crc.Crc16Of(info) == 0)
    ensures |ControlMap()| == CCH_CODED && IsTurboDecoding(
      Collapse(Unscrambled(old(llr[..]), init), ControlMap(), CCH_TURBO_OUT), CCH_TURBO_IN, iters, info)
    ensures forall x, cw | |x| == CCH_TURBO_IN && Sent(x, cw, ControlMap(), old(llr[..]), init) :: info == x
  {
    hide Sent, Repeated, Collapse, Lfsr16.Out, Candidate, IsDecoding, Interleaver.Pattern, Interleaver.IsPermutation;
    RepeatedIsEven(CCH_TURBO_OUT, CCH_CODED);
    var src := RepetitionPattern(CCH_TURBO_OUT, CCH_CODED);
    var pn := Lfsr16.Scramble(init, FRAME_BITS);
    ghost var received := llr[..];
    Unscramble(llr, pn, init);
    var c348 := CollapseLLR(llr[..], src, CCH_TURBO_OUT);
    forall x, cw | |x| == CCH_TURBO_IN && Sent(x, cw, src, received, init)
      ensures Candidate(x, cw, CCH_TURBO_IN, c348[..])
    {
      ControlCandidate(x, cw, src, received, init, c348[..]);
    }
    info := TurboDecode(c348[..], CCH_TURBO_IN, iters);
    var c := Crc.Crc16(info, Crc.INIT);
    crcOk := c == 0;
  }

  /** Decode one traffic channel burst. */
  method DecodeTraffic(llr: array<real>, init: int, iters: nat) returns (info: seq<nat>, crcOk: bool)
    requires llr.Length == Tch.CODED && iters >= 1
    modifies llr
    ensures |info| == Tch.TURBO_IN && IsBits(info) && (crcOk <==> Crc.Crc16Of(info) == 0)
    ensures IsTurboDecoding(
      Expand(Unscrambled(old(llr[..]), init), Tch.TxPrefix(Tch.X), Tch.TURBO_OUT), Tch.TURBO_IN, iters, info)
    ensures forall x, cw | |x| == Tch.TURBO_IN && Sent(x, cw, Tch.TxPrefix(Tch.X), old(llr[..]), init) :: info == x
  {
    hide Sent, Expand, Lfsr16.Out, Candidate, Tch.TxPrefix, IsDecoding, Interleaver.Pattern, Interleaver.IsPermutation;
    Tch.MapIsGood();
    var txMap := Tch.TxMap();
    var pn := Lfsr16.Scramble(init, FRAME_BITS);
    ghost var received := llr[..];
    Unscramble(llr, pn, init);
    var full := Tch.ExpandLLR(llr[..], txMap);
    forall x, cw | |x| == Tch.TURBO_IN && Sent(x, cw, txMap, received, init)
      ensures Candidate(x, cw, Tch.TURBO_IN, full[..])
    {
      TrafficCandidate(x, cw, txMap, received, init, full[..]);
    }
    info := TurboDecode(full[..], Tch.TURBO_IN, iters);
    var c := Crc.Crc16(info, Crc.INIT);
    crcOk := c == 0;
  }

  /** A message with its checksum comes back from the control channel, and passes the check. */
  method ControlRoundTrip(payload: seq<nat>, cw: seq<nat>, llr: array<real>, init: int, iters: nat)
    returns (info: seq<nat>, crcOk: bool)
    requires IsBits(payload) && |payload| == CCH_INFO && llr.Length == CCH_CODED && iters >= 1
    requires Sent(payload + Crc.ToBits(Crc.Crc16Of(payload), 16), cw, ControlMap(), llr[..], init)
    modifies llr
    ensures crcOk && |info| == CCH_TURBO_IN && info[..CCH_INFO] == payload
  {
    hide Sent, Repeated, IsTurboDecoding;
    Crc.SelfCheck(payload);
    info, crcOk := DecodeControl(llr, init, iters);
  }
}
