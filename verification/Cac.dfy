/**
  The control channel's coding chain (internal/std-t86/control/cac.go):
  extraction of the coded bits from a slot, descrambling, Viterbi decoding and
  the CRC-16 check.
  */
module Cac {
  import opened Words
  import opened Conv
  import opened ConvAlgebra
  import Crc
  import Lfsr9

  const CAC_LEN := 256
  const CAC_PILOT_AT := 232
  const CAC_SPAN := 260
  const PAYLOAD_LEN := 104
  const FACCH_PAYLOAD_LEN := 232
  const FACCH_BITS := 512

  datatype Outcome = Decoded(payload: seq<nat>, crcOk: bool) | WrongLength

  /** The coded bits around the four pilot bits. */
  method ExtractCac(slot: seq<nat>, offset: nat) returns (out: seq<nat>)
    requires offset + CAC_SPAN <= |slot|
    ensures |out| == CAC_LEN
    ensures forall i | 0 <= i < CAC_LEN :: out[i] == slot[offset + if i < CAC_PILOT_AT then i else i + 4]
  {
    out := slot[offset..offset + CAC_PILOT_AT];
    out := out + slot[offset + CAC_PILOT_AT + 4..offset + CAC_SPAN];
  }

  /** The message layout: payload, checksum and padding. */
  ghost predicate IsMessage(payload: seq<nat>, info: seq<nat>) {
    && IsBits(payload) && IsBits(info) && |info| == |payload| + 19
    && info[..|payload|] == payload
    && info[|payload|..|payload| + 16] == Crc.ToBits(Crc.Crc16Of(payload), 16)
  }

  /** `info` is a most likely message for the received bits, `payload` its head, `ok` whether its checksum matches. */
  ghost predicate IsDecoding(received: seq<nat>, n: nat, payload: seq<nat>, ok: bool) {
    && CONTROL.Valid()
    && exists info: seq<nat> ::
         && IsBits(info) && |info| == n + 19 && |info| + 5 == StepCount(CONTROL, received)
         && MostLikely(CONTROL, received, info)
         && payload == info[..n]
         && (ok <==> Crc.Crc16Of(info[..n]) == Crc.BitsToInt(info[n..n + 16]))
  }

  method BitsToInt(b: seq<nat>) returns (v: nat)
    ensures v == Crc.BitsToInt(LowBits(b))
  {
    v := 0;
    var i := 0;
    while i < |b|
      invariant 0 <= i <= |b| && v == Crc.BitsToInt(LowBits(b)[..i])
    {
      assert LowBits(b)[..i + 1][..i] == LowBits(b)[..i];
      v := 2 * v + b[i] % 2;
      i := i + 1;
    }
    assert LowBits(b)[..i] == LowBits(b);
  }

  /** The common part of `DecodeCAC` and `DecodeFACCH`: descramble, decode, split, check. */
  method DecodeBlock(coded: seq<nat>, seed: int, n: nat) returns (payload: seq<nat>, crcOk: bool)
    requires |coded| == 2 * (n + 24) && n < 1000
    ensures IsDecoding(Lfsr9.Scrambled(coded, seed), n, payload, crcOk)
  {
    assert CONTROL.Valid() && CONTROL.N() == 2;
    ghost var r := Lfsr9.Scrambled(coded, seed);
    hide Lfsr9.Scrambled, MostLikely;
    Steps2(r, n);
    var received := Lfsr9.Descramble(coded, seed);
    var info := ViterbiDecode(received, CONTROL, true);
    payload := info[..n];
    var rx := BitsToInt(info[n..n + 16]);
    var c := Crc.Crc16(payload, Crc.INIT);
    crcOk := c == rx;
    assert |info| + 5 == StepCount(CONTROL, r);
  }

  lemma Steps2(r: seq<nat>, n: nat)
    requires |r| == 2 * (n + 24)
    ensures CONTROL.Valid() && StepCount(CONTROL, r) == n + 24 && Offset(n + 24, CONTROL.N()) == |r|
  {
  }

  method DecodeCac(cac: seq<nat>, seed: int) returns (r: Outcome)
    ensures r.Decoded? <==> |cac| == CAC_LEN
    ensures r.Decoded? ==> IsDecoding(Lfsr9.Scrambled(cac, seed), PAYLOAD_LEN, r.payload, r.crcOk)
  {
    if |cac| != CAC_LEN { return WrongLength; }
    var payload, ok := DecodeBlock(cac, seed, PAYLOAD_LEN);
    return Decoded(payload, ok);
  }

  method DecodeFacch(tch: seq<nat>, seed: int) returns (r: Outcome)
    ensures r.Decoded? <==> |tch| == FACCH_BITS
    ensures r.Decoded? ==> IsDecoding(Lfsr9.Scrambled(tch, seed), FACCH_PAYLOAD_LEN, r.payload, r.crcOk)
  {
    if |tch| != FACCH_BITS { return WrongLength; }
    var payload, ok := DecodeBlock(tch, seed, FACCH_PAYLOAD_LEN);
    return Decoded(payload, ok);
  }

  /** Error-free reception of a code word decodes to its message. */
  lemma CleanDecode(info: seq<nat>, dec: seq<nat>)
    requires IsBits(info) && CONTROL.Valid() && |info| + 5 == StepCount(CONTROL, Encode(CONTROL, info))
    requires IsBits(dec) && |dec| == |info| && MostLikely(CONTROL, Encode(CONTROL, info), dec)
    ensures dec == info
  {
    var cw := Encode(CONTROL, info);
    assert CONTROL.polys[0] % 2 == 1;
    hide Encode, MostLikely, StepCount;
    forall t | 0 <= t < StepCount(CONTROL, cw)
      ensures SymbolAt(CONTROL, cw, t, 0) != ERASURE
    {
      OffsetStep(t, StepCount(CONTROL, cw), CONTROL.N());
      assert 0 <= cw[Offset(t, CONTROL.N()) + 0] <= 1;
    }
    RecoversFromErasures(CONTROL, cw, info, dec, 0);
  }

  /** If the message is the only most likely one, the payload comes out, and its checksum matches. */
  lemma OnlyDecision(payload: seq<nat>, info: seq<nat>, r: seq<nat>, decoded: seq<nat>, ok: bool)
    requires IsMessage(payload, info) && IsDecoding(r, |payload|, decoded, ok) && |info| + 5 == StepCount(CONTROL, r)
    requires forall dec: seq<nat> | IsBits(dec) && |dec| == |info| && MostLikely(CONTROL, r, dec) :: dec == info
    ensures decoded == payload && ok
  {
    hide MostLikely, StepCount, Crc.Crc16Of, Crc.ToBits, Crc.BitsToInt;
    Crc.Pow15();
    Crc.BitsToIntToBits(Crc.Crc16Of(payload), 16);
  }

  /** A scrambled code word of a payload with its checksum decodes to (payload, true). */
  lemma BlockRoundTrip(payload: seq<nat>, info: seq<nat>, seed: int, decoded: seq<nat>, ok: bool)
    requires IsMessage(payload, info) && |payload| < 1000 && CONTROL.Valid()
    requires IsDecoding(Lfsr9.Scrambled(Lfsr9.Scrambled(Encode(CONTROL, info), seed), seed), |payload|, decoded, ok)
    ensures decoded == payload && ok
  {
    var cw, n := Encode(CONTROL, info), |payload|;
    EncodedLength(info, n);
    Lfsr9.Involution(cw, seed);
    hide Lfsr9.Scrambled, MostLikely, Encode, StepCount, IsDecoding, Crc.Crc16Of;
    forall dec: seq<nat> | IsBits(dec) && |dec| == |info| && MostLikely(CONTROL, cw, dec)
      ensures dec == info
    {
      CleanDecode(info, dec);
    }
    OnlyDecision(payload, info, cw, decoded, ok);
  }

  lemma EncodedLength(info: seq<nat>, n: nat)
    requires IsBits(info) && |info| == n + 19
    ensures CONTROL.Valid() && |Encode(CONTROL, info)| == 2 * (n + 24)
    ensures StepCount(CONTROL, Encode(CONTROL, info)) == n + 24
  {
  }

  /** A slot carrying a code word yields it: the chain from slot to payload. */
  lemma CacRoundTrip(payload: seq<nat>, info: seq<nat>, seed: int, cac: seq<nat>, r: Outcome)
    requires IsMessage(payload, info) && |payload| == PAYLOAD_LEN && CONTROL.Valid()
    requires cac == Lfsr9.Scrambled(Encode(CONTROL, info), seed)
    requires r.Decoded? <==> |cac| == CAC_LEN
    requires r.Decoded? ==> IsDecoding(Lfsr9.Scrambled(cac, seed), PAYLOAD_LEN, r.payload, r.crcOk)
    ensures r == Decoded(payload, true)
  {
    EncodedLength(info, PAYLOAD_LEN);
    BlockRoundTrip(payload, info, seed, r.payload, r.crcOk);
  }
}
