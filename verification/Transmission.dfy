/**
  The S-codec transmission format (internal/std-t86/scodec/transmission.go):
  CRC, bit order, convolutional code, puncturing and interleaving of a 320-bit
  speech frame into 512 traffic-channel bits, and back.

  Two bit orders exist: the one of the standard's text and the one found over
  the air.  Both are proved to decode what they encode.
  */
module Transmission {
  import opened Words
  import opened Conv
  import opened ConvAlgebra
  import opened Crc7
  import Crc
  import Lfsr9

  const FRAME_BITS := 320
  const TCH_BITS := 512
  const PROTECTED := 190
  const UNPROTECTED := 130
  const CVIN_LEN := 197
  const CODED_LEN := 408
  const PUNC_LEN := 382
  const CRC7_SHIFT := 9

  const CODE := Code([0xA7, 0xF9], 8)  // octal 247 and 371

  datatype Outcome<T> = Ok(value: T) | WrongLength

  // ---------------------------------------------------------------- bit order before coding

  /** Payload and checksum bits in the order they enter the encoder. */
  function CvinAt(payload: seq<nat>, crc: seq<nat>, x: nat): nat
    requires |payload| == PROTECTED && |crc| == 7 && x < CVIN_LEN
  {
    if x < 4 then crc[x]
    else if x < 99 then payload[2 * x - 8]
    else if x < 194 then payload[2 * x - 197]
    else crc[x - 190]
  }

  method CvinFromPayload(payload: seq<nat>, crc: seq<nat>) returns (cv: seq<nat>)
    requires |payload| == PROTECTED && |crc| == 7
    ensures |cv| == CVIN_LEN && forall x | 0 <= x < CVIN_LEN :: cv[x] == CvinAt(payload, crc, x)
  {
    cv := crc[0..4];
    var x := 4;
    while x < 99
      invariant 4 <= x <= 99 && |cv| == x && forall y | 0 <= y < x :: cv[y] == CvinAt(payload, crc, y)
    {
      cv := cv + [payload[2 * x - 8]];
      x := x + 1;
    }
    while x < 194
      invariant 99 <= x <= 194 && |cv| == x && forall y | 0 <= y < x :: cv[y] == CvinAt(payload, crc, y)
    {
      cv := cv + [payload[2 * x - 197]];
      x := x + 1;
    }
    cv := cv + crc[4..7];
  }

  /** Inverse of `CvinFromPayload`. */
  method CvinToPayload(cv: seq<nat>) returns (payload: seq<nat>, crc: seq<nat>)
    requires |cv| == CVIN_LEN
    ensures |payload| == PROTECTED && |crc| == 7
    ensures forall x | 0 <= x < CVIN_LEN :: cv[x] == CvinAt(payload, crc, x)
  {
    var p := new nat[PROTECTED](_ => 0);
    var x := 4;
    while x < 99
      invariant 4 <= x <= 99
      invariant forall y | 4 <= y < x :: p[2 * y - 8] == cv[y]
    {
      p[2 * x - 8] := cv[x];
      x := x + 1;
    }
    while x < 194
      invariant 99 <= x <= 194
      invariant forall y | 4 <= y < 99 :: p[2 * y - 8] == cv[y]
      invariant forall y | 99 <= y < x :: p[2 * y - 197] == cv[y]
    {
      p[2 * x - 197] := cv[x];
      x := x + 1;
    }
    payload := p[..];
    crc := cv[0..4] + cv[194..197];
  }

  /** The bit order loses nothing. */
  lemma CvinInjective(p: seq<nat>, c: seq<nat>, q: seq<nat>, d: seq<nat>)
    requires |p| == |q| == PROTECTED && |c| == |d| == 7
    requires forall x | 0 <= x < CVIN_LEN :: CvinAt(p, c, x) == CvinAt(q, d, x)
    ensures p == q && c == d
  {
    forall i | 0 <= i < PROTECTED
      ensures p[i] == q[i]
    {
      var x := if i % 2 == 0 then (i + 8) / 2 else (i + 197) / 2;
      assert CvinAt(p, c, x) == p[i] && CvinAt(q, d, x) == q[i];
    }
    forall i | 0 <= i < 7
      ensures c[i] == d[i]
    {
      var x := if i < 4 then i else i + 190;
      assert CvinAt(p, c, x) == c[i] && CvinAt(q, d, x) == d[i];
    }
  }

  // ---------------------------------------------------------------- puncturing

  /** Coded bit that punctured bit `i` is taken from. */
  function PunctureSource(i: nat): nat { i + (i + 10) / 15 }

  predicate Punctured(j: nat) { j % 16 == 5 }

  method Puncture(coded: seq<nat>) returns (u: seq<nat>)
    requires |coded| == CODED_LEN
    ensures |u| == PUNC_LEN && forall i | 0 <= i < PUNC_LEN :: u[i] == coded[PunctureSource(i)]
  {
    u := [];
    var i := 0;
    while i < PUNC_LEN
      invariant 0 <= i <= PUNC_LEN && |u| == i && forall k | 0 <= k < i :: u[k] == coded[PunctureSource(k)]
    {
      u := u + [coded[i + (i + 10) / 15]];
      i := i + 1;
    }
  }

  /** Number of punctured positions below `j`. */
  function PuncturedBelow(j: nat): nat { (j + 10) / 16 }

  lemma PunctureOrder(j: nat)
    requires j < CODED_LEN && !Punctured(j)
    ensures j >= PuncturedBelow(j) && PunctureSource(j - PuncturedBelow(j)) == j
  {
    var q, r := (j + 10) / 16, (j + 10) % 16;
    assert j + 10 == 16 * q + r && r != 15;
    assert j - q + 10 == 15 * q + r;
  }

  /** Re-inserts erasures at the punctured positions. */
  method Depuncture(u: seq<nat>) returns (v: seq<nat>)
    requires |u| == PUNC_LEN
    ensures |v| == CODED_LEN
    ensures forall j | 0 <= j < CODED_LEN :: if Punctured(j) then v[j] == ERASURE
              else PuncturedBelow(j) <= j < PUNC_LEN + PuncturedBelow(j) && v[j] == u[j - PuncturedBelow(j)]
  {
    v := [];
    var ui := 0;
    var j := 0;
    while j < CODED_LEN
      invariant 0 <= j <= CODED_LEN && |v| == j && ui == j - PuncturedBelow(j)
      invariant forall k | 0 <= k < j :: if Punctured(k) then v[k] == ERASURE
                  else PuncturedBelow(k) <= k < PUNC_LEN + PuncturedBelow(k) && v[k] == u[k - PuncturedBelow(k)]
    {
      if j % 16 == 5 {
        v := v + [ERASURE];
      } else {
        PunctureOrder(j);
        v := v + [u[ui]];
        ui := ui + 1;
      }
      j := j + 1;
    }
  }

  // ---------------------------------------------------------------- interleaving

  /** Input position that transmitted bit `i` is taken from. */
  function IlSrc(i: nat): int { 8 * i - (i / 64) * 510 - (i / 256) * 7 }

  /** The inverse of `IlSrc`. */
  function IlDest(v: nat): nat {
    var o := v % 8;
    64 * (if o % 2 == 0 then o / 2 else o / 2 + 4) + v / 8
  }

  lemma IlSrcInverse(i: nat)
    requires i < TCH_BITS
    ensures 0 <= IlSrc(i) < TCH_BITS && IlDest(IlSrc(i)) == i
  {
    var a, b, h := i / 64, i % 64, i / 256;
    var o := 2 * a - 7 * h;
    assert i == 64 * a + b && h == a / 4;
    assert IlSrc(i) == 8 * b + o;
    assert 0 <= o < 8 && a == if o % 2 == 0 then o / 2 else o / 2 + 4;
    ModUnique(IlSrc(i), 8, b, o);
  }

  lemma IlDestInverse(v: nat)
    requires v < TCH_BITS
    ensures IlDest(v) < TCH_BITS && IlSrc(IlDest(v)) == v
  {
    var o, b := v % 8, v / 8;
    var a := if o % 2 == 0 then o / 2 else o / 2 + 4;
    var i := IlDest(v);
    assert i == 64 * a + b && i / 64 == a && i / 256 == a / 4;
  }

  /** Rotation of a nine-bit number to the left by two. */
  function Rotl9By2(x: nat): nat { x % 128 * 4 + x / 128 }

  /** Flipping the two low bits. */
  function FlipLow2(x: nat): nat { 4 * (x / 4) + (3 - x % 4) }

  lemma FlipParts(r: nat, t: nat)
    requires t < 4
    ensures FlipLow2(4 * r + t) == 4 * r + (3 - t)
  {
  }

  lemma XorThree(r: nat, t: nat)
    requires t < 4
    ensures Xor(4 * r + t, 3) == 4 * r + (3 - t)
  {
    hide Xor, Pow2;
    Four();
    Crc.XorHigh(2, r, 0, t, 3);
    XorZero(r);
    SmallFlips();
  }

  lemma Four()
    ensures Pow2(2) == 4
  {
  }

  lemma SmallFlips()
    ensures Xor(0, 3) == 3 && Xor(1, 3) == 2 && Xor(2, 3) == 1 && Xor(3, 3) == 0
  {
    assert Xor(0, 1) == 1 && Xor(1, 1) == 0 && Xor(0, 0) == 0;
  }

  /** It is what `^ 3` does. */
  lemma FlipIsXor(x: nat)
    ensures FlipLow2(x) == Xor(x, 3)
  {
    assert x == 4 * (x / 4) + x % 4;
    XorThree(x / 4, x % 4);
  }

  /** Over-the-air position of interleaver input `i`. */
  function DeintAt(i: nat): nat { FlipLow2(Rotl9By2(IlDest(i))) }

  lemma DeintInjective(i: nat, j: nat)
    requires i < TCH_BITS && j < TCH_BITS
    ensures DeintAt(i) < TCH_BITS && (DeintAt(i) == DeintAt(j) ==> i == j)
  {
    hide IlSrc, IlDest;
    IlDestInverse(i);
    IlDestInverse(j);
    RotFlip(IlDest(i));
    RotFlip(IlDest(j));
  }

  lemma RotFlip(x: nat)
    requires x < 512
    ensures var y := FlipLow2(Rotl9By2(x));
      y < 512 && x == FlipLow2(y) / 4 + FlipLow2(y) % 4 * 128
  {
    var r, t := x % 128, x / 128;
    FlipParts(r, t);
    FlipParts(r, 3 - t);
    assert Rotl9By2(x) == 4 * r + t;
    assert (4 * r + t) / 4 == r && (4 * r + t) % 4 == t;
  }

  /** The table the program builds at start-up. */
  method BuildDeinterleave() returns (t: seq<nat>)
    ensures |t| == TCH_BITS && forall i | 0 <= i < TCH_BITS :: t[i] == DeintAt(i)
  {
    hide IlSrc, IlDest, Rotl9By2, FlipLow2;
    var spec := new nat[TCH_BITS](_ => 0);
    var j := 0;
    while j < TCH_BITS
      invariant 0 <= j <= TCH_BITS
      invariant forall i | 0 <= i < j :: 0 <= IlSrc(i) < TCH_BITS && spec[IlSrc(i)] == i
    {
      forall i | 0 <= i <= j
        ensures 0 <= IlSrc(i) < TCH_BITS && (IlSrc(i) == IlSrc(j) ==> i == j)
      {
        IlSrcInverse(i);
        IlSrcInverse(j);
      }
      spec[IlSrc(j)] := j;
      j := j + 1;
    }
    t := [];
    var i := 0;
    while i < TCH_BITS
      invariant 0 <= i <= TCH_BITS && |t| == i && forall k | 0 <= k < i :: t[k] == DeintAt(k)
      invariant forall k | 0 <= k < TCH_BITS :: 0 <= IlSrc(k) < TCH_BITS && spec[IlSrc(k)] == k
    {
      IlDestInverse(i);
      assert spec[IlSrc(IlDest(i))] == IlDest(i);
      t := t + [FlipLow2(Rotl9By2(spec[i]))];
      i := i + 1;
    }
  }

  // ---------------------------------------------------------------- the coded part of a frame

  lemma CodeShape()
    ensures CODE.Valid() && Offset(204, CODE.N()) == CODED_LEN && CODE.polys[0] % 2 == 1
  {
  }

  /** The interleaver input for encoder input `cv` and unprotected bits `rest`. */
  ghost predicate IsIlin(cv: seq<nat>, rest: seq<nat>, ilin: seq<nat>)
    requires IsBits(cv)
  {
    CodeShape();
    && |cv| == CVIN_LEN && |rest| == UNPROTECTED && |ilin| == TCH_BITS
    && ilin[..UNPROTECTED] == rest
    && forall i | 0 <= i < PUNC_LEN :: ilin[UNPROTECTED + i] == CodedAt(cv, PunctureSource(i))
  }

  /** Bit `j` of the code word of `cv`. */
  ghost function CodedAt(cv: seq<nat>, j: nat): nat
    requires IsBits(cv)
  {
    CodeShape();
    if j < |Encode(CODE, cv)| then Encode(CODE, cv)[j] else 0
  }

  method EncodeProtected(cv: seq<nat>, rest: seq<nat>) returns (ilin: seq<nat>)
    requires |cv| == CVIN_LEN && |rest| == UNPROTECTED
    ensures IsIlin(LowBits(cv), rest, ilin)
  {
    CodeShape();
    hide Encode, Offset;
    var coded := ConvEncode(cv, CODE);
    var u := Puncture(coded);
    ilin := rest + u;
  }

  /** `info` is a most likely message for the punctured bits in `ilin[130..]`. */
  ghost predicate IsInfo(ilin: seq<nat>, info: seq<nat>) {
    && |ilin| == TCH_BITS && |info| == CVIN_LEN && IsBits(info) && CODE.Valid()
    && exists v: seq<nat> :: IsDepunctured(ilin[UNPROTECTED..], v) && StepCount(CODE, v) == 204 && MostLikely(CODE, v, info)
  }

  ghost predicate IsDepunctured(u: seq<nat>, v: seq<nat>) {
    && |u| == PUNC_LEN && |v| == CODED_LEN
    && forall j | 0 <= j < CODED_LEN :: if Punctured(j) then v[j] == ERASURE
         else PuncturedBelow(j) <= j < PUNC_LEN + PuncturedBelow(j) && v[j] == u[j - PuncturedBelow(j)]
  }

  method DecodeProtected(ilin: seq<nat>) returns (info: seq<nat>)
    requires |ilin| == TCH_BITS
    ensures IsInfo(ilin, info)
  {
    CodeShape();
    hide Offset, MostLikely;
    var v := Depuncture(ilin[UNPROTECTED..]);
    assert StepCount(CODE, v) == 204;
    info := ViterbiDecode(v, CODE, true);
    assert IsDepunctured(ilin[UNPROTECTED..], v);
  }

  /**
    Puncturing erases second symbols only, and the first polynomial is odd, so
    the decoder recovers the encoder's input.
    */
  lemma ProtectedRoundTrip(cv: seq<nat>, rest: seq<nat>, ilin: seq<nat>, info: seq<nat>)
    requires IsBits(cv) && IsIlin(cv, rest, ilin) && IsInfo(ilin, info)
    ensures info == cv
  {
    CodeShape();
    var v: seq<nat> :| IsDepunctured(ilin[UNPROTECTED..], v) && StepCount(CODE, v) == 204 && MostLikely(CODE, v, info);
    hide MostLikely, StepCount, Encode, Offset;
    EncodeLength(cv);
    forall j | 0 <= j < CODED_LEN && !Punctured(j)
      ensures v[j] == CodedAt(cv, j)
    {
      KeptBit(cv, rest, ilin, v, j);
    }
    forall t | 0 <= t < 204
      ensures SymbolAt(CODE, v, t, 0) != ERASURE
    {
      FirstSymbolKept(cv, ilin, v, t);
    }
    RecoversFromErasures(CODE, v, cv, info, 0);
  }

  lemma KeptBit(cv: seq<nat>, rest: seq<nat>, ilin: seq<nat>, v: seq<nat>, j: nat)
    requires IsBits(cv) && IsIlin(cv, rest, ilin) && IsDepunctured(ilin[UNPROTECTED..], v)
    requires j < CODED_LEN && !Punctured(j)
    ensures v[j] == CodedAt(cv, j)
  {
    hide CodedAt;
    PunctureOrder(j);
    var i := j - PuncturedBelow(j);
    assert v[j] == ilin[UNPROTECTED..][i];
    assert ilin[UNPROTECTED + i] == CodedAt(cv, PunctureSource(i));
  }

  lemma EncodeLength(cv: seq<nat>)
    requires IsBits(cv) && |cv| == CVIN_LEN
    ensures CODE.Valid() && |Encode(CODE, cv)| == CODED_LEN
  {
    CodeShape();
  }

  lemma FirstSymbolKept(cv: seq<nat>, ilin: seq<nat>, v: seq<nat>, t: nat)
    requires IsBits(cv) && |cv| == CVIN_LEN && |ilin| == TCH_BITS && |v| == CODED_LEN && t < 204
    requires CODE.Valid() && StepCount(CODE, v) == 204
    requires forall j | 0 <= j < CODED_LEN && !Punctured(j) :: v[j] == CodedAt(cv, j)
    ensures SymbolAt(CODE, v, t, 0) != ERASURE
  {
    EncodeLength(cv);
    assert Offset(t, 2) == 2 * t;
    assert !Punctured(2 * t);
  }

  // ---------------------------------------------------------------- the order of the standard

  /** `crc` is the array-division checksum of the payload. */
  ghost predicate IsCrc(payload: seq<nat>, crc: seq<nat>) {
    |crc| == 7 && IsBits(crc) && FromBits(crc) == Remainder(Dividend(payload, CRC7_SHIFT), 0)
  }

  /** `cv` carries `payload` and `crc` in the standard's order. */
  ghost predicate IsCvin(payload: seq<nat>, crc: seq<nat>, cv: seq<nat>) {
    && |payload| == PROTECTED && |crc| == 7 && |cv| == CVIN_LEN
    && forall x | 0 <= x < CVIN_LEN :: cv[x] == CvinAt(payload, crc, x)
  }

  ghost predicate Interleaved(ilin: seq<nat>, tx: seq<nat>) {
    |ilin| == |tx| == TCH_BITS && forall i | 0 <= i < TCH_BITS :: 0 <= IlSrc(i) < TCH_BITS && tx[i] == ilin[IlSrc(i)]
  }

  /** `tx` is the transmitted form of the frame `mi`. */
  ghost predicate StdEncoded(mi: seq<nat>, tx: seq<nat>) {
    && |mi| == FRAME_BITS
    && exists crc, cv, ilin :: IsCrc(mi[..PROTECTED], crc) && IsCvin(mi[..PROTECTED], crc, cv)
         && IsIlin(LowBits(cv), mi[PROTECTED..], ilin) && Interleaved(ilin, tx)
  }

  /** `(frame, fer)` is a decoding of the received bits `tch`. */
  ghost predicate StdDecoded(tch: seq<nat>, frame: seq<nat>, fer: nat) {
    exists ilin, info, payload, crc ::
      && Interleaved(ilin, tch) && IsInfo(ilin, info) && IsCvin(payload, crc, info)
      && frame == payload + ilin[..UNPROTECTED]
      && fer == if IsCrc(payload, crc) then 0 else 1
  }

  method TransmissionEncode(mi: seq<nat>) returns (r: Outcome<seq<nat>>)
    ensures r.Ok? <==> |mi| == FRAME_BITS
    ensures r.Ok? ==> StdEncoded(mi, r.value)
  {
    if |mi| != FRAME_BITS { return WrongLength; }
    hide IlSrc, FromBits, Remainder, CvinAt;
    var payload, unprotected := mi[..PROTECTED], mi[PROTECTED..];
    var crc := Crc7.Crc7(payload, CRC7_SHIFT);
    var cv := CvinFromPayload(payload, crc);
    var ilin := EncodeProtected(cv, unprotected);
    var tx: seq<nat> := [];
    var i := 0;
    while i < TCH_BITS
      invariant 0 <= i <= TCH_BITS && |tx| == i
      invariant forall k | 0 <= k < i :: 0 <= IlSrc(k) < TCH_BITS && tx[k] == ilin[IlSrc(k)]
    {
      IlSrcInverse(i);
      tx := tx + [ilin[IlSrc(i)]];
      i := i + 1;
    }
    assert IsCrc(payload, crc) && IsCvin(payload, crc, cv) && Interleaved(ilin, tx);
    return Ok(tx);
  }

  method TransmissionDecode(tch: seq<nat>) returns (r: Outcome<(seq<nat>, nat)>)
    ensures r.Ok? <==> |tch| == TCH_BITS
    ensures r.Ok? ==> StdDecoded(tch, r.value.0, r.value.1)
  {
    if |tch| != TCH_BITS { return WrongLength; }
    var ilin := DeinterleaveStd(tch);
    hide IlSrc, FromBits, Remainder, CvinAt, IsInfo;
    var info := DecodeProtected(ilin);
    InfoShape(ilin, info);
    var payload, crcRx := CvinToPayload(info);
    var crc := Crc7.Crc7(payload, CRC7_SHIFT);
    var fer := if crc == crcRx then 0 else 1;
    if IsCrc(payload, crcRx) { FromBitsInjective(crc, crcRx); }
    assert IsCvin(payload, crcRx, info);
    assert fer == if IsCrc(payload, crcRx) then 0 else 1;
    return Ok((payload + ilin[..UNPROTECTED], fer));
  }

  lemma InfoShape(ilin: seq<nat>, info: seq<nat>)
    requires IsInfo(ilin, info)
    ensures |ilin| == TCH_BITS && |info| == CVIN_LEN && IsBits(info)
  {
  }

  method DeinterleaveStd(tch: seq<nat>) returns (ilin: seq<nat>)
    requires |tch| == TCH_BITS
    ensures Interleaved(ilin, tch)
  {
    hide IlSrc, IlDest;
    var a := new nat[TCH_BITS](_ => 0);
    var i := 0;
    while i < TCH_BITS
      invariant 0 <= i <= TCH_BITS
      invariant forall k | 0 <= k < i :: 0 <= IlSrc(k) < TCH_BITS && a[IlSrc(k)] == tch[k]
    {
      forall k | 0 <= k <= i
        ensures 0 <= IlSrc(k) < TCH_BITS && (IlSrc(k) == IlSrc(i) ==> k == i)
      {
        IlSrcInverse(k);
        IlSrcInverse(i);
      }
      a[IlSrc(i)] := tch[i];
      i := i + 1;
    }
    ilin := a[..];
  }

  /** Interleaving is undone: no two interleaver inputs give the same output. */
  lemma InterleavedUnique(a: seq<nat>, b: seq<nat>, tx: seq<nat>)
    requires Interleaved(a, tx) && Interleaved(b, tx)
    ensures a == b
  {
    forall v | 0 <= v < TCH_BITS
      ensures a[v] == b[v]
    {
      IlDestInverse(v);
      assert tx[IlDest(v)] == a[v];
    }
  }

  /** Every frame survives encoding and decoding, and its checksum matches. */
  lemma StdRoundTrip(mi: seq<nat>, tx: seq<nat>, frame: seq<nat>, fer: nat)
    requires IsBits(mi) && StdEncoded(mi, tx) && StdDecoded(tx, frame, fer)
    ensures frame == mi && fer == 0
  {
    hide IsCrc, IsIlin, IsInfo, IlSrc, CvinAt;
    var crc, cv, ilin :| IsCrc(mi[..PROTECTED], crc) && IsCvin(mi[..PROTECTED], crc, cv)
      && IsIlin(LowBits(cv), mi[PROTECTED..], ilin) && Interleaved(ilin, tx);
    var ilin', info, payload, crc' :| Interleaved(ilin', tx) && IsInfo(ilin', info) && IsCvin(payload, crc', info)
      && frame == payload + ilin'[..UNPROTECTED] && fer == if IsCrc(payload, crc') then 0 else 1;
    InterleavedUnique(ilin, ilin', tx);
    CvinBits(mi[..PROTECTED], crc, cv);
    ProtectedRoundTrip(cv, mi[PROTECTED..], ilin, info);
    CvinInjective(mi[..PROTECTED], crc, payload, crc');
    IlinRest(cv, mi[PROTECTED..], ilin);
    assert mi == mi[..PROTECTED] + mi[PROTECTED..];
  }

  lemma IlinRest(cv: seq<nat>, rest: seq<nat>, ilin: seq<nat>)
    requires IsBits(cv) && IsIlin(cv, rest, ilin)
    ensures |ilin| == TCH_BITS && ilin[..UNPROTECTED] == rest
  {
  }

  lemma CvinBits(payload: seq<nat>, crc: seq<nat>, cv: seq<nat>)
    requires IsBits(payload) && IsCrc(payload, crc) && IsCvin(payload, crc, cv)
    ensures IsBits(cv)
  {
    hide FromBits, Remainder;
    forall x | 0 <= x < CVIN_LEN
      ensures 0 <= cv[x] <= 1
    {
      assert cv[x] == CvinAt(payload, crc, x);
    }
  }

  // ---------------------------------------------------------------- the order over the air

  /** Encoder input: low checksum bits, even payload bits, odd payload bits, high checksum bits. */
  function OtaAt(payload: seq<nat>, crc: nat, x: nat): nat
    requires |payload| == PROTECTED && x < CVIN_LEN
  {
    if x < 3 then BitAt(crc, x)
    else if x < 98 then payload[2 * (x - 3)]
    else if x < 193 then payload[2 * (x - 98) + 1]
    else BitAt(crc, x - 190)
  }

  /** The bits the over-the-air checksum covers. */
  function Region(payload: seq<nat>): (r: seq<nat>)
    requires |payload| == PROTECTED
    ensures |r| == PROTECTED
  {
    seq(PROTECTED, x requires 0 <= x < PROTECTED => OtaAt(payload, 0, x + 3))
  }

  ghost predicate IsOtaInfo(payload: seq<nat>, crc: nat, info: seq<nat>) {
    && |payload| == PROTECTED && |info| == CVIN_LEN
    && forall x | 0 <= x < CVIN_LEN :: info[x] == OtaAt(payload, crc, x)
  }

  ghost predicate Placed(ilin: seq<nat>, tch: seq<nat>) {
    |ilin| == |tch| == TCH_BITS && forall i | 0 <= i < TCH_BITS :: DeintAt(i) < TCH_BITS && tch[DeintAt(i)] == ilin[i]
  }

  ghost predicate OtaEncoded(mr: seq<nat>, tch: seq<nat>) {
    && |mr| == FRAME_BITS
    && exists info, ilin :: IsOtaInfo(mr[..PROTECTED], OtaOf(Region(mr[..PROTECTED])), info)
         && IsIlin(LowBits(info), mr[PROTECTED..], ilin) && Placed(ilin, tch)
  }

  /** The checksum as received. */
  function ReceivedCrc(info: seq<nat>): nat
    requires |info| == CVIN_LEN
  {
    Crc.BitsToInt(LowBits([info[196], info[195], info[194], info[193], info[2], info[1], info[0]]))
  }

  ghost predicate OtaDecoded(tch: seq<nat>, frame: seq<nat>, fer: nat) {
    exists ilin, info, payload, crc ::
      && Placed(ilin, tch) && IsInfo(ilin, info) && IsOtaInfo(payload, crc, info)
      && frame == payload + ilin[..UNPROTECTED]
      && fer == if OtaOf(Region(payload)) == ReceivedCrc(info) then 0 else 1
  }

  lemma RegionIsSlice(payload: seq<nat>, crc: nat, info: seq<nat>)
    requires IsOtaInfo(payload, crc, info)
    ensures info[3..193] == Region(payload)
  {
  }

  method TransmissionEncodeOta(mr: seq<nat>) returns (r: Outcome<seq<nat>>)
    ensures r.Ok? <==> |mr| == FRAME_BITS
    ensures r.Ok? ==> OtaEncoded(mr, r.value)
  {
    if |mr| != FRAME_BITS { return WrongLength; }
    hide OtaOf, DeintAt, BitAt;
    var payload, unprotected := mr[..PROTECTED], mr[PROTECTED..];
    var info := LayOut(payload);
    var ilin := EncodeProtected(info, unprotected);
    var tch := PlaceOta(ilin);
    assert Placed(ilin, tch);
    return Ok(tch);
  }

  /** Payload and checksum in over-the-air order. */
  method LayOut(payload: seq<nat>) returns (info: seq<nat>)
    requires |payload| == PROTECTED
    ensures IsOtaInfo(payload, OtaOf(Region(payload)), info)
  {
    hide OtaOf, BitAt;
    var a := new nat[CVIN_LEN](_ => 0);
    var k := 0;
    while k < 95
      invariant 0 <= k <= 95
      invariant forall j | 0 <= j < k :: a[3 + j] == payload[2 * j] && a[98 + j] == payload[2 * j + 1]
    {
      a[3 + k] := payload[2 * k];
      a[98 + k] := payload[2 * k + 1];
      k := k + 1;
    }
    assert a[3..193] == Region(payload);
    var crc := Crc7Ota(a[3..193]);
    a[196] := BitAt(crc, 6);
    a[195] := BitAt(crc, 5);
    a[194] := BitAt(crc, 4);
    a[193] := BitAt(crc, 3);
    a[2] := BitAt(crc, 2);
    a[1] := BitAt(crc, 1);
    a[0] := BitAt(crc, 0);
    info := a[..];
  }

  method PlaceOta(ilin: seq<nat>) returns (tch: seq<nat>)
    requires |ilin| == TCH_BITS
    ensures Placed(ilin, tch)
  {
    hide DeintAt;
    var deint := BuildDeinterleave();
    var a := new nat[TCH_BITS](_ => 0);
    var i := 0;
    while i < TCH_BITS
      invariant 0 <= i <= TCH_BITS
      invariant forall k | 0 <= k < i :: DeintAt(k) < TCH_BITS && a[DeintAt(k)] == ilin[k]
    {
      forall k | 0 <= k <= i
        ensures DeintAt(k) < TCH_BITS && (DeintAt(k) == DeintAt(i) ==> k == i)
      {
        DeintInjective(k, i);
      }
      a[deint[i]] := ilin[i];
      i := i + 1;
    }
    tch := a[..];
  }

  method TransmissionDecodeOta(tch: seq<nat>) returns (r: Outcome<(seq<nat>, nat)>)
    ensures r.Ok? <==> |tch| == TCH_BITS
    ensures r.Ok? ==> OtaDecoded(tch, r.value.0, r.value.1)
  {
    if |tch| != TCH_BITS { return WrongLength; }
    var ilin := DeinterleaveOta(tch);
    hide DeintAt, OtaOf, IsInfo, ReceivedCrc, Placed;
    var info := DecodeProtected(ilin);
    InfoShape(ilin, info);
    var payload := TakeOut(info);
    ghost var crc := ReceivedWord(info, payload);
    RegionIsSlice(payload, crc, info);
    var rx := ReceivedCrc(info);
    var c := Crc7Ota(info[3..193]);
    var fer := if c == rx then 0 else 1;
    return Ok((payload + ilin[..UNPROTECTED], fer));
  }

  method DeinterleaveOta(tch: seq<nat>) returns (ilin: seq<nat>)
    requires |tch| == TCH_BITS
    ensures Placed(ilin, tch)
  {
    hide DeintAt;
    var deint := BuildDeinterleave();
    ilin := [];
    var i := 0;
    while i < TCH_BITS
      invariant 0 <= i <= TCH_BITS && |ilin| == i
      invariant forall k | 0 <= k < i :: DeintAt(k) < TCH_BITS && tch[DeintAt(k)] == ilin[k]
    {
      DeintInjective(i, i);
      ilin := ilin + [tch[deint[i]]];
      i := i + 1;
    }
  }

  method TakeOut(info: seq<nat>) returns (payload: seq<nat>)
    requires |info| == CVIN_LEN
    ensures |payload| == PROTECTED
    ensures forall k | 0 <= k < 95 :: payload[2 * k] == info[3 + k] && payload[2 * k + 1] == info[98 + k]
  {
    var a := new nat[PROTECTED](_ => 0);
    var k := 0;
    while k < 95
      invariant 0 <= k <= 95
      invariant forall j | 0 <= j < k :: a[2 * j] == info[3 + j] && a[2 * j + 1] == info[98 + j]
    {
      a[2 * k] := info[3 + k];
      a[2 * k + 1] := info[98 + k];
      k := k + 1;
    }
    payload := a[..];
  }

  /** The seven checksum bits of a decoded block spell a word. */
  lemma ReceivedWord(info: seq<nat>, payload: seq<nat>) returns (crc: nat)
    requires |info| == CVIN_LEN && IsBits(info) && |payload| == PROTECTED
    requires forall k | 0 <= k < 95 :: payload[2 * k] == info[3 + k] && payload[2 * k + 1] == info[98 + k]
    ensures IsOtaInfo(payload, crc, info)
  {
    var bits := [info[0], info[1], info[2], info[193], info[194], info[195], info[196]];
    crc := FromBits(bits);
    forall x | 0 <= x < CVIN_LEN
      ensures info[x] == OtaAt(payload, crc, x)
    {
      if x < 3 {
        BitOfFromBits(bits, x);
      } else if x < 98 {
        assert payload[2 * (x - 3)] == info[3 + (x - 3)];
      } else if x < 193 {
        assert payload[2 * (x - 98) + 1] == info[98 + (x - 98)];
      } else {
        BitOfFromBits(bits, x - 190);
      }
    }
  }

  lemma {:induction false} BitOfFromBits(s: seq<nat>, j: nat)
    requires IsBits(s) && j < |s|
    ensures BitAt(FromBits(s), j) == s[j]
  {
    FromBitsHalves(s);
    if j > 0 { BitOfFromBits(s[1..], j - 1); }
  }

  lemma SevenBits(crc: nat)
    requires crc < 128
    ensures Crc.BitsToInt(LowBits([BitAt(crc, 6), BitAt(crc, 5), BitAt(crc, 4), BitAt(crc, 3),
                                   BitAt(crc, 2), BitAt(crc, 1), BitAt(crc, 0)])) == crc
  {
    var s: seq<nat> := [BitAt(crc, 6), BitAt(crc, 5), BitAt(crc, 4), BitAt(crc, 3), BitAt(crc, 2), BitAt(crc, 1), BitAt(crc, 0)];
    assert Pow2(7) == 128;
    Crc.BitsToIntToBits(crc, 7);
    var t := Crc.ToBits(crc, 7);
    forall i | 0 <= i < 7
      ensures t[i] == s[i]
    {
      ToBitsAt(crc, 7, i);
    }
    assert t == s;
  }

  lemma {:induction false} ToBitsAt(v: nat, n: nat, i: nat)
    requires i < n
    ensures Crc.ToBits(v, n)[i] == BitAt(v, n - 1 - i)
  {
    if i < n - 1 { ToBitsAt(v / 2, n - 1, i); }
  }

  lemma PlacedUnique(a: seq<nat>, b: seq<nat>, tch: seq<nat>)
    requires Placed(a, tch) && Placed(b, tch)
    ensures a == b
  {
    hide DeintAt;
    forall i | 0 <= i < TCH_BITS
      ensures a[i] == b[i]
    {
      assert tch[DeintAt(i)] == a[i];
    }
  }

  lemma OtaInfoInjective(p: seq<nat>, c: nat, q: seq<nat>, d: nat, info: seq<nat>)
    requires IsOtaInfo(p, c, info) && IsOtaInfo(q, d, info)
    ensures p == q
  {
    hide BitAt;
    forall i | 0 <= i < PROTECTED
      ensures p[i] == q[i]
    {
      var x := if i % 2 == 0 then 3 + i / 2 else 98 + i / 2;
      assert info[x] == OtaAt(p, c, x) && info[x] == OtaAt(q, d, x);
    }
  }

  lemma OtaBits(payload: seq<nat>, crc: nat, info: seq<nat>)
    requires IsBits(payload) && IsOtaInfo(payload, crc, info)
    ensures IsBits(info)
  {
    hide BitAt;
    forall x | 0 <= x < CVIN_LEN
      ensures 0 <= info[x] <= 1
    {
      assert info[x] == OtaAt(payload, crc, x);
    }
  }

  lemma OtaCrcSent(payload: seq<nat>, crc: nat, info: seq<nat>)
    requires IsOtaInfo(payload, crc, info) && crc < 128
    ensures ReceivedCrc(info) == crc
  {
    hide Crc.BitsToInt;
    assert [info[196], info[195], info[194], info[193], info[2], info[1], info[0]]
        == [BitAt(crc, 6), BitAt(crc, 5), BitAt(crc, 4), BitAt(crc, 3), BitAt(crc, 2), BitAt(crc, 1), BitAt(crc, 0)];
    SevenBits(crc);
  }

  /** The over-the-air pair: every frame survives, and its checksum matches. */
  lemma OtaRoundTrip(mr: seq<nat>, tch: seq<nat>, frame: seq<nat>, fer: nat)
    requires IsBits(mr) && OtaEncoded(mr, tch) && OtaDecoded(tch, frame, fer)
    ensures frame == mr && fer == 0
  {
    hide OtaOf, IsIlin, IsInfo, DeintAt, ReceivedCrc, OtaAt, Region;
    var p := mr[..PROTECTED];
    var crc := OtaOf(Region(p));
    var info, ilin :| IsOtaInfo(p, crc, info) && IsIlin(LowBits(info), mr[PROTECTED..], ilin) && Placed(ilin, tch);
    var ilin', info', payload, crc' :| Placed(ilin', tch) && IsInfo(ilin', info') && IsOtaInfo(payload, crc', info')
      && frame == payload + ilin'[..UNPROTECTED] && fer == if OtaOf(Region(payload)) == ReceivedCrc(info') then 0 else 1;
    PlacedUnique(ilin, ilin', tch);
    OtaBits(p, crc, info);
    ProtectedRoundTrip(info, mr[PROTECTED..], ilin, info');
    OtaInfoInjective(p, crc, payload, crc', info);
    OtaCrcSent(p, crc, info);
    IlinRest(info, mr[PROTECTED..], ilin);
    assert mr == p + mr[PROTECTED..];
  }

  // ---------------------------------------------------------------- whole slots

  ghost predicate Decoded(ota: bool, tch: seq<nat>, frame: seq<nat>, fer: nat) {
    if ota then OtaDecoded(tch, frame, fer) else StdDecoded(tch, frame, fer)
  }

  ghost predicate Encoded(ota: bool, frame: seq<nat>, tch: seq<nat>) {
    if ota then OtaEncoded(frame, tch) else StdEncoded(frame, tch)
  }

  /** Descrambles and decodes every slot; any slot of the wrong length is an error. */
  method DecodeTchFrames(slots: seq<seq<nat>>, seed: int, ota: bool) returns (r: Outcome<(seq<seq<nat>>, seq<nat>)>)
    ensures r.Ok? <==> forall i | 0 <= i < |slots| :: |slots[i]| == TCH_BITS
    ensures r.Ok? ==> |r.value.0| == |r.value.1| == |slots|
    ensures r.Ok? ==> forall i | 0 <= i < |slots| ::
              Decoded(ota, Lfsr9.Scrambled(slots[i], seed), r.value.0[i], r.value.1[i])
  {
    hide OtaDecoded, StdDecoded, Lfsr9.Scrambled;
    var frames: seq<seq<nat>>, fers: seq<nat> := [], [];
    var i := 0;
    while i < |slots|
      invariant 0 <= i <= |slots| && |frames| == |fers| == i
      invariant forall k | 0 <= k < i :: |slots[k]| == TCH_BITS
      invariant forall k | 0 <= k < i :: Decoded(ota, Lfsr9.Scrambled(slots[k], seed), frames[k], fers[k])
    {
      if |slots[i]| != TCH_BITS { return WrongLength; }
      var buf := Lfsr9.Descramble(slots[i], seed);
      var x;
      if ota {
        x := TransmissionDecodeOta(buf);
      } else {
        x := TransmissionDecode(buf);
      }
      frames := frames + [x.value.0];
      fers := fers + [x.value.1];
      i := i + 1;
    }
    return Ok((frames, fers));
  }

  lemma EncodedBits(ota: bool, frame: seq<nat>, tch: seq<nat>)
    requires IsBits(frame) && Encoded(ota, frame, tch)
    ensures IsBits(tch)
  {
    if ota { OtaEncodedBits(frame, tch); } else { StdEncodedBits(frame, tch); }
  }

  lemma IlinBits(cv: seq<nat>, rest: seq<nat>, ilin: seq<nat>)
    requires IsBits(cv) && IsBits(rest) && IsIlin(cv, rest, ilin)
    ensures IsBits(ilin)
  {
    hide Encode;
    forall i | 0 <= i < TCH_BITS
      ensures 0 <= ilin[i] <= 1
    {
      if i < UNPROTECTED {
        assert ilin[..UNPROTECTED][i] == rest[i];
      } else {
        assert ilin[UNPROTECTED + (i - UNPROTECTED)] == CodedAt(cv, PunctureSource(i - UNPROTECTED));
      }
    }
  }

  lemma StdEncodedBits(mi: seq<nat>, tx: seq<nat>)
    requires IsBits(mi) && StdEncoded(mi, tx)
    ensures IsBits(tx)
  {
    hide IsCrc, IsCvin, IsIlin;
    var crc, cv, ilin :| IsCrc(mi[..PROTECTED], crc) && IsCvin(mi[..PROTECTED], crc, cv)
      && IsIlin(LowBits(cv), mi[PROTECTED..], ilin) && Interleaved(ilin, tx);
    IlinBits(LowBits(cv), mi[PROTECTED..], ilin);
  }

  lemma OtaEncodedBits(mr: seq<nat>, tch: seq<nat>)
    requires IsBits(mr) && OtaEncoded(mr, tch)
    ensures IsBits(tch)
  {
    hide IsOtaInfo, IsIlin, DeintAt;
    var p := mr[..PROTECTED];
    var info, ilin :| IsOtaInfo(p, OtaOf(Region(p)), info) && IsIlin(LowBits(info), mr[PROTECTED..], ilin) && Placed(ilin, tch);
    IlinBits(LowBits(info), mr[PROTECTED..], ilin);
    forall v | 0 <= v < TCH_BITS
      ensures 0 <= tch[v] <= 1
    {
      var i := DeintOnto(v);
      assert tch[DeintAt(i)] == ilin[i];
    }
  }

  lemma DeintOnto(v: nat) returns (i: nat)
    requires v < TCH_BITS
    ensures i < TCH_BITS && DeintAt(i) == v
  {
    var r, t := v / 4, v % 4;
    var x := r + 128 * (3 - t);
    assert x % 128 == r && x / 128 == 3 - t;
    assert Rotl9By2(x) == 4 * r + (3 - t);
    FlipParts(r, 3 - t);
    IlSrcInverse(x);
    i := IlSrc(x);
  }

  /** A scrambled, encoded slot decodes to its frame with the right seed, in either order. */
  lemma SlotRoundTrip(ota: bool, m: seq<nat>, tch: seq<nat>, seed: int, frame: seq<nat>, fer: nat)
    requires IsBits(m) && Encoded(ota, m, tch)
    requires Decoded(ota, Lfsr9.Scrambled(Lfsr9.Scrambled(tch, seed), seed), frame, fer)
    ensures frame == m && fer == 0
  {
    hide StdEncoded, StdDecoded, OtaEncoded, OtaDecoded, Lfsr9.Scrambled;
    Lfsr9.Involution(tch, seed);
    EncodedBits(ota, m, tch);
    if ota { OtaRoundTrip(m, tch, frame, fer); } else { StdRoundTrip(m, tch, frame, fer); }
  }
}
