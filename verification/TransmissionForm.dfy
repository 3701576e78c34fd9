/**
  The transmitted form of a speech frame, position by position: which frame bit,
  checksum bit or coded bit stands where among the 512 transmitted bits
  (internal/std-t86/scodec/transmission.go).
  */
module TransmissionForm {
  import opened Words
  import opened Conv
  import opened ConvAlgebra
  import opened Crc7
  import opened CrcDivision
  import opened Transmission

  // ---------------------------------------------------------------- interleaving

  /** Order in which the eight columns of the block interleaver are sent. */
  const COLUMNS: seq<nat> := [0, 2, 4, 6, 1, 3, 5, 7]

  /** The input is written row by row into 64 rows of eight and read column by column, the even columns first. */
  ghost predicate ColumnsSent(ilin: seq<nat>, tx: seq<nat>) {
    && |ilin| == |tx| == 512
    && forall a, b | 0 <= a < 8 && 0 <= b < 64 :: ColumnAt(ilin, tx, a, b)
  }

  predicate ColumnAt(ilin: seq<nat>, tx: seq<nat>, a: int, b: int)
    requires |ilin| == |tx| == 512 && 0 <= a < 8 && 0 <= b < 64
  {
    tx[64 * a + b] == ilin[8 * b + COLUMNS[a]]
  }

  lemma ColumnSource(a: nat, b: nat)
    requires a < 8 && b < 64
    ensures IlSrc(64 * a + b) == 8 * b + COLUMNS[a]
  {
    assert (64 * a + b) / 64 == a && (64 * a + b) / 256 == a / 4;
  }

  lemma InterleavesColumns(ilin: seq<nat>, tx: seq<nat>)
    requires Interleaved(ilin, tx)
    ensures ColumnsSent(ilin, tx)
  {
    hide IlSrc;
    forall a, b | 0 <= a < 8 && 0 <= b < 64
      ensures ColumnAt(ilin, tx, a, b)
    {
      ColumnSource(a, b);
      assert tx[64 * a + b] == ilin[IlSrc(64 * a + b)];
    }
  }

  /** Input bits less than eight places apart are sent at least 63 places apart. */
  lemma Spread(v: nat, w: nat)
    requires v < w < 512 && w < v + 8
    ensures IlDest(v) - IlDest(w) >= 63 || IlDest(w) - IlDest(v) >= 63
  {
    var a := if v % 8 % 2 == 0 then v % 8 / 2 else v % 8 / 2 + 4;
    var b := if w % 8 % 2 == 0 then w % 8 / 2 else w % 8 / 2 + 4;
    assert v % 8 != w % 8 && a != b;
    assert IlDest(v) == 64 * a + v / 8 && IlDest(w) == 64 * b + w / 8;
    assert v / 8 <= w / 8 <= v / 8 + 1;
  }

  /** Over the air the four places of every group of four come from four columns of the same parity. */
  ghost predicate GroupsSent(ilin: seq<nat>, tch: seq<nat>) {
    && |ilin| == |tch| == 512
    && forall a, b | 0 <= a < 8 && 0 <= b < 64 :: GroupAt(ilin, tch, a, b)
  }

  predicate GroupAt(ilin: seq<nat>, tch: seq<nat>, a: int, b: int)
    requires |ilin| == |tch| == 512 && 0 <= a < 8 && 0 <= b < 64
  {
    tch[256 * (a % 2) + 4 * b + 3 - a / 2] == ilin[8 * b + COLUMNS[a]]
  }

  lemma GroupPlace(a: nat, b: nat)
    requires a < 8 && b < 64
    ensures DeintAt(8 * b + COLUMNS[a]) == 256 * (a % 2) + 4 * b + 3 - a / 2
  {
    var v := 8 * b + COLUMNS[a];
    assert v % 8 == COLUMNS[a] && v / 8 == b;
    var x := 64 * a + b;
    assert IlDest(v) == x;
    assert x % 128 == 64 * (a % 2) + b && x / 128 == a / 2;
    FlipParts(x % 128, x / 128);
  }

  lemma PlacesGroups(ilin: seq<nat>, tch: seq<nat>)
    requires Placed(ilin, tch)
    ensures GroupsSent(ilin, tch)
  {
    hide DeintAt;
    forall a, b | 0 <= a < 8 && 0 <= b < 64
      ensures GroupAt(ilin, tch, a, b)
    {
      GroupPlace(a, b);
      assert tch[DeintAt(8 * b + COLUMNS[a])] == ilin[8 * b + COLUMNS[a]];
    }
  }

  // ---------------------------------------------------------------- puncturing and coding

  /** `kept` lists, in order, exactly the coded positions that are not five above a multiple of sixteen. */
  ghost predicate AllButEverySixteenth(kept: seq<nat>) {
    && |kept| == 382
    && (forall i, j | 0 <= i < j < 382 :: kept[i] < kept[j])
    && (forall i | 0 <= i < 382 :: kept[i] < 408 && kept[i] % 16 != 5)
    && (forall j: nat | j < 408 && j % 16 != 5 :: j in kept)
  }

  function KeptPositions(): (kept: seq<nat>)
    ensures |kept| == 382
  {
    seq(382, i requires 0 <= i < 382 => PunctureSource(i))
  }

  lemma KeptAre()
    ensures AllButEverySixteenth(KeptPositions())
  {
    var kept := KeptPositions();
    forall i | 0 <= i < 382
      ensures kept[i] < 408 && kept[i] % 16 != 5
    {
      var q, r := (i + 10) / 15, (i + 10) % 15;
      assert i + 10 == 15 * q + r && kept[i] + 10 == 16 * q + r;
    }
    forall j: nat | j < 408 && j % 16 != 5
      ensures j in kept
    {
      PunctureOrder(j);
      var i := j - PuncturedBelow(j);
      assert i < 382;
      assert kept[i] == j;
    }
  }

  /** Bit `j` of the two interleaved products of `cv`, followed by seven zeros, with the generators octal 247 and 371. */
  function CodedBit(cv: seq<nat>, j: nat): Bit
    requires IsBits(cv) && |cv| == 197 && j < 408
  {
    Convolve(if j % 2 == 0 then 167 else 249, cv + Zeros(7), j / 2)
  }

  lemma CodedIs(cv: seq<nat>, j: nat)
    requires IsBits(cv) && |cv| == 197 && j < 408
    ensures CodedAt(cv, j) == CodedBit(cv, j)
  {
    hide Convolve, Coded, Sent, End, Next;
    CodeShape();
    EncodeLength(cv);
    var u := cv + Zeros(7);
    CodedSymbol(CODE, u, j / 2, j % 2);
    assert Offset(j / 2, 2) == 2 * (j / 2);
    assert Pow2(8) == 256;
    EncoderConvolves(CODE, u, j / 2, j % 2);
  }

  /** The interleaver input: unprotected bits first, then the coded bits that are kept. */
  ghost predicate Joined(cv: seq<nat>, rest: seq<nat>, kept: seq<nat>, ilin: seq<nat>) {
    && IsBits(cv) && |cv| == 197 && |rest| == 130 && |ilin| == 512 && AllButEverySixteenth(kept)
    && (forall v | 0 <= v < 130 :: ilin[v] == rest[v])
    && (forall v | 130 <= v < 512 :: ilin[v] == CodedBit(cv, kept[v - 130]))
  }

  lemma IlinJoined(cv: seq<nat>, rest: seq<nat>, ilin: seq<nat>)
    requires IsBits(cv) && IsIlin(cv, rest, ilin)
    ensures Joined(cv, rest, KeptPositions(), ilin)
  {
    hide CodedBit, CodedAt, AllButEverySixteenth;
    KeptAre();
    KeptBelow(KeptPositions());
    forall v | 0 <= v < 130
      ensures ilin[v] == rest[v]
    {
      assert ilin[..130][v] == rest[v];
    }
    forall v | 130 <= v < 512
      ensures ilin[v] == CodedBit(cv, KeptPositions()[v - 130])
    {
      assert ilin[130 + (v - 130)] == CodedAt(cv, PunctureSource(v - 130));
      CodedIs(cv, PunctureSource(v - 130));
    }
  }

  lemma KeptBelow(kept: seq<nat>)
    requires AllButEverySixteenth(kept)
    ensures |kept| == 382 && forall i | 0 <= i < 382 :: kept[i] < 408
  {
  }

  // ---------------------------------------------------------------- whole frames

  /** The order of the standard: four checksum bits, the even bits from 0 and the odd bits from 1, three checksum bits. */
  ghost predicate StdOrder(mi: seq<nat>, crc: seq<nat>, cv: seq<nat>) {
    && |mi| == 320 && |crc| == 7 && |cv| == 197
    && cv[..4] == crc[..4] && cv[194..] == crc[4..]
    && (forall k | 0 <= k < 95 :: cv[4 + k] == mi[2 * k] && cv[99 + k] == mi[2 * k + 1])
  }

  /** What a frame is sent as, in terms of its bits alone. */
  ghost predicate StdForm(mi: seq<nat>, tx: seq<nat>) {
    exists crc: seq<nat>, q: seq<nat>, cv: seq<nat>, kept: seq<nat>, ilin: seq<nat> ::
      && StdOrder(mi, crc, cv) && Splits(Zeros(9) + mi[..190], q, crc)
      && Joined(cv, mi[190..], kept, ilin) && ColumnsSent(ilin, tx)
  }

  lemma StdSends(mi: seq<nat>, tx: seq<nat>)
    requires IsBits(mi) && StdEncoded(mi, tx)
    ensures StdForm(mi, tx)
  {
    hide IsIlin, Joined, Splits, Interleaved, ColumnsSent, Remainder, FromBits, CvinAt;
    var crc, cv, ilin :| IsCrc(mi[..PROTECTED], crc) && IsCvin(mi[..PROTECTED], crc, cv)
      && IsIlin(LowBits(cv), mi[PROTECTED..], ilin) && Interleaved(ilin, tx);
    CvinBits(mi[..190], crc, cv);
    InterleavesColumns(ilin, tx);
    IlinJoined(cv, mi[190..], ilin);
    RemainderDivides(Zeros(9) + mi[..190], crc);
    var q :| Splits(Zeros(9) + mi[..190], q, crc);
    CvinOrder(mi, crc, cv);
  }

  lemma CvinOrder(mi: seq<nat>, crc: seq<nat>, cv: seq<nat>)
    requires |mi| == 320 && IsCvin(mi[..PROTECTED], crc, cv)
    ensures StdOrder(mi, crc, cv)
  {
    forall k | 0 <= k < 95
      ensures cv[4 + k] == mi[2 * k] && cv[99 + k] == mi[2 * k + 1]
    {
      assert cv[4 + k] == CvinAt(mi[..PROTECTED], crc, 4 + k);
      assert cv[99 + k] == CvinAt(mi[..PROTECTED], crc, 99 + k);
    }
    forall k | 0 <= k < 4
      ensures cv[k] == crc[k]
    {
      assert cv[k] == CvinAt(mi[..PROTECTED], crc, k);
    }
    forall x | 194 <= x < 197
      ensures cv[x] == crc[x - 190]
    {
      assert cv[x] == CvinAt(mi[..PROTECTED], crc, x);
    }
  }

  /** The order over the air: three checksum bits, the even bits, the odd bits, four checksum bits. */
  ghost predicate OtaOrder(mr: seq<nat>, crc: seq<nat>, cv: seq<nat>) {
    && |mr| == 320 && |crc| == 7 && |cv| == 197
    && cv[..3] == crc[..3] && cv[193..] == crc[3..]
    && (forall k | 0 <= k < 95 :: cv[3 + k] == mr[2 * k] && cv[98 + k] == mr[2 * k + 1])
  }

  /** The checksum of the over-the-air form divides the reversed encoder input. */
  ghost predicate OtaForm(mr: seq<nat>, tch: seq<nat>) {
    exists crc: seq<nat>, q: seq<nat>, cv: seq<nat>, kept: seq<nat>, ilin: seq<nat> ::
      && OtaOrder(mr, crc, cv) && IsBits(cv) && Splits(Zeros(7) + Reversed(cv[3..193]), q, crc)
      && Joined(cv, mr[190..], kept, ilin) && GroupsSent(ilin, tch)
  }

  lemma OtaSends(mr: seq<nat>, tch: seq<nat>)
    requires IsBits(mr) && OtaEncoded(mr, tch)
    ensures OtaForm(mr, tch)
  {
    hide IsIlin, Joined, Splits, Placed, GroupsSent, OtaOf, OtaAt, Remainder, FromBits;
    var p := mr[..PROTECTED];
    var word := OtaOf(Region(p));
    var info, ilin :| IsOtaInfo(p, word, info) && IsIlin(LowBits(info), mr[PROTECTED..], ilin) && Placed(ilin, tch);
    OtaBits(p, word, info);
    PlacesGroups(ilin, tch);
    IlinJoined(info, mr[190..], ilin);
    var crc := WordBits(word);
    OtaInfoOrder(mr, word, crc, info);
    RegionIsSlice(p, word, info);
    ArrayIsOta(info[3..193]);
    RemainderDivides(Zeros(7) + Reversed(info[3..193]), crc);
    var q :| Splits(Zeros(7) + Reversed(info[3..193]), q, crc);
  }

  /** The seven bits of a word, low bit first. */
  function WordBits(x: nat): (s: seq<nat>)
    requires x < 128
    ensures |s| == 7 && IsBits(s) && FromBits(s) == x && forall j | 0 <= j < 7 :: s[j] == BitAt(x, j)
  {
    var s: seq<nat> := [BitAt(x, 0), BitAt(x, 1), BitAt(x, 2), BitAt(x, 3), BitAt(x, 4), BitAt(x, 5), BitAt(x, 6)];
    WordOf(x, s);
    s
  }

  lemma OtaInfoOrder(mr: seq<nat>, word: nat, crc: seq<nat>, info: seq<nat>)
    requires |mr| == 320 && IsOtaInfo(mr[..PROTECTED], word, info)
    requires |crc| == 7 && forall j | 0 <= j < 7 :: crc[j] == BitAt(word, j)
    ensures OtaOrder(mr, crc, info)
  {
    hide BitAt;
    forall k | 0 <= k < 95
      ensures info[3 + k] == mr[2 * k] && info[98 + k] == mr[2 * k + 1]
    {
      assert info[3 + k] == OtaAt(mr[..PROTECTED], word, 3 + k);
      assert info[98 + k] == OtaAt(mr[..PROTECTED], word, 98 + k);
    }
    forall k | 0 <= k < 3
      ensures info[k] == crc[k]
    {
      assert info[k] == OtaAt(mr[..PROTECTED], word, k);
    }
    forall x | 193 <= x < 197
      ensures info[x] == crc[x - 190]
    {
      assert info[x] == OtaAt(mr[..PROTECTED], word, x);
    }
  }
}
