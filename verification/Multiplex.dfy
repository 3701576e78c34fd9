/**
  Two-ended placement of codes in a frame (internal/std-t86/scodec/multiplex.go;
  ARIB STD-T86 sections 5.3 and 5.6).
  */
module Multiplex {

  datatype Direction = Forward | Reverse

  datatype Placement = Placement(start: int, length: int, dir: Direction)

  datatype Result<T> = Ok(value: T) | TooLong

  // ---------------------------------------------------------------- the two ends

  /** The free middle is `fwd .. rev`; `toggle` alternates the end in use. */
  datatype Ends = Ends(fwd: int, rev: int, toggle: nat)

  function Next(e: Ends, length: int, protectedBits: int): Ends {
    if e.fwd < protectedBits then e.(fwd := e.fwd + length)
    else if e.toggle % 2 == 0 then e.(rev := e.rev - length, toggle := e.toggle + 1)
    else e.(fwd := e.fwd + length, toggle := e.toggle + 1)
  }

  function PlaceIn(e: Ends, length: int, protectedBits: int): Placement {
    if e.fwd < protectedBits then Placement(e.fwd, length, Forward)
    else if e.toggle % 2 == 0 then Placement(e.rev - length, length, Reverse)
    else Placement(e.fwd, length, Forward)
  }

  /** The ends after the first `i` codes. */
  function After(lengths: seq<int>, totalBits: int, protectedBits: int, i: nat): Ends
    requires i <= |lengths|
  {
    if i == 0 then Ends(0, totalBits, 0)
    else Next(After(lengths, totalBits, protectedBits, i - 1), lengths[i - 1], protectedBits)
  }

  function PlaceOf(lengths: seq<int>, totalBits: int, protectedBits: int, i: nat): Placement
    requires i < |lengths|
  {
    PlaceIn(After(lengths, totalBits, protectedBits, i), lengths[i], protectedBits)
  }

  function Sum(lengths: seq<int>, n: nat): int
    requires n <= |lengths|
  {
    if n == 0 then 0 else Sum(lengths, n - 1) + lengths[n - 1]
  }

  lemma {:induction false} MiddleShrinks(lengths: seq<int>, totalBits: int, protectedBits: int, i: nat)
    requires i <= |lengths|
    ensures var e := After(lengths, totalBits, protectedBits, i); e.rev - e.fwd == totalBits - Sum(lengths, i)
  {
    if i > 0 { MiddleShrinks(lengths, totalBits, protectedBits, i - 1); }
  }

  lemma {:induction false} SumMono(lengths: seq<int>, i: nat, j: nat)
    requires i <= j <= |lengths| && forall k | 0 <= k < |lengths| :: lengths[k] >= 0
    ensures Sum(lengths, i) <= Sum(lengths, j)
  {
    if i < j { SumMono(lengths, i, j - 1); }
  }

  /** Some prefix of the codes is longer than the frame. */
  ghost predicate Overflows(lengths: seq<int>, totalBits: int) {
    exists i :: 0 < i <= |lengths| && Sum(lengths, i) > totalBits
  }

  /** For lengths that are not negative: exactly if all of them together are too long. */
  lemma OverflowIsSum(lengths: seq<int>, totalBits: int)
    requires forall k | 0 <= k < |lengths| :: lengths[k] >= 0
    ensures Overflows(lengths, totalBits) <==> lengths != [] && Sum(lengths, |lengths|) > totalBits
  {
    if i :| 0 < i <= |lengths| && Sum(lengths, i) > totalBits {
      SumMono(lengths, i, |lengths|);
    }
  }

  method AdaptivePlacement(lengths: seq<int>, totalBits: int, protectedBits: int) returns (r: Result<seq<Placement>>)
    ensures r.TooLong? <==> Overflows(lengths, totalBits)
    ensures r.Ok? ==> (
      && |r.value| == |lengths|
      && forall i | 0 <= i < |lengths| :: r.value[i] == PlaceOf(lengths, totalBits, protectedBits, i))
  {
    hide Sum;
    var fwd, rev, toggle := 0, totalBits, 0;
    var out: seq<Placement> := [];
    var i := 0;
    while i < |lengths|
      invariant 0 <= i <= |lengths| && |out| == i && toggle >= 0
      invariant Ends(fwd, rev, toggle) == After(lengths, totalBits, protectedBits, i)
      invariant forall j | 0 <= j < i :: out[j] == PlaceOf(lengths, totalBits, protectedBits, j)
      invariant forall j | 0 < j <= i :: Sum(lengths, j) <= totalBits
    {
      var length := lengths[i];
      if fwd < protectedBits {
        out := out + [Placement(fwd, length, Forward)];
        fwd := fwd + length;
      } else if toggle % 2 == 0 {
        rev := rev - length;
        out := out + [Placement(rev, length, Reverse)];
        toggle := toggle + 1;
      } else {
        out := out + [Placement(fwd, length, Forward)];
        fwd := fwd + length;
        toggle := toggle + 1;
      }
      MiddleShrinks(lengths, totalBits, protectedBits, i + 1);
      if fwd > rev {
        assert Sum(lengths, i + 1) > totalBits;
        return TooLong;
      }
      i := i + 1;
    }
    r := Ok(out);
  }

  // ---------------------------------------------------------------- where the codes are

  /** Up to the protected part everything goes to the front. */
  lemma {:induction false} FrontFirst(lengths: seq<int>, totalBits: int, protectedBits: int, i: nat)
    requires i <= |lengths| && forall k | 0 <= k < i :: Sum(lengths, k) < protectedBits
    ensures After(lengths, totalBits, protectedBits, i) == Ends(Sum(lengths, i), totalBits, 0)
  {
    if i > 0 { FrontFirst(lengths, totalBits, protectedBits, i - 1); }
  }

  /** Then the ends take turns. */
  lemma {:induction false} TakeTurns(lengths: seq<int>, totalBits: int, protectedBits: int, m: nat, i: nat)
    requires m <= i <= |lengths| && forall k | 0 <= k < |lengths| :: lengths[k] >= 0
    requires Sum(lengths, m) >= protectedBits && forall k | 0 <= k < m :: Sum(lengths, k) < protectedBits
    ensures var e := After(lengths, totalBits, protectedBits, i); e.fwd >= protectedBits && e.toggle == i - m
  {
    if i == m {
      FrontFirst(lengths, totalBits, protectedBits, m);
    } else {
      TakeTurns(lengths, totalBits, protectedBits, m, i - 1);
    }
  }

  /**
    The first `m` codes, which reach the protected length, stand one after the other from the front.  Of the
    others the first one ends the frame, the second one follows the first `m`, and each later one stands
    next to the one before the last: towards the middle, from the same end.
    */
  lemma PlacesAlternate(lengths: seq<int>, totalBits: int, protectedBits: int, m: nat, i: nat)
    requires m <= |lengths| && i < |lengths| && forall k | 0 <= k < |lengths| :: lengths[k] >= 0
    requires Sum(lengths, m) >= protectedBits && forall k | 0 <= k < m :: Sum(lengths, k) < protectedBits
    ensures var p := PlaceOf(lengths, totalBits, protectedBits, i);
      && p.length == lengths[i]
      && (i < m ==> p == Placement(Sum(lengths, i), lengths[i], Forward))
      && (i == m ==> p == Placement(totalBits - lengths[i], lengths[i], Reverse))
      && (i == m + 1 ==> p == Placement(Sum(lengths, m), lengths[i], Forward))
    ensures i >= m + 2 ==> (
      var p, q := PlaceOf(lengths, totalBits, protectedBits, i), PlaceOf(lengths, totalBits, protectedBits, i - 2);
      && p.dir == q.dir
      && if p.dir == Reverse then p.start + lengths[i] == q.start else p.start == q.start + lengths[i - 2])
  {
    if i < m {
      FrontFirst(lengths, totalBits, protectedBits, i);
    } else {
      FrontFirst(lengths, totalBits, protectedBits, m);
      TakeTurns(lengths, totalBits, protectedBits, m, i);
      if i > m { TakeTurns(lengths, totalBits, protectedBits, m, i - 1); }
      if i > m + 1 { TakeTurns(lengths, totalBits, protectedBits, m, i - 2); }
      hide Sum;
    }
  }

  // ---------------------------------------------------------------- soundness

  predicate Disjoint(p: Placement, q: Placement) {
    p.start + p.length <= q.start || q.start + q.length <= p.start
  }

  /** Inside the frame and outside the free middle. */
  predicate Outside(p: Placement, e: Ends, totalBits: int) {
    (0 <= p.start && p.start + p.length <= e.fwd) || (e.rev <= p.start && p.start + p.length <= totalBits)
  }

  /** What has been placed stays clear of the free middle. */
  lemma {:induction false} PlacedOutside(lengths: seq<int>, totalBits: int, protectedBits: int, i: nat, j: nat)
    requires i < j <= |lengths| && forall k | 0 <= k < |lengths| :: lengths[k] >= 0
    ensures Outside(PlaceOf(lengths, totalBits, protectedBits, i), After(lengths, totalBits, protectedBits, j), totalBits)
  {
    EndsInFrame(lengths, totalBits, protectedBits, j - 1);
    if i < j - 1 { PlacedOutside(lengths, totalBits, protectedBits, i, j - 1); }
  }

  lemma {:induction false} EndsInFrame(lengths: seq<int>, totalBits: int, protectedBits: int, i: nat)
    requires i <= |lengths| && forall k | 0 <= k < |lengths| :: lengths[k] >= 0
    ensures var e := After(lengths, totalBits, protectedBits, i); 0 <= e.fwd && e.rev <= totalBits
  {
    if i > 0 { EndsInFrame(lengths, totalBits, protectedBits, i - 1); }
  }

  /** A successful placement keeps every code in the frame and all codes apart. */
  lemma PlacementIsSound(lengths: seq<int>, totalBits: int, protectedBits: int, i: nat, j: nat)
    requires forall k | 0 <= k < |lengths| :: lengths[k] >= 0
    requires !Overflows(lengths, totalBits) && i < |lengths| && j < |lengths|
    ensures var p := PlaceOf(lengths, totalBits, protectedBits, i);
      p.length == lengths[i] && 0 <= p.start && p.start + p.length <= totalBits
    ensures i != j ==> Disjoint(PlaceOf(lengths, totalBits, protectedBits, i), PlaceOf(lengths, totalBits, protectedBits, j))
  {
    hide After, Sum;
    var n := |lengths|;
    PlacedOutside(lengths, totalBits, protectedBits, i, n);
    MiddleShrinks(lengths, totalBits, protectedBits, n);
    EndsInFrame(lengths, totalBits, protectedBits, n);
    assert Sum(lengths, n) <= totalBits;
    if i < j {
      Apart(lengths, totalBits, protectedBits, i, j);
    } else if j < i {
      Apart(lengths, totalBits, protectedBits, j, i);
    }
  }

  lemma Apart(lengths: seq<int>, totalBits: int, protectedBits: int, i: nat, j: nat)
    requires forall k | 0 <= k < |lengths| :: lengths[k] >= 0
    requires !Overflows(lengths, totalBits) && i < j < |lengths|
    ensures Disjoint(PlaceOf(lengths, totalBits, protectedBits, i), PlaceOf(lengths, totalBits, protectedBits, j))
  {
    hide Sum;
    PlacedOutside(lengths, totalBits, protectedBits, i, j);
    MiddleShrinks(lengths, totalBits, protectedBits, j + 1);
    assert Sum(lengths, j + 1) <= totalBits;
  }

  // ---------------------------------------------------------------- multiplexing

  function Lengths(codes: seq<seq<nat>>): (r: seq<int>)
    ensures |r| == |codes| && forall i | 0 <= i < |r| :: r[i] == |codes[i]|
  {
    seq(|codes|, i requires 0 <= i < |codes| => |codes[i]|)
  }

  /** Bits of a frame at a placement. */
  function Bits(frame: seq<nat>, p: Placement): seq<nat>
    requires 0 <= p.start && 0 <= p.length && p.start + p.length <= |frame|
  {
    frame[p.start..p.start + p.length]
  }

  /** Writes a code at its place and nowhere else. */
  method CopyTo(frame: array<nat>, start: nat, code: seq<nat>)
    requires start + |code| <= frame.Length
    modifies frame
    ensures forall k | 0 <= k < frame.Length ::
      frame[k] == if start <= k < start + |code| then code[k - start] else old(frame[k])
  {
    var j := 0;
    while j < |code|
      invariant 0 <= j <= |code|
      invariant forall k | 0 <= k < frame.Length ::
        frame[k] == if start <= k < start + j then code[k - start] else old(frame[k])
    {
      frame[start + j] := code[j];
      j := j + 1;
    }
  }

  /** The frame carries code `i` at its place. */
  ghost predicate CarriesAt(frame: seq<nat>, codes: seq<seq<nat>>, totalBits: int, protectedBits: int, i: int)
    requires 0 <= i < |codes|
  {
    var p := PlaceOf(Lengths(codes), totalBits, protectedBits, i);
    0 <= p.start && p.length == |codes[i]| && p.start + p.length <= |frame| && Bits(frame, p) == codes[i]
  }

  ghost predicate Carries(frame: seq<nat>, codes: seq<seq<nat>>, totalBits: int, protectedBits: int) {
    && |frame| == totalBits
    && forall i | 0 <= i < |codes| :: CarriesAt(frame, codes, totalBits, protectedBits, i)
  }

  /** Position `k` belongs to one of the first `n` codes. */
  ghost predicate Used(codes: seq<seq<nat>>, totalBits: int, protectedBits: int, n: nat, k: int)
    requires n <= |codes|
  {
    exists i :: 0 <= i < n && Inside(PlaceOf(Lengths(codes), totalBits, protectedBits, i), k)
  }

  predicate Inside(p: Placement, k: int) { p.start <= k < p.start + p.length }

  method AdaptiveMultiplex(codes: seq<seq<nat>>, totalBits: nat, protectedBits: int) returns (r: Result<seq<nat>>)
    ensures r.TooLong? <==> Sum(Lengths(codes), |codes|) > totalBits
    ensures r.Ok? ==> Carries(r.value, codes, totalBits, protectedBits)
    ensures r.Ok? ==> forall k | 0 <= k < totalBits :: Used(codes, totalBits, protectedBits, |codes|, k) || r.value[k] == 0
  {
    hide PlaceOf, Overflows, Sum;
    var lengths := Lengths(codes);
    OverflowIsSum(lengths, totalBits);
    NoLengths(lengths);
    var places := AdaptivePlacement(lengths, totalBits, protectedBits);
    if places.TooLong? { return TooLong; }
    var frame := new nat[totalBits](_ => 0);
    var i := 0;
    while i < |codes|
      invariant 0 <= i <= |codes|
      invariant forall j | 0 <= j < i :: CarriesAt(frame[..], codes, totalBits, protectedBits, j)
      invariant forall k | 0 <= k < totalBits :: Used(codes, totalBits, protectedBits, i, k) || frame[k] == 0
    {
      PlacementIsSound(lengths, totalBits, protectedBits, i, i);
      ghost var before := frame[..];
      var p := places.value[i];
      CopyTo(frame, p.start, codes[i]);
      forall j | 0 <= j < i + 1
        ensures CarriesAt(frame[..], codes, totalBits, protectedBits, j)
      {
        PlacementIsSound(lengths, totalBits, protectedBits, j, i);
        KeepsOther(before, frame[..], codes, totalBits, protectedBits, i, j);
      }
      forall k | 0 <= k < totalBits
        ensures Used(codes, totalBits, protectedBits, i + 1, k) || frame[k] == 0
      {
        assert Used(codes, totalBits, protectedBits, i, k) || before[k] == 0;
        assert Inside(p, k) || frame[k] == before[k];
      }
      i := i + 1;
    }
    r := Ok(frame[..]);
  }

  lemma NoLengths(lengths: seq<int>)
    ensures lengths == [] ==> Sum(lengths, |lengths|) == 0
  {
  }

  /** Copying code `i` carries it and leaves the others alone. */
  lemma KeepsOther(before: seq<nat>, frame: seq<nat>, codes: seq<seq<nat>>, totalBits: int, protectedBits: int, i: nat, j: nat)
    requires i < |codes| && j <= i && |before| == |frame| == totalBits
    requires var p := PlaceOf(Lengths(codes), totalBits, protectedBits, i);
      && 0 <= p.start && p.length == |codes[i]| && p.start + p.length <= totalBits
      && forall k | 0 <= k < totalBits ::
           frame[k] == if p.start <= k < p.start + |codes[i]| then codes[i][k - p.start] else before[k]
    requires j < i ==> CarriesAt(before, codes, totalBits, protectedBits, j)
    requires j < i ==> Disjoint(PlaceOf(Lengths(codes), totalBits, protectedBits, j), PlaceOf(Lengths(codes), totalBits, protectedBits, i))
    ensures CarriesAt(frame, codes, totalBits, protectedBits, j)
  {
    hide PlaceOf;
    var q := PlaceOf(Lengths(codes), totalBits, protectedBits, j);
    if j == i {
      assert Bits(frame, q) == codes[i];
    } else {
      forall k | 0 <= k < q.length
        ensures Bits(frame, q)[k] == Bits(before, q)[k]
      {
        assert frame[q.start + k] == before[q.start + k];
      }
    }
  }

  /** The pieces of a frame, by the same placement. */
  method AdaptiveSeparate(frame: seq<nat>, lengths: seq<int>, totalBits: nat, protectedBits: int)
    returns (r: Result<seq<seq<nat>>>)
    requires |frame| >= totalBits && forall k | 0 <= k < |lengths| :: lengths[k] >= 0
    ensures r.TooLong? <==> Sum(lengths, |lengths|) > totalBits
    ensures r.Ok? ==> |r.value| == |lengths| && forall i | 0 <= i < |lengths| ::
        var p := PlaceOf(lengths, totalBits, protectedBits, i);
        0 <= p.start && 0 <= p.length && p.start + p.length <= |frame| && r.value[i] == Bits(frame, p)
    ensures forall codes | Lengths(codes) == lengths && |frame| == totalBits && r.Ok? && Carries(frame, codes, totalBits, protectedBits)
              :: r.value == codes
  {
    hide PlaceOf, Overflows, Sum;
    OverflowIsSum(lengths, totalBits);
    NoLengths(lengths);
    var places := AdaptivePlacement(lengths, totalBits, protectedBits);
    if places.TooLong? { return TooLong; }
    var out: seq<seq<nat>> := [];
    var i := 0;
    while i < |lengths|
      invariant 0 <= i <= |lengths| && |out| == i
      invariant forall j | 0 <= j < i ::
        var p := PlaceOf(lengths, totalBits, protectedBits, j);
        0 <= p.start && 0 <= p.length && p.start + p.length <= |frame| && out[j] == Bits(frame, p)
    {
      PlacementIsSound(lengths, totalBits, protectedBits, i, i);
      var p := places.value[i];
      out := out + [frame[p.start..p.start + p.length]];
      i := i + 1;
    }
    r := Ok(out);
    forall codes | Lengths(codes) == lengths && |frame| == totalBits && Carries(frame, codes, totalBits, protectedBits)
      ensures out == codes
    {
      assert |codes| == |lengths|;
      forall j | 0 <= j < |codes|
        ensures out[j] == codes[j]
      {
        assert CarriesAt(frame, codes, totalBits, protectedBits, j);
      }
    }
  }

  function Concat(codes: seq<seq<nat>>): seq<nat> {
    if codes == [] then [] else Concat(codes[..|codes| - 1]) + codes[|codes| - 1]
  }

  /** The codes one after the other. */
  method ToStandardOrder(frame: seq<nat>, lengths: seq<int>, totalBits: nat, protectedBits: int) returns (r: Result<seq<nat>>)
    requires |frame| >= totalBits && forall k | 0 <= k < |lengths| :: lengths[k] >= 0
    ensures r.TooLong? <==> Sum(lengths, |lengths|) > totalBits
    ensures forall codes | Lengths(codes) == lengths && |frame| == totalBits && r.Ok? && Carries(frame, codes, totalBits, protectedBits)
              :: r.value == Concat(codes)
  {
    hide Carries, Sum, PlaceOf, Lengths;
    var parts := AdaptiveSeparate(frame, lengths, totalBits, protectedBits);
    if parts.TooLong? { return TooLong; }
    var out: seq<nat> := [];
    var i := 0;
    while i < |parts.value|
      invariant 0 <= i <= |parts.value| && out == Concat(parts.value[..i])
    {
      assert parts.value[..i + 1][..i] == parts.value[..i];
      out := out + parts.value[i];
      i := i + 1;
    }
    assert parts.value[..i] == parts.value;
    r := Ok(out);
  }

  /** Separation undoes multiplexing, and the standard order is the concatenation, whenever the codes fit. */
  method RoundTrip(codes: seq<seq<nat>>, totalBits: nat, protectedBits: int) returns (parts: seq<seq<nat>>, standard: seq<nat>)
    requires Sum(Lengths(codes), |codes|) <= totalBits
    ensures parts == codes && standard == Concat(codes)
  {
    hide Carries, PlaceOf, Sum;
    var frame := AdaptiveMultiplex(codes, totalBits, protectedBits);
    FrameLength(frame.value, codes, totalBits, protectedBits);
    var p := AdaptiveSeparate(frame.value, Lengths(codes), totalBits, protectedBits);
    var s := ToStandardOrder(frame.value, Lengths(codes), totalBits, protectedBits);
    parts, standard := p.value, s.value;
  }

  lemma FrameLength(frame: seq<nat>, codes: seq<seq<nat>>, totalBits: int, protectedBits: int)
    requires Carries(frame, codes, totalBits, protectedBits)
    ensures |frame| == totalBits
  {
    hide PlaceOf;
  }
}
