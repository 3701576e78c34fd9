/**
  Rounding to the nearest integer, ties to even, as the burst timing code does it
  (`roundHalfEven` in internal/std-t86/scodec/conceal.go and
  internal/std-t86/decoder/voice.go).
  */
module Rounding {

  /** Conversion to an integer, toward zero. */
  function Trunc(x: real): int { if x < 0.0 then -((-x).Floor) else x.Floor }

  /** `r` is a nearest integer to `x`; of two nearest ones the even one. */
  predicate IsNearest(x: real, r: int) {
    var e := r as real - x;
    -0.5 <= e <= 0.5 && (e == 0.5 || e == -0.5 ==> r % 2 == 0)
  }

  function RoundHalfEven(x: real): (r: int)
    ensures IsNearest(x, r)
  {
    var t := Trunc(x);
    var i := if x < 0.0 && x != t as real then t - 1 else t;
    var d := x - i as real;
    if d > 0.5 then i + 1
    else if d < 0.5 then i
    else if i % 2 == 0 then i
    else i + 1
  }

  /** No other integer meets the specification. */
  lemma NearestUnique(x: real, r: int, s: int)
    requires IsNearest(x, r) && IsNearest(x, s)
    ensures r == s
  {
    var e := r as real - s as real;
    assert -1.0 <= e <= 1.0;
    assert -1 <= r - s <= 1;
  }
}
