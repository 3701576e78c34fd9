/**
  Complex baseband samples; rounding of the machine formats is not modelled.
  */
module Samples {

  datatype Sample = Sample(re: real, im: real)

  const ZERO := Sample(0.0, 0.0)

  function Add(a: Sample, b: Sample): Sample { Sample(a.re + b.re, a.im + b.im) }

  function Scale(t: real, a: Sample): Sample { Sample(t * a.re, t * a.im) }

  /** Sample `i` of a stream that is silent before its start and after its end. */
  function At(s: seq<Sample>, i: int): Sample { if 0 <= i < |s| then s[i] else ZERO }
}
