/** A grid axis: the sample points of one physical dimension (temperature,
    magnitude or exposure time), read from the grid files as a vector of reals.
    The queries only ever use its smallest and largest value. */
module Axes {

  /** The smallest sample of an axis (numpy's `min`). */
  function Min(s: seq<real>): (m: real)
    requires |s| > 0
    ensures m in s
    ensures forall i :: 0 <= i < |s| ==> m <= s[i]
  {
    if |s| == 1 then s[0]
    else
      var rest := Min(s[1..]);
      if s[0] <= rest then s[0] else rest
  }

  /** The largest sample of an axis (numpy's `max`). */
  function Max(s: seq<real>): (m: real)
    requires |s| > 0
    ensures m in s
    ensures forall i :: 0 <= i < |s| ==> s[i] <= m
  {
    if |s| == 1 then s[0]
    else
      var rest := Max(s[1..]);
      if s[0] >= rest then s[0] else rest
  }

  /** The bounds test the queries apply: out of range means strictly below the
      minimum or strictly above the maximum, so both end points pass. */
  function InAxis(axis: seq<real>, x: real): (b: bool)
    requires |axis| > 0
    ensures b <==> Min(axis) <= x <= Max(axis)
    ensures x in axis ==> b
  {
    !(x < Min(axis) || x > Max(axis))
  }
}
