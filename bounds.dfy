/** Bounds validation: the block of independent checks that opens every query. */
module Bounds {
  import opened Axes
  import opened GridModel

  /** The axes a request can fall outside of, in the order they are checked. */
  datatype AxisName = Temperature | Magnitude | ExposureTime

  function Rank(a: AxisName): nat
  {
    match a
    case Temperature => 0
    case Magnitude => 1
    case ExposureTime => 2
  }

  /** The request lies inside the grids. `exptime` is None for the inverse
      queries, where the exposure time is the unknown and is not checked. */
  predicate InDomain(g: GridData, teff: real, vmag: real, exptime: Option<real>)
    requires g.Valid()
  {
    InAxis(g.teffAxis, teff) && InAxis(g.vmagAxis, vmag) &&
    (exptime.Some? ==> InAxis(g.exptimeAxis, exptime.value))
  }

  /** Runs each check in turn, clearing `boundTest` on every failure and
      reporting the failed axis; a failure does not stop the later checks. */
  method ValidateBounds(g: GridData, teff: real, vmag: real, exptime: Option<real>)
    returns (boundTest: bool, failed: seq<AxisName>)
    requires g.Valid()
    ensures boundTest <==> InDomain(g, teff, vmag, exptime)
    ensures boundTest <==> failed == []
    ensures Temperature in failed <==> !InAxis(g.teffAxis, teff)
    ensures Magnitude in failed <==> !InAxis(g.vmagAxis, vmag)
    ensures ExposureTime in failed <==> exptime.Some? && !InAxis(g.exptimeAxis, exptime.value)
    ensures forall i, j :: 0 <= i < j < |failed| ==> Rank(failed[i]) < Rank(failed[j])
  {
    boundTest := true;
    failed := [];
    if teff < Min(g.teffAxis) || teff > Max(g.teffAxis) {
      failed := failed + [Temperature];
      boundTest := false;
    }
    if vmag < Min(g.vmagAxis) || vmag > Max(g.vmagAxis) {
      failed := failed + [Magnitude];
      boundTest := false;
    }
    if exptime.Some? {
      var t := exptime.value;
      if t < Min(g.exptimeAxis) || t > Max(g.exptimeAxis) {
        failed := failed + [ExposureTime];
        boundTest := false;
      }
    }
  }
}
