/** The maximum recommended exposure time: probe every order's SNR, take
    the order closest to (or furthest past) its saturation soft limit, and
    solve for the exposure time at which that order reaches its limit. */
module Advisor {
  import opened Axes
  import opened GridModel
  import opened Bounds
  import opened Orders
  import opened Solver
  import opened Queries

  /** The advisory result reported when the binding order never reaches its
      soft limit within the tabulated exposure times (s). */
  const Ceiling: real := 3600.0

  /** OutOfDomain is the not-a-number of the bounds checks; the other two
      tell a solved exposure time from the fixed ceiling. */
  datatype Advice = OutOfDomain | Solved(seconds: int) | Capped

  /** The exposure time an advice reports to callers (s); None stands for
      the not-a-number of a failed bounds check. */
  function AdvisedExptime(a: Advice): Option<real>
  {
    match a
    case OutOfDomain => None
    case Solved(t) => Some(t as real)
    case Capped => Some(Ceiling)
  }

  /** The index of the largest element, the lowest one on ties (numpy's `argmax`). */
  function ArgMax(s: seq<real>): (k: nat)
    requires |s| > 0
    ensures k < |s|
    ensures forall i :: 0 <= i < |s| ==> s[i] <= s[k]
    ensures forall i :: 0 <= i < k ==> s[i] < s[k]
  {
    if |s| == 1 then 0
    else
      var k := ArgMax(s[..|s| - 1]);
      if s[|s| - 1] > s[k] then |s| - 1 else k
  }

  /** The soft limit of every order is positive, one per SNR grid. */
  predicate LimitsFit(g: GridData, softLimits: seq<real>)
  {
    |softLimits| == |g.snrOrders| && forall o :: 0 <= o < |softLimits| ==> softLimits[o] > 0.0
  }

  /** Every order's interpolated SNR at the probe point. */
  function ProbeSNR(g: GridData, teff: real, vmag: real, exptime: real): (snr: seq<real>)
    ensures |snr| == |g.snrOrders|
    ensures forall o :: 0 <= o < |snr| ==> snr[o] == g.snrOrders[o](teff, vmag, exptime)
  {
    seq(|g.snrOrders|, o requires 0 <= o < |g.snrOrders| => g.snrOrders[o](teff, vmag, exptime))
  }

  /** Each order's SNR as a fraction of its soft limit. */
  function Ratios(snr: seq<real>, softLimits: seq<real>): (r: seq<real>)
    requires |snr| == |softLimits|
    requires forall o :: 0 <= o < |softLimits| ==> softLimits[o] > 0.0
    ensures |r| == |snr|
    ensures forall o :: 0 <= o < |r| ==> r[o] * softLimits[o] == snr[o]
    ensures forall o :: 0 <= o < |r| ==> (r[o] >= 1.0 <==> snr[o] >= softLimits[o])
  {
    seq(|snr|, o requires 0 <= o < |snr| => snr[o] / softLimits[o])
  }

  /** The binding order: the lowest-index order whose probe SNR is the
      largest fraction of its soft limit. */
  function BindingOrder(g: GridData, softLimits: seq<real>, teff: real, vmag: real, exptime: real): (p: nat)
    requires |g.snrOrders| > 0 && LimitsFit(g, softLimits)
    ensures p < |g.snrOrders|
    ensures forall o :: 0 <= o < |g.snrOrders| ==>
              g.snrOrders[o](teff, vmag, exptime) / softLimits[o] <= g.snrOrders[p](teff, vmag, exptime) / softLimits[p]
    ensures forall o :: 0 <= o < p ==>
              g.snrOrders[o](teff, vmag, exptime) / softLimits[o] < g.snrOrders[p](teff, vmag, exptime) / softLimits[p]
  {
    var ratios := Ratios(ProbeSNR(g, teff, vmag, exptime), softLimits);
    var p := ArgMax(ratios);
    assert forall o :: 0 <= o < |g.snrOrders| ==> ratios[o] == g.snrOrders[o](teff, vmag, exptime) / softLimits[o];
    p
  }

  /** The maximum recommended exposure time for a target, probing every
      order at exposure time `exptime` (60 s, the default of
      `NEID_max_exptime`, for every caller in the web layer). */
  method MaxExptime(g: GridData, softLimits: seq<real>, teff: real, vmag: real, exptime: real)
    returns (r: Advice)
    requires g.Valid() && |g.snrOrders| > 0 && LimitsFit(g, softLimits)
    ensures r.OutOfDomain? <==> !InDomain(g, teff, vmag, Some(exptime))
    ensures !r.OutOfDomain? ==>
              var p := BindingOrder(g, softLimits, teff, vmag, exptime);
              var k := OrderOfCentre(g.wavelengths, p);
              var goal := AtLeast(softLimits[p]);
              (r.Solved? ==> FirstReached(g.snrOrders[k], teff, vmag, goal, g.MaxExptime(), r.seconds)) &&
              (r.Capped? <==> NoneReached(g.snrOrders[k], teff, vmag, goal, g.MaxExptime()))
    ensures AdvisedExptime(r).None? <==> !InDomain(g, teff, vmag, Some(exptime))
    ensures r.Solved? ==> AdvisedExptime(r) == Some(r.seconds as real) && 12 <= r.seconds && r.seconds as real <= g.MaxExptime()
    ensures r.Capped? ==> AdvisedExptime(r) == Some(3600.0)
  {
    var boundTest, _ := ValidateBounds(g, teff, vmag, Some(exptime));
    if !boundTest {
      return OutOfDomain;
    }
    var n := |g.snrOrders|;
    var snr := new real[n];
    for o := 0 to n
      invariant forall i :: 0 <= i < o ==> snr[i] == g.snrOrders[i](teff, vmag, exptime)
    {
      snr[o] := g.snrOrders[o](teff, vmag, exptime);
    }
    assert snr[..] == ProbeSNR(g, teff, vmag, exptime);
    var peak := ArgMax(Ratios(snr[..], softLimits));
    assert peak == BindingOrder(g, softLimits, teff, vmag, exptime);
    var wvl := g.wavelengths[peak];
    var threshold := softLimits[peak];
    var maxExp := ExptimeForSNR(g, teff, vmag, threshold, wvl);
    ghost var k := OrderOfCentre(g.wavelengths, peak);
    assert SNRGrid(g, wvl) == Some(g.snrOrders[k]);
    if maxExp.Value? {
      r := Solved(maxExp.v);
    } else {
      r := Capped;
    }
  }
}
