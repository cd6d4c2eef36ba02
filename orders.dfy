/** Order lookup: the first row of the order table that satisfies a test. */
module Orders {
  import opened GridModel

  /** The wavelength tolerance, in nm, of the lookup by wavelength. */
  const Tolerance: real := 0.1

  /** The index of the first element satisfying `p` (numpy's
      `where(...)[0][0]`), or None where that lookup would raise. */
  function FirstMatch(s: seq<real>, p: real -> bool): (r: Option<nat>)
    ensures r.Some? ==> r.value < |s| && p(s[r.value])
    ensures r.Some? ==> forall i :: 0 <= i < r.value ==> !p(s[i])
    ensures r.None? <==> forall i :: 0 <= i < |s| ==> !p(s[i])
  {
    if |s| == 0 then None
    else if p(s[0]) then Some(0)
    else
      match FirstMatch(s[1..], p)
      case None => None
      case Some(k) => Some(k + 1)
  }

  function Distance(a: real, b: real): real
  {
    if a >= b then a - b else b - a
  }

  /** An order centre matches a requested wavelength when it lies strictly
      closer than the tolerance. */
  predicate NearWavelength(centre: real, wavelength: real)
  {
    Distance(centre, wavelength) < Tolerance
  }

  /** The first order whose centre lies within the tolerance of `wavelength`. */
  function OrderByWavelength(centres: seq<real>, wavelength: real): (r: Option<nat>)
    ensures r.Some? ==> r.value < |centres| && NearWavelength(centres[r.value], wavelength)
    ensures r.Some? ==> forall i :: 0 <= i < r.value ==> !NearWavelength(centres[i], wavelength)
    ensures r.None? <==> forall i :: 0 <= i < |centres| ==> !NearWavelength(centres[i], wavelength)
  {
    FirstMatch(centres, c => NearWavelength(c, wavelength))
  }

  /** The first order whose identifier equals `order` exactly. */
  function OrderById(ids: seq<real>, order: real): (r: Option<nat>)
    ensures r.Some? ==> r.value < |ids| && ids[r.value] == order
    ensures r.Some? ==> forall i :: 0 <= i < r.value ==> ids[i] != order
    ensures r.None? <==> forall i :: 0 <= i < |ids| ==> ids[i] != order
  {
    FirstMatch(ids, x => x == order)
  }

  /** A wavelength within the tolerance of some tabulated centre always
      resolves, to that order or to an earlier one that is also within the
      tolerance; it resolves to that very order exactly when no earlier
      centre is within the tolerance. */
  lemma ResolvesNearby(centres: seq<real>, k: nat, wavelength: real)
    requires k < |centres| && NearWavelength(centres[k], wavelength)
    ensures OrderByWavelength(centres, wavelength).Some?
    ensures OrderByWavelength(centres, wavelength).value <= k
    ensures OrderByWavelength(centres, wavelength) == Some(k) <==>
              forall i :: 0 <= i < k ==> !NearWavelength(centres[i], wavelength)
  {
  }

  /** Looking up the wavelength of tabulated order `p` resolves to an order
      at or before `p`, and to `p` itself exactly when no earlier centre lies
      within the tolerance of it. */
  function OrderOfCentre(centres: seq<real>, p: nat): (k: nat)
    requires p < |centres|
    ensures OrderByWavelength(centres, centres[p]) == Some(k)
    ensures k <= p && NearWavelength(centres[k], centres[p])
    ensures k == p <==> forall i :: 0 <= i < p ==> !NearWavelength(centres[i], centres[p])
  {
    ResolvesNearby(centres, p, centres[p]);
    OrderByWavelength(centres, centres[p]).value
  }
}
