/** The four direct and inverse queries: RV precision and SNR at a given
    exposure time, and the exposure time that reaches a target RV precision
    or SNR. */
module Queries {
  import opened Axes
  import opened GridModel
  import opened Bounds
  import opened Orders
  import opened Solver

  /** The RV-precision grid a query reads: the whole-detector grid, or the
      grid of the order with identifier `order`; None when no order has it. */
  function RVGrid(g: GridData, useOrder: bool, order: real): (r: Option<Interp>)
    requires g.Valid()
    ensures !useOrder ==> r == Some(g.rvMaster)
    ensures useOrder ==> (r.None? <==> forall i :: 0 <= i < |g.orderIds| ==> g.orderIds[i] != order)
    ensures useOrder && r.Some? ==>
              exists k :: 0 <= k < |g.rvOrders| && g.orderIds[k] == order && r == Some(g.rvOrders[k]) &&
                          forall i :: 0 <= i < k ==> g.orderIds[i] != order
  {
    if !useOrder then Some(g.rvMaster)
    else
      match OrderById(g.orderIds, order)
      case None => None
      case Some(k) => Some(g.rvOrders[k])
  }

  /** The SNR grid of the first order whose centre is within the tolerance
      of `wavelength`; None when there is none. */
  function SNRGrid(g: GridData, wavelength: real): (r: Option<Interp>)
    requires g.Valid()
    ensures r.None? <==> forall i :: 0 <= i < |g.wavelengths| ==> !NearWavelength(g.wavelengths[i], wavelength)
    ensures r.Some? ==>
              exists k :: 0 <= k < |g.snrOrders| && NearWavelength(g.wavelengths[k], wavelength) &&
                          r == Some(g.snrOrders[k]) &&
                          forall i :: 0 <= i < k ==> !NearWavelength(g.wavelengths[i], wavelength)
  {
    match OrderByWavelength(g.wavelengths, wavelength)
    case None => None
    case Some(k) => Some(g.snrOrders[k])
  }

  /** RV precision at the given exposure time. */
  method RVPrecision(g: GridData, teff: real, vmag: real, exptime: real, useOrder: bool, order: real)
    returns (r: QueryResult<real>)
    requires g.Valid()
    ensures r.Undefined? <==> !InDomain(g, teff, vmag, Some(exptime))
    ensures r.Raised? <==> InDomain(g, teff, vmag, Some(exptime)) && RVGrid(g, useOrder, order).None?
    ensures r.Raised? ==> r.fault == OrderNotFound
    ensures r.Value? ==> RVGrid(g, useOrder, order).Some? &&
                         r.v == RVGrid(g, useOrder, order).value(teff, vmag, exptime)
  {
    var boundTest, _ := ValidateBounds(g, teff, vmag, Some(exptime));
    if !boundTest {
      return Undefined;
    }
    var grid: Interp;
    if useOrder {
      var loc := OrderById(g.orderIds, order);
      if loc.None? {
        return Raised(OrderNotFound);
      }
      grid := g.rvOrders[loc.value];
    } else {
      grid := g.rvMaster;
    }
    r := Value(grid(teff, vmag, exptime));
  }

  /** The shortest candidate exposure time reaching RV precision `target`.
      Only temperature and magnitude are checked against the grids. */
  method ExptimeForRV(g: GridData, teff: real, vmag: real, target: real, useOrder: bool, order: real)
    returns (r: QueryResult<int>)
    requires g.Valid()
    ensures !InDomain(g, teff, vmag, None) ==> r.Undefined?
    ensures InDomain(g, teff, vmag, None) && RVGrid(g, useOrder, order).None? ==> r == Raised(OrderNotFound)
    ensures InDomain(g, teff, vmag, None) && RVGrid(g, useOrder, order).Some? ==>
              Answers(r, RVGrid(g, useOrder, order).value, teff, vmag, AtMost(target), g.MaxExptime())
  {
    var boundTest, _ := ValidateBounds(g, teff, vmag, None);
    if !boundTest {
      return Undefined;
    }
    var grid: Interp;
    if useOrder {
      var loc := OrderById(g.orderIds, order);
      if loc.None? {
        return Raised(OrderNotFound);
      }
      grid := g.rvOrders[loc.value];
    } else {
      grid := g.rvMaster;
    }
    r := Search(grid, teff, vmag, AtMost(target), Max(g.exptimeAxis));
  }

  /** SNR at the given exposure time, in the first order whose centre is
      within 0.1 nm of `wavelength`. */
  method SNR(g: GridData, teff: real, vmag: real, exptime: real, wavelength: real)
    returns (r: QueryResult<real>)
    requires g.Valid()
    ensures r.Undefined? <==> !InDomain(g, teff, vmag, Some(exptime))
    ensures r.Raised? <==> InDomain(g, teff, vmag, Some(exptime)) && SNRGrid(g, wavelength).None?
    ensures r.Raised? ==> r.fault == OrderNotFound
    ensures r.Value? ==> SNRGrid(g, wavelength).Some? &&
                         r.v == SNRGrid(g, wavelength).value(teff, vmag, exptime)
  {
    var boundTest, _ := ValidateBounds(g, teff, vmag, Some(exptime));
    if !boundTest {
      return Undefined;
    }
    var loc := OrderByWavelength(g.wavelengths, wavelength);
    if loc.None? {
      return Raised(OrderNotFound);
    }
    var grid := g.snrOrders[loc.value];
    r := Value(grid(teff, vmag, exptime));
  }

  /** The shortest candidate exposure time reaching SNR `target` in the
      first order whose centre is within 0.1 nm of `wavelength`. Only
      temperature and magnitude are checked
      against the grids. */
  method ExptimeForSNR(g: GridData, teff: real, vmag: real, target: real, wavelength: real)
    returns (r: QueryResult<int>)
    requires g.Valid()
    ensures !InDomain(g, teff, vmag, None) ==> r.Undefined?
    ensures InDomain(g, teff, vmag, None) && SNRGrid(g, wavelength).None? ==> r == Raised(OrderNotFound)
    ensures InDomain(g, teff, vmag, None) && SNRGrid(g, wavelength).Some? ==>
              Answers(r, SNRGrid(g, wavelength).value, teff, vmag, AtLeast(target), g.MaxExptime())
  {
    var boundTest, _ := ValidateBounds(g, teff, vmag, None);
    if !boundTest {
      return Undefined;
    }
    var loc := OrderByWavelength(g.wavelengths, wavelength);
    if loc.None? {
      return Raised(OrderNotFound);
    }
    var grid := g.snrOrders[loc.value];
    r := Search(grid, teff, vmag, AtLeast(target), Max(g.exptimeAxis));
  }
}
