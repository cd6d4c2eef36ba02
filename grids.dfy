/** The data the engine reads: the three axes, the performance grids and the
    order table. Loading them from files is outside the model; each grid is
    represented by its interpolator. */
module GridModel {
  import opened Axes

  datatype Option<T> = None | Some(value: T)

  /** The interpolated value of one performance grid at a physical point
      (effective temperature, magnitude, exposure time): the spline mapping
      from physical value to fractional index (through log10 for exposure
      time) followed by regular-grid interpolation. */
  type Interp = (real, real, real) -> real

  datatype GridData = GridData(
    exptimeAxis: seq<real>,   // exposure-time samples (s)
    teffAxis: seq<real>,      // effective-temperature samples (K)
    vmagAxis: seq<real>,      // V-band magnitude samples
    rvMaster: Interp,         // whole-detector RV precision
    rvOrders: seq<Interp>,    // RV precision per order
    orderIds: seq<real>,      // order identifiers (first row of the order table)
    wavelengths: seq<real>,   // order centre wavelengths in nm (second row)
    snrOrders: seq<Interp>    // SNR per order
  ) {
    /** Every axis has a minimum and a maximum, and the rows of the order
        table and the per-order grid sets describe the same orders. */
    predicate Valid()
    {
      |exptimeAxis| > 0 && |teffAxis| > 0 && |vmagAxis| > 0 &&
      |orderIds| == |wavelengths| == |rvOrders| == |snrOrders|
    }

    /** The longest tabulated exposure time, the inverse solvers' ceiling. */
    function MaxExptime(): real
      requires Valid()
    {
      Max(exptimeAxis)
    }
  }

  /** Conditions under which the Python queries raise instead of returning. */
  datatype Fault =
    | OrderNotFound    // no order matches: `np.where(...)[0][0]` finds nothing
    | ExptimeUnbound   // the search loop never ran, so no exposure time was assigned

  /** The outcome of a query: a value, the not-a-number sentinel, or a fault. */
  datatype QueryResult<T> = Value(v: T) | Undefined | Raised(fault: Fault)
}
