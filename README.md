# NEID exposure-time calculator: query logic

A Dafny model of the query engine of the NEID spectrograph exposure-time
calculator (`neid_etcalc_public.py`). The engine answers five questions for a
star of given effective temperature and V magnitude: the RV precision or the
SNR reached at a given exposure time, the exposure time needed to reach a
target RV precision or SNR, and the maximum recommended exposure time before
the most exposed spectral order reaches its saturation soft limit.

The model covers the discrete control logic of those queries:

- **Bounds validation** (`Bounds`): the independent checks of temperature,
  magnitude and, for direct queries, exposure time against the inclusive
  `[min, max]` of their axes. The checks that fail are reported in order.
- **Order lookup** (`Orders`): the first order whose centre wavelength is
  strictly within 0.1 nm of the request, or the first order whose identifier
  equals the request. A failed lookup, where the Python code raises on `np.where(...)[0][0]`,
  is an explicit `OrderNotFound` fault.
- **Inverse search** (`Solver`): the scan over the candidates `2*(j+6)` =
  12, 14, 16, … s. It stops at the first candidate whose interpolated value
  meets the target and is undefined once a candidate exceeds the longest
  tabulated exposure time. When the loop's seed (1e10 for RV, 0 for SNR)
  already meets the target, the loop never runs and `NEID_exptime_RV` or
  `NEID_exptime_SNR` raises on an unassigned variable. This is the `ExptimeUnbound` fault.
- **Queries** (`Queries`): the four direct and inverse queries.
- **Max-exposure advisor** (`Advisor`): fills a per-order SNR array at a
  probe exposure time and picks the lowest-index maximum of `snr/softlimit`.
  It then solves for that order's soft limit and reports `Capped` (3600 s)
  where the solver is undefined.

Interpolation is a black box. Each performance grid is a function
`Interp = (teff, vmag, exptime) -> real`: the spline from physical value to
fractional index, the log10 of exposure time and the regular-grid
interpolation together. The grids, the axes and the order table are fields
of a `GridData` value. The soft-limit vector is a parameter of the advisor.

Three facts about the code that the contracts make explicit:

- The wavelength lookup takes the FIRST centre within 0.1 nm, not the
  nearest one. A request within 0.1 nm of a centre resolves to that order
  only when no earlier centre is also within 0.1 nm (`Orders.ResolvesNearby`).
- Line 293 divides elementwise and lines 294-295 share one index, so the
  code presupposes one soft limit per SNR grid; `Advisor.MaxExptime`
  requires it and hard-codes no count.
- The inverse solvers can also fail outright: on a missing order, or when
  the loop's seed already meets the target.

## Model

| member | source | states |
|---|---|---|
| Axes.Min | neid_etcalc_public.py:30 | the axis minimum is one of the samples and is no greater than any of them |
| Axes.Max | neid_etcalc_public.py:30 | the axis maximum is one of the samples and is no less than any of them |
| Axes.InAxis | neid_etcalc_public.py:30-36 | a value passes exactly when it lies in the closed interval from the axis minimum to its maximum, so every sample passes |
| Bounds.ValidateBounds | neid_etcalc_public.py:29-40 | the flag survives exactly when every checked value is in range; an axis is reported exactly when its value is out of range (exposure time only when it is checked); reports come once each in check order, so a failure does not stop later checks |
| Orders.FirstMatch | neid_etcalc_public.py:45 | returns the first index satisfying the test (every earlier one fails it), and None exactly when no element does |
| Orders.OrderByWavelength | neid_etcalc_public.py:153-154 | returns the first order whose centre is strictly within 0.1 nm of the request, and None exactly when none is |
| Orders.OrderById | neid_etcalc_public.py:44-45 | returns the first order whose identifier equals the request, and None exactly when none does |
| Orders.ResolvesNearby | neid_etcalc_public.py:200 | a wavelength within 0.1 nm of order k resolves to an order at or before k, and to k itself exactly when no earlier centre is within 0.1 nm |
| Orders.OrderOfCentre | neid_etcalc_public.py:294-297 | re-resolving the centre of order p gives an order k <= p within 0.1 nm of it, and k == p exactly when no earlier centre is within 0.1 nm of it |
| Solver.Seed | neid_etcalc_public.py:106-108 | (also lines 210-212.) The starting value already meets the goal exactly when an RV target is at least 1e10 or an SNR target is at most 0, the cases where the loop never runs |
| Solver.Candidate | neid_etcalc_public.py:109 | (also line 213.) Candidate j is an even number of seconds, at least 12, and j can be recovered from it |
| Solver.Search | neid_etcalc_public.py:106-123 | (also lines 210-226.) The stop test `Met` (line 108, also 212) is `eta <= target` for RV and `eta >= target` for SNR. It faults exactly when the seed meets the goal. It is undefined exactly when no candidate up to the ceiling meets the goal. Otherwise it returns an even candidate, at least 12 and at most the ceiling, that meets the goal where every earlier candidate missed |
| Solver.FirstReachedUnique | neid_etcalc_public.py:210-226 | at most one candidate is the first to meet the goal, so the search's answer is determined |
| Queries.RVGrid | neid_etcalc_public.py:43-49 | (also lines 93-99.) Without an order the whole-detector grid is used. With an order it is absent exactly when no identifier equals the request, and otherwise it is the grid of the first order whose identifier equals it |
| Queries.SNRGrid | neid_etcalc_public.py:153-156 | (also lines 199-202.) It is absent exactly when no centre is within 0.1 nm, and otherwise it is the SNR grid of the first order whose centre is within 0.1 nm |
| Queries.RVPrecision | neid_etcalc_public.py:15-66 | undefined exactly when temperature, magnitude or exposure time is out of range; with bounds passed, a missing order identifier faults; otherwise the value is the selected grid (whole-detector or per-order) interpolated at the inputs |
| Queries.ExptimeForRV | neid_etcalc_public.py:68-123 | only temperature and magnitude are checked; a missing order faults; otherwise the result answers the search for precision at most the target on the selected grid, with the longest tabulated exposure time as ceiling |
| Queries.SNR | neid_etcalc_public.py:126-173 | undefined exactly when a value is out of range; with bounds passed, no centre within 0.1 nm faults; otherwise the value is that order's SNR grid interpolated at the inputs |
| Queries.ExptimeForSNR | neid_etcalc_public.py:175-226 | only temperature and magnitude are checked; no centre within 0.1 nm faults; otherwise the result answers the search for SNR at least the target in that order |
| Advisor.ProbeSNR | neid_etcalc_public.py:266-274 | one entry per SNR grid, each the order's SNR interpolated at the probe temperature, magnitude and exposure time |
| Advisor.Ratios | neid_etcalc_public.py:293 | one ratio per order, each the order's SNR divided by its soft limit; a ratio is at least 1 exactly when the order is at or past its limit |
| Advisor.ArgMax | neid_etcalc_public.py:293 | returns an index of a largest element, and no earlier element is as large (lowest index on ties) |
| Advisor.BindingOrder | neid_etcalc_public.py:266-293 | the binding order's probe SNR over its soft limit is the largest of all orders, and strictly larger than that of every earlier order |
| Advisor.MaxExptime | neid_etcalc_public.py:228-301 | out of domain exactly when a probe input is out of range; the reported exposure time is missing (not-a-number) exactly then, so it is never undefined once bounds pass; the solver targets the binding order's soft limit on the order its centre re-resolves to; a solved time is the first candidate reaching that limit, between 12 s and the longest exposure time; the ceiling, exactly 3600 s, is reported exactly when no candidate up to the longest exposure time reaches it |

## Left out

- Loading of the grid files and the grid directory path: the axes, grids and order table are the fields of `GridData`.
- The interpolation numerics (cubic spline, `log10`, regular-grid interpolation): each grid is an uninterpreted function from (temperature, magnitude, exposure time) to a real.
- The interpolator's own out-of-range error: a candidate shorter than the shortest tabulated exposure time is evaluated by the black box rather than raising.
- Floating point: reals are exact, so 0.1, 1e10 and the comparisons are exact. NaN never flows out of the interpolator, and `argmax` does not meet NaN.
- The printed diagnostics: they are the list of failed axes returned by `Bounds.ValidateBounds` and the `Undefined` result of the search.
- The 95 soft-limit literals: `Advisor.MaxExptime` takes the limits as a parameter. It requires one positive limit per SNR grid (all literals are positive), plus at least one order.
- Advisor.MaxExptime: requires positive soft limits, so it does not model the division by zero or the unbound-exposure-time fault that a non-positive limit would cause.
- The order table's consistency with the grid files: `GridData.Valid()` assumes every per-order grid set (RV and SNR) has one entry per row of the order table; a shorter set would raise at lines 47, 97 and 156.
- The web layer (`calc_shell.py`): forms, routes, flash messages and templates.
