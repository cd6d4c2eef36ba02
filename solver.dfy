/** The inverse search shared by the two exposure-time solvers: step through
    the candidate exposure times 12, 14, 16, ... s until the interpolated
    performance meets the target, giving up past the longest tabulated
    exposure time. */
module Solver {
  import opened GridModel

  /** The target: an RV precision to get down to, or an SNR to reach. */
  datatype Goal = AtMost(target: real) | AtLeast(target: real)

  /** The value the loop variable `eta` starts from before any candidate is
      evaluated. */
  function Seed(goal: Goal): (s: real)
    ensures Met(goal, s) <==> match goal
                              case AtMost(target) => target >= 1e10
                              case AtLeast(target) => target <= 0.0
  {
    match goal
    case AtMost(_) => 1e10
    case AtLeast(_) => 0.0
  }

  /** The negation of the loop guard: `eta > target` keeps the RV search
      going, `eta < target` the SNR search. */
  predicate Met(goal: Goal, eta: real)
  {
    match goal
    case AtMost(target) => !(eta > target)
    case AtLeast(target) => !(eta < target)
  }

  /** The exposure time tried at step `j`. */
  function Candidate(j: nat): (t: int)
    ensures 12 <= t && t % 2 == 0
    ensures j == (t - 12) / 2
  {
    2 * (j + 6)
  }

  /** `t` is a candidate no greater than the ceiling, meets the goal, and
      every earlier candidate missed it. */
  ghost predicate FirstReached(perf: Interp, teff: real, vmag: real, goal: Goal, maxExp: real, t: int)
  {
    t % 2 == 0 && 12 <= t && t as real <= maxExp &&
    Met(goal, perf(teff, vmag, t as real)) &&
    forall j: nat :: Candidate(j) < t ==> !Met(goal, perf(teff, vmag, Candidate(j) as real))
  }

  /** No candidate up to the ceiling meets the goal. */
  ghost predicate NoneReached(perf: Interp, teff: real, vmag: real, goal: Goal, maxExp: real)
  {
    forall j: nat :: Candidate(j) as real <= maxExp ==> !Met(goal, perf(teff, vmag, Candidate(j) as real))
  }

  /** What the search answers: it faults exactly when the seed already meets
      the goal (the loop never runs), returns the first candidate meeting the
      goal, and is undefined exactly when no candidate up to the ceiling does. */
  ghost predicate Answers(r: QueryResult<int>, perf: Interp, teff: real, vmag: real, goal: Goal, maxExp: real)
  {
    (r.Raised? <==> Met(goal, Seed(goal))) &&
    (r.Raised? ==> r.fault == ExptimeUnbound) &&
    (r.Value? ==> FirstReached(perf, teff, vmag, goal, maxExp, r.v)) &&
    (r.Undefined? <==> !Met(goal, Seed(goal)) && NoneReached(perf, teff, vmag, goal, maxExp))
  }

  method Search(perf: Interp, teff: real, vmag: real, goal: Goal, maxExp: real)
    returns (r: QueryResult<int>)
    ensures Answers(r, perf, teff, vmag, goal, maxExp)
  {
    var j: nat := 0;
    var eta := Seed(goal);
    var exptime: Option<int> := None;
    while !Met(goal, eta)
      invariant exptime == if j == 0 then None else Some(Candidate(j - 1))
      invariant j == 0 ==> eta == Seed(goal)
      invariant j > 0 ==> !Met(goal, Seed(goal))
      invariant j > 0 ==> Candidate(j - 1) as real <= maxExp && eta == perf(teff, vmag, Candidate(j - 1) as real)
      invariant forall i: nat :: i + 1 < j ==> !Met(goal, perf(teff, vmag, Candidate(i) as real))
      decreases maxExp.Floor + 2 - Candidate(j)
    {
      var t := Candidate(j);
      exptime := Some(t);
      if t as real > maxExp {
        return Undefined;
      }
      eta := perf(teff, vmag, t as real);
      j := j + 1;
    }
    match exptime
    case None => r := Raised(ExptimeUnbound);
    case Some(t) => r := Value(t);
  }

  /** The search's answer is determined: at most one exposure time is the
      first to meet the goal. */
  lemma FirstReachedUnique(perf: Interp, teff: real, vmag: real, goal: Goal, maxExp: real, t1: int, t2: int)
    requires FirstReached(perf, teff, vmag, goal, maxExp, t1)
    requires FirstReached(perf, teff, vmag, goal, maxExp, t2)
    ensures t1 == t2
  {
    // each is a candidate, so each falls under the other's "every earlier candidate missed"
    assert Candidate((t1 - 12) / 2) == t1;
    assert Candidate((t2 - 12) / 2) == t2;
  }
}
