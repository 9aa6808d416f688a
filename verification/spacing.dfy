/** The equal-spacing check: the grid is regular when every consecutive gap,
    taken in the order the abscissas are given, is within an absolute
    tolerance (1e-9 unless the caller passes another) of the first gap.  A
    descending grid therefore passes with a negative step. */
module Spacing {

  /** The default absolute tolerance on a gap's distance from the first gap (1e-9). */
  const Tolerance: real := 0.000000001

  function Abs(a: real): real {
    if a < 0.0 then -a else a
  }

  /** The reference definition: at least two abscissas, and every gap
      xs[i] - xs[i-1] for i >= 2 within tol of xs[1] - xs[0]. */
  predicate UniformGaps(xs: seq<real>, tol: real) {
    && |xs| >= 2
    && forall i :: 2 <= i < |xs| ==> Abs((xs[i] - xs[i - 1]) - (xs[1] - xs[0])) <= tol
  }

  /** Reports whether the grid is regular, and the first gap as its step
      (0 when there are fewer than two abscissas). */
  method IsEquallySpaced(xs: seq<real>, tol: real := Tolerance) returns (eq: bool, h: real)
    ensures eq <==> UniformGaps(xs, tol)
    ensures |xs| < 2 ==> h == 0.0
    ensures |xs| >= 2 ==> h == xs[1] - xs[0]
  {
    if |xs| < 2 {
      return false, 0.0;
    }
    h := xs[1] - xs[0];
    var i := 2;
    while i < |xs|
      invariant 2 <= i <= |xs|
      invariant forall j :: 2 <= j < i ==> Abs((xs[j] - xs[j - 1]) - h) <= tol
    {
      if Abs((xs[i] - xs[i - 1]) - h) > tol {
        return false, h;
      }
      i := i + 1;
    }
    return true, h;
  }
}
