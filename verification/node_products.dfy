/** Products over the interpolation nodes: the node polynomial
    (x - xs[lo]) * ... * (x - xs[hi-1]), optionally with one factor left out,
    and the facts about it that the Lagrange and Newton forms share. */
module NodeProducts {

  /** No abscissa occurs twice. */
  predicate Distinct(xs: seq<real>) {
    forall i, j :: 0 <= i < |xs| && 0 <= j < |xs| && i != j ==> xs[i] != xs[j]
  }

  /** The product of (x - xs[j]) over lo <= j < hi, j != skip.  A `skip`
      outside [lo, hi) leaves no factor out. */
  function NodeProduct(x: real, xs: seq<real>, lo: nat, hi: nat, skip: int): real
    requires lo <= hi <= |xs|
    decreases hi - lo
  {
    if hi == lo then 1.0
    else if hi - 1 == skip then NodeProduct(x, xs, lo, hi - 1, skip)
    else NodeProduct(x, xs, lo, hi - 1, skip) * (x - xs[hi - 1])
  }

  /** The full node polynomial of xs[lo..hi] at x. */
  function NodePoly(x: real, xs: seq<real>, lo: nat, hi: nat): real
    requires lo <= hi <= |xs|
  {
    NodeProduct(x, xs, lo, hi, -1)
  }

  /** The barycentric weight of node i in the window [lo, hi):
      the product of (xs[i] - xs[j]) over the other nodes of the window. */
  function Weight(xs: seq<real>, i: nat, lo: nat, hi: nat): real
    requires i < |xs| && lo <= hi <= |xs|
  {
    NodeProduct(xs[i], xs, lo, hi, i)
  }

  /** Which index is skipped does not matter when it lies outside the window. */
  lemma {:induction false} SkipOutside(x: real, xs: seq<real>, lo: nat, hi: nat, s: int, s': int)
    requires lo <= hi <= |xs|
    requires !(lo <= s < hi) && !(lo <= s' < hi)
    ensures NodeProduct(x, xs, lo, hi, s) == NodeProduct(x, xs, lo, hi, s')
    decreases hi - lo
  {
    if hi > lo {
      SkipOutside(x, xs, lo, hi - 1, s, s');
    }
  }

  /** The first factor of the window can be split off, unless it is the skipped one. */
  lemma {:induction false} DropFront(x: real, xs: seq<real>, lo: nat, hi: nat, skip: int)
    requires lo < hi <= |xs| && skip != lo
    ensures NodeProduct(x, xs, lo, hi, skip) == NodeProduct(x, xs, lo + 1, hi, skip) * (x - xs[lo])
    decreases hi - lo
  {
    if hi - 1 > lo {
      DropFront(x, xs, lo, hi - 1, skip);
    }
  }

  /** The full node polynomial is the product with factor i left out, times (x - xs[i]). */
  lemma {:induction false} PullFactor(x: real, xs: seq<real>, lo: nat, hi: nat, i: nat)
    requires lo <= i < hi <= |xs|
    ensures NodePoly(x, xs, lo, hi) == NodeProduct(x, xs, lo, hi, i) * (x - xs[i])
    decreases hi - lo
  {
    if hi - 1 == i {
      SkipOutside(x, xs, lo, hi - 1, -1, i);
    } else {
      PullFactor(x, xs, lo, hi - 1, i);
    }
  }

  /** With distinct nodes no weight vanishes. */
  lemma {:induction false} WeightNonZero(xs: seq<real>, i: nat, lo: nat, hi: nat)
    requires Distinct(xs) && i < |xs| && lo <= hi <= |xs|
    ensures Weight(xs, i, lo, hi) != 0.0
    decreases hi - lo
  {
    if hi > lo {
      WeightNonZero(xs, i, lo, hi - 1);
      if hi - 1 != i {
        assert xs[i] - xs[hi - 1] != 0.0;
      }
    }
  }
}
