/** Lagrange's interpolation formula: the sum over the nodes of
    ys[i] times the basis product of (x - xs[j]) / (xs[i] - xs[j]) over j != i. */
module LagrangeForm {
  import opened Outcomes
  import opened NodeProducts
  import opened RealArith

  /** Among the first m nodes, none other than node i has the abscissa xs[i]. */
  predicate ClearOf(xs: seq<real>, i: nat, m: nat)
    requires i < |xs| && m <= |xs|
  {
    forall j :: 0 <= j < m && j != i ==> xs[j] != xs[i]
  }

  /** The basis polynomial of node i over the first m nodes, built factor by
      factor in the order the evaluator multiplies them in. */
  function Basis(x: real, xs: seq<real>, i: nat, m: nat): real
    requires i < |xs| && m <= |xs| && ClearOf(xs, i, m)
  {
    if m == 0 then 1.0
    else if m - 1 == i then Basis(x, xs, i, m - 1)
    else Basis(x, xs, i, m - 1) * ((x - xs[m - 1]) / (xs[i] - xs[m - 1]))
  }

  /** The first k terms ys[i] * Basis(x, xs, i, m) of the Lagrange sum over the first m nodes. */
  function LagrangeSum(x: real, xs: seq<real>, ys: seq<real>, k: nat, m: nat): real
    requires k <= m <= |xs| <= |ys|
    requires forall i :: 0 <= i < k ==> ClearOf(xs, i, m)
  {
    if k == 0 then 0.0
    else LagrangeSum(x, xs, ys, k - 1, m) + ys[k - 1] * Basis(x, xs, k - 1, m)
  }

  /** The Lagrange interpolant of all the samples at x. */
  function Lagrange(x: real, xs: seq<real>, ys: seq<real>): real
    requires |xs| <= |ys| && Distinct(xs)
  {
    LagrangeSum(x, xs, ys, |xs|, |xs|)
  }

  /** The term of node i: ys[i] times its basis polynomial over all the nodes.
      Fails with DuplicateNode exactly when another node shares xs[i]. */
  method BasisTerm(x: real, xs: seq<real>, ys: seq<real>, i: nat) returns (r: Result<real>)
    requires i < |xs| <= |ys|
    ensures r.Err? <==> !ClearOf(xs, i, |xs|)
    ensures r.Err? ==> r.error == DuplicateNode
    ensures r.Ok? ==> ClearOf(xs, i, |xs|) && r.value == ys[i] * Basis(x, xs, i, |xs|)
  {
    var n := |xs|;
    var term := ys[i];
    var j := 0;
    while j < n
      invariant 0 <= j <= n
      invariant ClearOf(xs, i, j)
      invariant term == ys[i] * Basis(x, xs, i, j)
    {
      if i != j {
        var denom := xs[i] - xs[j];
        if denom == 0.0 {
          assert xs[j] == xs[i];
          return Err(DuplicateNode);
        }
        TermStep(x, xs, ys, i, j, term);
        term := term * ((x - xs[j]) / denom);
      }
      j := j + 1;
    }
    return Ok(term);
  }

  /** One factor of the basis polynomial applied to the running term. */
  lemma TermStep(x: real, xs: seq<real>, ys: seq<real>, i: nat, j: nat, term: real)
    requires i < |xs| <= |ys| && j < |xs| && i != j && ClearOf(xs, i, j + 1)
    requires term == ys[i] * Basis(x, xs, i, j)
    ensures term * ((x - xs[j]) / (xs[i] - xs[j])) == ys[i] * Basis(x, xs, i, j + 1)
  {
    assert Basis(x, xs, i, j + 1) == Basis(x, xs, i, j) * ((x - xs[j]) / (xs[i] - xs[j]));
  }

  /** Evaluates the Lagrange interpolant at x.  Fails with DuplicateNode exactly
      when two abscissas coincide; otherwise the value is the Lagrange sum. */
  method LagrangeInterpolate(x: real, xs: seq<real>, ys: seq<real>) returns (r: Result<real>)
    requires |xs| <= |ys|
    ensures r.Err? <==> !Distinct(xs)
    ensures r.Err? ==> r.error == DuplicateNode
    ensures r.Ok? ==> r.value == Lagrange(x, xs, ys)
  {
    var n := |xs|;
    var res := 0.0;
    var i := 0;
    while i < n
      invariant 0 <= i <= n
      invariant forall i' :: 0 <= i' < i ==> ClearOf(xs, i', n)
      invariant res == LagrangeSum(x, xs, ys, i, n)
    {
      var term := BasisTerm(x, xs, ys, i);
      if term.Err? {
        return term;
      }
      res := res + term.value;
      i := i + 1;
    }
    assert forall a, b :: 0 <= a < n && 0 <= b < n && a != b ==> xs[b] != xs[a] by {
      forall a, b | 0 <= a < n && 0 <= b < n && a != b
        ensures xs[b] != xs[a]
      {
        assert ClearOf(xs, a, n);
      }
    }
    return Ok(res);
  }

  /** At a node, the basis polynomial of that node is 1 and every other
      basis polynomial that already includes the node's factor is 0. */
  lemma {:induction false} BasisAtNode(xs: seq<real>, i: nat, k: nat, m: nat)
    requires Distinct(xs) && i < |xs| && k < |xs| && m <= |xs|
    ensures i == k ==> Basis(xs[k], xs, i, m) == 1.0
    ensures i != k && k < m ==> Basis(xs[k], xs, i, m) == 0.0
  {
    if m > 0 {
      BasisAtNode(xs, i, k, m - 1);
      if m - 1 != i {
        var f := (xs[k] - xs[m - 1]) / (xs[i] - xs[m - 1]);
        if i == k {
          DivSelf(xs[i], xs[m - 1]);
        } else if k == m - 1 {
          assert xs[k] - xs[m - 1] == 0.0;
          assert f == 0.0;
        }
      }
    }
  }

  /** A partial Lagrange sum at node k picks out ys[k] once node k is summed. */
  lemma {:induction false} LagrangeSumAtNode(xs: seq<real>, ys: seq<real>, k: nat, kk: nat, m: nat)
    requires Distinct(xs) && k < m && kk <= m <= |xs| <= |ys|
    ensures LagrangeSum(xs[k], xs, ys, kk, m) == (if k < kk then ys[k] else 0.0)
  {
    if kk > 0 {
      LagrangeSumAtNode(xs, ys, k, kk - 1, m);
      BasisAtNode(xs, kk - 1, k, m);
    }
  }

  /** The interpolant is exact at the nodes. */
  lemma LagrangeExact(xs: seq<real>, ys: seq<real>, k: nat)
    requires |xs| <= |ys| && Distinct(xs) && k < |xs|
    ensures Lagrange(xs[k], xs, ys) == ys[k]
  {
    LagrangeSumAtNode(xs, ys, k, |xs|, |xs|);
  }

  /** With distinct nodes every node is clear of the others in every prefix. */
  lemma DistinctClear(xs: seq<real>)
    requires Distinct(xs)
    ensures forall i: nat, m: nat :: i < |xs| && m <= |xs| ==> ClearOf(xs, i, m)
  {
  }

  /** The basis polynomial times the weight of node i is the node product
      without node i: the basis is that product normalised to 1 at xs[i]. */
  lemma {:induction false} BasisRatio(x: real, xs: seq<real>, i: nat, m: nat)
    requires i < |xs| && m <= |xs| && ClearOf(xs, i, m)
    ensures Basis(x, xs, i, m) * Weight(xs, i, 0, m) == NodeProduct(x, xs, 0, m, i)
  {
    if m > 0 {
      BasisRatio(x, xs, i, m - 1);
      if m - 1 != i {
        ScaleStep(Basis(x, xs, i, m - 1), Weight(xs, i, 0, m - 1), x - xs[m - 1], xs[i] - xs[m - 1]);
      }
    }
  }

  /** Adding node m (other than i itself) multiplies the basis of node i by
      (x - xs[m]) / (xs[i] - xs[m]) and its weight by xs[i] - xs[m]. */
  lemma BasisStep(x: real, xs: seq<real>, i: nat, m: nat)
    requires Distinct(xs) && i < |xs| && m < |xs| && i != m
    ensures Basis(x, xs, i, m + 1) == Basis(x, xs, i, m) * ((x - xs[m]) / (xs[i] - xs[m]))
    ensures Weight(xs, i, 0, m + 1) == Weight(xs, i, 0, m) * (xs[i] - xs[m])
  {
  }
}
