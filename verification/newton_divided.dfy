/** Newton's divided-difference form: the interpolant written as
    table[0][0] + sum over l >= 1 of table[l][0] * (x - xs[0]) * ... * (x - xs[l-1]),
    and its agreement with Lagrange's form. */
module NewtonDividedForm {
  import opened Outcomes
  import opened RealArith
  import opened NodeProducts
  import opened LagrangeForm
  import opened DividedTables

  /** The first m terms of the Newton form built on the leading column of table. */
  function NewtonForm(x: real, xs: seq<real>, table: seq<seq<real>>, m: nat): real
    requires 1 <= m <= |table| && m - 1 <= |xs|
    requires forall l :: 0 <= l < m ==> |table[l]| > 0
  {
    if m == 1 then table[0][0]
    else NewtonForm(x, xs, table, m - 1) + table[m - 1][0] * NodePoly(x, xs, 0, m - 1)
  }

  /** Builds the divided-difference table and evaluates the Newton form at x.
      Fails with DuplicateNode exactly when two abscissas coincide; otherwise
      returns the table, and the value is the Lagrange interpolant, so it is
      exact at every node. */
  method NewtonDivided(x: real, xs: seq<real>, ys: seq<real>) returns (r: Result<(real, seq<seq<real>>)>)
    requires |xs| <= |ys| && 1 <= |ys|
    ensures r.Err? <==> !Distinct(xs)
    ensures r.Err? ==> r.error == DuplicateNode
    ensures r.Ok? ==> DividedTable(xs, ys, r.value.1)
    ensures r.Ok? && |xs| == 0 ==> r.value.0 == ys[0]
    ensures r.Ok? && |xs| >= 1 ==> r.value.0 == Lagrange(x, xs, ys)
    ensures r.Ok? ==> forall k :: 0 <= k < |xs| && x == xs[k] ==> r.value.0 == ys[k]
  {
    var t := DividedDifferences(xs, ys);
    if t.Err? {
      return Err(t.error);
    }
    var table := t.value;
    var n := |xs|;
    var res := table[0][0];
    var prod := 1.0;
    var lvl := 1;
    while lvl < n
      invariant 1 <= lvl <= |table|
      invariant prod == NodePoly(x, xs, 0, lvl - 1)
      invariant res == NewtonForm(x, xs, table, lvl)
    {
      prod := prod * (x - xs[lvl - 1]);
      res := res + table[lvl][0] * prod;
      lvl := lvl + 1;
    }
    if n >= 1 {
      NewtonEqualsLagrange(x, xs, ys, table);
      forall k | 0 <= k < n && x == xs[k]
        ensures res == ys[k]
      {
        LagrangeExact(xs, ys, k);
      }
    }
    return Ok((res, table));
  }

  /** Adding node m changes the Lagrange term of an earlier node i by the node
      polynomial of the first m nodes times i's share of the new divided difference. */
  lemma TermExtend(x: real, xs: seq<real>, ys: seq<real>, i: nat, m: nat)
    requires Distinct(xs) && i < m < |xs| <= |ys|
    ensures ys[i] * Basis(x, xs, i, m + 1) - ys[i] * Basis(x, xs, i, m)
         == NodePoly(x, xs, 0, m) * Share(xs, ys, i, 0, m + 1)
  {
    WeightNonZero(xs, i, 0, m);
    BasisRatio(x, xs, i, m);
    PullFactor(x, xs, 0, m, i);
    BasisStep(x, xs, i, m);
    ExtendTerm(ys[i], Basis(x, xs, i, m), Basis(x, xs, i, m + 1), Weight(xs, i, 0, m), Weight(xs, i, 0, m + 1),
               NodeProduct(x, xs, 0, m, i), NodePoly(x, xs, 0, m), Share(xs, ys, i, 0, m + 1), x, xs[i], xs[m]);
  }

  /** The Lagrange term of the new node m is the node polynomial of the first m
      nodes times its share of the new divided difference. */
  lemma NewTerm(x: real, xs: seq<real>, ys: seq<real>, m: nat)
    requires Distinct(xs) && m < |xs| <= |ys|
    ensures ys[m] * Basis(x, xs, m, m + 1) == NodePoly(x, xs, 0, m) * Share(xs, ys, m, 0, m + 1)
  {
    WeightNonZero(xs, m, 0, m);
    BasisRatio(x, xs, m, m);
    SkipOutside(x, xs, 0, m, m, -1);
    LastTerm(ys[m], Basis(x, xs, m, m), Weight(xs, m, 0, m), NodePoly(x, xs, 0, m));
  }

  /** Summed over the first k earlier nodes. */
  lemma {:induction false} SumExtend(x: real, xs: seq<real>, ys: seq<real>, k: nat, m: nat)
    requires Distinct(xs) && k <= m < |xs| <= |ys|
    ensures LagrangeSum(x, xs, ys, k, m + 1) - LagrangeSum(x, xs, ys, k, m)
      == NodePoly(x, xs, 0, m) * SymSum(xs, ys, 0, m + 1, 0, k)
  {
    if k > 0 {
      SumExtend(x, xs, ys, k - 1, m);
      TermExtend(x, xs, ys, k - 1, m);
    }
  }

  /** Adding node m to the Lagrange sum adds the node polynomial of the first m
      nodes times the divided difference (in closed form) of the first m + 1 nodes. */
  lemma LagrangeExtend(x: real, xs: seq<real>, ys: seq<real>, m: nat)
    requires Distinct(xs) && m < |xs| <= |ys|
    ensures LagrangeSum(x, xs, ys, m + 1, m + 1)
         == LagrangeSum(x, xs, ys, m, m) + NodePoly(x, xs, 0, m) * SymSum(xs, ys, 0, m + 1, 0, m + 1)
  {
    DistinctClear(xs);
    SumExtend(x, xs, ys, m, m);
    NewTerm(x, xs, ys, m);
    assert LagrangeSum(x, xs, ys, m + 1, m + 1)
        == LagrangeSum(x, xs, ys, m, m + 1) + ys[m] * Basis(x, xs, m, m + 1);
    assert SymSum(xs, ys, 0, m + 1, 0, m + 1)
        == SymSum(xs, ys, 0, m + 1, 0, m) + Share(xs, ys, m, 0, m + 1);
  }

  /** One node: both forms are the first ordinate. */
  lemma PrefixBase(x: real, xs: seq<real>, ys: seq<real>, table: seq<seq<real>>)
    requires DividedTable(xs, ys, table) && Distinct(xs) && 1 <= |xs|
    ensures NewtonForm(x, xs, table, 1) == LagrangeSum(x, xs, ys, 1, 1)
  {
    DistinctClear(xs);
    assert Basis(x, xs, 0, 1) == Basis(x, xs, 0, 0) == 1.0;
  }

  /** Adding a level whose leading entry is the divided difference of the first
      m nodes (in closed form) adds the same term as adding node m - 1 to the Lagrange sum. */
  lemma PrefixStep(x: real, xs: seq<real>, ys: seq<real>, table: seq<seq<real>>, m: nat)
    requires Distinct(xs) && 2 <= m <= |xs| <= |ys| && m <= |table|
    requires forall l :: 0 <= l < m ==> |table[l]| > 0
    requires table[m - 1][0] == SymSum(xs, ys, 0, m, 0, m)
    requires NewtonForm(x, xs, table, m - 1) == LagrangeSum(x, xs, ys, m - 1, m - 1)
    ensures NewtonForm(x, xs, table, m) == LagrangeSum(x, xs, ys, m, m)
  {
    LagrangeExtend(x, xs, ys, m - 1);
  }

  /** The first m terms of the Newton form over a divided-difference table are
      the Lagrange interpolant of the first m samples. */
  lemma {:induction false} NewtonPrefix(x: real, xs: seq<real>, ys: seq<real>, table: seq<seq<real>>, m: nat)
    requires DividedTable(xs, ys, table) && Distinct(xs) && 1 <= m <= |xs|
    ensures NewtonForm(x, xs, table, m) == LagrangeSum(x, xs, ys, m, m)
  {
    if m == 1 {
      PrefixBase(x, xs, ys, table);
    } else {
      NewtonPrefix(x, xs, ys, table, m - 1);
      TableEntry(xs, ys, table, m - 1, 0);
      DividedDifferenceSymmetric(xs, ys, 0, m);
      PrefixStep(x, xs, ys, table, m);
    }
  }

  /** With distinct nodes, the Newton divided-difference form and Lagrange's
      form are the same polynomial: they agree at every x. */
  lemma NewtonEqualsLagrange(x: real, xs: seq<real>, ys: seq<real>, table: seq<seq<real>>)
    requires DividedTable(xs, ys, table) && 1 <= |xs|
    ensures Distinct(xs)
    ensures NewtonForm(x, xs, table, |xs|) == Lagrange(x, xs, ys)
  {
    DividedTableDistinct(xs, ys, table);
    NewtonPrefix(x, xs, ys, table, |xs|);
  }
}
