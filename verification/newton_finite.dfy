/** Newton's forward and backward finite-difference formulas for equally
    spaced abscissas, and the dispatcher that rejects irregular grids and picks
    the formula anchored at the nearer end. */
module FiniteNewton {
  import opened Outcomes
  import opened FiniteTables
  import opened Spacing

  /** Which formula the dispatcher applied. */
  datatype Direction = Forward | Backward

  function Factorial(k: nat): (r: real)
    ensures r >= 1.0
  {
    if k == 0 then 1.0 else Factorial(k - 1) * k as real
  }

  /** t (t - 1) ... (t - (k - 1)). */
  function Falling(t: real, k: nat): real {
    if k == 0 then 1.0 else Falling(t, k - 1) * (t - (k - 1) as real)
  }

  /** t (t + 1) ... (t + (k - 1)). */
  function Rising(t: real, k: nat): real {
    if k == 0 then 1.0 else Rising(t, k - 1) * (t + (k - 1) as real)
  }

  /** Every level of the first m has an entry. */
  predicate Populated(table: seq<seq<real>>, m: nat) {
    m <= |table| && forall k :: 0 <= k < m ==> |table[k]| > 0
  }

  /** The first m terms of the forward formula: table[0][0] plus, for
      1 <= k < m, Falling(t, k) / k! times the first entry of level k. */
  function ForwardSum(t: real, table: seq<seq<real>>, m: nat): real
    requires 1 <= m && Populated(table, m)
  {
    if m == 1 then table[0][0]
    else ForwardSum(t, table, m - 1) + (Falling(t, m - 1) / Factorial(m - 1)) * table[m - 1][0]
  }

  /** The first m terms of the backward formula: the last entry of level 0 plus,
      for 1 <= k < m, Rising(t, k) / k! times the last entry of level k. */
  function BackwardSum(t: real, table: seq<seq<real>>, m: nat): real
    requires 1 <= m && Populated(table, m)
  {
    if m == 1 then table[0][|table[0]| - 1]
    else BackwardSum(t, table, m - 1)
         + (Rising(t, m - 1) / Factorial(m - 1)) * table[m - 1][|table[m - 1]| - 1]
  }

  /** A finite-difference table of at least |xs| ordinates has |xs| populated levels. */
  lemma FiniteTablePopulated(ys: seq<real>, table: seq<seq<real>>, m: nat)
    requires FiniteTable(ys, table) && 1 <= m <= |ys|
    ensures Populated(table, m)
  {
  }

  /** Sums the first m terms of the forward formula at t, accumulating the
      falling product and the factorial term by term. */
  method ForwardEval(t: real, table: seq<seq<real>>, m: nat) returns (res: real)
    requires 1 <= m && Populated(table, m)
    ensures res == ForwardSum(t, table, m)
  {
    res := table[0][0];
    var prod := 1.0;
    var fact := 1.0;
    var k := 1;
    while k < m
      invariant 1 <= k <= m
      invariant prod == Falling(t, k - 1)
      invariant fact == Factorial(k - 1)
      invariant res == ForwardSum(t, table, k)
    {
      prod := prod * (t - (k - 1) as real);
      fact := fact * k as real;
      res := res + (prod / fact) * table[k][0];
      k := k + 1;
    }
  }

  /** The forward formula with step h, anchored at xs[0].  Fails with ZeroStep
      exactly when h is 0; at x == xs[0] it returns ys[0]. */
  method NewtonForward(x: real, xs: seq<real>, ys: seq<real>, h: real) returns (r: Result<(real, seq<seq<real>>)>)
    requires 1 <= |xs| && (h != 0.0 ==> |xs| <= |ys|)
    ensures r.Err? <==> h == 0.0
    ensures r.Err? ==> r.error == ZeroStep
    ensures r.Ok? ==> FiniteTable(ys, r.value.1) && Populated(r.value.1, |xs|)
    ensures r.Ok? ==> r.value.0 == ForwardSum((x - xs[0]) / h, r.value.1, |xs|)
    ensures r.Ok? && x == xs[0] ==> r.value.0 == ys[0]
  {
    var table := FiniteDifferences(ys);
    if h == 0.0 {
      return Err(ZeroStep);
    }
    FiniteTablePopulated(ys, table, |xs|);
    var t := (x - xs[0]) / h;
    var res := ForwardEval(t, table, |xs|);
    if x == xs[0] {
      ForwardAtOrigin(table, |xs|);
    }
    return Ok((res, table));
  }

  /** Sums the first m terms of the backward formula at t, accumulating the
      rising product and the factorial term by term. */
  method BackwardEval(t: real, table: seq<seq<real>>, m: nat) returns (res: real)
    requires 1 <= m && Populated(table, m)
    ensures res == BackwardSum(t, table, m)
  {
    res := table[0][|table[0]| - 1];
    var prod := 1.0;
    var fact := 1.0;
    var k := 1;
    while k < m
      invariant 1 <= k <= m
      invariant prod == Rising(t, k - 1)
      invariant fact == Factorial(k - 1)
      invariant res == BackwardSum(t, table, k)
    {
      prod := prod * (t + (k - 1) as real);
      fact := fact * k as real;
      res := res + (prod / fact) * table[k][|table[k]| - 1];
      k := k + 1;
    }
  }

  /** The backward formula with step h, anchored at the last abscissa.  Fails
      with ZeroStep exactly when h is 0; at x == xs[|xs|-1] it returns the last ordinate. */
  method NewtonBackward(x: real, xs: seq<real>, ys: seq<real>, h: real) returns (r: Result<(real, seq<seq<real>>)>)
    requires 1 <= |xs| && (h != 0.0 ==> |xs| <= |ys|)
    ensures r.Err? <==> h == 0.0
    ensures r.Err? ==> r.error == ZeroStep
    ensures r.Ok? ==> FiniteTable(ys, r.value.1) && Populated(r.value.1, |xs|)
    ensures r.Ok? ==> r.value.0 == BackwardSum((x - xs[|xs| - 1]) / h, r.value.1, |xs|)
    ensures r.Ok? && x == xs[|xs| - 1] ==> r.value.0 == ys[|ys| - 1]
  {
    var table := FiniteDifferences(ys);
    if h == 0.0 {
      return Err(ZeroStep);
    }
    FiniteTablePopulated(ys, table, |xs|);
    var t := (x - xs[|xs| - 1]) / h;
    var res := BackwardEval(t, table, |xs|);
    if x == xs[|xs| - 1] {
      BackwardAtEnd(table, |xs|);
    }
    return Ok((res, table));
  }

  /** Every falling product of positive length vanishes at t == 0. */
  lemma {:induction false} FallingAtZero(k: nat)
    requires k >= 1
    ensures Falling(0.0, k) == 0.0
  {
    if k > 1 {
      FallingAtZero(k - 1);
    }
  }

  /** Every rising product of positive length vanishes at t == 0. */
  lemma {:induction false} RisingAtZero(k: nat)
    requires k >= 1
    ensures Rising(0.0, k) == 0.0
  {
    if k > 1 {
      RisingAtZero(k - 1);
    }
  }

  /** At its anchor the forward formula is the first entry of level 0. */
  lemma {:induction false} ForwardAtOrigin(table: seq<seq<real>>, m: nat)
    requires 1 <= m && Populated(table, m)
    ensures ForwardSum(0.0, table, m) == table[0][0]
  {
    if m > 1 {
      ForwardAtOrigin(table, m - 1);
      FallingAtZero(m - 1);
    }
  }

  /** At its anchor the backward formula is the last entry of level 0. */
  lemma {:induction false} BackwardAtEnd(table: seq<seq<real>>, m: nat)
    requires 1 <= m && Populated(table, m)
    ensures BackwardSum(0.0, table, m) == table[0][|table[0]| - 1]
  {
    if m > 1 {
      BackwardAtEnd(table, m - 1);
      RisingAtZero(m - 1);
    }
  }

  /** value is what the formula of direction d gives at x on a grid of at
      least two abscissas with nonzero step xs[1] - xs[0]: the forward formula
      anchored at xs[0] or the backward formula anchored at the last abscissa,
      over the finite-difference table of ys. */
  predicate Interpolated(x: real, xs: seq<real>, ys: seq<real>, value: real, table: seq<seq<real>>, d: Direction) {
    && 2 <= |xs| && xs[1] != xs[0]
    && FiniteTable(ys, table) && Populated(table, |xs|)
    && value == (if d == Forward then ForwardSum((x - xs[0]) / (xs[1] - xs[0]), table, |xs|)
                 else BackwardSum((x - xs[|xs| - 1]) / (xs[1] - xs[0]), table, |xs|))
  }

  /** Rejects irregular grids with IrregularGrid (this includes fewer than two
      abscissas) and a zero step with ZeroStep; otherwise applies the forward
      formula exactly when x is at least as close to the first abscissa as to
      the last (so a tie goes forward), and reports the table and direction. */
  method NewtonFinite(x: real, xs: seq<real>, ys: seq<real>) returns (r: Result<(real, seq<seq<real>>, Direction)>)
    requires UniformGaps(xs, Tolerance) && xs[1] != xs[0] ==> |xs| <= |ys|
    ensures r.Err? && r.error == IrregularGrid <==> !UniformGaps(xs, Tolerance)
    ensures r.Err? && r.error == ZeroStep <==> UniformGaps(xs, Tolerance) && xs[1] == xs[0]
    ensures r.Err? ==> r.error == IrregularGrid || r.error == ZeroStep
    ensures r.Ok? ==> Interpolated(x, xs, ys, r.value.0, r.value.1, r.value.2)
    ensures r.Ok? ==> (r.value.2 == Forward <==> Abs(x - xs[0]) <= Abs(x - xs[|xs| - 1]))
    ensures r.Ok? && x == xs[0] ==> r.value.0 == ys[0]
    ensures r.Ok? && x == xs[|xs| - 1] && r.value.2 == Backward ==> r.value.0 == ys[|ys| - 1]
  {
    var eq, h := IsEquallySpaced(xs);
    if !eq {
      return Err(IrregularGrid);
    }
    if Abs(x - xs[0]) <= Abs(x - xs[|xs| - 1]) {
      var f := NewtonForward(x, xs, ys, h);
      if f.Err? {
        return Err(f.error);
      }
      return Ok((f.value.0, f.value.1, Forward));
    } else {
      var b := NewtonBackward(x, xs, ys, h);
      if b.Err? {
        return Err(b.error);
      }
      return Ok((b.value.0, b.value.1, Backward));
    }
  }
}
