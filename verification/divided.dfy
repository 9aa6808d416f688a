/** The divided-difference table: level 0 is the ordinates, and each entry of
    level l is the difference of two neighbours of level l-1 divided by the
    spread xs[i+l] - xs[i] of the nodes it covers. */
module DividedTables {
  import opened Outcomes
  import opened NodeProducts
  import opened RealArith

  /** Level l (l >= 1) of a table, computed from level l-1: each entry is a
      neighbour difference divided by the nonzero spread of the nodes it covers. */
  predicate DividedLevel(xs: seq<real>, table: seq<seq<real>>, l: nat)
    requires 1 <= l < |table|
  {
    && l <= |xs|
    && |table[l]| == |xs| - l
    && |xs| - l + 1 <= |table[l - 1]|
    && forall i :: 0 <= i < |xs| - l ==>
         xs[i + l] != xs[i] &&
         table[l][i] == (table[l - 1][i + 1] - table[l - 1][i]) / (xs[i + l] - xs[i])
  }

  /** The shape and recurrence of a divided-difference table for xs and ys:
      max(|xs|, 1) levels, the ordinates first, level l holding |xs| - l entries,
      and every level after the first obeying the recurrence. */
  predicate DividedTable(xs: seq<real>, ys: seq<real>, table: seq<seq<real>>) {
    && |xs| <= |ys|
    && |table| == (if |xs| == 0 then 1 else |xs|)
    && table[0] == ys
    && (forall l :: 1 <= l < |table| ==> |table[l]| == |xs| - l)
    && (forall l :: 1 <= l < |table| ==> DividedLevel(xs, table, l))
  }

  /** Builds one level from the previous one (the inner loop of the builder).
      Fails with DuplicateNode at the first pair of nodes l apart that coincide. */
  method NextLevel(xs: seq<real>, prev: seq<real>, l: nat) returns (r: Result<seq<real>>)
    requires 1 <= l <= |xs| && |xs| - l + 1 <= |prev|
    ensures r.Err? <==> exists i :: 0 <= i < |xs| - l && xs[i + l] == xs[i]
    ensures r.Err? ==> r.error == DuplicateNode
    ensures r.Ok? ==> |r.value| == |xs| - l
    ensures r.Ok? ==> forall i :: 0 <= i < |xs| - l ==>
      xs[i + l] != xs[i] && r.value[i] == (prev[i + 1] - prev[i]) / (xs[i + l] - xs[i])
  {
    var curr := [];
    var i := 0;
    while i < |xs| - l
      invariant 0 <= i <= |xs| - l
      invariant |curr| == i
      invariant forall i' :: 0 <= i' < i ==>
          xs[i' + l] != xs[i'] && curr[i'] == (prev[i' + 1] - prev[i']) / (xs[i' + l] - xs[i'])
    {
      var denom := xs[i + l] - xs[i];
      if denom == 0.0 {
        assert xs[i + l] == xs[i];
        return Err(DuplicateNode);
      }
      curr := curr + [(prev[i + 1] - prev[i]) / denom];
      i := i + 1;
    }
    return Ok(curr);
  }

  /** Appending a level that obeys the recurrence keeps the earlier levels valid. */
  lemma AppendLevel(xs: seq<real>, table: seq<seq<real>>, curr: seq<real>)
    requires 1 <= |table| <= |xs| && |xs| - |table| + 1 <= |table[|table| - 1]|
    requires forall l :: 1 <= l < |table| ==> DividedLevel(xs, table, l)
    requires |curr| == |xs| - |table|
    requires forall i :: 0 <= i < |xs| - |table| ==>
      xs[i + |table|] != xs[i] &&
      curr[i] == (table[|table| - 1][i + 1] - table[|table| - 1][i]) / (xs[i + |table|] - xs[i])
    ensures forall l :: 1 <= l < |table| + 1 ==> DividedLevel(xs, table + [curr], l)
  {
    var t := table + [curr];
    forall l | 1 <= l < |t|
      ensures DividedLevel(xs, t, l)
    {
      if l < |table| {
        assert DividedLevel(xs, table, l);
        assert t[l] == table[l] && t[l - 1] == table[l - 1];
      } else {
        assert t[l] == curr && t[l - 1] == table[l - 1];
      }
    }
  }

  /** Builds the table level by level.  Fails with DuplicateNode exactly when
      two abscissas coincide; otherwise the table has the triangular shape and
      every entry obeys the recurrence. */
  method DividedDifferences(xs: seq<real>, ys: seq<real>) returns (r: Result<seq<seq<real>>>)
    requires |xs| <= |ys|
    ensures r.Err? <==> !Distinct(xs)
    ensures r.Err? ==> r.error == DuplicateNode
    ensures r.Ok? ==> DividedTable(xs, ys, r.value)
  {
    var n := |xs|;
    var table := [ys];
    var lvl := 1;
    while lvl < n
      invariant 1 <= lvl <= (if n == 0 then 1 else n)
      invariant |table| == lvl
      invariant table[0] == ys
      invariant n - lvl + 1 <= |table[lvl - 1]|
      invariant forall l :: 1 <= l < lvl ==> |table[l]| == n - l
      invariant forall l :: 1 <= l < lvl ==> DividedLevel(xs, table, l)
    {
      var next := NextLevel(xs, table[lvl - 1], lvl);
      if next.Err? {
        return Err(DuplicateNode);
      }
      AppendLevel(xs, table, next.value);
      table := table + [next.value];
      lvl := lvl + 1;
    }
    DividedTableDistinct(xs, ys, table);
    return Ok(table);
  }

  /** The offsets (i, i + l) visited by the builder cover every pair of
      indices, so a table can only exist for distinct nodes. */
  lemma DividedTableDistinct(xs: seq<real>, ys: seq<real>, table: seq<seq<real>>)
    requires DividedTable(xs, ys, table)
    ensures Distinct(xs)
  {
    forall i, j | 0 <= i < |xs| && 0 <= j < |xs| && i != j
      ensures xs[i] != xs[j]
    {
      var a, b := if i < j then i else j, if i < j then j else i;
      assert DividedLevel(xs, table, b - a);
      assert xs[a + (b - a)] != xs[a];
    }
  }

  /** The divided difference f[xs[lo], ..., xs[hi-1]], by its defining recursion. */
  function DividedDifference(xs: seq<real>, ys: seq<real>, lo: nat, hi: nat): real
    requires Distinct(xs) && lo < hi <= |xs| <= |ys|
    decreases hi - lo
  {
    if hi - lo == 1 then ys[lo]
    else (DividedDifference(xs, ys, lo + 1, hi) - DividedDifference(xs, ys, lo, hi - 1))
         / (xs[hi - 1] - xs[lo])
  }

  /** Entry i of level l is the divided difference of nodes i .. i + l. */
  lemma {:induction false} TableEntry(xs: seq<real>, ys: seq<real>, table: seq<seq<real>>, l: nat, i: nat)
    requires DividedTable(xs, ys, table) && Distinct(xs)
    requires l < |xs| && i < |xs| - l
    ensures table[l][i] == DividedDifference(xs, ys, i, i + l + 1)
  {
    if l > 0 {
      assert DividedLevel(xs, table, l);
      TableEntry(xs, ys, table, l - 1, i);
      TableEntry(xs, ys, table, l - 1, i + 1);
    }
  }

  /** Every entry of a divided-difference table is the divided difference of the nodes it spans. */
  lemma DividedTableEntries(xs: seq<real>, ys: seq<real>, table: seq<seq<real>>)
    requires DividedTable(xs, ys, table)
    ensures Distinct(xs)
    ensures forall l, i :: 0 <= l < |xs| && 0 <= i < |xs| - l ==>
      table[l][i] == DividedDifference(xs, ys, i, i + l + 1)
  {
    DividedTableDistinct(xs, ys, table);
    forall l, i | 0 <= l < |xs| && 0 <= i < |xs| - l
      ensures table[l][i] == DividedDifference(xs, ys, i, i + l + 1)
    {
      TableEntry(xs, ys, table, l, i);
    }
  }

  /** The table is determined by xs and ys: the builder has only one possible answer. */
  lemma DividedTableUnique(xs: seq<real>, ys: seq<real>, t1: seq<seq<real>>, t2: seq<seq<real>>)
    requires DividedTable(xs, ys, t1) && DividedTable(xs, ys, t2)
    ensures t1 == t2
  {
    DividedTableEntries(xs, ys, t1);
    DividedTableEntries(xs, ys, t2);
    forall l | 0 <= l < |t1|
      ensures t1[l] == t2[l]
    {
      if l > 0 {
        assert |t1[l]| == |t2[l]|;
        forall i | 0 <= i < |t1[l]|
          ensures t1[l][i] == t2[l][i]
        {
          assert t1[l][i] == DividedDifference(xs, ys, i, i + l + 1);
        }
      }
    }
  }

  /** The share ys[i] / Weight(xs, i, lo, hi) of node i in the divided difference of the window [lo, hi). */
  function Share(xs: seq<real>, ys: seq<real>, i: nat, lo: nat, hi: nat): real
    requires Distinct(xs) && lo <= hi <= |xs| && i < |xs| <= |ys|
  {
    WeightNonZero(xs, i, lo, hi);
    ys[i] / Weight(xs, i, lo, hi)
  }

  /** The sum of the shares of nodes a <= i < b in the window [lo, hi). */
  function SymSum(xs: seq<real>, ys: seq<real>, lo: nat, hi: nat, a: nat, b: nat): real
    requires Distinct(xs) && lo <= hi <= |xs| && a <= b <= |xs| <= |ys|
    decreases b - a
  {
    if b == a then 0.0
    else SymSum(xs, ys, lo, hi, a, b - 1) + Share(xs, ys, b - 1, lo, hi)
  }

  /** The first term of a SymSum can be split off. */
  lemma {:induction false} SymSplitFirst(xs: seq<real>, ys: seq<real>, lo: nat, hi: nat, a: nat, b: nat)
    requires Distinct(xs) && lo <= hi <= |xs| && a < b <= |xs| <= |ys|
    ensures SymSum(xs, ys, lo, hi, a, b) == Share(xs, ys, a, lo, hi) + SymSum(xs, ys, lo, hi, a + 1, b)
    decreases b - a
  {
    if b - 1 > a {
      SymSplitFirst(xs, ys, lo, hi, a, b - 1);
    }
  }

  /** For a node strictly inside the window, its terms in the two sub-windows
      differ by the spread of the window times its term in the whole window. */
  lemma InteriorTerm(xs: seq<real>, ys: seq<real>, lo: nat, hi: nat, i: nat)
    requires Distinct(xs) && lo < i < hi - 1 && hi <= |xs| <= |ys|
    ensures Share(xs, ys, i, lo + 1, hi) - Share(xs, ys, i, lo, hi - 1)
         == (xs[hi - 1] - xs[lo]) * Share(xs, ys, i, lo, hi)
  {
    var w, w1, w2 := Weight(xs, i, lo, hi), Weight(xs, i, lo + 1, hi), Weight(xs, i, lo, hi - 1);
    WeightNonZero(xs, i, lo + 1, hi);
    WeightNonZero(xs, i, lo, hi - 1);
    DropFront(xs[i], xs, lo, hi, i);
    ShareScale(ys[i], w, w1, xs[i] - xs[lo]);
    ShareScale(ys[i], w, w2, xs[i] - xs[hi - 1]);
  }

  /** The interior terms summed: lo + 1 <= i < k. */
  lemma {:induction false} InteriorSum(xs: seq<real>, ys: seq<real>, lo: nat, hi: nat, k: nat)
    requires Distinct(xs) && lo + 1 <= k <= hi - 1 && hi <= |xs| <= |ys|
    ensures SymSum(xs, ys, lo + 1, hi, lo + 1, k) - SymSum(xs, ys, lo, hi - 1, lo + 1, k)
         == (xs[hi - 1] - xs[lo]) * SymSum(xs, ys, lo, hi, lo + 1, k)
    decreases k
  {
    if k > lo + 1 {
      InteriorSum(xs, ys, lo, hi, k - 1);
      InteriorTerm(xs, ys, lo, hi, k - 1);
    }
  }

  /** The last node of the window: its share without xs[lo] is the spread times its share in the window. */
  lemma LastShare(xs: seq<real>, ys: seq<real>, lo: nat, hi: nat)
    requires Distinct(xs) && lo + 2 <= hi <= |xs| <= |ys|
    ensures Share(xs, ys, hi - 1, lo + 1, hi) == (xs[hi - 1] - xs[lo]) * Share(xs, ys, hi - 1, lo, hi)
  {
    WeightNonZero(xs, hi - 1, lo + 1, hi);
    DropFront(xs[hi - 1], xs, lo, hi, hi - 1);
    ShareScale(ys[hi - 1], Weight(xs, hi - 1, lo, hi), Weight(xs, hi - 1, lo + 1, hi), xs[hi - 1] - xs[lo]);
  }

  /** The first node of the window: its share without xs[hi-1] is minus the
      spread times its share in the window. */
  lemma FirstShare(xs: seq<real>, ys: seq<real>, lo: nat, hi: nat)
    requires Distinct(xs) && lo + 2 <= hi <= |xs| <= |ys|
    ensures Share(xs, ys, lo, lo, hi - 1) == -((xs[hi - 1] - xs[lo]) * Share(xs, ys, lo, lo, hi))
  {
    WeightNonZero(xs, lo, lo, hi - 1);
    ShareScale(ys[lo], Weight(xs, lo, lo, hi), Weight(xs, lo, lo, hi - 1), xs[lo] - xs[hi - 1]);
  }

  /** The window without xs[lo]: interior shares plus the last node's. */
  lemma SplitUpper(xs: seq<real>, ys: seq<real>, lo: nat, hi: nat)
    requires Distinct(xs) && lo + 2 <= hi <= |xs| <= |ys|
    ensures SymSum(xs, ys, lo + 1, hi, lo + 1, hi)
         == SymSum(xs, ys, lo + 1, hi, lo + 1, hi - 1) + (xs[hi - 1] - xs[lo]) * Share(xs, ys, hi - 1, lo, hi)
  {
    LastShare(xs, ys, lo, hi);
  }

  /** The window without xs[hi-1]: the first node's share plus interior shares. */
  lemma SplitLower(xs: seq<real>, ys: seq<real>, lo: nat, hi: nat)
    requires Distinct(xs) && lo + 2 <= hi <= |xs| <= |ys|
    ensures SymSum(xs, ys, lo, hi - 1, lo, hi - 1)
         == SymSum(xs, ys, lo, hi - 1, lo + 1, hi - 1) - (xs[hi - 1] - xs[lo]) * Share(xs, ys, lo, lo, hi)
  {
    FirstShare(xs, ys, lo, hi);
    SymSplitFirst(xs, ys, lo, hi - 1, lo, hi - 1);
  }

  /** The whole window: first share, interior shares, last share. */
  lemma SplitWhole(xs: seq<real>, ys: seq<real>, lo: nat, hi: nat)
    requires Distinct(xs) && lo + 2 <= hi <= |xs| <= |ys|
    ensures SymSum(xs, ys, lo, hi, lo, hi)
         == Share(xs, ys, lo, lo, hi) + (SymSum(xs, ys, lo, hi, lo + 1, hi - 1) + Share(xs, ys, hi - 1, lo, hi))
  {
    SymSplitFirst(xs, ys, lo, hi, lo, hi);
  }

  /** The symmetric sums obey the divided-difference recursion. */
  lemma SymRecurrence(xs: seq<real>, ys: seq<real>, lo: nat, hi: nat)
    requires Distinct(xs) && lo + 2 <= hi <= |xs| <= |ys|
    ensures SymSum(xs, ys, lo + 1, hi, lo + 1, hi) - SymSum(xs, ys, lo, hi - 1, lo, hi - 1)
         == (xs[hi - 1] - xs[lo]) * SymSum(xs, ys, lo, hi, lo, hi)
  {
    InteriorSum(xs, ys, lo, hi, hi - 1);
    SplitUpper(xs, ys, lo, hi);
    SplitLower(xs, ys, lo, hi);
    SplitWhole(xs, ys, lo, hi);
    CollectTerms(SymSum(xs, ys, lo + 1, hi, lo + 1, hi), SymSum(xs, ys, lo, hi - 1, lo, hi - 1),
                 SymSum(xs, ys, lo, hi, lo, hi),
                 SymSum(xs, ys, lo + 1, hi, lo + 1, hi - 1), SymSum(xs, ys, lo, hi - 1, lo + 1, hi - 1),
                 SymSum(xs, ys, lo, hi, lo + 1, hi - 1),
                 Share(xs, ys, lo, lo, hi), Share(xs, ys, hi - 1, lo, hi),
                 xs[hi - 1] - xs[lo]);
  }

  /** The recursion of the symmetric sums, solved for the whole window. */
  lemma SymQuotient(xs: seq<real>, ys: seq<real>, lo: nat, hi: nat)
    requires Distinct(xs) && lo + 2 <= hi <= |xs| <= |ys|
    ensures xs[hi - 1] - xs[lo] != 0.0
    ensures (SymSum(xs, ys, lo + 1, hi, lo + 1, hi) - SymSum(xs, ys, lo, hi - 1, lo, hi - 1)) / (xs[hi - 1] - xs[lo])
         == SymSum(xs, ys, lo, hi, lo, hi)
  {
    var upper, lower := SymSum(xs, ys, lo + 1, hi, lo + 1, hi), SymSum(xs, ys, lo, hi - 1, lo, hi - 1);
    SymRecurrence(xs, ys, lo, hi);
    assert xs[hi - 1] != xs[lo];
    Cancel(upper, lower, upper, lower, SymSum(xs, ys, lo, hi, lo, hi), xs[hi - 1] - xs[lo]);
  }

  /** The closed form for a single node: its share is its ordinate. */
  lemma SymmetricBase(xs: seq<real>, ys: seq<real>, lo: nat)
    requires Distinct(xs) && lo < |xs| <= |ys|
    ensures DividedDifference(xs, ys, lo, lo + 1) == SymSum(xs, ys, lo, lo + 1, lo, lo + 1)
  {
    assert NodeProduct(xs[lo], xs, lo, lo, lo) == 1.0;
    assert Weight(xs, lo, lo, lo + 1) == 1.0;
    assert SymSum(xs, ys, lo, lo + 1, lo, lo + 1) == 0.0 + Share(xs, ys, lo, lo, lo + 1);
  }

  /** The divided difference equals the symmetric sum of ys[i] over the weights
      of its window: the closed form that shows it does not depend on the order
      the recursion takes. */
  lemma {:induction false} DividedDifferenceSymmetric(xs: seq<real>, ys: seq<real>, lo: nat, hi: nat)
    requires Distinct(xs) && lo < hi <= |xs| <= |ys|
    ensures DividedDifference(xs, ys, lo, hi) == SymSum(xs, ys, lo, hi, lo, hi)
    decreases hi - lo
  {
    if hi - lo == 1 {
      SymmetricBase(xs, ys, lo);
    } else {
      DividedDifferenceSymmetric(xs, ys, lo + 1, hi);
      DividedDifferenceSymmetric(xs, ys, lo, hi - 1);
      SymQuotient(xs, ys, lo, hi);
      Substitute(DividedDifference(xs, ys, lo, hi),
                 DividedDifference(xs, ys, lo + 1, hi), DividedDifference(xs, ys, lo, hi - 1),
                 SymSum(xs, ys, lo + 1, hi, lo + 1, hi), SymSum(xs, ys, lo, hi - 1, lo, hi - 1),
                 xs[hi - 1] - xs[lo], SymSum(xs, ys, lo, hi, lo, hi));
    }
  }
}
