/** The forward finite-difference table: level 0 is the ordinates and each
    later level holds the differences of neighbouring entries of the level
    before, until a level has a single entry. */
module FiniteTables {

  /** Level k (k >= 1) of a table is the neighbour differences of level k-1. */
  predicate FiniteLevel(table: seq<seq<real>>, k: nat)
    requires 1 <= k < |table|
  {
    && |table[k]| + 1 == |table[k - 1]|
    && forall i :: 0 <= i < |table[k]| ==> table[k][i] == table[k - 1][i + 1] - table[k - 1][i]
  }

  /** The shape and recurrence of the finite-difference table of ys:
      max(|ys|, 1) levels, the ordinates first, level k holding |ys| - k
      entries, and every later level the differences of the one before. */
  predicate FiniteTable(ys: seq<real>, table: seq<seq<real>>) {
    && |table| == (if |ys| == 0 then 1 else |ys|)
    && table[0] == ys
    && (forall k :: 0 <= k < |table| ==> |table[k]| == |ys| - k)
    && (forall k :: 1 <= k < |table| ==> FiniteLevel(table, k))
  }

  /** Builds the table; it never fails, and for non-empty ordinates its last
      level has exactly one entry. */
  method FiniteDifferences(ys: seq<real>) returns (table: seq<seq<real>>)
    ensures FiniteTable(ys, table)
    ensures |ys| > 0 ==> |table[|table| - 1]| == 1
  {
    table := [ys];
    while |table[|table| - 1]| > 1
      invariant 1 <= |table| <= (if |ys| == 0 then 1 else |ys|)
      invariant table[0] == ys
      invariant forall k :: 0 <= k < |table| ==> |table[k]| == |ys| - k
      invariant forall k :: 1 <= k < |table| ==> FiniteLevel(table, k)
      decreases |table[|table| - 1]|
    {
      var prev := table[|table| - 1];
      var lst := [];
      var i := 0;
      while i < |prev| - 1
        invariant 0 <= i <= |prev| - 1
        invariant |lst| == i
        invariant forall i' :: 0 <= i' < i ==> lst[i'] == prev[i' + 1] - prev[i']
      {
        lst := lst + [prev[i + 1] - prev[i]];
        i := i + 1;
      }
      AppendFiniteLevel(table, lst);
      table := table + [lst];
    }
  }

  /** Appending the differences of the last level keeps every level valid. */
  lemma AppendFiniteLevel(table: seq<seq<real>>, lst: seq<real>)
    requires 1 <= |table| && |lst| + 1 == |table[|table| - 1]|
    requires forall k :: 1 <= k < |table| ==> FiniteLevel(table, k)
    requires forall i :: 0 <= i < |lst| ==> lst[i] == table[|table| - 1][i + 1] - table[|table| - 1][i]
    ensures forall k :: 1 <= k < |table| + 1 ==> FiniteLevel(table + [lst], k)
  {
    var t := table + [lst];
    forall k | 1 <= k < |t|
      ensures FiniteLevel(t, k)
    {
      if k < |table| {
        assert FiniteLevel(table, k);
        assert t[k] == table[k] && t[k - 1] == table[k - 1];
      } else {
        assert t[k] == lst && t[k - 1] == table[k - 1];
      }
    }
  }

  /** Two tables of the same ordinates agree on level k: by induction on the
      level, every level is fixed by the one before. */
  lemma {:induction false} FiniteLevelsAgree(ys: seq<real>, t1: seq<seq<real>>, t2: seq<seq<real>>, k: nat)
    requires FiniteTable(ys, t1) && FiniteTable(ys, t2) && k < |t1|
    ensures t1[k] == t2[k]
  {
    if k > 0 {
      FiniteLevelsAgree(ys, t1, t2, k - 1);
      assert FiniteLevel(t1, k) && FiniteLevel(t2, k);
    }
  }

  /** The table is determined by ys: the builder has only one possible answer. */
  lemma FiniteTableUnique(ys: seq<real>, t1: seq<seq<real>>, t2: seq<seq<real>>)
    requires FiniteTable(ys, t1) && FiniteTable(ys, t2)
    ensures t1 == t2
  {
    forall k | 0 <= k < |t1|
      ensures t1[k] == t2[k]
    {
      FiniteLevelsAgree(ys, t1, t2, k);
    }
  }

  /** The k-th forward difference of ys at position i, straight from its definition. */
  function Difference(ys: seq<real>, k: nat, i: nat): real
    requires i + k < |ys|
  {
    if k == 0 then ys[i] else Difference(ys, k - 1, i + 1) - Difference(ys, k - 1, i)
  }

  /** Every entry of the table is the forward difference of its order and position. */
  lemma {:induction false} FiniteEntries(ys: seq<real>, table: seq<seq<real>>, k: nat, i: nat)
    requires FiniteTable(ys, table) && i + k < |ys|
    ensures k < |table| && i < |table[k]|
    ensures table[k][i] == Difference(ys, k, i)
  {
    if k > 0 {
      FiniteEntries(ys, table, k - 1, i + 1);
      FiniteEntries(ys, table, k - 1, i);
      assert FiniteLevel(table, k);
    }
  }
}
