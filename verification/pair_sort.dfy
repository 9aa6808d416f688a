/** Sorting two parallel lists together: the (x, y) pairs are ordered by x
    with a stable sort, so each y stays with its x and pairs with equal x keep
    their original relative order. */
module PairSort {
  import opened Outcomes

  type Pair = (real, real)

  /** The x components never decrease. */
  predicate Ascending(xs: seq<real>) {
    forall i, j :: 0 <= i < j < |xs| ==> xs[i] <= xs[j]
  }

  /** The pairs are ordered by their x component. */
  predicate SortedByKey(s: seq<Pair>) {
    forall i, j :: 0 <= i < j < |s| ==> s[i].0 <= s[j].0
  }

  /** The subsequence of pairs whose x component is k, in their order in s.
      A sort is stable exactly when it leaves every such subsequence unchanged. */
  function KeyClass(s: seq<Pair>, k: real): seq<Pair> {
    if s == [] then []
    else (if s[0].0 == k then [s[0]] else []) + KeyClass(s[1..], k)
  }

  /** Putting a pair in front adds it to its own key class only. */
  lemma KeyClassCons(p: Pair, s: seq<Pair>, k: real)
    ensures KeyClass([p] + s, k) == (if p.0 == k then [p] else []) + KeyClass(s, k)
  {
    assert ([p] + s)[1..] == s;
  }

  /** Every pair of s has key at least b. */
  predicate KeysAtLeast(s: seq<Pair>, b: real) {
    forall i :: 0 <= i < |s| ==> b <= s[i].0
  }

  /** Inserts p in front of the first pair whose key is not below its own. */
  function Insert(p: Pair, s: seq<Pair>): (r: seq<Pair>)
    requires SortedByKey(s)
    ensures |r| == |s| + 1
    ensures multiset(r) == multiset(s) + multiset{p}
  {
    if s == [] then [p]
    else if p.0 <= s[0].0 then [p] + s
    else
      assert s == [s[0]] + s[1..];
      [s[0]] + Insert(p, s[1..])
  }

  /** A lower bound on the keys of s and of p bounds the keys after insertion. */
  lemma {:induction false} InsertBound(p: Pair, s: seq<Pair>, b: real)
    requires SortedByKey(s) && KeysAtLeast(s, b) && b <= p.0
    ensures KeysAtLeast(Insert(p, s), b)
  {
    if s != [] && p.0 > s[0].0 {
      InsertBound(p, s[1..], b);
    }
  }

  /** Insertion into a sorted sequence keeps it sorted. */
  lemma {:induction false} InsertSorted(p: Pair, s: seq<Pair>)
    requires SortedByKey(s)
    ensures SortedByKey(Insert(p, s))
  {
    if s != [] && p.0 > s[0].0 {
      var rest := Insert(p, s[1..]);
      InsertSorted(p, s[1..]);
      InsertBound(p, s[1..], s[0].0);
      assert Insert(p, s) == [s[0]] + rest;
    }
  }

  /** Insertion is stable: p joins its key class in front of the pairs of s
      with the same key, and every other key class is untouched. */
  lemma {:induction false} InsertKeyClass(p: Pair, s: seq<Pair>, k: real)
    requires SortedByKey(s)
    ensures KeyClass(Insert(p, s), k) == (if p.0 == k then [p] else []) + KeyClass(s, k)
  {
    if s == [] {
      KeyClassCons(p, s, k);
    } else if p.0 <= s[0].0 {
      KeyClassCons(p, s, k);
    } else {
      var rest := Insert(p, s[1..]);
      var tail := KeyClass(s[1..], k);
      assert Insert(p, s) == [s[0]] + rest;
      InsertKeyClass(p, s[1..], k);
      KeyClassCons(s[0], rest, k);
      KeyClassCons(s[0], s[1..], k);
      assert s == [s[0]] + s[1..];
      if p.0 == k {
        assert s[0].0 != k;
        assert KeyClass(Insert(p, s), k) == [p] + tail;
        assert KeyClass(s, k) == tail;
      } else {
        assert KeyClass(rest, k) == tail;
      }
    }
  }

  /** Stable insertion sort of the pairs by key. */
  function StableSort(s: seq<Pair>): (r: seq<Pair>)
    ensures |r| == |s|
    ensures SortedByKey(r)
    ensures multiset(r) == multiset(s)
  {
    if s == [] then []
    else
      assert s == [s[0]] + s[1..];
      InsertSorted(s[0], StableSort(s[1..]));
      Insert(s[0], StableSort(s[1..]))
  }

  /** The sort keeps every key class in its original order: it is stable. */
  lemma {:induction false} StableSortKeyClass(s: seq<Pair>, k: real)
    ensures KeyClass(StableSort(s), k) == KeyClass(s, k)
  {
    if s != [] {
      StableSortKeyClass(s[1..], k);
      InsertKeyClass(s[0], StableSort(s[1..]), k);
      KeyClassCons(s[0], s[1..], k);
      assert s == [s[0]] + s[1..];
    }
  }

  /** Pairs the lists positionally. */
  function Zip(xs: seq<real>, ys: seq<real>): (r: seq<Pair>)
    requires |xs| == |ys|
    ensures |r| == |xs|
    ensures forall i :: 0 <= i < |r| ==> r[i] == (xs[i], ys[i])
  {
    if xs == [] then [] else [(xs[0], ys[0])] + Zip(xs[1..], ys[1..])
  }

  function Firsts(s: seq<Pair>): (r: seq<real>)
    ensures |r| == |s| && forall i :: 0 <= i < |s| ==> r[i] == s[i].0
  {
    seq(|s|, i requires 0 <= i < |s| => s[i].0)
  }

  function Seconds(s: seq<Pair>): (r: seq<real>)
    ensures |r| == |s| && forall i :: 0 <= i < |s| ==> r[i] == s[i].1
  {
    seq(|s|, i requires 0 <= i < |s| => s[i].1)
  }

  /** Sorts xs ascending and permutes ys the same way.  Fails with
      LengthMismatch exactly when the lists differ in length; otherwise both
      results keep the input length, xs comes out ascending, the multiset of
      (x, y) pairs is unchanged, and pairs with equal x keep their order. */
  function SortTogether(xs: seq<real>, ys: seq<real>): (r: Result<(seq<real>, seq<real>)>)
    ensures r.Err? <==> |xs| != |ys|
    ensures r.Err? ==> r.error == LengthMismatch
    ensures r.Ok? ==> |r.value.0| == |xs| && |r.value.1| == |ys|
    ensures r.Ok? ==> Ascending(r.value.0)
    ensures r.Ok? ==> multiset(Zip(r.value.0, r.value.1)) == multiset(Zip(xs, ys))
    ensures r.Ok? ==> forall k :: KeyClass(Zip(r.value.0, r.value.1), k) == KeyClass(Zip(xs, ys), k)
  {
    if |xs| != |ys| then Err(LengthMismatch)
    else
      var sorted := StableSort(Zip(xs, ys));
      var xs', ys' := Firsts(sorted), Seconds(sorted);
      assert Zip(xs', ys') == sorted;
      assert forall k :: KeyClass(sorted, k) == KeyClass(Zip(xs, ys), k) by {
        forall k
          ensures KeyClass(sorted, k) == KeyClass(Zip(xs, ys), k)
        {
          StableSortKeyClass(Zip(xs, ys), k);
        }
      }
      Ok((xs', ys'))
  }
}
