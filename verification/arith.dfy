/** Field identities over `real` that the interpolation proofs use as single steps. */
module RealArith {

  /** A nonzero quotient of a difference by itself is one. */
  lemma DivSelf(a: real, b: real)
    requires a != b
    ensures (a - b) / (a - b) == 1.0
  {
  }

  /** Dividing by w equals dividing by w * c and multiplying back by c. */
  lemma DivMul(y: real, w: real, c: real)
    requires w != 0.0 && c != 0.0
    ensures y / w == (y / (w * c)) * c
  {
  }

  /** Adding node xm to the Lagrange term of node xi (basis b, weight w,
      b * w == e): with the extended basis b1 and weight w1, the change of the
      term is the node polynomial p == e * (x - xi) times the term's share
      y / w1 of the new divided difference. */
  lemma ExtendTerm(y: real, b: real, b1: real, w: real, w1: real, e: real, p: real, share: real,
                    x: real, xi: real, xm: real)
    requires w != 0.0 && xi != xm && b * w == e
    requires b1 == b * ((x - xm) / (xi - xm))
    requires w1 == w * (xi - xm)
    requires p == e * (x - xi)
    requires share == y / w1
    ensures y * b1 - y * b == p * share
  {
  }

  /** If b * w == p then y * b is p times y / w. */
  lemma LastTerm(y: real, b: real, w: real, p: real)
    requires w != 0.0 && b * w == p
    ensures y * b == p * (y / w)
  {
  }

  /** If w == w1 * c, dividing by w1 is c times dividing by w. */
  lemma ShareScale(y: real, w: real, w1: real, c: real)
    requires w1 != 0.0 && c != 0.0 && w == w1 * c
    ensures y / w1 == c * (y / w)
  {
    DivMul(y, w1, c);
  }

  /** If a and b equal two quantities whose difference is d times s, then
      (a - b) / d is s.  The equal pairs a, a' and b, b' carry no meaning of
      their own: they let a caller hand over the two syntactic forms of each
      term, so the substitution happens here rather than inside the caller's
      nonlinear context. */
  lemma Cancel(a: real, b: real, a': real, b': real, s: real, d: real)
    requires d != 0.0 && a == a' && b == b' && a' - b' == d * s
    ensures (a - b) / d == s
  {
  }

  /** A quotient of a difference is unchanged when both terms are replaced by
      equal ones.  As in Cancel, the pairs a, a' and b, b' are the two
      syntactic forms of one value each, passed so the substitution inside the
      quotient is done here. */
  lemma Substitute(q: real, a: real, b: real, a': real, b': real, d: real, s: real)
    requires d != 0.0 && q == (a - b) / d && a == a' && b == b' && (a' - b') / d == s
    ensures q == s
  {
  }

  /** Multiplying b by f / g and w by g multiplies b * w by f. */
  lemma ScaleStep(b: real, w: real, f: real, g: real)
    requires g != 0.0
    ensures (b * (f / g)) * (w * g) == (b * w) * f
  {
  }

  /** Collecting the boundary and interior terms of the divided-difference
      recursion on shares: a and b are the sums over the two sub-windows, s the
      sum over the whole window, d the spread of the window. */
  lemma CollectTerms(a: real, b: real, s: real, aMid: real, bMid: real, sMid: real,
                     first: real, last: real, d: real)
    requires a == aMid + d * last
    requires b == bMid - d * first
    requires s == first + (sMid + last)
    requires aMid - bMid == d * sMid
    ensures a - b == d * s
  {
  }
}
