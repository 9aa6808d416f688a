/** Failure kinds of the interpolation library and the result wrapper that
    replaces the exceptions the library raises. */
module Outcomes {

  /** Why an operation gave no value.
      - DuplicateNode: two abscissas coincide, so a Lagrange or divided-difference
        denominator is zero.
      - IrregularGrid: the abscissas are not equally spaced (or fewer than two).
      - ZeroStep: the grid passed the spacing check with step 0, so the
        finite-difference variable t cannot be formed.
      - LengthMismatch: the abscissa and ordinate lists differ in length. */
  datatype Error = DuplicateNode | IrregularGrid | ZeroStep | LengthMismatch

  /** Either a value or the error that stopped the computation. */
  datatype Result<+T> = Ok(value: T) | Err(error: Error)
}
