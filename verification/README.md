# Interpolation core, modelled in Dafny

This project models the numerical core of a small interpolation tool. The
core consists of the functions in `methods.py` and the pair sort in `util.py`:

- **Lagrange's formula.** `lagrange_interpolate` evaluates the interpolant
  directly.
- **Divided differences.** `divided_differences` builds the triangular table,
  and `newton_divided` evaluates Newton's form on the table's leading column.
- **Finite differences.** `finite_differences` builds the table of forward
  differences.
- **The equal-spacing check.** `is_equally_spaced` decides whether the grid is
  regular and returns the step.
- **Newton's finite-difference formulas.** `newton_forward` and
  `newton_backward` evaluate the formulas, and `newton_finite` rejects
  irregular grids and picks the formula anchored at the nearer end.
- **The pair sort.** `sort_together` sorts the abscissas ascending and carries
  each ordinate with its abscissa.

Floating-point numbers become Dafny `real`s. The library's exceptions become
an `Outcomes.Result` value with four error kinds:

- `DuplicateNode`: a zero denominator because two abscissas coincide.
- `IrregularGrid`: the grid was rejected as irregular.
- `ZeroStep`: the grid passed the spacing check with step 0.
- `LengthMismatch`: the sort's two lists differ in length.

Every loop is a method. Its `ensures` ties the result to an independent
reference definition, either recursive (the Lagrange sum, the forward and
backward sums) or a quantified predicate (the table shapes and recurrences,
the gap condition). The mathematical properties are lemmas about
those definitions. The central ones are:

- the divided difference equals its symmetric closed form, the sum of
  `ys[i] / prod_{j != i} (xs[i] - xs[j])`;
- hence, for distinct nodes, Newton's divided-difference form and Lagrange's
  form are the same polynomial, and both are exact at the nodes.

Modules, in dependency order:

| module | file | contents |
|---|---|---|
| `Outcomes` | outcomes.dfy | error kinds, `Result` |
| `RealArith` | arith.dfy | small field identities used as proof steps |
| `NodeProducts` | node_products.dfy | node polynomial, barycentric weights, `Distinct` |
| `LagrangeForm` | lagrange.dfy | Lagrange basis and sum, the evaluator, exactness |
| `DividedTables` | divided.dfy | divided-difference table, its recursion and closed form |
| `NewtonDividedForm` | newton_divided.dfy | Newton form, evaluator, equality with Lagrange |
| `FiniteTables` | finite.dfy | finite-difference table |
| `Spacing` | spacing.dfy | the equal-spacing check |
| `FiniteNewton` | newton_finite.dfy | forward and backward formulas, the dispatcher |
| `PairSort` | pair_sort.dfy | stable sort of (x, y) pairs by x |

## Model

| member | source | states |
|---|---|---|
| LagrangeForm.BasisTerm | methods.py:5-11 | The term of node i is ys[i] times the product of (x - xs[j]) / (xs[i] - xs[j]) over the other nodes. It fails with DuplicateNode exactly when some other node has the abscissa xs[i]. |
| LagrangeForm.LagrangeInterpolate | methods.py:1-13 | Fails with DuplicateNode exactly when two abscissas coincide. Otherwise it returns the full Lagrange sum over all nodes. |
| LagrangeForm.BasisAtNode | methods.py:6-11 | At node k the basis product of node k is 1. The basis product of any other node i vanishes once it includes node k's factor. |
| LagrangeForm.LagrangeExact | methods.py:1-13 | With distinct nodes the Lagrange interpolant at xs[k] is ys[k]: the interpolant passes through every sample. |
| LagrangeForm.BasisRatio | methods.py:6-11 | Node i's basis product times its weight prod (xs[i] - xs[j]) equals the node polynomial with factor i left out. |
| DividedTables.NextLevel | methods.py:20-27 | One level of the table. Fails with DuplicateNode exactly when some pair of nodes lvl apart coincides. Otherwise it has n - lvl entries, each the difference of two neighbours of the previous level divided by xs[i+lvl] - xs[i]. |
| DividedTables.DividedDifferences | methods.py:16-28 | Fails with DuplicateNode exactly when the abscissas are not distinct. Otherwise it returns max(n, 1) levels: level 0 is ys, and level l has n - l entries that obey the recurrence. |
| DividedTables.DividedTableDistinct | methods.py:19-25 | The pairs (i, i + lvl) the builder checks cover every pair of indices, so a completed table implies distinct nodes. |
| DividedTables.DividedTableEntries | methods.py:16-28 | Entry i of level l is the divided difference f[xs[i], ..., xs[i+l]] given by its defining recursion. |
| DividedTables.DividedTableUnique | methods.py:16-28 | Any two tables satisfying the shape and recurrence for the same xs and ys are equal, so the builder's answer is determined by its inputs. |
| DividedTables.DividedDifferenceSymmetric | methods.py:22-26 | The recursive divided difference over nodes lo..hi-1 equals the symmetric sum of ys[i] / prod_{j != i} (xs[i] - xs[j]) over the window. |
| NewtonDividedForm.NewtonDivided | methods.py:31-38 | Fails with DuplicateNode exactly when the abscissas are not distinct. Otherwise it returns the divided-difference table and a value equal to the Lagrange interpolant. That value is ys[k] at every node xs[k], and with no abscissas it is ys[0]. |
| NewtonDividedForm.LagrangeExtend | methods.py:4-12 | Adding node m to the Lagrange sum adds the node polynomial of the first m nodes times the closed-form divided difference of the first m + 1 nodes. |
| NewtonDividedForm.NewtonPrefix | methods.py:33-37 | The first m terms of the Newton form over a divided-difference table equal the Lagrange interpolant of the first m samples. |
| NewtonDividedForm.NewtonEqualsLagrange | methods.py:31-38 | For any table satisfying the divided-difference recurrence, the nodes are distinct and the Newton form equals Lagrange's form at every x. |
| FiniteTables.FiniteDifferences | methods.py:41-49 | Never fails. Returns max(len(ys), 1) levels: level 0 is ys, level k has len(ys) - k entries, each the difference of two neighbours of the level before. For non-empty ys the last level has one entry. |
| FiniteTables.FiniteEntries | methods.py:43-48 | Entry i of level k is the k-th forward difference of ys at i, as given by its defining recursion. |
| FiniteTables.FiniteTableUnique | methods.py:41-49 | Any two tables satisfying the finite-difference shape and recurrence for the same ys are equal. |
| Spacing.IsEquallySpaced | methods.py:52-59 | Reports regular exactly when there are at least two abscissas and every gap xs[i] - xs[i-1] with i >= 2, in the given order, is within tol (default 1e-9) of xs[1] - xs[0]. The step is 0 below two abscissas and xs[1] - xs[0] otherwise. |
| FiniteNewton.ForwardEval | methods.py:65-71 | The loop's running product and factorial sum to the forward formula: ys[0] plus t(t-1)...(t-k+1)/k! times table[k][0] for 1 <= k < n. |
| FiniteNewton.NewtonForward | methods.py:62-72 | Fails with ZeroStep exactly when h is 0. Otherwise it returns the finite-difference table and the forward formula at t = (x - xs[0]) / h, which is ys[0] when x is xs[0]. |
| FiniteNewton.ForwardAtOrigin | methods.py:64-71 | At t = 0 every falling product of positive length vanishes, so the forward formula is its first entry. |
| FiniteNewton.BackwardEval | methods.py:78-84 | The loop's running product and factorial sum to the backward formula: the last ordinate plus t(t+1)...(t+k-1)/k! times the last entry of level k. |
| FiniteNewton.NewtonBackward | methods.py:75-85 | Fails with ZeroStep exactly when h is 0. Otherwise it returns the table and the backward formula at t = (x - xs[-1]) / h, which is the last ordinate when x is the last abscissa. |
| FiniteNewton.BackwardAtEnd | methods.py:77-84 | At t = 0 every rising product of positive length vanishes, so the backward formula is the last entry of level 0. |
| FiniteNewton.NewtonFinite | methods.py:88-100 | Fails with IrregularGrid exactly when the spacing check fails (so always below two nodes), and with ZeroStep exactly when the grid passes with xs[1] == xs[0]. Otherwise it picks forward exactly when \|x - xs[0]\| <= \|x - xs[-1]\|, so a tie goes forward, and returns that formula's value with step xs[1] - xs[0], the table and the direction. The value is ys[0] at xs[0], and on the backward branch the last ordinate at the last abscissa. |
| PairSort.Insert | util.py:23 | Insertion into a sorted list adds exactly the new pair: the multiset grows by that pair and the length by one. |
| PairSort.InsertSorted | util.py:23 | Insertion keeps the list sorted by abscissa. |
| PairSort.InsertKeyClass | util.py:23 | Insertion places the new pair in front of the pairs of its own key. The pairs of every other key are untouched. |
| PairSort.StableSort | util.py:23 | The sort returns a permutation of its input, ordered by abscissa. |
| PairSort.StableSortKeyClass | util.py:23 | The sort is stable: for every key, the pairs with that key keep their original relative order. |
| PairSort.SortTogether | util.py:19-25 | Fails with LengthMismatch exactly when the lists differ in length. Otherwise both outputs keep the input length, the abscissas come out ascending, the multiset of (x, y) pairs is unchanged, and pairs with equal x keep their input order. |

## Left out

- **Other repository files.** `UI.py`, `main.py`, `functions.py` and
  `load_csv` in `util.py` are not part of this model. They are the GUI, the
  entry point, the sample functions and CSV file reading, all I/O.
- **Floating point.** Arithmetic is exact real arithmetic. IEEE rounding, NaN
  and infinities are not modelled. As a result:
  - an `==` test on a denominator is exact;
  - the 1e-9 tolerance is compared against exact gaps.
- **Node and ordinate counts.** The source never compares the lengths of `xs`
  and `ys`. Where the model's operations read both lists, they require
  `|xs| <= |ys|`, a condition under which the source reads no index out of
  range. `finite_differences` and `is_equally_spaced` take one list and have no
  such requirement.
  - The finite-difference formulas ask for `|xs| <= |ys|` only on the path
    that reads `ys`. `newton_forward` and `newton_backward` need it only for a
    nonzero step, because a zero step fails first (methods.py:64, :77).
    `newton_finite` needs it only for a regular grid with a nonzero step,
    because an irregular grid fails first (methods.py:89-91). So
    `newton_finite(x, [0], [])` and `newton_finite(x, [0, 1, 3], [1])` give
    IrregularGrid, and `newton_finite(x, [0, 0], [1])` gives ZeroStep, as in
    the source.
  - Elsewhere a shorter `ys` makes the source raise IndexError, or
    ZeroDivisionError when a duplicate node is met first, as in
    `lagrange_interpolate(x, [1, 1], [5])`.
  - Some such inputs succeed in the source and are excluded by the model:
    `divided_differences([a], [])` returns `[[]]`.
  - A longer `ys` is modelled literally: level 0 of each table is all of `ys`,
    and the backward formula's anchor ordinate is the last element of `ys`.
  - `newton_divided` additionally needs one ordinate, because it reads
    `table[0][0]`.
  - `newton_forward` and `newton_backward` need one abscissa, because they
    read `xs[0]` and `xs[-1]`.
- **Order of the abscissas in the spacing check.** `is_equally_spaced` does
  not sort. It takes the gaps in the given order, so a descending grid such as
  `[2, 1, 0]` passes with the negative step -1. The model does the same.
- **The tolerance argument.** `is_equally_spaced` takes an optional `tol`.
  `Spacing.IsEquallySpaced` has the same parameter with the same default 1e-9.
  `newton_finite` passes no tolerance (methods.py:89), so
  `FiniteNewton.NewtonFinite` states its contract for the default.
- **Zero step.** In the source, a grid that passes the spacing check with step
  0 divides by zero in `newton_forward` and `newton_backward`. The model
  reports this as the `ZeroStep` error, not as a precondition.
- FiniteNewton.NewtonForward: is not proved equal to the Lagrange interpolant
  on an exactly uniform grid. Doing so needs Δ^k y = k! h^k f[x_0..x_k], and
  those nonlinear real-arithmetic proofs are too costly for the verifier. The
  contract states the formula the code evaluates instead.
- FiniteNewton.NewtonBackward: is not proved equal to the Lagrange
  interpolant, for the same reason.
- **Factorial.** Python computes the factorial as an exact integer. Here it is
  an exact real of the same value, and `prod / fact` is real division.
- **Input immutability.** The source copies `ys` into level 0 and never
  mutates its arguments. Dafny sequences are values, so this holds without a
  separate statement.
- **The key function.** `sort_together`'s key is `p[0]`. Python's sort is
  stable, and the model states stability as key-class preservation. Only the
  abscissa is compared, so ties are never broken by the ordinate.
