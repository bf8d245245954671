# Gauss quadrature from recurrence coefficients (orthopy `schemes`)

This project models the part of orthopy's `orthopy/schemes.py` that turns
the three-term recurrence coefficients `alpha`, `beta` of a family of
orthogonal polynomials into a Gauss quadrature rule by the Golub-Welsch
method:

- `custom` dispatches on a mode string to one of three backends:
  symbolic (`'sympy'`), arbitrary precision (`'mpmath'`, the default, at
  32 decimal places) and floating point (`'numpy'`). Any other string
  fails an assertion.
- `_sympy_tridiag` builds the symmetric tridiagonal Jacobi matrix with
  `a[i]` on the diagonal and `b[i+1]` beside it. `b[0]` is never used.
- The symbolic backend feeds the Jacobi matrix of `alpha` and
  `sqrt(beta)` to the eigensolver. It rejects any eigenvalue that is not
  simple or has more than one eigenvector. Each item yields a node (the
  eigenvalue) and a weight `beta[0] * v_0^2 / |v|^2`. Nodes and weights are
  then both reordered by a stable sort on the nodes.
- The arbitrary-precision backend fills the off-diagonal vector
  `sqrt(beta[i+1])` (with a trailing 0) in a loop and sets the start row
  `z` to the first unit vector. It runs `tridiag_eigen` and weighs each
  eigenvalue by `beta[0] * z_k^2`.
- The floating-point backend stacks `sqrt(beta)` over `alpha` into a LAPACK
  upper band array, runs `eig_banded`, and weighs each eigenvalue by
  `beta[0]` times the square of the first row of the eigenvector matrix.

The eigensolvers and the square root are not modelled. They are the
fields of a `Library` value passed to every backend (`QuadratureTypes`).
The mpmath precision is passed explicitly to `tridiagEigen` instead of
being set globally. An assertion failure or index error of the source is a
`Failure(error)` result.

Modules, in dependency order:
- `QuadratureTypes`: errors, results, rules, eigen-items, the library;
- `Weights`: squared norm and weight formulas;
- `Jacobi`: the Jacobi matrix and its three encodings;
- `NodeOrder`: the stable sort by node;
- `Eigenpairs`: the loop over eigen-items;
- `Schemes`: the backends and `custom`.

What the code guarantees, and so what the model proves:
- Only the symbolic backend sorts. The mpmath and numpy backends return
  the solver's order, so sortedness and stability are proved for the
  symbolic backend only.
- The code does not enforce positive weights or a weight sum of
  `beta[0]`. The model proves `0 <= w <= beta[0]` (symbolic) and `w >= 0`
  (mpmath and numpy) for `beta[0] >= 0`.
- The symbolic backend asserts both that each eigenvalue is simple and
  that its eigenspace is one-dimensional. Both asserts are modelled.

## Model

| member | source | states |
|---|---|---|
| Schemes.Custom | orthopy/schemes.py:13-26 | `'sympy'`, `'mpmath'` and `'numpy'` each run their own backend (the mpmath one with the given precision); any other mode string ends in `UnknownMode`; the defaults are `"mpmath"` and 32 |
| Schemes.ParseMode | orthopy/schemes.py:19-24 | the backend a mode string selects; a selected backend's name is the string itself. `ParseModeName` proves the converse |
| Schemes.ParseModeName | orthopy/schemes.py:19-24 | a mode string selects backend `m` exactly when it is `m`'s name, and selects none exactly when it is none of the three names |
| Schemes.DefaultsSelectMpmath | orthopy/schemes.py:13 | the default mode selects the arbitrary-precision backend, and the default precision is 32 |
| Jacobi.SympyTridiag | orthopy/schemes.py:29-40 | unequal lengths fail with `LengthMismatch`; otherwise the two loops over an n-by-n zero array leave exactly the matrix `Tridiag(a, b)` |
| Jacobi.Tridiag | orthopy/schemes.py:32-34 | the matrix is n-by-n with n = `len(a)` |
| Jacobi.TridiagEntries | orthopy/schemes.py:35-39 | `A[i][i] = a[i]` and `A[i][i+1] = A[i+1][i] = b[i+1]` |
| Jacobi.TridiagIsSymmetricTridiagonal | orthopy/schemes.py:34-39 | the matrix is symmetric and every entry more than one place off the diagonal is 0 |
| Jacobi.TridiagIgnoresFirstOffDiagonal | orthopy/schemes.py:37-39 | changing `b[0]` does not change the matrix |
| Jacobi.NumpyBandIsJacobi | orthopy/schemes.py:89-91 | `[sqrt(beta); alpha]`, read in upper band storage with one superdiagonal, is the matrix `_sympy_tridiag(alpha, sqrt(beta))` |
| Jacobi.UpperBandIgnoresCorner | orthopy/schemes.py:89-91 | the band entry `ab[0][0]` is never read |
| Jacobi.MpmathInputsAreJacobi | orthopy/schemes.py:70-78 | for `len(alpha) <= len(beta)`, the diagonal `alpha` and the off-diagonal vector handed to `tridiag_eigen` denote the matrix `_sympy_tridiag(alpha, sqrt(beta[:len(alpha)]))` |
| Jacobi.MpmathOffDiagonalIgnoresBeta0 | orthopy/schemes.py:72-73 | the off-diagonal vector does not depend on `beta[0]` |
| Jacobi.EncodingsAgree | orthopy/schemes.py:46-91 | the dense, band and diagonal/off-diagonal encodings of the three backends are the same symmetric tridiagonal matrix |
| Jacobi.NumpyBand | orthopy/schemes.py:89 | the 2-by-n band array `[sqrt(beta); alpha]`, with rows of length `len(alpha)`; `NumpyBandIsJacobi` proves it is the Jacobi matrix |
| Jacobi.MpmathOffDiagonal | orthopy/schemes.py:71-73 | the vector `b` after the loop: `sqrt(beta[i+1])` for `i < n-1` and a trailing 0, of length `n`; `MpmathInputsAreJacobi` proves which matrix it denotes |
| Jacobi.UnitVector | orthopy/schemes.py:75-76 | the start row `z`, of length `n`, with 1 at index 0 and 0 elsewhere |
| Weights.Norm2 | orthopy/schemes.py:57 | `norm2 = sum(v_i^2)`; `Norm2NonNegative`, `Norm2ZeroIff` and `Norm2Scale` state its properties |
| Weights.Weight | orthopy/schemes.py:58 | `beta[0] * v_0^2 / norm2`, defined only for `norm2 != 0`; `WeightRange` and `WeightCancel` state its properties |
| Weights.SquaredWeights | orthopy/schemes.py:82 | one weight `beta[0] * z_k^2` per entry of `z`, so as many weights as entries |
| Weights.Norm2NonNegative | orthopy/schemes.py:57 | the squared norm is never negative |
| Weights.Norm2ZeroIff | orthopy/schemes.py:57 | the squared norm is 0 exactly when every component is 0 |
| Weights.FirstSquareBound | orthopy/schemes.py:57-58 | `0 <= v_0^2 <= sum(v_i^2)` |
| Weights.Norm2Scale | orthopy/schemes.py:57 | scaling a vector by `c` scales its squared norm by `c^2` |
| Weights.WeightRange | orthopy/schemes.py:58 | for `beta[0] >= 0` and `0 <= v_0^2 <= norm2`, `0 <= beta[0] * v_0^2 / norm2 <= beta[0]` |
| Weights.WeightCancel | orthopy/schemes.py:58 | scaling `v_0` by `c != 0` and `norm2` by `c^2` leaves the weight unchanged |
| Weights.WeightBounds | orthopy/schemes.py:57-58 | for `beta[0] >= 0` and a nonzero vector, the weight lies in `[0, beta[0]]` |
| Weights.WeightScaleInvariant | orthopy/schemes.py:57-58 | the weight of `c * v` equals the weight of `v` for every `c != 0` |
| Weights.SquaredWeightsNonNegative | orthopy/schemes.py:82 | for `beta[0] >= 0` every weight `beta[0] * z_k^2` is non-negative |
| Eigenpairs.ItemError | orthopy/schemes.py:52-58 | an eigen-item is accepted exactly when its multiplicity is 1, it has one eigenvector, and that vector has a nonzero component; otherwise the error names the first failing check |
| Eigenpairs.ItemWeight | orthopy/schemes.py:55-58 | the weight of an accepted item: `Weight` of its one eigenvector. `ItemWeightBounds` bounds it |
| Eigenpairs.Collect | orthopy/schemes.py:49-58 | what the loop leaves in `x` and `w`, or the first failed check. `CollectSuccessIff`, `CollectContents` and `CollectFirstError` state what it yields |
| Eigenpairs.CollectNodesWeights | orthopy/schemes.py:49-58 | the loop over the eigen-items (appending to `x` and `w`, stopping at the first failed check) computes `Collect(items, beta0)` |
| Eigenpairs.CollectFailurePropagates | orthopy/schemes.py:51-55 | once an item fails its checks, the whole loop fails with that item's error |
| Eigenpairs.CollectSuccessIff | orthopy/schemes.py:51-56 | the loop succeeds exactly when every eigen-item passes its checks |
| Eigenpairs.CollectContents | orthopy/schemes.py:51-58 | on success `len(x) == len(w) == len(items)`; `x[k]` is the k-th eigenvalue and `w[k]` its weight |
| Eigenpairs.CollectFirstError | orthopy/schemes.py:51-56 | on failure, the error is that of the first item that fails a check; all items before it pass |
| Eigenpairs.ItemWeightBounds | orthopy/schemes.py:57-58 | for `beta[0] >= 0` the weight of an accepted item lies in `[0, beta[0]]` |
| NodeOrder.Insert | orthopy/schemes.py:60 | inserting one index extends the order by one, keeps every index in range, and puts either the new index or the old head first |
| NodeOrder.SortedOrder | orthopy/schemes.py:60 | `sorted(range(n), ...)` has n entries, each below n |
| NodeOrder.InsertChain | orthopy/schemes.py:60 | inserting a new largest index keeps consecutive entries ordered by (node, index) |
| NodeOrder.SortedOrderChain | orthopy/schemes.py:60 | consecutive entries of the sorted order are ordered by (node, index) |
| NodeOrder.ChainOrdered | orthopy/schemes.py:60 | in such a chain, every earlier entry comes before every later one |
| NodeOrder.SortedOrderSorted | orthopy/schemes.py:60 | along `sorted(range(n), key=lambda i: x[i])` the keys are non-decreasing and indices with equal keys stay in increasing order (the sort is stable) |
| NodeOrder.InsertMultiset | orthopy/schemes.py:60 | insertion adds exactly the new index |
| NodeOrder.SortedOrderMultiset | orthopy/schemes.py:60 | the sorted order lists each index below n exactly once |
| NodeOrder.PermuteInsert | orthopy/schemes.py:61-62 | reordering by an order with one more index adds exactly that element |
| NodeOrder.PermuteSortedOrder | orthopy/schemes.py:61-62 | reordering by the sorted order is a permutation of the sequence |
| NodeOrder.Permute | orthopy/schemes.py:61-62 | `[s[i] for i in order]`, as long as `order` |
| NodeOrder.SortByNode | orthopy/schemes.py:60-62 | nodes and weights both reordered by `SortedOrder`; `SortByNodeSpec` states what the step yields |
| NodeOrder.SortByNodeAligned | orthopy/schemes.py:60-62 | after the sort step `x'[k] = x[order[k]]` and `w'[k] = w[order[k]]`, the lengths are kept, the nodes are non-decreasing, and equal nodes keep their original relative order |
| NodeOrder.SortByNodePairs | orthopy/schemes.py:60-62 | the sort step only reorders the (node, weight) pairs |
| NodeOrder.SortByNodeSpec | orthopy/schemes.py:60-62 | after the sort step the nodes are non-decreasing; the (node, weight) pairs are a permutation of the input pairs; `x'[k] = x[order[k]]` and `w'[k] = w[order[k]]`; lengths are kept; equal nodes keep their original relative order |
| Schemes.GaussSympy | orthopy/schemes.py:43-63 | the symbolic backend computes `SympySpec`: `EmptyCoefficients` for empty `alpha`, `LengthMismatch` for unequal lengths, otherwise the collected eigenpairs sorted by node |
| Schemes.SympySpec | orthopy/schemes.py:43-63 | what `_gauss_from_coefficients_sympy` returns; `SympySpecProperties` and `SympySpecOrder` state its properties |
| Schemes.SympySpecProperties | orthopy/schemes.py:44-62 | fails exactly on empty or unequal coefficients or on an eigen-item that fails its checks (then with the first such item's error); otherwise one sorted node and one weight per item, the pairs a permutation of the items' (eigenvalue, weight) pairs, and weights in `[0, beta[0]]` for `beta[0] >= 0` |
| Schemes.SympySpecOrder | orthopy/schemes.py:49-62 | on success `x[k]` and `w[k]` are the eigenvalue and weight of item `order[k]`, `order` is a permutation of the item indices, and items with equal eigenvalues keep the solver's order |
| Schemes.GaussMpmath | orthopy/schemes.py:66-83 | the loop filling `b`, setting `z[0,0] = 1` and solving computes `MpmathSpec`: `EmptyCoefficients` for empty `alpha`, `MissingCoefficient` when `beta` is shorter than `alpha`, otherwise nodes `d` and weights `beta[0] * z_k^2` from the solver's output |
| Schemes.MpmathSpec | orthopy/schemes.py:66-83 | what `_gauss_from_coefficients_mpmath` returns; `MpmathSpecProperties` and `MpmathBeta0OnlyScales` state its properties |
| Schemes.MpmathSpecProperties | orthopy/schemes.py:70-82 | succeeds exactly when `0 < len(alpha) <= len(beta)`; whenever `len(alpha) <= len(beta)` the solver is handed the Jacobi matrix of `alpha` and `sqrt(beta[:len(alpha)])`; weights are `beta[0] * z_k^2`, one per entry of `z`, and non-negative for `beta[0] >= 0` |
| Schemes.MpmathBeta0OnlyScales | orthopy/schemes.py:72-82 | two `beta` that differ only at index 0 give the same nodes, with weights in the ratio of their `beta[0]` |
| Schemes.GaussNumpy | orthopy/schemes.py:86-93 | succeeds exactly when `alpha` and `beta` have equal nonzero length and the eigenvector matrix has a row; fails with `LengthMismatch` for unequal lengths, `EmptyCoefficients` for empty ones and `EmptyEigenvectorMatrix` for an empty `V`; on success the nodes are the solver's eigenvalues and `w[k] = beta[0] * V[0, k]^2`, one weight per entry of `V[0, :]`, non-negative for `beta[0] >= 0` |
| Schemes.NumpyBandProperties | orthopy/schemes.py:89-91 | the band array handed to `eig_banded` is the Jacobi matrix and does not depend on `beta[0]` |

## Left out

- The eigensolvers: `sympy.Matrix.eigenvects`, mpmath's `tridiag_eigen` and scipy's `eig_banded` are `Library` inputs. The model does not prove that the nodes are eigenvalues, that the rule is exact to degree 2n-1, or that the weights sum to `beta[0]`; all of these depend on the solvers.
- Square roots are an uninterpreted `sqrt` field, used as the source uses its backend's `sqrt`. Negative `beta` entries (complex or nan roots) are not modelled.
- Number types: exact, arbitrary-precision and floating-point values are all `real`. `sympy.simplify`, `sympy.Float`, `scipy.real` and the float rounding of mpmath and numpy are the identity.
- `mp.dps = decimal_places` sets a process-wide precision. The model passes the precision to `tridiagEigen` as an argument instead.
- The `isinstance` assertions (`orthopy/schemes.py:44`, `87-88`) are dropped: all numbers are `real`, so the model has no `sympy.Rational` and no `numpy.ndarray`. A call that the source rejects for the type of `alpha[0]`, `alpha` or `beta` succeeds in the model.
- Eigenpairs.ItemError: sympy returns `nan` for the weight of an all-zero eigenvector. The model reports `ZeroEigenvector` instead, because `real` has no nan; sympy's eigenvectors are never zero.
- Schemes.MpmathSpec: for empty `alpha` the model assumes that `z[0, 0] = 1` on a 1-by-0 mpmath matrix raises an index error, and reports `EmptyCoefficients`.
- Schemes.GaussNumpy: how `eig_banded` behaves on an empty band array is not modelled. For empty coefficients the model reports `EmptyCoefficients`, the `beta[0]` index error that follows. Unequal lengths make `vstack` fail, reported as `LengthMismatch`.
- The in-place mutation by `tridiag_eigen` of `d`, `b` and `z` is modelled as a function returning the new `d` and `z`.
- The per-family wrappers `legendre` ... `hermite` (`orthopy/schemes.py:96-135`) delegate to `recurrence_coefficients`, which is not part of this model.
- `orthopy/enr2/main.py` and `orthopy/c1/gegenbauer.py` are thin constructors and plotting code over modules that are not part of this model.
- The tests depend on symbolic integration and floating-point tolerances; they are not modelled.
