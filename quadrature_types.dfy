/**
 * Values shared by the three Gauss-quadrature backends of orthopy's
 * `schemes` module: the error kinds a call can end in, the rule it returns,
 * the eigen-items the symbolic eigensolver hands back, and the foreign
 * library routines the backends call but which are not modelled here.
 */
module QuadratureTypes {

  /** The ways a call can fail. In the source each is an `assert` or an
      indexing error; the model returns it instead of raising. */
  datatype Error =
    | UnknownMode            // `assert mode == 'numpy'` in `custom`
    | EmptyCoefficients      // `alpha[0]`, `z[0, 0]` or `beta[0]` on empty coefficients
    | LengthMismatch         // `assert n == len(b)`, or `vstack` of rows of unequal length
    | MissingCoefficient     // `beta[i+1]` past the end of `beta` (mpmath backend)
    | DegenerateEigenvalue   // `assert multiplicity == 1`
    | DegenerateEigenspace   // `assert len(vec) == 1`
    | EmptyEigenvector       // `vec[0]` of an eigenvector with no entries
    | ZeroEigenvector        // division by the squared norm of a zero vector
    | EmptyEigenvectorMatrix // `V[0, :]` of an eigenvector matrix with no rows

  datatype Result<T> = Success(value: T) | Failure(error: Error)

  datatype Option<T> = None | Some(value: T)

  /** A quadrature rule: nodes and the weights aligned with them by index. */
  datatype Rule = Rule(nodes: seq<real>, weights: seq<real>)

  /** A dense matrix, row by row. */
  type Matrix = seq<seq<real>>

  /** One item of `sympy.Matrix.eigenvects()`: an eigenvalue, its algebraic
      multiplicity and a basis of its eigenspace. */
  datatype EigenItem = EigenItem(value: real, multiplicity: nat, vectors: seq<seq<real>>)

  /** The foreign routines the backends call, taken as inputs:
      - `sqrt`: the square root of each backend's number type;
      - `eigenvects`: sympy's symbolic eigen-decomposition of a matrix;
      - `tridiagEigen`: mpmath's `tridiag_eigen`, given the working precision
        in decimal places, the diagonal `d`, the off-diagonal `e` and the row
        `z`, returning the updated `d` (eigenvalues) and `z` (`z` times the
        eigenvector matrix);
      - `eigBanded`: scipy's `eig_banded` on an upper band array, returning
        the eigenvalues and the eigenvector matrix. */
  datatype Library = Library(
    sqrt: real -> real,
    eigenvects: Matrix -> seq<EigenItem>,
    tridiagEigen: (int, seq<real>, seq<real>, seq<real>) -> (seq<real>, seq<real>),
    eigBanded: Matrix -> (seq<real>, Matrix))

  /** `[f(s_0), ..., f(s_{n-1})]`, a list comprehension over `s`. */
  function Map(f: real -> real, s: seq<real>): seq<real>
  {
    seq(|s|, i requires 0 <= i < |s| => f(s[i]))
  }
}
