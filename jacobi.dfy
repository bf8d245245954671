/**
 * The symmetric tridiagonal (Jacobi) matrix of the Golub-Welsch method, and
 * the three ways the backends of `schemes.py` hand it to an eigensolver:
 *   - the dense matrix of `_sympy_tridiag` (symbolic backend),
 *   - the diagonal / off-diagonal vectors of mpmath's `tridiag_eigen`,
 *   - the LAPACK upper band array of scipy's `eig_banded`.
 * The lemmas at the end show that all three denote the same matrix.
 */
module Jacobi {
  import opened QuadratureTypes

  predicate IsSquare(m: Matrix, n: nat)
  {
    |m| == n && forall i :: 0 <= i < n ==> |m[i]| == n
  }

  predicate IsSymmetric(m: Matrix)
    requires IsSquare(m, |m|)
  {
    forall i, j :: 0 <= i < |m| && 0 <= j < |m| ==> m[i][j] == m[j][i]
  }

  /** Every entry more than one place off the diagonal is zero. */
  predicate IsTridiagonal(m: Matrix)
    requires IsSquare(m, |m|)
  {
    forall i, j :: 0 <= i < |m| && 0 <= j < |m| && (i + 1 < j || j + 1 < i) ==> m[i][j] == 0.0
  }

  /** Entry (i, j) of tridiag(b, a, b): `a[i]` on the diagonal, `b[i+1]` at
      (i, i+1) and at (i+1, i), zero elsewhere. `b[0]` is not an entry. */
  function JacobiEntry(a: seq<real>, b: seq<real>, i: nat, j: nat): real
    requires |a| == |b| && i < |a| && j < |a|
  {
    if i == j then a[i]
    else if j == i + 1 then b[j]
    else if i == j + 1 then b[i]
    else 0.0
  }

  /** The matrix `_sympy_tridiag(a, b)` returns when the lengths agree. */
  function Tridiag(a: seq<real>, b: seq<real>): (m: Matrix)
    requires |a| == |b|
    ensures IsSquare(m, |a|)
  {
    seq(|a|, i requires 0 <= i < |a| => seq(|a|, j requires 0 <= j < |a| => JacobiEntry(a, b, i, j)))
  }

  /** `_sympy_tridiag`: allocates an n-by-n array of zeros, writes the
      diagonal in one loop and the two off-diagonals in a second loop. */
  method SympyTridiag(a: seq<real>, b: seq<real>) returns (r: Result<Matrix>)
    ensures |a| != |b| ==> r == Failure(LengthMismatch)
    ensures |a| == |b| ==> r == Success(Tridiag(a, b))
  {
    var n := |a|;
    if n != |b| {
      return Failure(LengthMismatch);
    }
    var m := new real[n, n]((_, _) => 0.0);
    for i := 0 to n
      invariant forall p, q :: 0 <= p < n && 0 <= q < n ==>
        m[p, q] == if p == q && p < i then a[p] else 0.0
    {
      m[i, i] := a[i];
    }
    var i := 0;
    while i + 1 < n
      invariant 0 <= i && (n == 0 || i < n)
      invariant forall p, q :: 0 <= p < n && 0 <= q < n ==>
        m[p, q] == if p == q then a[p]
                   else if q == p + 1 && p < i then b[q]
                   else if p == q + 1 && q < i then b[p]
                   else 0.0
    {
      m[i, i + 1] := b[i + 1];
      m[i + 1, i] := b[i + 1];
      i := i + 1;
    }
    var dense := seq(n, p requires 0 <= p < n reads m => seq(n, q requires 0 <= q < n reads m => m[p, q]));
    forall p | 0 <= p < n
      ensures dense[p] == Tridiag(a, b)[p]
    {
      assert forall q :: 0 <= q < n ==> dense[p][q] == m[p, q] == Tridiag(a, b)[p][q];
    }
    assert |dense| == |Tridiag(a, b)|;
    assert dense == Tridiag(a, b);
    r := Success(dense);
  }

  lemma TridiagEntries(a: seq<real>, b: seq<real>)
    requires |a| == |b|
    ensures forall i :: 0 <= i < |a| ==> Tridiag(a, b)[i][i] == a[i]
    ensures forall i :: 0 <= i < |a| - 1 ==>
      Tridiag(a, b)[i][i + 1] == b[i + 1] && Tridiag(a, b)[i + 1][i] == b[i + 1]
  {
  }

  lemma TridiagIsSymmetricTridiagonal(a: seq<real>, b: seq<real>)
    requires |a| == |b|
    ensures IsSymmetric(Tridiag(a, b)) && IsTridiagonal(Tridiag(a, b))
  {
  }

  /** `b[0]` never reaches the matrix: only `b[1..]` matters. */
  lemma TridiagIgnoresFirstOffDiagonal(a: seq<real>, b: seq<real>, b': seq<real>)
    requires |a| == |b| == |b'| && forall k :: 1 <= k < |b| ==> b[k] == b'[k]
    ensures Tridiag(a, b) == Tridiag(a, b')
  {
    var n := |a|;
    forall i | 0 <= i < n
      ensures Tridiag(a, b)[i] == Tridiag(a, b')[i]
    {
      forall j | 0 <= j < n
        ensures Tridiag(a, b)[i][j] == Tridiag(a, b')[i][j]
      {
      }
    }
  }

  // ---------------------------------------------------------------------
  // The numpy backend: LAPACK upper band storage.

  /** Reads an array `ab` of u+1 rows of length n in LAPACK's upper band
      storage of a symmetric matrix: `A[i][j] = ab[u+i-j][j]` for
      `i <= j <= i+u`, mirrored below the diagonal, zero outside the band. */
  function UpperBandToMatrix(ab: Matrix, u: nat, n: nat): (m: Matrix)
    requires |ab| == u + 1 && forall r :: 0 <= r <= u ==> |ab[r]| == n
    ensures IsSquare(m, n)
  {
    seq(n, i requires 0 <= i < n => seq(n, j requires 0 <= j < n =>
      if i <= j && j <= i + u then ab[u + i - j][j]
      else if j < i && i <= j + u then ab[u + j - i][i]
      else 0.0))
  }

  /** `numpy.vstack((numpy.sqrt(beta), alpha))`: the band array handed to
      `eig_banded(..., lower=False)`. */
  function NumpyBand(sqrt: real -> real, alpha: seq<real>, beta: seq<real>): (ab: Matrix)
    requires |alpha| == |beta|
    ensures |ab| == 2 && |ab[0]| == |ab[1]| == |alpha|
  {
    [Map(sqrt, beta), alpha]
  }

  /** The band array, read with one superdiagonal, is the same matrix that
      `_sympy_tridiag(alpha, [sqrt(b) for b in beta])` builds. */
  lemma NumpyBandIsJacobi(sqrt: real -> real, alpha: seq<real>, beta: seq<real>)
    requires |alpha| == |beta|
    ensures UpperBandToMatrix(NumpyBand(sqrt, alpha, beta), 1, |alpha|) == Tridiag(alpha, Map(sqrt, beta))
  {
    var n := |alpha|;
    var band := UpperBandToMatrix(NumpyBand(sqrt, alpha, beta), 1, n);
    var dense := Tridiag(alpha, Map(sqrt, beta));
    forall i | 0 <= i < n
      ensures band[i] == dense[i]
    {
      assert forall j :: 0 <= j < n ==> band[i][j] == dense[i][j];
    }
  }

  /** The corner `ab[0][0]` (which holds `sqrt(beta[0])`) is not read. */
  lemma UpperBandIgnoresCorner(ab: Matrix, ab': Matrix, n: nat)
    requires |ab| == |ab'| == 2 && |ab[0]| == |ab[1]| == |ab'[0]| == |ab'[1]| == n
    requires ab[1] == ab'[1] && forall k :: 1 <= k < n ==> ab[0][k] == ab'[0][k]
    ensures UpperBandToMatrix(ab, 1, n) == UpperBandToMatrix(ab', 1, n)
  {
    var m, m' := UpperBandToMatrix(ab, 1, n), UpperBandToMatrix(ab', 1, n);
    forall i | 0 <= i < n
      ensures m[i] == m'[i]
    {
      forall j | 0 <= j < n
        ensures m[i][j] == m'[i][j]
      {
      }
    }
  }

  // ---------------------------------------------------------------------
  // The mpmath backend: diagonal and off-diagonal vectors.

  /** The matrix `tridiag_eigen` works on: diagonal `d`, and `e[i]` at
      (i, i+1) and (i+1, i) for `i < n-1`; the last entry of `e` is not an
      entry of the matrix. */
  function DiagOffToMatrix(d: seq<real>, e: seq<real>): (m: Matrix)
    requires |d| == |e|
    ensures IsSquare(m, |d|)
  {
    seq(|d|, i requires 0 <= i < |d| => seq(|d|, j requires 0 <= j < |d| =>
      if i == j then d[i]
      else if j == i + 1 then e[i]
      else if i == j + 1 then e[j]
      else 0.0))
  }

  /** The off-diagonal vector of `_gauss_from_coefficients_mpmath`:
      `sqrt(beta[i+1])` for `i < n-1`, with the trailing entry left 0. */
  function MpmathOffDiagonal(sqrt: real -> real, beta: seq<real>, n: nat): (e: seq<real>)
    requires n <= |beta|
    ensures |e| == n
  {
    seq(n, i requires 0 <= i < n => if i < n - 1 then sqrt(beta[i + 1]) else 0.0)
  }

  /** The start row `z`: 1 at index 0, 0 elsewhere. */
  function UnitVector(n: nat): (u: seq<real>)
    ensures |u| == n
  {
    seq(n, k requires 0 <= k < n => if k == 0 then 1.0 else 0.0)
  }

  /** The vectors handed to `tridiag_eigen` denote the matrix that
      `_sympy_tridiag(alpha, [sqrt(b) for b in beta[:n]])` builds, where
      `n = len(alpha)`; entries of `beta` past `n` are not read. */
  lemma MpmathInputsAreJacobi(sqrt: real -> real, alpha: seq<real>, beta: seq<real>)
    requires |alpha| <= |beta|
    ensures DiagOffToMatrix(alpha, MpmathOffDiagonal(sqrt, beta, |alpha|)) == Tridiag(alpha, Map(sqrt, beta[..|alpha|]))
  {
    var n := |alpha|;
    var e := MpmathOffDiagonal(sqrt, beta, n);
    var m := DiagOffToMatrix(alpha, e);
    var dense := Tridiag(alpha, Map(sqrt, beta[..n]));
    forall i | 0 <= i < n
      ensures m[i] == dense[i]
    {
      assert forall j :: 0 <= j < n ==> m[i][j] == dense[i][j];
    }
  }

  /** `beta[0]` does not enter the mpmath eigensolver's inputs. */
  lemma MpmathOffDiagonalIgnoresBeta0(sqrt: real -> real, beta: seq<real>, beta': seq<real>, n: nat)
    requires n <= |beta| && n <= |beta'| && forall k :: 1 <= k < n ==> beta[k] == beta'[k]
    ensures MpmathOffDiagonal(sqrt, beta, n) == MpmathOffDiagonal(sqrt, beta', n)
  {
  }

  /** All three backends hand the eigensolver the same Jacobi matrix. */
  lemma EncodingsAgree(sqrt: real -> real, alpha: seq<real>, beta: seq<real>)
    requires |alpha| == |beta|
    ensures var dense := Tridiag(alpha, Map(sqrt, beta));
      && UpperBandToMatrix(NumpyBand(sqrt, alpha, beta), 1, |alpha|) == dense
      && DiagOffToMatrix(alpha, MpmathOffDiagonal(sqrt, beta, |alpha|)) == dense
      && IsSymmetric(dense) && IsTridiagonal(dense)
  {
    NumpyBandIsJacobi(sqrt, alpha, beta);
    assert beta[..|alpha|] == beta;
    MpmathInputsAreJacobi(sqrt, alpha, beta);
    TridiagIsSymmetricTridiagonal(alpha, Map(sqrt, beta));
  }
}
