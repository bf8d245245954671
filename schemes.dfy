/**
 * `custom` and its three backends: each builds the Jacobi matrix of the
 * recurrence coefficients `alpha`, `beta`, hands it to an eigensolver and
 * turns the eigenpairs into Gauss nodes and weights (Golub-Welsch).
 * The eigensolvers and square roots are the fields of a `Library`.
 */
module Schemes {
  import opened QuadratureTypes
  import opened Jacobi
  import opened Weights
  import opened NodeOrder
  import opened Eigenpairs

  // ---------------------------------------------------------------------
  // Mode dispatch.

  datatype Mode = Sympy | Mpmath | Numpy

  /** The mode string `custom` compares against for each backend. */
  function ModeName(m: Mode): string
  {
    match m
    case Sympy => "sympy"
    case Mpmath => "mpmath"
    case Numpy => "numpy"
  }

  /** The backend a mode string selects, or `None` for any other string. */
  function ParseMode(s: string): (m: Option<Mode>)
    ensures m.Some? ==> ModeName(m.value) == s
  {
    if s == "sympy" then Some(Sympy)
    else if s == "mpmath" then Some(Mpmath)
    else if s == "numpy" then Some(Numpy)
    else None
  }

  /** Exactly the three mode strings select a backend, each its own. */
  lemma ParseModeName(s: string, m: Mode)
    ensures ParseMode(ModeName(m)) == Some(m)
    ensures ParseMode(s) == Some(m) <==> s == ModeName(m)
    ensures ParseMode(s) == None <==> forall m' :: s != ModeName(m')
  {
    if ParseMode(s) == None {
      forall m' ensures s != ModeName(m') {
      }
    } else {
      assert s == ModeName(ParseMode(s).value);
    }
  }

  const DefaultMode: string := "mpmath"
  const DefaultDecimalPlaces: int := 32

  // ---------------------------------------------------------------------
  // Symbolic backend.

  /** What `_gauss_from_coefficients_sympy(alpha, beta)` returns. */
  function SympySpec(lib: Library, alpha: seq<real>, beta: seq<real>): (r: Result<Rule>)
  {
    if |alpha| == 0 then Failure(EmptyCoefficients)
    else if |alpha| != |beta| then Failure(LengthMismatch)
    else
      var items := lib.eigenvects(Tridiag(alpha, Map(lib.sqrt, beta)));
      match Collect(items, beta[0])
      case Failure(e) => Failure(e)
      case Success(c) =>
        CollectContents(items, beta[0]);
        var xw := SortByNode(c.nodes, c.weights);
        Success(Rule(xw.0, xw.1))
  }

  /** `_gauss_from_coefficients_sympy`: reads `alpha[0]`, builds the
      Jacobi matrix of the square roots of `beta`, collects a node and a
      weight per eigen-item and sorts both by node. */
  method GaussSympy(lib: Library, alpha: seq<real>, beta: seq<real>) returns (r: Result<Rule>)
    ensures r == SympySpec(lib, alpha, beta)
  {
    if |alpha| == 0 {
      return Failure(EmptyCoefficients);
    }
    var a := SympyTridiag(alpha, Map(lib.sqrt, beta));
    if a.Failure? {
      return Failure(a.error);
    }
    var items := lib.eigenvects(a.value);
    var c := CollectNodesWeights(items, beta[0]);
    if c.Failure? {
      return Failure(c.error);
    }
    CollectContents(items, beta[0]);
    var xw := SortByNode(c.value.nodes, c.value.weights);
    r := Success(Rule(xw.0, xw.1));
  }

  /** The symbolic backend fails exactly on empty coefficients, on lengths
      that differ, or on an eigen-item that is not a simple eigenvalue with
      one nonzero eigenvector, and then with the first such item's error.
      On success the nodes are non-decreasing, the (node, weight) pairs are
      a permutation of one pair per eigen-item, and for `beta[0] >= 0` every
      weight lies in [0, beta[0]]. */
  lemma SympySpecProperties(lib: Library, alpha: seq<real>, beta: seq<real>)
    ensures |alpha| == 0 ==> SympySpec(lib, alpha, beta) == Failure(EmptyCoefficients)
    ensures |alpha| > 0 && |alpha| != |beta| ==> SympySpec(lib, alpha, beta) == Failure(LengthMismatch)
    ensures |alpha| > 0 && |alpha| == |beta| ==>
      var items := lib.eigenvects(Tridiag(alpha, Map(lib.sqrt, beta)));
      var r := SympySpec(lib, alpha, beta);
      && (r.Success? <==> AllAccepted(items))
      && (r.Failure? ==> exists k :: 0 <= k < |items| && AllAccepted(items[..k]) && ItemError(items[k]) == Some(r.error))
      && (r.Success? ==>
            && |r.value.nodes| == |r.value.weights| == |items|
            && (forall p, q :: 0 <= p < q < |items| ==> r.value.nodes[p] <= r.value.nodes[q])
            && multiset(Zip(r.value.nodes, r.value.weights)) == multiset(Pairs(items, beta[0]))
            && (beta[0] >= 0.0 ==> forall k :: 0 <= k < |items| ==> 0.0 <= r.value.weights[k] <= beta[0]))
  {
    if |alpha| > 0 && |alpha| == |beta| {
      var items := lib.eigenvects(Tridiag(alpha, Map(lib.sqrt, beta)));
      CollectSuccessIff(items, beta[0]);
      var c := Collect(items, beta[0]);
      if c.Failure? {
        CollectFirstError(items, beta[0]);
      } else {
        CollectContents(items, beta[0]);
        var x, w := c.value.nodes, c.value.weights;
        SortByNodeSpec(x, w);
        assert Zip(x, w) == Pairs(items, beta[0]);
        var (x', w') := SortByNode(x, w);
        var order := SortedOrder(x, |x|);
        if beta[0] >= 0.0 {
          forall k | 0 <= k < |items|
            ensures 0.0 <= w'[k] <= beta[0]
          {
            ItemWeightBounds(beta[0], items[order[k]]);
          }
        }
      }
    }
  }

  /** On success the k-th node and weight are those of eigen-item
      `order[k]`, where `order` is a permutation of the item indices that
      sorts the eigenvalues, and items with equal eigenvalues keep the
      solver's order (the sort is stable). */
  lemma SympySpecOrder(lib: Library, alpha: seq<real>, beta: seq<real>)
    requires SympySpec(lib, alpha, beta).Success?
    ensures 0 < |alpha| == |beta|
    ensures var items := lib.eigenvects(Tridiag(alpha, Map(lib.sqrt, beta)));
      var r := SympySpec(lib, alpha, beta).value;
      var order := SortedOrder(Eigenvalues(items), |items|);
      && AllAccepted(items)
      && |r.nodes| == |r.weights| == |items|
      && multiset(order) == multiset(Range(|items|))
      && (forall k :: 0 <= k < |items| ==>
            r.nodes[k] == items[order[k]].value && r.weights[k] == ItemWeight(beta[0], items[order[k]]))
      && (forall p, q :: 0 <= p < q < |items| && r.nodes[p] == r.nodes[q] ==> order[p] < order[q])
  {
    var items := lib.eigenvects(Tridiag(alpha, Map(lib.sqrt, beta)));
    CollectContents(items, beta[0]);
    var c := Collect(items, beta[0]).value;
    assert c.nodes == Eigenvalues(items);
    SortByNodeSpec(c.nodes, c.weights);
  }

  // ---------------------------------------------------------------------
  // Arbitrary-precision backend.

  /** What `_gauss_from_coefficients_mpmath(alpha, beta, decimal_places)`
      returns: the eigenvalues `d` as nodes and `beta[0] * z_k^2` as
      weights, where `d` and `z` are what `tridiag_eigen` leaves in its
      arguments. */
  function MpmathSpec(lib: Library, alpha: seq<real>, beta: seq<real>, decimalPlaces: int): (r: Result<Rule>)
  {
    var n := |alpha|;
    if n == 0 then Failure(EmptyCoefficients)
    else if |beta| < n then Failure(MissingCoefficient)
    else
      var (d, z) := lib.tridiagEigen(decimalPlaces, alpha, MpmathOffDiagonal(lib.sqrt, beta, n), UnitVector(n));
      Success(Rule(d, SquaredWeights(beta[0], z)))
  }

  /** `_gauss_from_coefficients_mpmath`: fills the off-diagonal `b` in a
      loop, sets the start row `z` to the first unit vector and runs the
      solver on `alpha`, `b` and `z`. */
  method GaussMpmath(lib: Library, alpha: seq<real>, beta: seq<real>, decimalPlaces: int) returns (r: Result<Rule>)
    ensures r == MpmathSpec(lib, alpha, beta, decimalPlaces)
  {
    var n := |alpha|;
    var b := new real[n](_ => 0.0);
    var i := 0;
    while i + 1 < n
      invariant 0 <= i && (n == 0 || i < n)
      invariant i == 0 || i < |beta|
      invariant forall k :: 0 <= k < n ==> b[k] == if k < i then lib.sqrt(beta[k + 1]) else 0.0
    {
      if i + 1 >= |beta| {
        return Failure(MissingCoefficient);
      }
      b[i] := lib.sqrt(beta[i + 1]);
      i := i + 1;
    }
    var z := new real[n](_ => 0.0);
    if n == 0 {
      return Failure(EmptyCoefficients);
    }
    z[0] := 1.0;
    var d := alpha;
    assert z[..] == UnitVector(n);
    var e := b[..];
    var solved := lib.tridiagEigen(decimalPlaces, d, e, z[..]);
    if |beta| == 0 {
      return Failure(MissingCoefficient);
    }
    assert e == MpmathOffDiagonal(lib.sqrt, beta, n);
    r := Success(Rule(solved.0, SquaredWeights(beta[0], solved.1)));
  }

  /** The arbitrary-precision backend fails exactly on empty `alpha` or on
      a `beta` shorter than `alpha`. The solver is handed the Jacobi matrix
      of `alpha` and the square roots of the first `len(alpha)` entries of
      `beta`; `beta[0]` only scales the
      weights, which are non-negative for `beta[0] >= 0`. */
  lemma MpmathSpecProperties(lib: Library, alpha: seq<real>, beta: seq<real>, decimalPlaces: int)
    ensures MpmathSpec(lib, alpha, beta, decimalPlaces).Success? <==> 0 < |alpha| <= |beta|
    ensures |alpha| <= |beta| ==>
      DiagOffToMatrix(alpha, MpmathOffDiagonal(lib.sqrt, beta, |alpha|)) == Tridiag(alpha, Map(lib.sqrt, beta[..|alpha|]))
    ensures 0 < |alpha| <= |beta| ==>
      var r := MpmathSpec(lib, alpha, beta, decimalPlaces).value;
      var z := lib.tridiagEigen(decimalPlaces, alpha, MpmathOffDiagonal(lib.sqrt, beta, |alpha|), UnitVector(|alpha|)).1;
      && |r.weights| == |z|
      && (forall k :: 0 <= k < |z| ==> r.weights[k] == beta[0] * Square(z[k]))
      && (beta[0] >= 0.0 ==> forall k :: 0 <= k < |r.weights| ==> r.weights[k] >= 0.0)
  {
    if |alpha| <= |beta| {
      MpmathInputsAreJacobi(lib.sqrt, alpha, beta);
    }
    if 0 < |alpha| <= |beta| && beta[0] >= 0.0 {
      var z := lib.tridiagEigen(decimalPlaces, alpha, MpmathOffDiagonal(lib.sqrt, beta, |alpha|), UnitVector(|alpha|)).1;
      SquaredWeightsNonNegative(beta[0], z);
    }
  }

  /** Two `beta` that agree past index 0 give the same nodes, and weights
      in the ratio of their `beta[0]`. */
  lemma MpmathBeta0OnlyScales(lib: Library, alpha: seq<real>, beta: seq<real>, beta': seq<real>, decimalPlaces: int)
    requires 0 < |alpha| <= |beta| && |alpha| <= |beta'|
    requires forall k :: 1 <= k < |alpha| ==> beta[k] == beta'[k]
    ensures var r, r' := MpmathSpec(lib, alpha, beta, decimalPlaces).value, MpmathSpec(lib, alpha, beta', decimalPlaces).value;
      && r.nodes == r'.nodes
      && |r.weights| == |r'.weights|
      && forall k :: 0 <= k < |r.weights| ==> beta'[0] * r.weights[k] == beta[0] * r'.weights[k]
  {
    MpmathOffDiagonalIgnoresBeta0(lib.sqrt, beta, beta', |alpha|);
  }

  // ---------------------------------------------------------------------
  // Floating-point backend.

  /** `_gauss_from_coefficients_numpy`: stacks `sqrt(beta)` over `alpha`
      into an upper band array, solves it, and weighs each eigenvalue by
      `beta[0]` times the square of the first row of the eigenvector matrix
      `V`. */
  function GaussNumpy(lib: Library, alpha: seq<real>, beta: seq<real>): (r: Result<Rule>)
    ensures r.Success? <==> 0 < |alpha| == |beta| && lib.eigBanded(NumpyBand(lib.sqrt, alpha, beta)).1 != []
    ensures |alpha| != |beta| ==> r == Failure(LengthMismatch)
    ensures |alpha| == |beta| == 0 ==> r == Failure(EmptyCoefficients)
    ensures 0 < |alpha| == |beta| && lib.eigBanded(NumpyBand(lib.sqrt, alpha, beta)).1 == [] ==>
      r == Failure(EmptyEigenvectorMatrix)
    ensures r.Success? ==>
      var (x, v) := lib.eigBanded(NumpyBand(lib.sqrt, alpha, beta));
      && r.value.nodes == x
      && |r.value.weights| == |v[0]|
      && (forall k :: 0 <= k < |v[0]| ==> r.value.weights[k] == beta[0] * Square(v[0][k]))
      && (beta[0] >= 0.0 ==> forall k :: 0 <= k < |v[0]| ==> r.value.weights[k] >= 0.0)
  {
    if |alpha| != |beta| then Failure(LengthMismatch)
    else
      var (x, v) := lib.eigBanded(NumpyBand(lib.sqrt, alpha, beta));
      if |beta| == 0 then Failure(EmptyCoefficients)
      else if v == [] then Failure(EmptyEigenvectorMatrix)
      else
        SquaredWeightsNonNegative(beta[0], v[0]);
        Success(Rule(x, SquaredWeights(beta[0], v[0])))
  }

  /** The band array handed to `eig_banded` is the Jacobi matrix of the
      symbolic backend, and its unused corner `sqrt(beta[0])` does not
      matter. */
  lemma NumpyBandProperties(sqrt: real -> real, alpha: seq<real>, beta: seq<real>, beta': seq<real>)
    requires |alpha| == |beta| == |beta'| && forall k :: 1 <= k < |beta| ==> beta[k] == beta'[k]
    ensures UpperBandToMatrix(NumpyBand(sqrt, alpha, beta), 1, |alpha|) == Tridiag(alpha, Map(sqrt, beta))
    ensures UpperBandToMatrix(NumpyBand(sqrt, alpha, beta), 1, |alpha|) ==
            UpperBandToMatrix(NumpyBand(sqrt, alpha, beta'), 1, |alpha|)
  {
    NumpyBandIsJacobi(sqrt, alpha, beta);
    UpperBandIgnoresCorner(NumpyBand(sqrt, alpha, beta), NumpyBand(sqrt, alpha, beta'), |alpha|);
  }

  // ---------------------------------------------------------------------
  // `custom`.

  /** `custom(alpha, beta, mode='mpmath', decimal_places=32)`: runs the
      backend the mode string names; any other string fails the final
      `assert mode == 'numpy'`. */
  method Custom(lib: Library, alpha: seq<real>, beta: seq<real>,
                mode: string := DefaultMode, decimalPlaces: int := DefaultDecimalPlaces)
    returns (r: Result<Rule>)
    ensures mode == "sympy" ==> r == SympySpec(lib, alpha, beta)
    ensures mode == "mpmath" ==> r == MpmathSpec(lib, alpha, beta, decimalPlaces)
    ensures mode == "numpy" ==> r == GaussNumpy(lib, alpha, beta)
    ensures ParseMode(mode) == None ==> r == Failure(UnknownMode)
  {
    if mode == "sympy" {
      r := GaussSympy(lib, alpha, beta);
    } else if mode == "mpmath" {
      r := GaussMpmath(lib, alpha, beta, decimalPlaces);
    } else {
      if mode != "numpy" {
        return Failure(UnknownMode);
      }
      r := GaussNumpy(lib, alpha, beta);
    }
  }

  /** Called with its defaults, `custom` is the arbitrary-precision backend
      at 32 decimal places. */
  lemma DefaultsSelectMpmath()
    ensures ParseMode(DefaultMode) == Some(Mpmath) && DefaultDecimalPlaces == 32
  {
  }
}
