/**
 * The Golub-Welsch weight of an eigenpair, as the three backends of
 * `schemes.py` compute it: `beta0 * v_0^2 / |v|^2` for a symbolic
 * eigenvector `v` (which need not be normalised), and `beta0 * z_k^2` for
 * the first components `z_k` of the normalised eigenvectors the numeric
 * solvers return.
 */
module Weights {

  /** The product `a * b`. Squares are written through it, and facts about
      signs of products are stated on `Mul` terms, one product at a time. */
  function Mul(a: real, b: real): real
  {
    a * b
  }

  /** `x**2`. */
  function Square(x: real): real
  {
    Mul(x, x)
  }

  /** `sum([v**2 for v in vec])`. */
  function Norm2(v: seq<real>): real
  {
    if v == [] then 0.0 else Square(v[0]) + Norm2(v[1..])
  }

  /** The vector `c * v`. */
  function Scale(c: real, v: seq<real>): (r: seq<real>)
    ensures |r| == |v|
  {
    seq(|v|, i requires 0 <= i < |v| => c * v[i])
  }

  /** `beta[0] * vec[0]**2 / norm2`, given `vec[0]` and `norm2`. */
  function Weight(beta0: real, v0: real, norm2: real): real
    requires norm2 != 0.0
  {
    beta0 * Square(v0) / norm2
  }

  /** `[beta[0] * mp.power(ww, 2) for ww in z]`. */
  function SquaredWeights(beta0: real, z: seq<real>): (w: seq<real>)
    ensures |w| == |z|
  {
    seq(|z|, k requires 0 <= k < |z| => beta0 * Square(z[k]))
  }

  // ---------------------------------------------------------------------
  // Facts of real arithmetic, each about a few reals only.

  lemma PositiveProduct(a: real, b: real)
    requires a > 0.0 && b > 0.0
    ensures Mul(a, b) > 0.0
  {
  }

  lemma NegativeProduct(a: real, b: real)
    requires a < 0.0 && b < 0.0
    ensures Mul(a, b) > 0.0
  {
  }

  lemma SquareSign(x: real)
    ensures Square(x) >= 0.0
    ensures x != 0.0 ==> Square(x) > 0.0
  {
    if x > 0.0 {
      PositiveProduct(x, x);
    } else if x < 0.0 {
      NegativeProduct(x, x);
    }
  }

  lemma SquareOfProduct(c: real, x: real)
    ensures Square(c * x) == Square(c) * Square(x)
  {
  }

  lemma Distribute(k: real, a: real, b: real)
    ensures k * a + k * b == k * (a + b)
  {
  }

  /** For `beta[0] >= 0` and `0 <= v0^2 <= norm2`, the weight lies in
      [0, beta[0]]. */
  lemma WeightRange(beta0: real, v0: real, norm2: real)
    requires beta0 >= 0.0 && Square(v0) <= norm2 && norm2 > 0.0
    ensures 0.0 <= Weight(beta0, v0, norm2) <= beta0
  {
    SquareSign(v0);
    var q := Square(v0) / norm2;
    assert 0.0 <= q <= 1.0;
    assert Weight(beta0, v0, norm2) == beta0 * q;
  }

  /** Scaling `v0` by `c != 0` and `norm2` by `c^2` leaves the weight
      unchanged: `u0 = c * v0` and `m = c^2 * norm2` give the same weight. */
  lemma WeightCancel(beta0: real, v0: real, norm2: real, c: real, u0: real, m: real)
    requires norm2 > 0.0 && c != 0.0
    requires u0 == c * v0 && m == Square(c) * norm2
    ensures m > 0.0
    ensures Weight(beta0, u0, m) == Weight(beta0, v0, norm2)
  {
    var k := Square(c);
    SquareSign(c);
    PositiveProduct(k, norm2);
    SquareOfProduct(c, v0);
    var w := Weight(beta0, v0, norm2);
    assert w * norm2 == beta0 * Square(v0);
    assert beta0 * Square(u0) == k * (beta0 * Square(v0));
    assert w * m == k * (beta0 * Square(v0));
  }

  // ---------------------------------------------------------------------
  // Properties of the squared norm and the weights.

  lemma {:induction false} Norm2NonNegative(v: seq<real>)
    ensures Norm2(v) >= 0.0
  {
    if v != [] {
      Norm2NonNegative(v[1..]);
      SquareSign(v[0]);
    }
  }

  /** The squared norm vanishes exactly on the zero vector. */
  lemma {:induction false} Norm2ZeroIff(v: seq<real>)
    ensures Norm2(v) == 0.0 <==> forall k :: 0 <= k < |v| ==> v[k] == 0.0
  {
    if v != [] {
      var t := v[1..];
      Norm2ZeroIff(t);
      Norm2NonNegative(t);
      SquareSign(v[0]);
      if Norm2(v) == 0.0 {
        assert v[0] == 0.0 && Norm2(t) == 0.0;
        assert forall k :: 1 <= k < |v| ==> v[k] == t[k - 1] == 0.0;
      }
      if forall k :: 0 <= k < |v| ==> v[k] == 0.0 {
        assert forall k :: 0 <= k < |t| ==> t[k] == v[k + 1];
        assert Norm2(t) == 0.0;
      }
    }
  }

  /** The first squared component never exceeds the squared norm. */
  lemma FirstSquareBound(v: seq<real>)
    requires v != []
    ensures 0.0 <= Square(v[0]) <= Norm2(v)
  {
    Norm2NonNegative(v[1..]);
    SquareSign(v[0]);
  }

  lemma ScaleSplit(c: real, v: seq<real>)
    requires v != []
    ensures Scale(c, v)[0] == c * v[0] && Scale(c, v)[1..] == Scale(c, v[1..])
  {
    assert forall i :: 0 <= i < |v| - 1 ==> Scale(c, v)[1..][i] == Scale(c, v[1..])[i];
  }

  lemma {:induction false} Norm2Scale(c: real, v: seq<real>)
    ensures Norm2(Scale(c, v)) == Square(c) * Norm2(v)
  {
    if v != [] {
      var t := v[1..];
      Norm2Scale(c, t);
      ScaleSplit(c, v);
      assert Norm2(Scale(c, v)) == Square(c * v[0]) + Norm2(Scale(c, t));
      SquareOfProduct(c, v[0]);
      Distribute(Square(c), Square(v[0]), Norm2(t));
    }
  }

  /** For `beta[0] >= 0` the weight of a nonzero vector lies between 0 and
      `beta[0]`. */
  lemma WeightBounds(beta0: real, v: seq<real>)
    requires v != [] && Norm2(v) != 0.0 && beta0 >= 0.0
    ensures 0.0 <= Weight(beta0, v[0], Norm2(v)) <= beta0
  {
    FirstSquareBound(v);
    WeightRange(beta0, v[0], Norm2(v));
  }

  /** The weight does not depend on how the eigenvector is scaled. */
  lemma WeightScaleInvariant(beta0: real, v: seq<real>, c: real)
    requires v != [] && Norm2(v) != 0.0 && c != 0.0
    ensures Norm2(Scale(c, v)) != 0.0
    ensures Weight(beta0, Scale(c, v)[0], Norm2(Scale(c, v))) == Weight(beta0, v[0], Norm2(v))
  {
    var s := Scale(c, v);
    Norm2Scale(c, v);
    Norm2NonNegative(v);
    ScaleSplit(c, v);
    WeightCancel(beta0, v[0], Norm2(v), c, s[0], Norm2(s));
  }

  /** For `beta[0] >= 0` the squared-component weights are non-negative. */
  lemma SquaredWeightsNonNegative(beta0: real, z: seq<real>)
    ensures beta0 >= 0.0 ==> forall k :: 0 <= k < |z| ==> SquaredWeights(beta0, z)[k] >= 0.0
  {
    forall k | 0 <= k < |z| && beta0 >= 0.0
      ensures SquaredWeights(beta0, z)[k] >= 0.0
    {
      SquareSign(z[k]);
    }
  }
}
