/**
 * The loop of the symbolic backend over the items of `A.eigenvects()`:
 * each item must be a simple eigenvalue with a one-dimensional eigenspace;
 * its eigenvalue becomes a node and `beta[0] * v_0^2 / |v|^2` of its
 * eigenvector `v` the weight beside it.
 */
module Eigenpairs {
  import opened QuadratureTypes
  import opened Weights

  /** Why an item is rejected, in the order the loop body checks:
      `assert multiplicity == 1`, `assert len(vec) == 1`, the index
      `vec[0]`, and the division by the squared norm. `None` when the item
      is accepted. */
  function ItemError(item: EigenItem): (e: Option<Error>)
    ensures e == None <==>
      && item.multiplicity == 1
      && |item.vectors| == 1
      && exists k :: 0 <= k < |item.vectors[0]| && item.vectors[0][k] != 0.0
  {
    if item.multiplicity != 1 then Some(DegenerateEigenvalue)
    else if |item.vectors| != 1 then Some(DegenerateEigenspace)
    else if item.vectors[0] == [] then Some(EmptyEigenvector)
    else
      Norm2ZeroIff(item.vectors[0]);
      if Norm2(item.vectors[0]) == 0.0 then Some(ZeroEigenvector) else None
  }

  predicate Accepted(item: EigenItem)
  {
    ItemError(item) == None
  }

  predicate AllAccepted(items: seq<EigenItem>)
  {
    forall k :: 0 <= k < |items| ==> Accepted(items[k])
  }

  /** The weight the loop appends for an accepted item. */
  function ItemWeight(beta0: real, item: EigenItem): real
    requires Accepted(item)
  {
    var vec := item.vectors[0];
    Norm2ZeroIff(vec);
    Weight(beta0, vec[0], Norm2(vec))
  }

  /** What the loop leaves in `x` and `w` after the items of `items`, or the
      failure of the first rejected item. */
  function Collect(items: seq<EigenItem>, beta0: real): (r: Result<Rule>)
    decreases |items|
  {
    if items == [] then Success(Rule([], []))
    else
      var prefix := Collect(items[..|items| - 1], beta0);
      var last := items[|items| - 1];
      if prefix.Failure? then prefix
      else match ItemError(last)
        case Some(e) => Failure(e)
        case None => Success(Rule(prefix.value.nodes + [last.value],
                                  prefix.value.weights + [ItemWeight(beta0, last)]))
  }

  /** Once a prefix of the items fails, the whole loop fails the same way. */
  lemma {:induction false} CollectFailurePropagates(items: seq<EigenItem>, j: nat, beta0: real)
    requires j <= |items| && Collect(items[..j], beta0).Failure?
    ensures Collect(items, beta0) == Collect(items[..j], beta0)
    decreases |items|
  {
    if j < |items| {
      var p := items[..|items| - 1];
      assert p[..j] == items[..j];
      CollectFailurePropagates(p, j, beta0);
    } else {
      assert items[..j] == items;
    }
  }

  /** The loop over `A.eigenvects()`. */
  method CollectNodesWeights(items: seq<EigenItem>, beta0: real) returns (r: Result<Rule>)
    ensures r == Collect(items, beta0)
  {
    var x: seq<real> := [];
    var w: seq<real> := [];
    for i := 0 to |items|
      invariant Collect(items[..i], beta0) == Success(Rule(x, w))
    {
      var item := items[i];
      assert items[..i + 1][..i] == items[..i];
      if item.multiplicity != 1 {
        CollectFailurePropagates(items, i + 1, beta0);
        return Failure(DegenerateEigenvalue);
      }
      if |item.vectors| != 1 {
        CollectFailurePropagates(items, i + 1, beta0);
        return Failure(DegenerateEigenspace);
      }
      var vec := item.vectors[0];
      if vec == [] {
        CollectFailurePropagates(items, i + 1, beta0);
        return Failure(EmptyEigenvector);
      }
      var norm2 := Norm2(vec);
      if norm2 == 0.0 {
        CollectFailurePropagates(items, i + 1, beta0);
        return Failure(ZeroEigenvector);
      }
      assert ItemError(item) == None;
      x := x + [item.value];
      w := w + [Weight(beta0, vec[0], norm2)];
    }
    assert items[..|items|] == items;
    r := Success(Rule(x, w));
  }

  /** The loop succeeds exactly when every item is accepted. */
  lemma {:induction false} CollectSuccessIff(items: seq<EigenItem>, beta0: real)
    ensures Collect(items, beta0).Success? <==> AllAccepted(items)
    decreases |items|
  {
    if items != [] {
      var n := |items|;
      var p := items[..n - 1];
      CollectSuccessIff(p, beta0);
      assert forall k :: 0 <= k < n - 1 ==> p[k] == items[k];
    }
  }

  /** On success the loop yields one node and one weight per item, in the
      solver's order. */
  lemma {:induction false} CollectContents(items: seq<EigenItem>, beta0: real)
    requires Collect(items, beta0).Success?
    ensures AllAccepted(items)
    ensures var c := Collect(items, beta0).value;
      && |c.nodes| == |c.weights| == |items|
      && forall k :: 0 <= k < |items| ==>
           c.nodes[k] == items[k].value && c.weights[k] == ItemWeight(beta0, items[k])
    decreases |items|
  {
    CollectSuccessIff(items, beta0);
    if items != [] {
      var n := |items|;
      var p := items[..n - 1];
      CollectContents(p, beta0);
      assert forall k :: 0 <= k < n - 1 ==> p[k] == items[k];
    }
  }

  /** On failure the error is that of the first rejected item. */
  lemma {:induction false} CollectFirstError(items: seq<EigenItem>, beta0: real)
    requires Collect(items, beta0).Failure?
    ensures exists k ::
      0 <= k < |items| && AllAccepted(items[..k]) && ItemError(items[k]) == Some(Collect(items, beta0).error)
    decreases |items|
  {
    var n := |items|;
    var p := items[..n - 1];
    if Collect(p, beta0).Failure? {
      CollectFirstError(p, beta0);
      var k :| 0 <= k < |p| && AllAccepted(p[..k]) && ItemError(p[k]) == Some(Collect(p, beta0).error);
      assert p[..k] == items[..k] && p[k] == items[k];
    } else {
      CollectSuccessIff(p, beta0);
      assert p == items[..n - 1];
    }
  }

  /** The eigenvalue of each item, in the solver's order. */
  function Eigenvalues(items: seq<EigenItem>): (x: seq<real>)
    ensures |x| == |items|
  {
    seq(|items|, k requires 0 <= k < |items| => items[k].value)
  }

  /** The (node, weight) pairs the loop yields for accepted items. */
  function Pairs(items: seq<EigenItem>, beta0: real): (ps: seq<(real, real)>)
    requires AllAccepted(items)
    ensures |ps| == |items|
  {
    seq(|items|, k requires 0 <= k < |items| => (items[k].value, ItemWeight(beta0, items[k])))
  }

  /** For `beta[0] >= 0` every accepted item's weight lies in [0, beta[0]]. */
  lemma ItemWeightBounds(beta0: real, item: EigenItem)
    requires Accepted(item) && beta0 >= 0.0
    ensures 0.0 <= ItemWeight(beta0, item) <= beta0
  {
    Norm2ZeroIff(item.vectors[0]);
    WeightBounds(beta0, item.vectors[0]);
  }
}
