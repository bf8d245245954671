/**
 * The sort step of the symbolic backend: the indices `range(len(x))` are
 * sorted by node with Python's stable `sorted`, and nodes and weights are
 * both reordered by the resulting index list.
 * Stability means the indices are in fact ordered by the key
 * (node, index), compared lexicographically. `sorted` is modelled by
 * inserting the indices 0, 1, ..., n-1 in turn, each after every index
 * whose node is not greater than its own.
 */
module NodeOrder {

  /** Every index in `o` is below `n`. */
  predicate IndicesBelow(o: seq<nat>, n: nat)
  {
    forall k :: 0 <= k < |o| ==> o[k] < n
  }

  /** Index `i` comes before index `j` in a stable sort by node: a smaller
      node, or an equal node and a smaller index. */
  predicate Before(x: seq<real>, i: nat, j: nat)
    requires i < |x| && j < |x|
  {
    x[i] < x[j] || (x[i] == x[j] && i < j)
  }

  /** Each index of `o` comes before the next one. */
  predicate Chain(x: seq<real>, o: seq<nat>)
    requires IndicesBelow(o, |x|)
  {
    forall k :: 0 <= k < |o| - 1 ==> Before(x, o[k], o[k + 1])
  }

  /** `[0, 1, ..., n-1]`, that is `range(n)`. */
  function Range(n: nat): (r: seq<nat>)
    ensures |r| == n && forall k :: 0 <= k < n ==> r[k] == k
  {
    if n == 0 then [] else Range(n - 1) + [n - 1]
  }

  /** Places index `i` after every index of `o` whose node is at most `x[i]`,
      in front of the first one whose node is greater. */
  function Insert(x: seq<real>, o: seq<nat>, i: nat): (r: seq<nat>)
    requires i < |x| && IndicesBelow(o, |x|)
    ensures |r| == |o| + 1 && IndicesBelow(r, |x|)
    ensures r[0] == i || (o != [] && r[0] == o[0])
  {
    if o == [] then [i]
    else if x[i] < x[o[0]] then [i] + o
    else [o[0]] + Insert(x, o[1..], i)
  }

  lemma {:induction false} InsertBelow(x: seq<real>, o: seq<nat>, i: nat, n: nat)
    requires i < n <= |x| && IndicesBelow(o, n)
    ensures IndicesBelow(Insert(x, o, i), n)
    decreases |o|
  {
    if o != [] && x[o[0]] <= x[i] {
      InsertBelow(x, o[1..], i, n);
    }
  }

  /** `sorted(range(n), key=lambda i: x[i])`. */
  function SortedOrder(x: seq<real>, n: nat): (o: seq<nat>)
    requires n <= |x|
    ensures |o| == n && IndicesBelow(o, n) && IndicesBelow(o, |x|)
  {
    if n == 0 then []
    else
      var o := SortedOrder(x, n - 1);
      InsertBelow(x, o, n - 1, n);
      Insert(x, o, n - 1)
  }

  lemma SortedOrderStep(x: seq<real>, n: nat)
    requires 0 < n <= |x|
    ensures SortedOrder(x, n) == Insert(x, SortedOrder(x, n - 1), n - 1)
  {
  }

  /** `[s[i] for i in o]`. */
  function Permute<T>(s: seq<T>, o: seq<nat>): (r: seq<T>)
    requires IndicesBelow(o, |s|)
    ensures |r| == |o|
  {
    seq(|o|, k requires 0 <= k < |o| => s[o[k]])
  }

  /** The pairs `(x[k], w[k])`. */
  function Zip<A, B>(x: seq<A>, w: seq<B>): (r: seq<(A, B)>)
    requires |x| == |w|
    ensures |r| == |x|
  {
    seq(|x|, k requires 0 <= k < |x| => (x[k], w[k]))
  }

  /** The sort step: nodes and weights, both reordered by `SortedOrder`. */
  function SortByNode(x: seq<real>, w: seq<real>): (xw: (seq<real>, seq<real>))
    requires |x| == |w|
  {
    var order := SortedOrder(x, |x|);
    (Permute(x, order), Permute(w, order))
  }

  // ---------------------------------------------------------------------
  // The order is sorted and stable.

  lemma ChainTail(x: seq<real>, o: seq<nat>)
    requires o != [] && IndicesBelow(o, |x|) && Chain(x, o)
    ensures IndicesBelow(o[1..], |x|) && Chain(x, o[1..])
  {
    assert forall k :: 0 <= k < |o| - 1 ==> o[1..][k] == o[k + 1];
  }

  lemma ChainCons(x: seq<real>, h: nat, t: seq<nat>)
    requires h < |x| && IndicesBelow(t, |x|) && Chain(x, t)
    requires t != [] ==> Before(x, h, t[0])
    ensures IndicesBelow([h] + t, |x|) && Chain(x, [h] + t)
  {
    assert forall k :: 0 <= k < |t| ==> ([h] + t)[k + 1] == t[k];
  }

  /** Inserting an index greater than all of `o` keeps the chain. */
  lemma {:induction false} InsertChain(x: seq<real>, o: seq<nat>, i: nat)
    requires i < |x| && IndicesBelow(o, i) && Chain(x, o)
    ensures Chain(x, Insert(x, o, i))
    decreases |o|
  {
    if o == [] {
    } else if x[i] < x[o[0]] {
      ChainCons(x, i, o);
    } else {
      var t := o[1..];
      ChainTail(x, o);
      InsertChain(x, t, i);
      ChainCons(x, o[0], Insert(x, t, i));
    }
  }

  lemma {:induction false} SortedOrderChain(x: seq<real>, n: nat)
    requires n <= |x|
    ensures Chain(x, SortedOrder(x, n))
  {
    if n > 0 {
      SortedOrderStep(x, n);
      SortedOrderChain(x, n - 1);
      InsertChain(x, SortedOrder(x, n - 1), n - 1);
    }
  }

  /** A chain is ordered throughout, as `Before` is transitive. */
  lemma {:induction false} ChainOrdered(x: seq<real>, o: seq<nat>, p: nat, q: nat)
    requires IndicesBelow(o, |x|) && Chain(x, o) && p < q < |o|
    ensures Before(x, o[p], o[q])
    decreases q - p
  {
    if p + 1 < q {
      ChainOrdered(x, o, p + 1, q);
    }
  }

  // ---------------------------------------------------------------------
  // The order is a permutation, and so is applying it.

  lemma {:induction false} InsertMultiset(x: seq<real>, o: seq<nat>, i: nat)
    requires i < |x| && IndicesBelow(o, |x|)
    ensures multiset(Insert(x, o, i)) == multiset(o) + multiset{i}
    decreases |o|
  {
    if o != [] && x[o[0]] <= x[i] {
      assert o == [o[0]] + o[1..];
      InsertMultiset(x, o[1..], i);
    }
  }

  /** `sorted(range(n))` lists each index below n exactly once. */
  lemma {:induction false} SortedOrderMultiset(x: seq<real>, n: nat)
    requires n <= |x|
    ensures multiset(SortedOrder(x, n)) == multiset(Range(n))
  {
    if n > 0 {
      SortedOrderStep(x, n);
      SortedOrderMultiset(x, n - 1);
      InsertMultiset(x, SortedOrder(x, n - 1), n - 1);
      assert Range(n) == Range(n - 1) + [n - 1];
    }
  }

  lemma PermuteCons<T>(s: seq<T>, h: nat, t: seq<nat>)
    requires h < |s| && IndicesBelow(t, |s|)
    ensures IndicesBelow([h] + t, |s|) && Permute(s, [h] + t) == [s[h]] + Permute(s, t)
  {
    assert forall k :: 0 <= k < |t| ==> ([h] + t)[k + 1] == t[k];
  }

  lemma {:induction false} PermuteInsert<T>(s: seq<T>, x: seq<real>, o: seq<nat>, i: nat)
    requires |s| == |x| && i < |x| && IndicesBelow(o, |x|)
    ensures multiset(Permute(s, Insert(x, o, i))) == multiset(Permute(s, o)) + multiset{s[i]}
    decreases |o|
  {
    if o == [] {
      assert Permute(s, [i]) == [s[i]];
    } else if x[i] < x[o[0]] {
      PermuteCons(s, i, o);
    } else {
      var t := o[1..];
      assert o == [o[0]] + t;
      PermuteInsert(s, x, t, i);
      PermuteCons(s, o[0], Insert(x, t, i));
      PermuteCons(s, o[0], t);
    }
  }

  lemma TakeSnoc<T>(s: seq<T>, n: nat)
    requires 0 < n <= |s|
    ensures multiset(s[..n]) == multiset(s[..n - 1]) + multiset{s[n - 1]}
  {
    assert s[..n] == s[..n - 1] + [s[n - 1]];
  }

  /** Reordering by `SortedOrder(x, n)` is a permutation of the first n elements. */
  lemma {:induction false} PermuteSortedOrder<T>(s: seq<T>, x: seq<real>, n: nat)
    requires |s| == |x| && n <= |x|
    ensures multiset(Permute(s, SortedOrder(x, n))) == multiset(s[..n])
  {
    if n == 0 {
      assert Permute(s, SortedOrder(x, 0)) == [];
    } else {
      var o := SortedOrder(x, n - 1);
      SortedOrderStep(x, n);
      PermuteSortedOrder(s, x, n - 1);
      PermuteInsert(s, x, o, n - 1);
      TakeSnoc(s, n);
    }
  }

  /** Along the sorted order the nodes are non-decreasing, and equal nodes
      keep their index order. */
  lemma SortedOrderSorted(x: seq<real>, n: nat)
    requires n <= |x|
    ensures var o := SortedOrder(x, n);
      forall p, q :: 0 <= p < q < n ==> x[o[p]] <= x[o[q]] && (x[o[p]] == x[o[q]] ==> o[p] < o[q])
  {
    var o := SortedOrder(x, n);
    SortedOrderChain(x, n);
    forall p, q | 0 <= p < q < n
      ensures x[o[p]] <= x[o[q]] && (x[o[p]] == x[o[q]] ==> o[p] < o[q])
    {
      ChainOrdered(x, o, p, q);
    }
  }

  /** The sort step puts `x[order[k]]` and `w[order[k]]` at position k, so
      the nodes come out non-decreasing and equal nodes keep their order. */
  lemma SortByNodeAligned(x: seq<real>, w: seq<real>)
    requires |x| == |w|
    ensures var (x', w') := SortByNode(x, w);
      var order := SortedOrder(x, |x|);
      && |x'| == |w'| == |x|
      && (forall k :: 0 <= k < |x'| ==> x'[k] == x[order[k]] && w'[k] == w[order[k]])
      && (forall p, q :: 0 <= p < q < |x'| ==> x'[p] <= x'[q])
      && (forall p, q :: 0 <= p < q < |x'| && x'[p] == x'[q] ==> order[p] < order[q])
  {
    SortedOrderSorted(x, |x|);
  }

  /** The sort step only reorders the (node, weight) pairs. */
  lemma SortByNodePairs(x: seq<real>, w: seq<real>)
    requires |x| == |w|
    ensures var (x', w') := SortByNode(x, w);
      |x'| == |w'| && multiset(Zip(x', w')) == multiset(Zip(x, w))
  {
    var n := |x|;
    var order := SortedOrder(x, n);
    var (x', w') := SortByNode(x, w);
    assert Zip(x', w') == Permute(Zip(x, w), order);
    PermuteSortedOrder(Zip(x, w), x, n);
    assert Zip(x, w)[..n] == Zip(x, w);
  }

  // ---------------------------------------------------------------------

  /** Everything the sort step promises: `order` is a permutation of
      `range(n)`; the nodes come out non-decreasing; the (node, weight)
      pairs are a permutation of the input pairs, each weight still beside
      its own node; the lengths are kept; and equal nodes keep their
      original relative order. */
  lemma SortByNodeSpec(x: seq<real>, w: seq<real>)
    requires |x| == |w|
    ensures var (x', w') := SortByNode(x, w);
      var order := SortedOrder(x, |x|);
      && multiset(order) == multiset(Range(|x|))
      && |x'| == |w'| == |x|
      && (forall p, q :: 0 <= p < q < |x'| ==> x'[p] <= x'[q])
      && multiset(Zip(x', w')) == multiset(Zip(x, w))
      && (forall k :: 0 <= k < |x'| ==> x'[k] == x[order[k]] && w'[k] == w[order[k]])
      && (forall p, q :: 0 <= p < q < |x'| && x'[p] == x'[q] ==> order[p] < order[q])
  {
    SortedOrderMultiset(x, |x|);
    SortByNodeAligned(x, w);
    SortByNodePairs(x, w);
  }
}
