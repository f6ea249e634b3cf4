/** `Array.prototype.filter` and the order-preserving sublist relation it produces. */
module Sequences {

  /** `xs` can be obtained from `ys` by deleting elements, keeping the order of the rest. */
  predicate IsSubsequence<T(==,!new)>(xs: seq<T>, ys: seq<T>)
    decreases |ys|
  {
    xs == [] ||
    (ys != [] && ((xs[0] == ys[0] && IsSubsequence(xs[1..], ys[1..])) || IsSubsequence(xs, ys[1..])))
  }

  /**
   * `xs.filter(keep)`: the elements that pass, in their original order and with their
   * original multiplicity; the others are gone.
   */
  function Filter<T(==,!new)>(xs: seq<T>, keep: T -> bool): (r: seq<T>)
    ensures IsSubsequence(r, xs)
    ensures forall x :: x in r <==> x in xs && keep(x)
    decreases |xs|
  {
    if xs == [] then []
    else
      var rest := Filter(xs[1..], keep);
      assert xs == [xs[0]] + xs[1..];
      if keep(xs[0]) then
        assert ([xs[0]] + rest)[1..] == rest;
        [xs[0]] + rest
      else rest
  }

  /** Filtering keeps every passing element as often as it occurs, and no other element. */
  lemma {:induction false} FilterCounts<T(!new)>(xs: seq<T>, keep: T -> bool)
    ensures forall x :: multiset(Filter(xs, keep))[x] == if keep(x) then multiset(xs)[x] else 0
    decreases |xs|
  {
    if xs != [] {
      FilterCounts(xs[1..], keep);
      assert xs == [xs[0]] + xs[1..];
    }
  }

  /** Filtering keeps a list unchanged exactly when every element passes. */
  lemma {:induction false} FilterKeepsAll<T(!new)>(xs: seq<T>, keep: T -> bool)
    requires forall i :: 0 <= i < |xs| ==> keep(xs[i])
    ensures Filter(xs, keep) == xs
    decreases |xs|
  {
    if xs != [] {
      FilterKeepsAll(xs[1..], keep);
      assert [xs[0]] + xs[1..] == xs;
    }
  }

  /** Filtering leaves nothing when no element passes. */
  lemma {:induction false} FilterDropsAll<T(!new)>(xs: seq<T>, keep: T -> bool)
    requires forall i :: 0 <= i < |xs| ==> !keep(xs[i])
    ensures Filter(xs, keep) == []
    decreases |xs|
  {
    if xs != [] {
      FilterDropsAll(xs[1..], keep);
    }
  }

  /** Filtering twice with the same test is filtering once. */
  lemma FilterIdempotent<T(!new)>(xs: seq<T>, keep: T -> bool)
    ensures Filter(Filter(xs, keep), keep) == Filter(xs, keep)
  {
    var r := Filter(xs, keep);
    forall i | 0 <= i < |r| ensures keep(r[i]) {
      assert r[i] in r;
    }
    FilterKeepsAll(r, keep);
  }

  /** Two tests that agree on every element of the list filter it alike. */
  lemma {:induction false} FilterCongruent<T(!new)>(xs: seq<T>, keep1: T -> bool, keep2: T -> bool)
    requires forall i :: 0 <= i < |xs| ==> keep1(xs[i]) == keep2(xs[i])
    ensures Filter(xs, keep1) == Filter(xs, keep2)
    decreases |xs|
  {
    if xs != [] {
      FilterCongruent(xs[1..], keep1, keep2);
    }
  }
}
