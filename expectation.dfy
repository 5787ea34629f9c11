/**
 * Weighted sums: the expected continuation value of a state is the dot product of a
 * transition row with a value-function row, accumulated left to right from 0.
 */
module Expectation {

  /** The sum of w[i] * x[i] over i < k, added in increasing i starting from 0. */
  function Dot(w: seq<real>, x: seq<real>, k: nat): (sum: real)
    requires k <= |w| && k <= |x|
  {
    if k == 0 then 0.0 else Dot(w, x, k - 1) + w[k - 1] * x[k - 1]
  }

  /** The sum of w[i] over i < k. */
  function Total(w: seq<real>, k: nat): (total: real)
    requires k <= |w|
  {
    if k == 0 then 0.0 else Total(w, k - 1) + w[k - 1]
  }

  /** A row of a transition matrix: non-negative weights that add up to 1. */
  ghost predicate Stochastic(w: seq<real>) {
    (forall i :: 0 <= i < |w| ==> 0.0 <= w[i]) && Total(w, |w|) == 1.0
  }

  lemma MulBounds(w: real, x: real, lo: real, hi: real)
    requires 0.0 <= w && lo <= x <= hi
    ensures lo * w <= w * x <= hi * w
  {
  }

  lemma Distribute(a: real, b: real, c: real)
    ensures a * (b + c) == a * b + a * c
  {
  }

  /** Adding one more weighted term keeps the sum between lo and hi times the total weight. */
  lemma BoundsStep(lo: real, hi: real, t: real, d: real, wk: real, xk: real, t': real, d': real)
    requires lo * t <= d <= hi * t && 0.0 <= wk && lo <= xk <= hi
    requires t' == t + wk && d' == d + wk * xk
    ensures lo * t' <= d' <= hi * t'
  {
    MulBounds(wk, xk, lo, hi);
    Distribute(lo, t, wk);
    Distribute(hi, t, wk);
  }

  /** With non-negative weights, the weighted sum lies between lo and hi times the total weight. */
  lemma {:induction false} DotBounds(w: seq<real>, x: seq<real>, k: nat, lo: real, hi: real)
    requires k <= |w| && k <= |x|
    requires forall i :: 0 <= i < k ==> 0.0 <= w[i] && lo <= x[i] <= hi
    ensures lo * Total(w, k) <= Dot(w, x, k) <= hi * Total(w, k)
  {
    if k > 0 {
      DotBounds(w, x, k - 1, lo, hi);
      BoundsStep(lo, hi, Total(w, k - 1), Dot(w, x, k - 1), w[k - 1], x[k - 1], Total(w, k), Dot(w, x, k));
    }
  }

  /** Under a stochastic row the expectation is a convex combination: it stays within the bounds of the values. */
  lemma ExpectationWithinBounds(w: seq<real>, x: seq<real>, lo: real, hi: real)
    requires Stochastic(w) && |x| == |w|
    requires forall i :: 0 <= i < |x| ==> lo <= x[i] <= hi
    ensures lo <= Dot(w, x, |w|) <= hi
  {
    DotBounds(w, x, |w|, lo, hi);
  }

  /** Under a stochastic row a constant value row is its own expectation. */
  lemma ExpectationOfConstant(w: seq<real>, x: seq<real>, v: real)
    requires Stochastic(w) && |x| == |w|
    requires forall i :: 0 <= i < |x| ==> x[i] == v
    ensures Dot(w, x, |w|) == v
  {
    ExpectationWithinBounds(w, x, v, v);
  }

  /** The order of the two factors does not matter: T[p,k]*V[c,k] and V[c,k]*T[p,k] sum alike. */
  lemma {:induction false} DotCommutes(w: seq<real>, x: seq<real>, k: nat)
    requires k <= |w| && k <= |x|
    ensures Dot(w, x, k) == Dot(x, w, k)
  {
    if k > 0 {
      DotCommutes(w, x, k - 1);
    }
  }

  /** An all-zero value row has expectation 0 under any weights. */
  lemma {:induction false} DotOfZero(w: seq<real>, x: seq<real>, k: nat)
    requires k <= |w| && k <= |x|
    requires forall i :: 0 <= i < k ==> x[i] == 0.0
    ensures Dot(w, x, k) == 0.0
  {
    if k > 0 {
      DotOfZero(w, x, k - 1);
    }
  }
}
