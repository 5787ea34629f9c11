/**
 * RBC_Python.py: main_func over numpy arrays. The capital grid is
 * np.arange(0.5 * capitalSteadyState, 1.5 * capitalSteadyState, 0.00001), whose length
 * depends on floating-point rounding and is the parameter n here. Each pass of the loop
 * rebuilds the expectations as dot(mValueFunction, mTransition.T), writes each state's
 * value and policy once its scan has finished, takes the largest |Vnew - V| and then
 * rebinds mValueFunction to mValueFunctionNew and mValueFunctionNew to fresh zeros.
 */
module RbcPython {
  import opened Search
  import opened Expectation
  import opened Sweep
  import opened Calibration
  import opened Setup
  import opened Engine

  /** dot(V, T.T): a fresh table whose entry (c, p) is the sum of V[c,k] * T[p,k] over k. */
  method DotTransposed(V: array2<real>, T: array2<real>) returns (E: array2<real>)
    requires V.Length1 == T.Length1
    ensures fresh(E) && E.Length0 == V.Length0 && E.Length1 == T.Length0
    ensures forall c, p :: 0 <= c < E.Length0 && 0 <= p < E.Length1 ==>
      E[c, p] == Dot(Matrix(V)[c], Matrix(T)[p], V.Length1)
  {
    E := new real[V.Length0, T.Length0]((c, p) requires 0 <= c < V.Length0 && 0 <= p < T.Length0 reads V, T =>
      Dot(Row(V, c), Row(T, p), V.Length1));
  }

  /** The larger of a running maximum and x, or x when there is none yet. */
  function Larger(r: Option<real>, x: real): (s: Option<real>)
    ensures s.Some? && x <= s.value && (r.Some? ==> r.value <= s.value)
    ensures s == Some(x) || s == r
  {
    if r.None? || x > r.value then Some(x) else r
  }

  /** The largest |A[c][p] - B[c][p]| over p < j in row c; None when j == 0. */
  function RowMax(A: seq<seq<real>>, B: seq<seq<real>>, n: nat, m: nat, c: nat, j: nat): (r: Option<real>)
    requires SameShape(A, B, n, m) && c < n && j <= m
    ensures r.None? <==> j == 0
    ensures r.Some? ==> forall p :: 0 <= p < j ==> AbsDiff(A, B, n, m, c, p) <= r.value
    ensures r.Some? ==> exists p :: 0 <= p < j && r.value == AbsDiff(A, B, n, m, c, p)
    decreases j
  {
    if j == 0 then None else Larger(RowMax(A, B, n, m, c, j - 1), AbsDiff(A, B, n, m, c, j - 1))
  }

  /**
   * (abs(A - B)).max() over the rows c < i: the largest |A[c][p] - B[c][p]|. None when
   * there is no entry, where numpy raises a ValueError.
   */
  function MaxAbsDiff(A: seq<seq<real>>, B: seq<seq<real>>, n: nat, m: nat, i: nat): (r: Option<real>)
    requires SameShape(A, B, n, m) && i <= n
    ensures r.None? <==> i == 0 || m == 0
    ensures r.Some? ==> forall c, p :: 0 <= c < i && 0 <= p < m ==> AbsDiff(A, B, n, m, c, p) <= r.value
    ensures r.Some? ==> exists c, p :: 0 <= c < i && 0 <= p < m && r.value == AbsDiff(A, B, n, m, c, p)
    decreases i
  {
    if i == 0 then None
    else
      var rest := MaxAbsDiff(A, B, n, m, i - 1);
      var row := RowMax(A, B, n, m, i - 1, m);
      if row.None? then rest else Larger(rest, row.value)
  }

  /**
   * One pass of the while loop took V0 and policy0 to V1 and policy1 and produced d: the
   * expectations E are dot(V0, Tm.T); every cell of V1 and policy1 is solved by the scan
   * of its column from the -100000 sentinel, written once the scan has finished, over a
   * V1 that started as zeros; and d is the largest |V1 - V0|.
   */
  ghost predicate Passed(ln: real -> real, Tm: seq<seq<real>>, g: seq<real>, y: seq<seq<real>>, m: nat,
                         V0: seq<seq<real>>, policy0: seq<seq<real>>, E: seq<seq<real>>,
                         V1: seq<seq<real>>, policy1: seq<seq<real>>, d: Option<real>)
  {
    && Table(Tm, m, m) && Table(y, |g|, m) && Table(V0, |g|, m) && Table(policy0, |g|, m)
    && Table(E, |g|, m) && Table(V1, |g|, m) && Table(policy1, |g|, m)
    && (forall c, p :: 0 <= c < |g| && 0 <= p < m ==> E[c][p] == Dot(V0[c], Tm[p], m))
    && (forall c, p :: 0 <= c < |g| && 0 <= p < m ==>
          SolvedCell(AfterScan, Sentinel, Scores(ln, g, y, E, m, p), g, c, V1[c][p], policy1[c][p], 0.0, policy0[c][p]))
    && d == MaxAbsDiff(V1, V0, |g|, m, |g|)
  }

  /** The body of the while loop, up to the rebinding of the two value tables. */
  method Pass(ln: real -> real, T: array2<real>, grid: array<real>, output: array2<real>,
              V: array2<real>, Vnew: array2<real>, policy: array2<real>)
      returns (E: array2<real>, maxDifference: Option<real>)
    requires T.Length0 == T.Length1 == output.Length1 && output.Length0 == grid.Length
    requires V.Length0 == Vnew.Length0 == policy.Length0 == grid.Length
    requires V.Length1 == Vnew.Length1 == policy.Length1 == output.Length1
    requires V != Vnew && V != policy && Vnew != policy && output != Vnew && output != policy
    requires T != Vnew && T != policy
    requires Zeros(Matrix(Vnew))
    modifies Vnew, policy
    ensures fresh(E)
    ensures Passed(ln, Matrix(T), grid[..], Matrix(output), output.Length1, Matrix(V), old(Matrix(policy)),
                   Matrix(E), Matrix(Vnew), Matrix(policy), maxDifference)
  {
    var n, m := grid.Length, output.Length1;
    ghost var tm, g, y := Matrix(T), grid[..], Matrix(output);
    ghost var V0, policy0 := Matrix(V), Matrix(policy);
    forall c, p | 0 <= c < n && 0 <= p < m
      ensures Vnew[c, p] == 0.0
    {
      assert Matrix(Vnew)[c][p] == Vnew[c, p];
    }
    E := DotTransposed(V, T);
    ghost var e := Matrix(E);
    forall c, p | 0 <= c < n && 0 <= p < m
      ensures e[c][p] == Dot(V0[c], tm[p], m)
    {
      assert e[c][p] == E[c, p];
    }
    Maximise(AfterScan, ln, Sentinel, grid, output, E, Vnew, policy);
    assert Matrix(T) == tm && grid[..] == g && Matrix(output) == y && Matrix(V) == V0 && Matrix(E) == e;
    ghost var V1, policy1 := Matrix(Vnew), Matrix(policy);
    forall c, p | 0 <= c < n && 0 <= p < m
      ensures SolvedCell(AfterScan, Sentinel, Scores(ln, g, y, e, m, p), g, c, V1[c][p], policy1[c][p], 0.0, policy0[c][p])
    {
    }
    maxDifference := MaxAbsDiff(Matrix(Vnew), Matrix(V), n, m, n);
    assert Passed(ln, tm, g, y, m, V0, policy0, e, V1, policy1, maxDifference);
  }

  /** The transition matrix, the grid of n points, the output table and the three zero-filled tables. */
  method Allocate(pow: (real, real) -> real, n: nat)
      returns (T: array2<real>, grid: array<real>, output: array2<real>,
               V: array2<real>, Vnew: array2<real>, policy: array2<real>)
    ensures fresh(T) && Matrix(T) == Transition && T.Length0 == T.Length1 == ProductivityGridSize
    ensures fresh(grid) && fresh(output) && fresh(V) && fresh(Vnew) && fresh(policy)
    ensures grid.Length == n && Prepared(pow, AlphaThird, grid, output)
    ensures V.Length0 == Vnew.Length0 == policy.Length0 == n
    ensures V.Length1 == Vnew.Length1 == policy.Length1 == ProductivityGridSize
    ensures Zeros(Matrix(V)) && Zeros(Matrix(Vnew)) && Zeros(Matrix(policy))
    ensures V != Vnew && V != policy && Vnew != policy && output != V && output != Vnew && output != policy
    ensures T != V && T != Vnew && T != policy
  {
    T := TransitionTable();
    TransitionTableContents(T);
    grid, output := Prepare(pow, AlphaThird, n);
    V := ZeroMatrix(n, ProductivityGridSize);
    Vnew := ZeroMatrix(n, ProductivityGridSize);
    policy := ZeroMatrix(n, ProductivityGridSize);
  }

  /** The value and policy tables between two passes. */
  datatype Tables = Tables(V: seq<seq<real>>, policy: seq<seq<real>>)

  /**
   * The loop test `maxDifference > tolerance` over the result of numpy's max, which the
   * model keeps as an Option (None where max raises); Engine.AboveTolerance is the same
   * test over the Best of the in-place sources.
   */
  predicate MaxAboveTolerance(maxDifference: Option<real>) {
    maxDifference.Some? && maxDifference.value > Tolerance
  }

  /** maxDifference as the loop test sees it after the recorded passes: 10 before the first. */
  function LastMaxDifference(diffs: seq<Option<real>>): (d: Option<real>)
    ensures |diffs| == 0 ==> d == Some(InitialDifference)
    ensures 0 < |diffs| ==> d == diffs[|diffs| - 1]
  {
    if |diffs| == 0 then Some(InitialDifference) else diffs[|diffs| - 1]
  }

  /**
   * The passes the loop has run so far: pass i took tables[i] to tables[i + 1] with the
   * expectations Es[i] and the difference diffs[i], and every pass before the last ended
   * above the tolerance, so the loop went on.
   */
  ghost predicate Passes(ln: real -> real, Tm: seq<seq<real>>, g: seq<real>, y: seq<seq<real>>, m: nat,
                         tables: seq<Tables>, Es: seq<seq<seq<real>>>, diffs: seq<Option<real>>)
  {
    && |tables| == |diffs| + 1 && |Es| == |diffs|
    && (forall i :: 0 <= i < |diffs| ==>
          Passed(ln, Tm, g, y, m, tables[i].V, tables[i].policy, Es[i], tables[i + 1].V, tables[i + 1].policy, diffs[i]))
    && (forall i :: 0 <= i < |diffs| - 1 ==> MaxAboveTolerance(diffs[i]))
  }

  /**
   * The whole run of the loop: the recorded passes, at most maxIterations of them, and
   * the loop left because the last difference was not above the tolerance or the bound
   * was reached.
   */
  ghost predicate MainRan(ln: real -> real, Tm: seq<seq<real>>, g: seq<real>, y: seq<seq<real>>, m: nat,
                          maxIterations: nat, tables: seq<Tables>, Es: seq<seq<seq<real>>>, diffs: seq<Option<real>>)
  {
    && Passes(ln, Tm, g, y, m, tables, Es, diffs)
    && |diffs| <= maxIterations
    && (!MaxAboveTolerance(LastMaxDifference(diffs)) || |diffs| == maxIterations)
  }

  /** One more pass from the last recorded tables, taken because the last difference was above the tolerance. */
  lemma PassesExtend(ln: real -> real, Tm: seq<seq<real>>, g: seq<real>, y: seq<seq<real>>, m: nat,
                     tables: seq<Tables>, Es: seq<seq<seq<real>>>, diffs: seq<Option<real>>,
                     t: Tables, E: seq<seq<real>>, d: Option<real>)
    requires Passes(ln, Tm, g, y, m, tables, Es, diffs)
    requires MaxAboveTolerance(LastMaxDifference(diffs))
    requires Passed(ln, Tm, g, y, m, tables[|tables| - 1].V, tables[|tables| - 1].policy, E, t.V, t.policy, d)
    ensures Passes(ln, Tm, g, y, m, tables + [t], Es + [E], diffs + [d])
  {
    var tables', Es', diffs' := tables + [t], Es + [E], diffs + [d];
    forall i | 0 <= i < |diffs'|
      ensures Passed(ln, Tm, g, y, m, tables'[i].V, tables'[i].policy, Es'[i], tables'[i + 1].V, tables'[i + 1].policy, diffs'[i])
    {
      if i < |diffs| {
        assert tables'[i] == tables[i] && tables'[i + 1] == tables[i + 1] && Es'[i] == Es[i] && diffs'[i] == diffs[i];
      }
    }
    forall i | 0 <= i < |diffs'| - 1
      ensures MaxAboveTolerance(diffs'[i])
    {
      assert diffs'[i] == diffs[i];
    }
  }

  /** The loop test holds for the initial difference, so a positive bound makes the loop pass at least once. */
  lemma MainRanAtLeastOnce(ln: real -> real, Tm: seq<seq<real>>, g: seq<real>, y: seq<seq<real>>, m: nat,
                           maxIterations: nat, tables: seq<Tables>, Es: seq<seq<seq<real>>>, diffs: seq<Option<real>>)
    requires MainRan(ln, Tm, g, y, m, maxIterations, tables, Es, diffs) && 0 < maxIterations
    ensures 0 < |diffs|
  {
    if |diffs| == 0 {
      assert MaxAboveTolerance(LastMaxDifference(diffs));
    }
  }

  /**
   * main_func over a grid of n points, with at most maxIterations passes; iteration rises
   * by one per pass. Returns (maxDifference, iteration, mValueFunction, mPolicyFunction),
   * the transition matrix, the grid and the output table; the ghost results record the
   * tables before and after every pass, each pass's expectations and its difference.
   */
  method MainFunc(ln: real -> real, pow: (real, real) -> real, n: nat, maxIterations: nat)
      returns (maxDifference: Option<real>, iteration: nat, mValueFunction: array2<real>,
               mPolicyFunction: array2<real>, T: array2<real>, grid: array<real>, output: array2<real>,
               ghost tables: seq<Tables>, ghost Es: seq<seq<seq<real>>>, ghost diffs: seq<Option<real>>)
    ensures fresh(T) && Matrix(T) == Transition
    ensures fresh(grid) && fresh(output) && fresh(mValueFunction) && fresh(mPolicyFunction)
    ensures grid.Length == n && Prepared(pow, AlphaThird, grid, output)
    ensures MainRan(ln, Transition, grid[..], Matrix(output), ProductivityGridSize, maxIterations, tables, Es, diffs)
    ensures iteration == |diffs| && maxDifference == LastMaxDifference(diffs)
    ensures tables[iteration] == Tables(Matrix(mValueFunction), Matrix(mPolicyFunction))
    ensures Zeros(tables[0].V) && Zeros(tables[0].policy)
  {
    var mValueFunctionNew;
    T, grid, output, mValueFunction, mValueFunctionNew, mPolicyFunction := Allocate(pow, n);
    maxDifference := Some(InitialDifference);
    iteration := 0;
    ghost var g, y := grid[..], Matrix(output);
    tables, Es, diffs := [Tables(Matrix(mValueFunction), Matrix(mPolicyFunction))], [], [];
    label Allocated:
    while MaxAboveTolerance(maxDifference) && iteration < maxIterations
      invariant fresh(mValueFunction) && fresh(mValueFunctionNew) && fresh(mPolicyFunction)
      invariant unchanged@Allocated(T, grid, output)
      invariant mValueFunction.Length0 == mValueFunctionNew.Length0 == mPolicyFunction.Length0 == n
      invariant mValueFunction.Length1 == mValueFunctionNew.Length1 == mPolicyFunction.Length1 == ProductivityGridSize
      invariant mValueFunction != mValueFunctionNew && mValueFunction != mPolicyFunction
      invariant mValueFunctionNew != mPolicyFunction && output != mValueFunction
      invariant output != mValueFunctionNew && output != mPolicyFunction
      invariant T != mValueFunction && T != mValueFunctionNew && T != mPolicyFunction
      invariant Zeros(Matrix(mValueFunctionNew))
      invariant Passes(ln, Transition, g, y, ProductivityGridSize, tables, Es, diffs)
      invariant iteration == |diffs| <= maxIterations && maxDifference == LastMaxDifference(diffs)
      invariant Zeros(tables[0].V) && Zeros(tables[0].policy)
      invariant tables[iteration] == Tables(Matrix(mValueFunction), Matrix(mPolicyFunction))
      decreases maxIterations - iteration
    {
      assert Prepared(pow, AlphaThird, grid, output) && T.Length0 == T.Length1 == output.Length1;
      var expectedValueFunction;
      expectedValueFunction, maxDifference := Pass(ln, T, grid, output, mValueFunction, mValueFunctionNew,
                                                   mPolicyFunction);
      ghost var t := Tables(Matrix(mValueFunctionNew), Matrix(mPolicyFunction));
      assert grid[..] == g && Matrix(output) == y && Matrix(T) == Transition;
      PassesExtend(ln, Transition, g, y, ProductivityGridSize, tables, Es, diffs, t, Matrix(expectedValueFunction), maxDifference);
      tables, Es, diffs := tables + [t], Es + [Matrix(expectedValueFunction)], diffs + [maxDifference];
      mValueFunction := mValueFunctionNew;
      mValueFunctionNew := ZeroMatrix(n, ProductivityGridSize);
      iteration := iteration + 1;
    }
    assert grid[..] == g && Matrix(output) == y;
    assert MainRan(ln, Transition, g, y, ProductivityGridSize, maxIterations, tables, Es, diffs);
  }

  /** dot(V, T.T) gives the same expectations as the sums of T[p,k] * V[c,k] of the other sources. */
  lemma ExpectationsAgree(ln: real -> real, Tm: seq<seq<real>>, g: seq<real>, y: seq<seq<real>>, m: nat,
                          V0: seq<seq<real>>, policy0: seq<seq<real>>, E: seq<seq<real>>,
                          V1: seq<seq<real>>, policy1: seq<seq<real>>, d: Option<real>)
    requires Passed(ln, Tm, g, y, m, V0, policy0, E, V1, policy1, d)
    ensures forall c, p :: 0 <= c < |g| && 0 <= p < m ==> E[c][p] == Dot(Tm[p], V0[c], m)
  {
    forall c, p | 0 <= c < |g| && 0 <= p < m
      ensures E[c][p] == Dot(Tm[p], V0[c], m)
    {
      DotCommutes(V0[c], Tm[p], m);
    }
  }

  /** |B - A| and |A - B| agree cell by cell. */
  lemma AbsDiffSwap(A: seq<seq<real>>, B: seq<seq<real>>, n: nat, m: nat, c: nat, p: nat)
    requires SameShape(A, B, n, m) && c < n && p < m
    ensures SameShape(B, A, n, m) && AbsDiff(B, A, n, m, c, p) == AbsDiff(A, B, n, m, c, p)
  {
  }

  /**
   * Over a non-empty table, the largest |B - A| is the sup-difference of A and B that the
   * in-place sources fold from a sentinel below zero.
   */
  lemma MaxAbsDiffIsSupDiff(r: Best, sentinel: Best, A: seq<seq<real>>, B: seq<seq<real>>, n: nat, m: nat)
    requires SameShape(A, B, n, m) && 0 < n && 0 < m && BelowZero(sentinel)
    requires SupDiff(r, sentinel, A, B, n, m)
    ensures SameShape(B, A, n, m) && r.Finite? && MaxAbsDiff(B, A, n, m, n) == Some(r.value)
  {
    SupDiffIsMaximum(r, sentinel, A, B, n, m);
    var s := MaxAbsDiff(B, A, n, m, n);
    var c1, p1 :| 0 <= c1 < n && 0 <= p1 < m && s.value == AbsDiff(B, A, n, m, c1, p1);
    AbsDiffSwap(A, B, n, m, c1, p1);
    assert s.value <= r.value;
    var c2, p2 :| 0 <= c2 < n && 0 <= p2 < m && r.value == AbsDiff(A, B, n, m, c2, p2);
    AbsDiffSwap(A, B, n, m, c2, p2);
    assert r.value <= s.value;
  }

  /** Once the loop stops below the tolerance, no cell of the value function moved by more than it in the last pass. */
  lemma StoppedMeansSettled(ln: real -> real, Tm: seq<seq<real>>, g: seq<real>, y: seq<seq<real>>, m: nat,
                            V0: seq<seq<real>>, policy0: seq<seq<real>>, E: seq<seq<real>>,
                            V1: seq<seq<real>>, policy1: seq<seq<real>>, d: Option<real>, c: nat, p: nat)
    requires Passed(ln, Tm, g, y, m, V0, policy0, E, V1, policy1, d)
    requires d.Some? && d.value <= Tolerance && c < |g| && p < m
    ensures Abs(V1[c][p] - V0[c][p]) <= Tolerance
  {
    assert AbsDiff(V1, V0, |g|, m, c, p) <= d.value;
  }
}
