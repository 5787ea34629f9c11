/**
 * Value-function iteration over n x m tables, as SingleLoop.cpp, RBC_CPP.cpp, RBC_CPP_2.cpp,
 * RBC_C2.c, RBC_Java.java, RBC_CS.cs, RBC_JS.js, RBC_Swift.swift and rbc_ruby.rb run it:
 * while the sup-difference exceeds the tolerance, one sweep computes the expectations,
 * maximises into Vnew and policy, and folds |V - Vnew| while copying Vnew into V.
 */
module Engine {
  import opened Search
  import opened Expectation
  import opened Sweep
  import opened Calibration

  /** The contents of the four buffers a sweep updates. */
  datatype Buffers = Buffers(V: seq<seq<real>>, Vnew: seq<seq<real>>, policy: seq<seq<real>>, E: seq<seq<real>>)

  ghost function Contents(V: array2<real>, Vnew: array2<real>, policy: array2<real>, E: array2<real>): (b: Buffers)
    reads V, Vnew, policy, E
  {
    Buffers(Matrix(V), Matrix(Vnew), Matrix(policy), Matrix(E))
  }

  /** a has n rows of m entries. */
  ghost predicate Table(a: seq<seq<real>>, n: nat, m: nat) {
    |a| == n && forall i :: 0 <= i < n ==> |a[i]| == m
  }

  /** All four buffers are n x m. */
  ghost predicate Fits(b: Buffers, n: nat, m: nat) {
    Table(b.V, n, m) && Table(b.Vnew, n, m) && Table(b.policy, n, m) && Table(b.E, n, m)
  }

  /**
   * One sweep took the buffers from b0 to b1 and produced the sup-difference d: the
   * expectation of every state under the transition table Tm and the old V; every cell of
   * Vnew and policy solved by the scan of its column, as `mode` writes it, over the
   * objectives built from the grid g, the output table y and those expectations; d the
   * running maximum of |V - Vnew| from the sentinel; and V a copy of Vnew.
   */
  ghost predicate Swept(mode: WriteMode, ln: real -> real, sentinel: Best, Tm: seq<seq<real>>, g: seq<real>,
                        y: seq<seq<real>>, m: nat, b0: Buffers, b1: Buffers, d: Best)
  {
    && Table(Tm, m, m) && Table(y, |g|, m) && Fits(b0, |g|, m) && Fits(b1, |g|, m)
    && (forall c, p :: 0 <= c < |g| && 0 <= p < m ==> b1.E[c][p] == Dot(Tm[p], b0.V[c], m))
    && (forall c, p :: 0 <= c < |g| && 0 <= p < m ==>
          SolvedCell(mode, sentinel, Scores(ln, g, y, b1.E, m, p), g, c,
                     b1.Vnew[c][p], b1.policy[c][p], b0.Vnew[c][p], b0.policy[c][p]))
    && SupDiff(d, sentinel, b0.V, b1.Vnew, |g|, m)
    && (forall c, p :: 0 <= c < |g| && 0 <= p < m ==> b1.V[c][p] == b1.Vnew[c][p])
  }

  /** The shapes a sweep needs: an n-point grid, n x m tables and an m x m transition table. */
  predicate Conformable(T: array2<real>, grid: array<real>, output: array2<real>,
                        V: array2<real>, Vnew: array2<real>, policy: array2<real>, E: array2<real>)
  {
    && T.Length0 == T.Length1 == output.Length1
    && output.Length0 == grid.Length
    && V.Length0 == Vnew.Length0 == policy.Length0 == E.Length0 == grid.Length
    && V.Length1 == Vnew.Length1 == policy.Length1 == E.Length1 == output.Length1
  }

  /** The six tables are separate objects. */
  predicate Separate(T: array2<real>, output: array2<real>,
                     V: array2<real>, Vnew: array2<real>, policy: array2<real>, E: array2<real>)
  {
    && V != Vnew && V != policy && V != E && Vnew != policy && Vnew != E && policy != E
    && T != V && T != Vnew && T != policy && T != E
    && output != V && output != Vnew && output != policy && output != E
  }

  /** Matrix(a)[i] is row i of a. */
  lemma MatrixRow(a: array2<real>, i: nat)
    requires i < a.Length0
    ensures Matrix(a)[i] == Row(a, i)
  {
  }

  /** One sweep of the iteration. */
  method Step(mode: WriteMode, ln: real -> real, sentinel: Best, T: array2<real>, grid: array<real>,
              output: array2<real>, V: array2<real>, Vnew: array2<real>, policy: array2<real>, E: array2<real>)
      returns (d: Best)
    requires Admissible(mode, sentinel)
    requires Conformable(T, grid, output, V, Vnew, policy, E) && Separate(T, output, V, Vnew, policy, E)
    modifies V, Vnew, policy, E
    ensures Swept(mode, ln, sentinel, Matrix(T), grid[..], Matrix(output), E.Length1,
                  old(Contents(V, Vnew, policy, E)), Contents(V, Vnew, policy, E), d)
  {
    ghost var b0 := Contents(V, Vnew, policy, E);
    ExpectationStep(T, V, E);
    ghost var e := Matrix(E);
    forall c, p | 0 <= c < grid.Length && 0 <= p < E.Length1
      ensures e[c][p] == Dot(Matrix(T)[p], b0.V[c], E.Length1)
    {
      MatrixRow(T, p);
      MatrixRow(V, c);
    }
    Maximise(mode, ln, sentinel, grid, output, E, Vnew, policy);
    d := SupDiffAndCopy(sentinel, V, Vnew);
  }

  /** maxDifference > tolerance, where -infinity is below everything. */
  predicate AboveTolerance(maxDifference: Best) {
    maxDifference.Finite? && maxDifference.value > Tolerance
  }

  /** maxDifference as the loop test sees it after the recorded sweeps: 10 before the first. */
  function LastDifference(diffs: seq<Best>): (d: Best)
    ensures |diffs| == 0 ==> d == Finite(InitialDifference)
    ensures 0 < |diffs| ==> d == diffs[|diffs| - 1]
  {
    if |diffs| == 0 then Finite(InitialDifference) else diffs[|diffs| - 1]
  }

  /**
   * The sweeps the outer loop has run so far: trace[i] holds the buffers before sweep i
   * and trace[i + 1] those after it, diffs[i] is that sweep's sup-difference, and every
   * sweep before the last ended above the tolerance, so the loop went on.
   */
  ghost predicate Sweeps(mode: WriteMode, ln: real -> real, sentinel: Best, Tm: seq<seq<real>>, g: seq<real>,
                         y: seq<seq<real>>, m: nat, trace: seq<Buffers>, diffs: seq<Best>)
  {
    && |trace| == |diffs| + 1
    && (forall i :: 0 <= i < |diffs| ==> Swept(mode, ln, sentinel, Tm, g, y, m, trace[i], trace[i + 1], diffs[i]))
    && (forall i :: 0 <= i < |diffs| - 1 ==> AboveTolerance(diffs[i]))
  }

  /**
   * The whole run of the outer loop: the recorded sweeps, at most maxIterations of them,
   * and the loop left either because the last sup-difference was not above the tolerance
   * or because the bound was reached.
   */
  ghost predicate Ran(mode: WriteMode, ln: real -> real, sentinel: Best, Tm: seq<seq<real>>, g: seq<real>,
                      y: seq<seq<real>>, m: nat, maxIterations: nat, trace: seq<Buffers>, diffs: seq<Best>)
  {
    && Sweeps(mode, ln, sentinel, Tm, g, y, m, trace, diffs)
    && |diffs| <= maxIterations
    && (!AboveTolerance(LastDifference(diffs)) || |diffs| == maxIterations)
  }

  /** One more sweep from the last recorded buffers, taken because the last difference was above the tolerance. */
  lemma SweepsExtend(mode: WriteMode, ln: real -> real, sentinel: Best, Tm: seq<seq<real>>, g: seq<real>,
                     y: seq<seq<real>>, m: nat, trace: seq<Buffers>, diffs: seq<Best>, b: Buffers, d: Best)
    requires Sweeps(mode, ln, sentinel, Tm, g, y, m, trace, diffs)
    requires AboveTolerance(LastDifference(diffs))
    requires Swept(mode, ln, sentinel, Tm, g, y, m, trace[|trace| - 1], b, d)
    ensures Sweeps(mode, ln, sentinel, Tm, g, y, m, trace + [b], diffs + [d])
  {
    var trace', diffs' := trace + [b], diffs + [d];
    forall i | 0 <= i < |diffs'|
      ensures Swept(mode, ln, sentinel, Tm, g, y, m, trace'[i], trace'[i + 1], diffs'[i])
    {
      if i < |diffs| {
        assert trace'[i] == trace[i] && trace'[i + 1] == trace[i + 1] && diffs'[i] == diffs[i];
      }
    }
    forall i | 0 <= i < |diffs'| - 1
      ensures AboveTolerance(diffs'[i])
    {
      assert diffs'[i] == diffs[i];
    }
  }

  /** The loop test holds for the initial difference, so a positive bound makes the loop sweep at least once. */
  lemma RanAtLeastOnce(mode: WriteMode, ln: real -> real, sentinel: Best, Tm: seq<seq<real>>, g: seq<real>,
                       y: seq<seq<real>>, m: nat, maxIterations: nat, trace: seq<Buffers>, diffs: seq<Best>)
    requires Ran(mode, ln, sentinel, Tm, g, y, m, maxIterations, trace, diffs) && 0 < maxIterations
    ensures 0 < |diffs|
  {
    if |diffs| == 0 {
      assert AboveTolerance(LastDifference(diffs));
    }
  }

  /**
   * The outer loop `while maxDifference > tolerance`, from maxDifference = 10 and
   * iteration = 0, with at most maxIterations sweeps; iteration rises by one per sweep.
   * The ghost trace and diffs record the buffers before and after every sweep and each
   * sweep's sup-difference.
   */
  method Solve(mode: WriteMode, ln: real -> real, sentinel: Best, T: array2<real>, grid: array<real>,
               output: array2<real>, V: array2<real>, Vnew: array2<real>, policy: array2<real>, E: array2<real>,
               maxIterations: nat)
      returns (maxDifference: Best, iteration: nat, ghost trace: seq<Buffers>, ghost diffs: seq<Best>)
    requires Admissible(mode, sentinel)
    requires Conformable(T, grid, output, V, Vnew, policy, E) && Separate(T, output, V, Vnew, policy, E)
    modifies V, Vnew, policy, E
    ensures Ran(mode, ln, sentinel, Matrix(T), grid[..], Matrix(output), E.Length1, maxIterations, trace, diffs)
    ensures iteration == |diffs| && maxDifference == LastDifference(diffs)
    ensures trace[0] == old(Contents(V, Vnew, policy, E)) && trace[iteration] == Contents(V, Vnew, policy, E)
  {
    ghost var tm, g, y := Matrix(T), grid[..], Matrix(output);
    maxDifference := Finite(InitialDifference);
    iteration := 0;
    trace, diffs := [Contents(V, Vnew, policy, E)], [];
    while AboveTolerance(maxDifference) && iteration < maxIterations
      invariant Matrix(T) == tm && grid[..] == g && Matrix(output) == y
      invariant Sweeps(mode, ln, sentinel, tm, g, y, E.Length1, trace, diffs)
      invariant iteration == |diffs| <= maxIterations && maxDifference == LastDifference(diffs)
      invariant trace[0] == old(Contents(V, Vnew, policy, E)) && trace[iteration] == Contents(V, Vnew, policy, E)
      decreases maxIterations - iteration
    {
      maxDifference := Step(mode, ln, sentinel, T, grid, output, V, Vnew, policy, E);
      ghost var b1 := Contents(V, Vnew, policy, E);
      assert Matrix(T) == tm && grid[..] == g && Matrix(output) == y;
      SweepsExtend(mode, ln, sentinel, tm, g, y, E.Length1, trace, diffs, b1, maxDifference);
      trace, diffs := trace + [b1], diffs + [maxDifference];
      iteration := iteration + 1;
    }
  }

  /**
   * When the loop stops below the tolerance after a sweep from a sentinel below zero, no
   * cell of V moved by more than the tolerance in that sweep.
   */
  lemma StoppedMeansSettled(mode: WriteMode, ln: real -> real, sentinel: Best, Tm: seq<seq<real>>, g: seq<real>,
                            y: seq<seq<real>>, m: nat, b0: Buffers, b1: Buffers, d: Best, c: nat, p: nat)
    requires Swept(mode, ln, sentinel, Tm, g, y, m, b0, b1, d)
    requires BelowZero(sentinel) && !AboveTolerance(d) && c < |g| && p < m
    ensures Abs(b0.V[c][p] - b1.V[c][p]) <= Tolerance
  {
    SupDiffIsMaximum(d, sentinel, b0.V, b1.Vnew, |g|, m);
    assert AbsDiff(b0.V, b1.Vnew, |g|, m, c, p) <= d.value;
  }
}
