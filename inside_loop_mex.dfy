/**
 * inside_loop_mex.cpp: the maximisation step as a MATLAB mex gateway. The three inputs
 * (capital grid, output table, expectations) are duplicated, the table sizes are the
 * rows and columns of the expectations, and the two outputs (new value function and
 * policy) are fresh zero-filled matrices. Every table is a flat block in MATLAB's
 * column-major order: entry (c, p) of an n x m table is at p * n + c. The scan is the
 * one written after each improvement, from the -1000 sentinel.
 */
module InsideLoopMex {
  import opened Search
  import opened Sweep
  import opened Calibration
  import opened Layout

  /** Entry (c, p) of the n x m table stored column-major in s (zero past the end of s). */
  ghost function Entry(s: seq<real>, n: nat, c: nat, p: nat): (entry: real) {
    if Offset(p, c, n) < |s| then s[Offset(p, c, n)] else 0.0
  }

  /** The n x m table stored column-major in s, as rows indexed by capital. */
  ghost function ColumnMajor(s: seq<real>, n: nat, m: nat): (t: seq<seq<real>>)
    ensures |t| == n && forall c :: 0 <= c < n ==> |t[c]| == m
  {
    seq(n, c requires 0 <= c => seq(m, p requires 0 <= p => Entry(s, n, c, p)))
  }

  /** Within an n x m block, entry (c, p) of the table is the element at p * n + c. */
  lemma ColumnMajorEntry(s: seq<real>, n: nat, m: nat, c: nat, p: nat)
    requires n * m <= |s| && c < n && p < m
    ensures Offset(p, c, n) < |s| && ColumnMajor(s, n, m)[c][p] == s[Offset(p, c, n)]
  {
    OffsetInBlock(p, c, n, m);
  }

  /** mxDuplicateArray: a fresh copy. */
  method DuplicateArray(a: array<real>) returns (b: array<real>)
    ensures fresh(b) && b[..] == a[..]
  {
    b := new real[a.Length](i requires 0 <= i < a.Length reads a => a[i]);
  }

  /** mxCreateDoubleMatrix(rows, cols, mxREAL): a fresh block of rows * cols zeros. */
  method CreateDoubleMatrix(rows: nat, cols: nat) returns (a: array<real>)
    ensures fresh(a) && a.Length == rows * cols
    ensures forall i :: 0 <= i < a.Length ==> a[i] == 0.0
  {
    a := new real[rows * cols](_ => 0.0);
  }

  /**
   * The candidate scores of state (c, p) are the objectives read at the linear indices:
   * its output at base + c and the expectations of its column from base = p * n.
   */
  lemma CandidatesOfColumnMajor(ln: real -> real, grid: seq<real>, output: seq<real>, E: seq<real>,
                                n: nat, m: nat, c: nat, p: nat, base: nat)
    requires n <= |grid| && c < n && p < m && base == p * n && base + n <= |E| <= |output|
    ensures Shaped(grid[..n], ColumnMajor(output, n, m), ColumnMajor(E, n, m), m)
    ensures forall k :: 0 <= k < n ==>
      Candidates(ln, grid[..n], ColumnMajor(output, n, m), ColumnMajor(E, n, m), m, c, p)[k] ==
      Bellman(ln, output[base + c] - grid[k], E[base + k])
  {
    assert Offset(p, c, n) == base + c;
    forall k | 0 <= k < n
      ensures ColumnMajor(E, n, m)[k][p] == E[base + k]
    {
      assert Offset(p, k, n) == base + k;
    }
  }

  /**
   * The scan for one state from the cursor: its output is at linear index `here` and the
   * expectations of its column start at `base`. The running best and its choice are
   * written at `here` after each improvement. Returns the cursor for the next state; no
   * other entry changes.
   */
  method ScanState(ln: real -> real, grid: array<real>, output: array<real>, E: array<real>,
                   valueNew: array<real>, policy: array<real>, n: nat, here: nat, base: nat, cursor: nat,
                   ghost g: seq<real>, ghost scores: seq<real>)
      returns (next: nat)
    requires 0 < n <= grid.Length && here < output.Length && base + n <= E.Length
    requires here < valueNew.Length == policy.Length && cursor <= n
    requires g == grid[..n] && |scores| == n
    requires forall k :: 0 <= k < n ==> scores[k] == Bellman(ln, output[here] - grid[k], E[base + k])
    requires valueNew != policy && valueNew != grid && valueNew != output && valueNew != E
    requires policy != grid && policy != output && policy != E
    modifies valueNew, policy
    ensures var o := Scan(scores, cursor, MexSentinel);
      && CellWritten(OnImprove, o, cursor, scores, g, valueNew[here], policy[here], old(valueNew[here]), old(policy[here]))
      && next == Advance(o, cursor) && next <= n
    ensures forall i :: 0 <= i < valueNew.Length && i != here ==> valueNew[i] == old(valueNew[i]) && policy[i] == old(policy[i])
  {
    next := cursor;
    var valueHighSoFar := MexSentinel;
    var capitalChoice := grid[0];
    ghost var last: Option<nat> := None;
    ScanningStarts(scores, g, cursor, MexSentinel);
    for k := cursor to n
      invariant Scanning(scores, g, cursor, MexSentinel, k, valueHighSoFar, capitalChoice, next, last)
      invariant if last.Some? then valueNew[here] == valueHighSoFar.value && policy[here] == capitalChoice
                else valueNew[here] == old(valueNew[here]) && policy[here] == old(policy[here])
      invariant forall i :: 0 <= i < valueNew.Length && i != here ==> valueNew[i] == old(valueNew[i]) && policy[i] == old(policy[i])
    {
      var consumption := output[here] - grid[k];
      var valueProvisional := Bellman(ln, consumption, E[base + k]);
      assert valueProvisional == scores[k];
      if Improves(valueProvisional, valueHighSoFar) {
        ScanningAccepts(scores, g, cursor, MexSentinel, k, valueHighSoFar, capitalChoice, next, last);
        valueHighSoFar := Finite(valueProvisional);
        capitalChoice := grid[k];
        next := k;
        last := Some(k);
      } else {
        ScanningEnds(scores, g, cursor, MexSentinel, k, valueHighSoFar, capitalChoice, next, last);
        break;
      }
      valueNew[here] := valueHighSoFar.value;
      policy[here] := capitalChoice;
    }
    assert Scan(scores, cursor, MexSentinel) == Outcome(last, valueHighSoFar);
  }

  /** Linear index d of the column stored from base. */
  function At(base: nat, d: nat): (index: nat) {
    base + d
  }

  /** The inputs as the model reads them: the grid's first n points and the two n x m tables. */
  ghost predicate Inputs(grid: array<real>, output: array<real>, E: array<real>, n: nat, m: nat,
                         g: seq<real>, y: seq<seq<real>>, e: seq<seq<real>>)
    reads grid, output, E
  {
    n <= grid.Length && E.Length <= output.Length &&
    g == grid[..n] && y == ColumnMajor(output[..], n, m) && e == ColumnMajor(E[..], n, m)
  }

  /**
   * State (c, p) of a column whose candidate scores are `rows`, scanned from the cursor
   * before c; column p starts at base = p * n.
   */
  method Cell(ln: real -> real, grid: array<real>, output: array<real>, E: array<real>,
              valueNew: array<real>, policy: array<real>, n: nat, m: nat, c: nat, p: nat, base: nat, cursor: nat,
              ghost g: seq<real>, ghost y: seq<seq<real>>, ghost e: seq<seq<real>>, ghost rows: seq<seq<real>>)
      returns (next: nat)
    requires Inputs(grid, output, E, n, m, g, y, e) && c < n && p < m && base == p * n && base + n <= E.Length
    requires Shaped(g, y, e, m) && rows == Scores(ln, g, y, e, m, p)
    requires cursor == CursorBefore(rows, MexSentinel, c) && cursor <= n
    requires valueNew.Length == policy.Length == E.Length
    requires valueNew != policy && valueNew != grid && valueNew != output && valueNew != E
    requires policy != grid && policy != output && policy != E
    modifies valueNew, policy
    ensures SolvedCell(OnImprove, MexSentinel, rows, g, c, valueNew[At(base, c)], policy[At(base, c)],
                       old(valueNew[At(base, c)]), old(policy[At(base, c)]))
    ensures next == CursorBefore(rows, MexSentinel, c + 1) && next <= n
    ensures forall i :: 0 <= i < valueNew.Length && i != base + c ==> valueNew[i] == old(valueNew[i]) && policy[i] == old(policy[i])
  {
    CandidatesOfColumnMajor(ln, grid[..], output[..], E[..], n, m, c, p, base);
    assert grid[..][..n] == g;
    next := ScanState(ln, grid, output, E, valueNew, policy, n, base + c, base, cursor, g, rows[c]);
    ColumnStep(OnImprove, MexSentinel, rows, g, c, cursor, next, valueNew[At(base, c)], policy[At(base, c)],
               old(valueNew[At(base, c)]), old(policy[At(base, c)]));
  }

  /**
   * The first `count` cells of a column whose candidate scores are `rows`, stored from
   * base in v and pol, are solved from the earlier contents v0 and pol0.
   */
  ghost predicate ColumnSolved(rows: seq<seq<real>>, g: seq<real>, base: nat, count: nat,
                               v: seq<real>, pol: seq<real>, v0: seq<real>, pol0: seq<real>)
  {
    && count <= |rows| && base + count <= |v| && |v| == |pol| == |v0| == |pol0|
    && forall d :: 0 <= d < count ==>
         SolvedCell(OnImprove, MexSentinel, rows, g, d, v[At(base, d)], pol[At(base, d)], v0[At(base, d)], pol0[At(base, d)])
  }

  /** Solving cell `count`, and changing nothing else, extends the solved prefix by one. */
  lemma ColumnSolvedStep(rows: seq<seq<real>>, g: seq<real>, base: nat, count: nat,
                         v: seq<real>, pol: seq<real>, v1: seq<real>, pol1: seq<real>, v0: seq<real>, pol0: seq<real>)
    requires ColumnSolved(rows, g, base, count, v, pol, v0, pol0) && count < |rows| && base + count < |v|
    requires |v1| == |v| && |pol1| == |pol|
    requires v[base + count] == v0[base + count] && pol[base + count] == pol0[base + count]
    requires SolvedCell(OnImprove, MexSentinel, rows, g, count, v1[base + count], pol1[base + count],
                        v[base + count], pol[base + count])
    requires forall i :: 0 <= i < |v| && i != base + count ==> v1[i] == v[i] && pol1[i] == pol[i]
    ensures ColumnSolved(rows, g, base, count + 1, v1, pol1, v0, pol0)
  {
    forall d | 0 <= d < count + 1
      ensures SolvedCell(OnImprove, MexSentinel, rows, g, d, v1[At(base, d)], pol1[At(base, d)],
                         v0[At(base, d)], pol0[At(base, d)])
    {
      if d < count {
        assert At(base, d) != base + count;
      }
    }
  }

  /** A solved column stays solved under contents that agree with it on the column's block. */
  lemma ColumnSolvedTransfer(rows: seq<seq<real>>, g: seq<real>, base: nat, count: nat,
                             v: seq<real>, pol: seq<real>, v0: seq<real>, pol0: seq<real>,
                             v1: seq<real>, pol1: seq<real>, v2: seq<real>, pol2: seq<real>)
    requires ColumnSolved(rows, g, base, count, v, pol, v0, pol0)
    requires |v1| == |pol1| == |v2| == |pol2| == |v|
    requires forall i :: base <= i < base + count ==>
      v1[i] == v[i] && pol1[i] == pol[i] && v2[i] == v0[i] && pol2[i] == pol0[i]
    ensures ColumnSolved(rows, g, base, count, v1, pol1, v2, pol2)
  {
    forall d | 0 <= d < count
      ensures SolvedCell(OnImprove, MexSentinel, rows, g, d, v1[At(base, d)], pol1[At(base, d)],
                         v2[At(base, d)], pol2[At(base, d)])
    {
      assert base <= At(base, d) < base + count;
    }
  }

  /**
   * The next state of a column whose first c cells are solved from v0 and pol0: after
   * its scan the first c + 1 are, and only [base, base + c + 1) differs from v0 and pol0.
   */
  method NextCell(ln: real -> real, grid: array<real>, output: array<real>, E: array<real>,
                  valueNew: array<real>, policy: array<real>, n: nat, m: nat, c: nat, p: nat, base: nat, cursor: nat,
                  ghost g: seq<real>, ghost y: seq<seq<real>>, ghost e: seq<seq<real>>, ghost rows: seq<seq<real>>,
                  ghost v0: seq<real>, ghost pol0: seq<real>)
      returns (next: nat)
    requires Inputs(grid, output, E, n, m, g, y, e) && c < n && p < m && base == p * n && base + n <= E.Length
    requires Shaped(g, y, e, m) && rows == Scores(ln, g, y, e, m, p)
    requires cursor == CursorBefore(rows, MexSentinel, c) && cursor <= n
    requires valueNew.Length == policy.Length == E.Length
    requires valueNew != policy && valueNew != grid && valueNew != output && valueNew != E
    requires policy != grid && policy != output && policy != E
    requires ColumnSolved(rows, g, base, c, valueNew[..], policy[..], v0, pol0)
    requires forall i :: 0 <= i < valueNew.Length && !(base <= i < base + c) ==>
      valueNew[i] == v0[i] && policy[i] == pol0[i]
    modifies valueNew, policy
    ensures next == CursorBefore(rows, MexSentinel, c + 1) && next <= n
    ensures ColumnSolved(rows, g, base, c + 1, valueNew[..], policy[..], v0, pol0)
    ensures forall i :: 0 <= i < valueNew.Length && !(base <= i < base + c + 1) ==>
      valueNew[i] == v0[i] && policy[i] == pol0[i]
  {
    ghost var v, pol := valueNew[..], policy[..];
    next := Cell(ln, grid, output, E, valueNew, policy, n, m, c, p, base, cursor, g, y, e, rows);
    ColumnSolvedStep(rows, g, base, c, v, pol, valueNew[..], policy[..], v0, pol0);
  }

  /** Productivity column p, stored from base = p * n: the cursor starts at 0; only [base, base + n) changes. */
  method Column(ln: real -> real, grid: array<real>, output: array<real>, E: array<real>,
                valueNew: array<real>, policy: array<real>, n: nat, m: nat, p: nat, base: nat,
                ghost g: seq<real>, ghost y: seq<seq<real>>, ghost e: seq<seq<real>>)
    requires Inputs(grid, output, E, n, m, g, y, e) && Shaped(g, y, e, m) && p < m && base == p * n
    requires base + n <= E.Length
    requires valueNew.Length == policy.Length == E.Length
    requires valueNew != policy && valueNew != grid && valueNew != output && valueNew != E
    requires policy != grid && policy != output && policy != E
    modifies valueNew, policy
    ensures ColumnSolved(Scores(ln, g, y, e, m, p), g, base, n, valueNew[..], policy[..],
                         old(valueNew[..]), old(policy[..]))
    ensures forall i :: 0 <= i < valueNew.Length && !(base <= i < base + n) ==>
      valueNew[i] == old(valueNew[i]) && policy[i] == old(policy[i])
  {
    ghost var rows := Scores(ln, g, y, e, m, p);
    ghost var v0, pol0 := valueNew[..], policy[..];
    var gridCapitalNextPeriod := 0;
    for c := 0 to n
      invariant Inputs(grid, output, E, n, m, g, y, e)
      invariant gridCapitalNextPeriod == CursorBefore(rows, MexSentinel, c) && gridCapitalNextPeriod <= n
      invariant ColumnSolved(rows, g, base, c, valueNew[..], policy[..], v0, pol0)
      invariant forall i :: 0 <= i < valueNew.Length && !(base <= i < base + c) ==>
        valueNew[i] == v0[i] && policy[i] == pol0[i]
    {
      gridCapitalNextPeriod := NextCell(ln, grid, output, E, valueNew, policy, n, m, c, p, base,
                                        gridCapitalNextPeriod, g, y, e, rows, v0, pol0);
    }
  }

  /** A block of len zeros. */
  ghost function Zero(len: nat): (z: seq<real>)
    ensures |z| == len && forall i :: 0 <= i < len ==> z[i] == 0.0
  {
    seq(len, _ => 0.0)
  }

  /** The first `count` columns of the n x m outputs v and pol are solved from zero. */
  ghost predicate TableSolved(ln: real -> real, g: seq<real>, y: seq<seq<real>>, e: seq<seq<real>>, n: nat, m: nat,
                              count: nat, v: seq<real>, pol: seq<real>)
  {
    && Shaped(g, y, e, m) && |g| == n && count <= m
    && forall q :: 0 <= q < count ==>
         ColumnSolved(Scores(ln, g, y, e, m, q), g, Offset(q, 0, n), n, v, pol, Zero(|v|), Zero(|pol|))
  }

  /**
   * Solving column `count` in a block that held zeros, and changing nothing else, extends
   * the solved columns by one.
   */
  lemma TableSolvedStep(ln: real -> real, g: seq<real>, y: seq<seq<real>>, e: seq<seq<real>>, n: nat, m: nat,
                        count: nat, base: nat, v: seq<real>, pol: seq<real>, v1: seq<real>, pol1: seq<real>)
    requires TableSolved(ln, g, y, e, n, m, count, v, pol) && count < m && base == Offset(count, 0, n)
    requires ColumnSolved(Scores(ln, g, y, e, m, count), g, base, n, v1, pol1, v, pol)
    requires forall i :: base <= i < |v| ==> v[i] == 0.0 && pol[i] == 0.0
    requires forall i :: 0 <= i < |v| && !(base <= i < base + n) ==>
      v1[i] == v[i] && pol1[i] == pol[i]
    ensures TableSolved(ln, g, y, e, n, m, count + 1, v1, pol1)
  {
    var z := Zero(|v|);
    ColumnSolvedTransfer(Scores(ln, g, y, e, m, count), g, base, n, v1, pol1, v, pol,
                         v1, pol1, z, z);
    forall q | 0 <= q < count
      ensures ColumnSolved(Scores(ln, g, y, e, m, q), g, Offset(q, 0, n), n, v1, pol1, z, z)
    {
      BlockBefore(q, count, n);
      ColumnSolvedTransfer(Scores(ln, g, y, e, m, q), g, Offset(q, 0, n), n, v, pol, z, z, v1, pol1, z, z);
    }
  }

  /** With every column solved, each state's cell holds at p * n + c what its scan leaves there from zero. */
  lemma TableSolvedCells(ln: real -> real, g: seq<real>, y: seq<seq<real>>, e: seq<seq<real>>, n: nat, m: nat,
                         v: seq<real>, pol: seq<real>)
    requires TableSolved(ln, g, y, e, n, m, m, v, pol)
    ensures forall c, p :: 0 <= c < n && 0 <= p < m ==>
      && Offset(p, c, n) < |v|
      && SolvedCell(OnImprove, MexSentinel, Scores(ln, g, y, e, m, p), g, c, v[Offset(p, c, n)], pol[Offset(p, c, n)],
                    0.0, 0.0)
  {
    forall c, p | 0 <= c < n && 0 <= p < m
      ensures Offset(p, c, n) < |v|
      ensures SolvedCell(OnImprove, MexSentinel, Scores(ln, g, y, e, m, p), g, c, v[Offset(p, c, n)],
                         pol[Offset(p, c, n)], 0.0, 0.0)
    {
      assert Offset(p, c, n) == At(Offset(p, 0, n), c);
    }
  }

  /**
   * mexFunction with inputs vGridCapital, mOutput and expectedValueFunction, the last
   * being rows x cols. For every state (c, p) the two fresh outputs hold at p * rows + c
   * what the scan of its column leaves there from zero.
   */
  method MexFunction(ln: real -> real, vGridCapital: array<real>, mOutput: array<real>,
                     expectedValueFunction: array<real>, rows: nat, cols: nat)
      returns (mValueFunctionNew: array<real>, mPolicyFunction: array<real>)
    requires expectedValueFunction.Length == rows * cols
    requires rows <= vGridCapital.Length && rows * cols <= mOutput.Length
    ensures fresh(mValueFunctionNew) && fresh(mPolicyFunction)
    ensures mValueFunctionNew.Length == rows * cols && mPolicyFunction.Length == rows * cols
    ensures forall c, p :: 0 <= c < rows && 0 <= p < cols ==>
      && Offset(p, c, rows) < rows * cols
      && SolvedCell(OnImprove, MexSentinel,
                 Scores(ln, vGridCapital[..rows], ColumnMajor(mOutput[..], rows, cols),
                        ColumnMajor(expectedValueFunction[..], rows, cols), cols, p),
                 vGridCapital[..rows], c, mValueFunctionNew[Offset(p, c, rows)], mPolicyFunction[Offset(p, c, rows)],
                 0.0, 0.0)
  {
    var v_in_1 := DuplicateArray(vGridCapital);
    var v_in_2 := DuplicateArray(mOutput);
    var v_in_3 := DuplicateArray(expectedValueFunction);
    var n, m := rows, cols;
    mValueFunctionNew := CreateDoubleMatrix(n, m);
    mPolicyFunction := CreateDoubleMatrix(n, m);
    ghost var g, y, e := v_in_1[..n], ColumnMajor(v_in_2[..], n, m), ColumnMajor(v_in_3[..], n, m);
    for p := 0 to m
      invariant Inputs(v_in_1, v_in_2, v_in_3, n, m, g, y, e)
      invariant TableSolved(ln, g, y, e, n, m, p, mValueFunctionNew[..], mPolicyFunction[..])
      invariant forall i :: p * n <= i < mValueFunctionNew.Length ==> mValueFunctionNew[i] == 0.0 && mPolicyFunction[i] == 0.0
    {
      var base := p * n;
      MulMonotone(p + 1, m, n);
      assert (p + 1) * n == base + n;
      ghost var v, pol := mValueFunctionNew[..], mPolicyFunction[..];
      Column(ln, v_in_1, v_in_2, v_in_3, mValueFunctionNew, mPolicyFunction, n, m, p, base, g, y, e);
      TableSolvedStep(ln, g, y, e, n, m, p, base, v, pol, mValueFunctionNew[..], mPolicyFunction[..]);
    }
    TableSolvedCells(ln, g, y, e, n, m, mValueFunctionNew[..], mPolicyFunction[..]);
  }
}
