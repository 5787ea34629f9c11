/**
 * InsideLoop.cpp: the maximisation step alone, as an Rcpp function. It receives the
 * capital grid, the output table and the expectations from R and returns one 17820 x 10
 * NumericMatrix: column p holds the new value for productivity p and column 5 + p the
 * policy. Rcpp fills the matrix with zeros. The scan is the one written after each
 * improvement, from the -100000 sentinel.
 */
module InsideLoop {
  import opened Search
  import opened Sweep
  import opened Calibration
  import opened Setup

  /**
   * The scan for state (c, p) from the cursor, writing the running best to results[c, p]
   * and its choice to results[c, m + p] after each improvement. Returns the cursor for the
   * next state; no other entry changes.
   */
  method ScanState(ln: real -> real, grid: array<real>, output: array2<real>, E: array2<real>,
                   results: array2<real>, c: nat, p: nat, cursor: nat, ghost g: seq<real>, ghost scores: seq<real>)
      returns (next: nat)
    requires grid.Length == output.Length0 == E.Length0 && output.Length1 == E.Length1
    requires c < grid.Length && p < E.Length1 && cursor <= grid.Length
    requires g == grid[..] && |scores| == grid.Length
    requires forall k :: 0 <= k < grid.Length ==> scores[k] == Bellman(ln, output[c, p] - grid[k], E[k, p])
    requires results.Length0 == grid.Length && results.Length1 == 2 * E.Length1
    requires results != output && results != E
    modifies results
    ensures var o := Scan(scores, cursor, Sentinel);
      && CellWritten(OnImprove, o, cursor, scores, g, results[c, p], results[c, E.Length1 + p],
                     old(results[c, p]), old(results[c, E.Length1 + p]))
      && next == Advance(o, cursor) && next <= grid.Length
    ensures forall d, q :: 0 <= d < results.Length0 && 0 <= q < results.Length1 &&
                           (d != c || (q != p && q != E.Length1 + p)) ==>
      results[d, q] == old(results[d, q])
  {
    var n, m := grid.Length, E.Length1;
    next := cursor;
    var valueHighSoFar := Sentinel;
    var capitalChoice := grid[0];
    ghost var last: Option<nat> := None;
    ScanningStarts(scores, g, cursor, Sentinel);
    for k := cursor to n
      invariant Scanning(scores, g, cursor, Sentinel, k, valueHighSoFar, capitalChoice, next, last)
      invariant if last.Some? then results[c, p] == valueHighSoFar.value && results[c, m + p] == capitalChoice
                else results[c, p] == old(results[c, p]) && results[c, m + p] == old(results[c, m + p])
      invariant forall d, q :: 0 <= d < n && 0 <= q < 2 * m && (d != c || (q != p && q != m + p)) ==>
        results[d, q] == old(results[d, q])
    {
      var consumption := output[c, p] - grid[k];
      var valueProvisional := Bellman(ln, consumption, E[k, p]);
      assert valueProvisional == scores[k];
      if Improves(valueProvisional, valueHighSoFar) {
        ScanningAccepts(scores, g, cursor, Sentinel, k, valueHighSoFar, capitalChoice, next, last);
        valueHighSoFar := Finite(valueProvisional);
        capitalChoice := grid[k];
        next := k;
        last := Some(k);
      } else {
        ScanningEnds(scores, g, cursor, Sentinel, k, valueHighSoFar, capitalChoice, next, last);
        break;
      }
      results[c, p] := valueHighSoFar.value;
      results[c, m + p] := capitalChoice;
    }
    assert Scan(scores, cursor, Sentinel) == Outcome(last, valueHighSoFar);
  }

  /** State (c, p) of a column whose candidate scores are `rows`, scanned from the cursor before c. */
  method Cell(ln: real -> real, grid: array<real>, output: array2<real>, E: array2<real>, results: array2<real>,
              c: nat, p: nat, cursor: nat, ghost g: seq<real>, ghost y: seq<seq<real>>, ghost e: seq<seq<real>>,
              ghost rows: seq<seq<real>>)
      returns (next: nat)
    requires grid.Length == output.Length0 == E.Length0 && output.Length1 == E.Length1
    requires c < grid.Length && p < E.Length1
    requires Snapshot(grid, output, E, g, y, e) && rows == Scores(ln, g, y, e, E.Length1, p)
    requires cursor == CursorBefore(rows, Sentinel, c) && cursor <= grid.Length
    requires results.Length0 == grid.Length && results.Length1 == 2 * E.Length1
    requires results != output && results != E
    modifies results
    ensures SolvedCell(OnImprove, Sentinel, rows, g, c, results[c, p], results[c, E.Length1 + p],
                       old(results[c, p]), old(results[c, E.Length1 + p]))
    ensures next == CursorBefore(rows, Sentinel, c + 1) && next <= grid.Length
    ensures forall d, q :: 0 <= d < results.Length0 && 0 <= q < results.Length1 &&
                           (d != c || (q != p && q != E.Length1 + p)) ==>
      results[d, q] == old(results[d, q])
  {
    CandidatesOfSnapshot(ln, grid, output, E, g, y, e, c, p);
    next := ScanState(ln, grid, output, E, results, c, p, cursor, g, rows[c]);
    ColumnStep(OnImprove, Sentinel, rows, g, c, cursor, next, results[c, p], results[c, E.Length1 + p],
               old(results[c, p]), old(results[c, E.Length1 + p]));
  }

  /** Productivity column p: the cursor starts at 0; only columns p and m + p change. */
  method Column(ln: real -> real, grid: array<real>, output: array2<real>, E: array2<real>,
                results: array2<real>, p: nat, ghost g: seq<real>, ghost y: seq<seq<real>>, ghost e: seq<seq<real>>)
    requires grid.Length == output.Length0 == E.Length0 && output.Length1 == E.Length1 && p < E.Length1
    requires Snapshot(grid, output, E, g, y, e)
    requires results.Length0 == grid.Length && results.Length1 == 2 * E.Length1
    requires results != output && results != E
    modifies results
    ensures forall c :: 0 <= c < grid.Length ==>
      SolvedCell(OnImprove, Sentinel, Scores(ln, g, y, e, E.Length1, p), g, c,
                 results[c, p], results[c, E.Length1 + p],
                 old(results[c, p]), old(results[c, E.Length1 + p]))
    ensures forall c, q :: 0 <= c < results.Length0 && 0 <= q < results.Length1 && q != p && q != E.Length1 + p ==>
      results[c, q] == old(results[c, q])
  {
    var n, m := grid.Length, E.Length1;
    ghost var rows := Scores(ln, g, y, e, m, p);
    var gridCapitalNextPeriod := 0;
    for c := 0 to n
      invariant Snapshot(grid, output, E, g, y, e)
      invariant gridCapitalNextPeriod == CursorBefore(rows, Sentinel, c) && gridCapitalNextPeriod <= n
      invariant forall d :: 0 <= d < c ==>
        SolvedCell(OnImprove, Sentinel, rows, g, d, results[d, p], results[d, m + p],
                   old(results[d, p]), old(results[d, m + p]))
      invariant forall d, q :: 0 <= d < n && 0 <= q < 2 * m && ((q != p && q != m + p) || c <= d) ==>
        results[d, q] == old(results[d, q])
    {
      gridCapitalNextPeriod := Cell(ln, grid, output, E, results, c, p, gridCapitalNextPeriod, g, y, e, rows);
    }
  }

  /**
   * InsideLoop(vGridCapital, mOutput, expectedValueFunction): every state's scan, into a
   * fresh zero-filled results table. For every state (c, p), results[c, p] and
   * results[c, 5 + p] are what the scan of its column leaves there from zero.
   */
  method InsideLoop(ln: real -> real, vGridCapital: array<real>, mOutput: array2<real>,
                    expectedValueFunction: array2<real>)
      returns (results: array2<real>)
    requires vGridCapital.Length == CapitalGridSize
    requires mOutput.Length0 == CapitalGridSize && mOutput.Length1 == ProductivityGridSize
    requires expectedValueFunction.Length0 == CapitalGridSize && expectedValueFunction.Length1 == ProductivityGridSize
    ensures fresh(results) && results.Length0 == CapitalGridSize && results.Length1 == 2 * ProductivityGridSize
    ensures forall c, p :: 0 <= c < CapitalGridSize && 0 <= p < ProductivityGridSize ==>
      SolvedCell(OnImprove, Sentinel,
                 Scores(ln, vGridCapital[..], Matrix(mOutput), Matrix(expectedValueFunction), ProductivityGridSize, p),
                 vGridCapital[..], c, results[c, p], results[c, ProductivityGridSize + p], 0.0, 0.0)
  {
    var n, m := CapitalGridSize, ProductivityGridSize;
    results := ZeroMatrix(n, 2 * m);
    ghost var g, y, e := vGridCapital[..], Matrix(mOutput), Matrix(expectedValueFunction);
    for p := 0 to m
      invariant Snapshot(vGridCapital, mOutput, expectedValueFunction, g, y, e)
      invariant forall c, q :: 0 <= c < n && 0 <= q < p ==>
        SolvedCell(OnImprove, Sentinel, Scores(ln, g, y, e, m, q), g, c, results[c, q], results[c, m + q], 0.0, 0.0)
      invariant forall c, q :: 0 <= c < n && (p <= q < m || m + p <= q < 2 * m) ==> results[c, q] == 0.0
    {
      Column(ln, vGridCapital, mOutput, expectedValueFunction, results, p, g, y, e);
    }
  }
}
