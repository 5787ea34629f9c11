/**
 * One sweep of value-function iteration over n x m matrices indexed
 * (capital index, productivity index): the expectation step, the maximisation step
 * in the variants the sources use, and the sup-difference with the copy V := Vnew.
 * These are the loops of SingleLoop.cpp, RBC_CPP.cpp, RBC_CPP_2.cpp, RBC_C2.c,
 * RBC_Java.java, RBC_CS.cs, RBC_JS.js, RBC_Swift.swift, rbc_ruby.rb and RBC_Python.py.
 */
module Sweep {
  import opened Search
  import opened Expectation

  /** Row i of a matrix, as a sequence. */
  function Row(a: array2<real>, i: nat): (row: seq<real>)
    reads a
    requires i < a.Length0
  {
    seq(a.Length1, j requires 0 <= j < a.Length1 reads a => a[i, j])
  }

  /** The expected continuation value of state (c, p): the sum over k of T[p,k] * V[c,k]. */
  ghost function Expected(T: array2<real>, V: array2<real>, c: nat, p: nat): (e: real)
    reads T, V
    requires p < T.Length0 && c < V.Length0 && T.Length1 == V.Length1
  {
    Dot(Row(T, p), Row(V, c), V.Length1)
  }

  /** The expectation step: every entry is reset to 0 and then accumulates T[p,k] * V[c,k] in place. */
  method ExpectationStep(T: array2<real>, V: array2<real>, E: array2<real>)
    requires T.Length0 == T.Length1 == V.Length1 == E.Length1
    requires V.Length0 == E.Length0
    requires E != V && E != T
    modifies E
    ensures forall c, p :: 0 <= c < E.Length0 && 0 <= p < E.Length1 ==> E[c, p] == Expected(T, V, c, p)
  {
    var n, m := E.Length0, E.Length1;
    for p := 0 to m
      invariant forall c, q :: 0 <= c < n && 0 <= q < p ==> E[c, q] == Expected(T, V, c, q)
    {
      for c := 0 to n
        invariant forall d, q :: 0 <= d < n && 0 <= q < p ==> E[d, q] == Expected(T, V, d, q)
        invariant forall d :: 0 <= d < c ==> E[d, p] == Expected(T, V, d, p)
      {
        ExpectationEntry(T, V, E, c, p);
      }
    }
  }

  /** Entry (c, p) of the expectation step; no other entry changes. */
  method ExpectationEntry(T: array2<real>, V: array2<real>, E: array2<real>, c: nat, p: nat)
    requires T.Length0 == T.Length1 == V.Length1 == E.Length1
    requires V.Length0 == E.Length0 && c < E.Length0 && p < E.Length1
    requires E != V && E != T
    modifies E
    ensures E[c, p] == Expected(T, V, c, p)
    ensures forall d, q :: 0 <= d < E.Length0 && 0 <= q < E.Length1 && (d != c || q != p) ==> E[d, q] == old(E[d, q])
  {
    E[c, p] := 0.0;
    for k := 0 to E.Length1
      invariant E[c, p] == Dot(Row(T, p), Row(V, c), k)
      invariant forall d, q :: 0 <= d < E.Length0 && 0 <= q < E.Length1 && (d != c || q != p) ==> E[d, q] == old(E[d, q])
    {
      E[c, p] := E[c, p] + T[p, k] * V[c, k];
    }
  }

  /** The Bellman objective: (1 - beta) log(consumption) + beta times the expected continuation value. */
  function Bellman(ln: real -> real, consumption: real, continuation: real): (value: real) {
    (1.0 - Beta) * ln(consumption) + Beta * continuation
  }

  /** The discount factor bbeta, 0.95 in every source. */
  const Beta: real := 0.95

  /** Matrix a as a sequence of rows. */
  function Matrix(a: array2<real>): (rows: seq<seq<real>>)
    reads a
    ensures |rows| == a.Length0
    ensures forall i :: 0 <= i < a.Length0 ==> |rows[i]| == a.Length1
    ensures forall i, j :: 0 <= i < a.Length0 && 0 <= j < a.Length1 ==> rows[i][j] == a[i, j]
  {
    seq(a.Length0, i requires 0 <= i < a.Length0 reads a => Row(a, i))
  }

  /** g, y and e are the current contents of the grid, the output table and the expectations. */
  ghost predicate Snapshot(grid: array<real>, output: array2<real>, E: array2<real>,
                           g: seq<real>, y: seq<seq<real>>, e: seq<seq<real>>)
    reads grid, output, E
  {
    g == grid[..] && y == Matrix(output) && e == Matrix(E)
  }

  /** Shapes: a capital grid of n points, n x m output and expectation tables. */
  ghost predicate Shaped(g: seq<real>, y: seq<seq<real>>, e: seq<seq<real>>, m: nat) {
    && |y| == |g| && |e| == |g|
    && (forall i :: 0 <= i < |g| ==> |y[i]| == m)
    && (forall i :: 0 <= i < |g| ==> |e[i]| == m)
  }

  /** The objective of every candidate k for state (c, p): consumption is y[c][p] - g[k], continuation e[k][p]. */
  ghost function Candidates(ln: real -> real, g: seq<real>, y: seq<seq<real>>, e: seq<seq<real>>,
                            m: nat, c: nat, p: nat): (scores: seq<real>)
    requires Shaped(g, y, e, m) && c < |g| && p < m
    ensures |scores| == |g|
  {
    seq(|g|, k requires 0 <= k < |g| => Bellman(ln, y[c][p] - g[k], e[k][p]))
  }

  /** The candidate scores of a snapshot are the objectives computed from the arrays themselves. */
  lemma CandidatesOfSnapshot(ln: real -> real, grid: array<real>, output: array2<real>, E: array2<real>,
                             g: seq<real>, y: seq<seq<real>>, e: seq<seq<real>>, c: nat, p: nat)
    requires grid.Length == output.Length0 == E.Length0 && output.Length1 == E.Length1
    requires c < grid.Length && p < E.Length1 && Snapshot(grid, output, E, g, y, e)
    ensures forall k :: 0 <= k < grid.Length ==>
      Candidates(ln, g, y, e, E.Length1, c, p)[k] == Bellman(ln, output[c, p] - grid[k], E[k, p])
  {
  }

  /** For productivity column p, row c holds the objective of every candidate k. */
  ghost function Scores(ln: real -> real, g: seq<real>, y: seq<seq<real>>, e: seq<seq<real>>,
                        m: nat, p: nat): (rows: seq<seq<real>>)
    requires Shaped(g, y, e, m) && p < m
    ensures Square(rows, |g|)
    ensures forall c :: 0 <= c < |g| ==> rows[c] == Candidates(ln, g, y, e, m, c, p)
  {
    seq(|g|, c requires 0 <= c < |g| => Candidates(ln, g, y, e, m, c, p))
  }

  /**
   * When a state's value and policy are written during its scan: after every improving
   * candidate (most sources); also just before the break (RBC_CPP_2.cpp); or once,
   * after the scan has finished (RBC_Python.py).
   */
  datatype WriteMode = OnImprove | AlsoOnBreak | AfterScan

  /**
   * What a state's cell holds after its scan from `start`, o being the scan's outcome:
   * with an accepted index a, the objective at a and the capital level g[a]. With nothing
   * accepted, an OnImprove cell and a cell whose scan looked at no candidate keep their
   * previous contents v0 and pol0; otherwise the cell holds the (finite) running best,
   * which is the sentinel, and the default choice g[0].
   */
  ghost predicate CellWritten(mode: WriteMode, o: Outcome, start: nat, scores: seq<real>, g: seq<real>,
                              v: real, pol: real, v0: real, pol0: real)
  {
    match o.accepted
    case Some(a) => a < |scores| && a < |g| && v == scores[a] && pol == g[a]
    case None =>
      if mode == OnImprove || (mode == AlsoOnBreak && start >= |scores|) then v == v0 && pol == pol0
      else o.best.Finite? && 0 < |g| && v == o.best.value && pol == g[0]
  }

  /** Cell c of a column whose candidate scores are `rows`, after the column's sweep. */
  ghost predicate SolvedCell(mode: WriteMode, sentinel: Best, rows: seq<seq<real>>, g: seq<real>, c: nat,
                             v: real, pol: real, v0: real, pol0: real)
    requires c < |rows|
  {
    CellWritten(mode, RowOutcome(rows, sentinel, c), CursorBefore(rows, sentinel, c), rows[c], g, v, pol, v0, pol0)
  }

  /** One step of a column: the scan of row c from the cursor before c solves cell c and yields the cursor before c + 1. */
  lemma ColumnStep(mode: WriteMode, sentinel: Best, rows: seq<seq<real>>, g: seq<real>, c: nat, cursor: nat, next: nat,
                   v: real, pol: real, v0: real, pol0: real)
    requires c < |rows| && cursor == CursorBefore(rows, sentinel, c)
    requires CellWritten(mode, Scan(rows[c], cursor, sentinel), cursor, rows[c], g, v, pol, v0, pol0)
    requires next == Advance(Scan(rows[c], cursor, sentinel), cursor)
    ensures next == CursorBefore(rows, sentinel, c + 1)
    ensures SolvedCell(mode, sentinel, rows, g, c, v, pol, v0, pol0)
  {
  }

  /** The sentinels the sources start a scan from: a finite value, or -infinity when every cell is written during the scan. */
  predicate Admissible(mode: WriteMode, sentinel: Best) {
    mode == AfterScan ==> sentinel.Finite?
  }

  /**
   * The maximisation step over all productivity columns p and capital indices c,
   * writing value[c,p] and policy[c,p] as `mode` says.
   */
  method Maximise(mode: WriteMode, ln: real -> real, sentinel: Best, grid: array<real>,
                  output: array2<real>, E: array2<real>, value: array2<real>, policy: array2<real>)
    requires Admissible(mode, sentinel)
    requires grid.Length == output.Length0 == E.Length0 && output.Length1 == E.Length1
    requires value.Length0 == policy.Length0 == grid.Length && value.Length1 == policy.Length1 == E.Length1
    requires value != policy && value != output && value != E && policy != output && policy != E
    modifies value, policy
    ensures forall c, p :: 0 <= c < value.Length0 && 0 <= p < value.Length1 ==>
      SolvedCell(mode, sentinel, Scores(ln, grid[..], Matrix(output), Matrix(E), E.Length1, p), grid[..], c,
                 value[c, p], policy[c, p], old(value[c, p]), old(policy[c, p]))
  {
    var m := E.Length1;
    ghost var g, y, e := grid[..], Matrix(output), Matrix(E);
    for p := 0 to m
      invariant Snapshot(grid, output, E, g, y, e)
      invariant forall c, q :: 0 <= c < grid.Length && 0 <= q < p ==>
        SolvedCell(mode, sentinel, Scores(ln, g, y, e, m, q), g, c,
                   value[c, q], policy[c, q], old(value[c, q]), old(policy[c, q]))
      invariant forall c, q :: 0 <= c < grid.Length && p <= q < m ==>
        value[c, q] == old(value[c, q]) && policy[c, q] == old(policy[c, q])
    {
      Column(mode, ln, sentinel, grid, output, E, value, policy, p, g, y, e);
    }
  }

  /** One productivity column: the cursor starts at 0 and moves to each accepted index. */
  method Column(mode: WriteMode, ln: real -> real, sentinel: Best, grid: array<real>,
                output: array2<real>, E: array2<real>, value: array2<real>, policy: array2<real>, p: nat,
                ghost g: seq<real>, ghost y: seq<seq<real>>, ghost e: seq<seq<real>>)
    requires Admissible(mode, sentinel)
    requires grid.Length == output.Length0 == E.Length0 && output.Length1 == E.Length1 && p < E.Length1
    requires Snapshot(grid, output, E, g, y, e)
    requires value.Length0 == policy.Length0 == grid.Length && value.Length1 == policy.Length1 == E.Length1
    requires value != policy && value != output && value != E && policy != output && policy != E
    modifies value, policy
    ensures forall c :: 0 <= c < grid.Length ==>
      SolvedCell(mode, sentinel, Scores(ln, g, y, e, E.Length1, p), g, c,
                 value[c, p], policy[c, p], old(value[c, p]), old(policy[c, p]))
    ensures forall c, q :: 0 <= c < grid.Length && 0 <= q < E.Length1 && q != p ==>
      value[c, q] == old(value[c, q]) && policy[c, q] == old(policy[c, q])
  {
    var n, m := grid.Length, E.Length1;
    ghost var rows := Scores(ln, g, y, e, m, p);
    var cursor := 0;
    for c := 0 to n
      invariant Snapshot(grid, output, E, g, y, e)
      invariant cursor == CursorBefore(rows, sentinel, c) && cursor <= n
      invariant forall d :: 0 <= d < c ==>
        SolvedCell(mode, sentinel, rows, g, d, value[d, p], policy[d, p], old(value[d, p]), old(policy[d, p]))
      invariant forall d, q :: 0 <= d < n && 0 <= q < m && (q != p || c <= d) ==>
        value[d, q] == old(value[d, q]) && policy[d, q] == old(policy[d, q])
    {
      cursor := Cell(mode, ln, sentinel, grid, output, E, value, policy, c, p, cursor, g, y, e, rows);
    }
  }

  /** The scan for state (c, p) in the given write mode. Returns the cursor for the next state. */
  method Cell(mode: WriteMode, ln: real -> real, sentinel: Best, grid: array<real>,
              output: array2<real>, E: array2<real>, value: array2<real>, policy: array2<real>,
              c: nat, p: nat, cursor: nat, ghost g: seq<real>, ghost y: seq<seq<real>>, ghost e: seq<seq<real>>,
              ghost rows: seq<seq<real>>)
      returns (next: nat)
    requires Admissible(mode, sentinel)
    requires grid.Length == output.Length0 == E.Length0 && output.Length1 == E.Length1
    requires c < grid.Length && p < E.Length1
    requires Snapshot(grid, output, E, g, y, e) && rows == Scores(ln, g, y, e, E.Length1, p)
    requires cursor == CursorBefore(rows, sentinel, c) && cursor <= grid.Length
    requires value.Length0 == policy.Length0 == grid.Length && value.Length1 == policy.Length1 == E.Length1
    requires value != policy && value != output && value != E && policy != output && policy != E
    modifies value, policy
    ensures SolvedCell(mode, sentinel, rows, g, c, value[c, p], policy[c, p], old(value[c, p]), old(policy[c, p]))
    ensures next == CursorBefore(rows, sentinel, c + 1) && next <= grid.Length
    ensures forall d, q :: 0 <= d < grid.Length && 0 <= q < E.Length1 && (d != c || q != p) ==>
      value[d, q] == old(value[d, q]) && policy[d, q] == old(policy[d, q])
  {
    CandidatesOfSnapshot(ln, grid, output, E, g, y, e, c, p);
    match mode
    case OnImprove =>
      next := CellOnImprove(ln, sentinel, grid, output, E, value, policy, c, p, cursor, g, rows[c]);
    case AlsoOnBreak =>
      next := CellAlsoOnBreak(ln, sentinel, grid, output, E, value, policy, c, p, cursor, g, rows[c]);
    case AfterScan =>
      next := CellAfterScan(ln, sentinel, grid, output, E, value, policy, c, p, cursor, g, rows[c]);
    ColumnStep(mode, sentinel, rows, g, c, cursor, next, value[c, p], policy[c, p], old(value[c, p]), old(policy[c, p]));
  }

  /**
   * The scan for state (c, p) from the cursor, as in SingleLoop.cpp, RBC_CPP.cpp, RBC_C2.c,
   * RBC_Java.java, RBC_CS.cs, RBC_JS.js, RBC_Swift.swift and rbc_ruby.rb: the running best
   * starts at the sentinel and the choice at grid[0]; each improving candidate is written
   * at once and the first candidate that does not improve ends the scan. Returns the
   * cursor for the next state.
   */
  method CellOnImprove(ln: real -> real, sentinel: Best, grid: array<real>,
      output: array2<real>, E: array2<real>, value: array2<real>, policy: array2<real>,
      c: nat, p: nat, cursor: nat, ghost g: seq<real>, ghost scores: seq<real>)
      returns (next: nat)
    requires grid.Length == output.Length0 == E.Length0 && output.Length1 == E.Length1
    requires c < grid.Length && p < E.Length1 && cursor <= grid.Length
    requires g == grid[..] && |scores| == grid.Length
    requires forall k :: 0 <= k < grid.Length ==> scores[k] == Bellman(ln, output[c, p] - grid[k], E[k, p])
    requires value.Length0 == policy.Length0 == grid.Length && value.Length1 == policy.Length1 == E.Length1
    requires value != policy && value != output && value != E && policy != output && policy != E
    modifies value, policy
    ensures var o := Scan(scores, cursor, sentinel);
      && CellWritten(OnImprove, o, cursor, scores, g, value[c, p], policy[c, p], old(value[c, p]), old(policy[c, p]))
      && next == Advance(o, cursor) && next <= grid.Length
    ensures forall d, q :: 0 <= d < grid.Length && 0 <= q < E.Length1 && (d != c || q != p) ==>
      value[d, q] == old(value[d, q]) && policy[d, q] == old(policy[d, q])
  {
    var n := grid.Length;
    next := cursor;
    var valueHighSoFar := sentinel;
    var capitalChoice := grid[0];
    ghost var last: Option<nat> := None;
    ScanningStarts(scores, g, cursor, sentinel);
    for k := cursor to n
      invariant Scanning(scores, g, cursor, sentinel, k, valueHighSoFar, capitalChoice, next, last)
      invariant if last.Some? then value[c, p] == valueHighSoFar.value && policy[c, p] == capitalChoice
                else value[c, p] == old(value[c, p]) && policy[c, p] == old(policy[c, p])
      invariant forall d, q :: 0 <= d < n && 0 <= q < E.Length1 && (d != c || q != p) ==>
        value[d, q] == old(value[d, q]) && policy[d, q] == old(policy[d, q])
    {
      var consumption := output[c, p] - grid[k];
      var valueProvisional := Bellman(ln, consumption, E[k, p]);
      assert valueProvisional == scores[k];
      if Improves(valueProvisional, valueHighSoFar) {
        ScanningAccepts(scores, g, cursor, sentinel, k, valueHighSoFar, capitalChoice, next, last);
        valueHighSoFar := Finite(valueProvisional);
        capitalChoice := grid[k];
        next := k;
        last := Some(k);
      } else {
        ScanningEnds(scores, g, cursor, sentinel, k, valueHighSoFar, capitalChoice, next, last);
        break;
      }
      value[c, p] := valueHighSoFar.value;
      policy[c, p] := capitalChoice;
    }
    assert Scan(scores, cursor, sentinel) == Outcome(last, valueHighSoFar);
  }

  /**
   * The scan of RBC_CPP_2.cpp: as CellOnImprove, but the candidate that ends the scan
   * first has the running best and its choice written once more.
   */
  method CellAlsoOnBreak(ln: real -> real, sentinel: Best, grid: array<real>,
      output: array2<real>, E: array2<real>, value: array2<real>, policy: array2<real>,
      c: nat, p: nat, cursor: nat, ghost g: seq<real>, ghost scores: seq<real>)
      returns (next: nat)
    requires grid.Length == output.Length0 == E.Length0 && output.Length1 == E.Length1
    requires c < grid.Length && p < E.Length1 && cursor <= grid.Length
    requires g == grid[..] && |scores| == grid.Length
    requires forall k :: 0 <= k < grid.Length ==> scores[k] == Bellman(ln, output[c, p] - grid[k], E[k, p])
    requires value.Length0 == policy.Length0 == grid.Length && value.Length1 == policy.Length1 == E.Length1
    requires value != policy && value != output && value != E && policy != output && policy != E
    modifies value, policy
    ensures var o := Scan(scores, cursor, sentinel);
      && CellWritten(AlsoOnBreak, o, cursor, scores, g, value[c, p], policy[c, p], old(value[c, p]), old(policy[c, p]))
      && next == Advance(o, cursor) && next <= grid.Length
    ensures forall d, q :: 0 <= d < grid.Length && 0 <= q < E.Length1 && (d != c || q != p) ==>
      value[d, q] == old(value[d, q]) && policy[d, q] == old(policy[d, q])
  {
    var n := grid.Length;
    next := cursor;
    var valueHighSoFar := sentinel;
    var capitalChoice := grid[0];
    ghost var last: Option<nat> := None;
    ScanningStarts(scores, g, cursor, sentinel);
    for k := cursor to n
      invariant Scanning(scores, g, cursor, sentinel, k, valueHighSoFar, capitalChoice, next, last)
      invariant if last.Some? then value[c, p] == valueHighSoFar.value && policy[c, p] == capitalChoice
                else value[c, p] == old(value[c, p]) && policy[c, p] == old(policy[c, p])
      invariant forall d, q :: 0 <= d < n && 0 <= q < E.Length1 && (d != c || q != p) ==>
        value[d, q] == old(value[d, q]) && policy[d, q] == old(policy[d, q])
    {
      var consumption := output[c, p] - grid[k];
      var valueProvisional := Bellman(ln, consumption, E[k, p]);
      assert valueProvisional == scores[k];
      if Improves(valueProvisional, valueHighSoFar) {
        ScanningAccepts(scores, g, cursor, sentinel, k, valueHighSoFar, capitalChoice, next, last);
        valueHighSoFar := Finite(valueProvisional);
        capitalChoice := grid[k];
        next := k;
        last := Some(k);
      } else {
        ScanningEnds(scores, g, cursor, sentinel, k, valueHighSoFar, capitalChoice, next, last);
        value[c, p] := valueHighSoFar.value;
        policy[c, p] := capitalChoice;
        break;
      }
      value[c, p] := valueHighSoFar.value;
      policy[c, p] := capitalChoice;
    }
    assert Scan(scores, cursor, sentinel) == Outcome(last, valueHighSoFar);
  }

  /**
   * The scan of RBC_Python.py: nothing is written during the scan; afterwards the cell
   * receives the running best and its choice.
   */
  method CellAfterScan(ln: real -> real, sentinel: Best, grid: array<real>,
      output: array2<real>, E: array2<real>, value: array2<real>, policy: array2<real>,
      c: nat, p: nat, cursor: nat, ghost g: seq<real>, ghost scores: seq<real>)
      returns (next: nat)
    requires sentinel.Finite?
    requires grid.Length == output.Length0 == E.Length0 && output.Length1 == E.Length1
    requires c < grid.Length && p < E.Length1 && cursor <= grid.Length
    requires g == grid[..] && |scores| == grid.Length
    requires forall k :: 0 <= k < grid.Length ==> scores[k] == Bellman(ln, output[c, p] - grid[k], E[k, p])
    requires value.Length0 == policy.Length0 == grid.Length && value.Length1 == policy.Length1 == E.Length1
    requires value != policy && value != output && value != E && policy != output && policy != E
    modifies value, policy
    ensures var o := Scan(scores, cursor, sentinel);
      && CellWritten(AfterScan, o, cursor, scores, g, value[c, p], policy[c, p], old(value[c, p]), old(policy[c, p]))
      && next == Advance(o, cursor) && next <= grid.Length
    ensures forall d, q :: 0 <= d < grid.Length && 0 <= q < E.Length1 && (d != c || q != p) ==>
      value[d, q] == old(value[d, q]) && policy[d, q] == old(policy[d, q])
  {
    var n := grid.Length;
    next := cursor;
    var valueHighSoFar := sentinel;
    var capitalChoice := grid[0];
    ghost var last: Option<nat> := None;
    ScanningStarts(scores, g, cursor, sentinel);
    for k := cursor to n
      invariant Scanning(scores, g, cursor, sentinel, k, valueHighSoFar, capitalChoice, next, last)
      invariant value[c, p] == old(value[c, p]) && policy[c, p] == old(policy[c, p])
      invariant forall d, q :: 0 <= d < n && 0 <= q < E.Length1 && (d != c || q != p) ==>
        value[d, q] == old(value[d, q]) && policy[d, q] == old(policy[d, q])
    {
      var consumption := output[c, p] - grid[k];
      var valueProvisional := Bellman(ln, consumption, E[k, p]);
      assert valueProvisional == scores[k];
      if Improves(valueProvisional, valueHighSoFar) {
        ScanningAccepts(scores, g, cursor, sentinel, k, valueHighSoFar, capitalChoice, next, last);
        valueHighSoFar := Finite(valueProvisional);
        capitalChoice := grid[k];
        next := k;
        last := Some(k);
      } else {
        ScanningEnds(scores, g, cursor, sentinel, k, valueHighSoFar, capitalChoice, next, last);
        break;
      }
    }
    value[c, p] := valueHighSoFar.value;
    policy[c, p] := capitalChoice;
    assert Scan(scores, cursor, sentinel) == Outcome(last, valueHighSoFar);
  }

  // ---------------------------------------------------------------------------
  // What the maximisation step guarantees about a column.

  /**
   * Outside OnImprove mode every cell of a non-empty grid is written: it holds the
   * objective and capital level of the accepted index, or the finite sentinel and g[0],
   * whatever it held before.
   */
  lemma EveryCellWritten(mode: WriteMode, sentinel: Best, rows: seq<seq<real>>, g: seq<real>, c: nat,
                         v: real, pol: real, v0: real, pol0: real)
    requires mode != OnImprove && Square(rows, |g|) && c < |g|
    requires SolvedCell(mode, sentinel, rows, g, c, v, pol, v0, pol0)
    ensures match RowOutcome(rows, sentinel, c).accepted
      case Some(a) => a < |g| && v == rows[c][a] && pol == g[a]
      case None => sentinel.Finite? && v == sentinel.value && pol == g[0]
  {
    CursorInRange(rows, sentinel, |g|, c);
    ScanRejects(rows[c], CursorBefore(rows, sentinel, c), sentinel);
  }

  /** With the -infinity sentinel every cell of a non-empty grid holds the objective and capital level of an accepted index. */
  lemma NegInfCellsAccepted(mode: WriteMode, rows: seq<seq<real>>, g: seq<real>, c: nat,
                            v: real, pol: real, v0: real, pol0: real)
    requires Square(rows, |g|) && c < |g|
    requires SolvedCell(mode, NegInf, rows, g, c, v, pol, v0, pol0)
    ensures RowOutcome(rows, NegInf, c).accepted.Some?
    ensures var a := RowOutcome(rows, NegInf, c).accepted.value; a < |g| && v == rows[c][a] && pol == g[a]
  {
    NegInfAcceptsEveryRow(rows, |g|, c);
  }

  /**
   * A written value is the largest objective among the candidates the scan looked at,
   * and it beats the sentinel.
   */
  lemma WrittenValueIsScanMaximum(mode: WriteMode, sentinel: Best, rows: seq<seq<real>>, g: seq<real>, c: nat,
                                  v: real, pol: real, v0: real, pol0: real, k: nat)
    requires Square(rows, |g|) && c < |g|
    requires SolvedCell(mode, sentinel, rows, g, c, v, pol, v0, pol0)
    requires RowOutcome(rows, sentinel, c).accepted.Some?
    requires CursorBefore(rows, sentinel, c) <= k <= RowOutcome(rows, sentinel, c).accepted.value + 1 && k < |g|
    ensures rows[c][k] <= v && Improves(v, sentinel)
  {
    var cursor := CursorBefore(rows, sentinel, c);
    var a := RowOutcome(rows, sentinel, c).accepted.value;
    AcceptedIsScanMaximum(rows[c], cursor, sentinel, a, k);
    ScanAccepts(rows[c], cursor, sentinel, a);
    AscendingBelow(rows[c], cursor, a, cursor);
  }

  /**
   * Over a strictly increasing grid the policy of a column is non-decreasing in the
   * capital index, wherever the later cell accepted an index and the earlier one either
   * accepted an index too or was written with the default choice g[0].
   */
  lemma PolicyMonotone(mode: WriteMode, sentinel: Best, rows: seq<seq<real>>, g: seq<real>, c1: nat, c2: nat,
                       v1: real, pol1: real, v01: real, pol01: real, v2: real, pol2: real, v02: real, pol02: real)
    requires StrictlyIncreasing(g) && Square(rows, |g|) && c1 < c2 < |g|
    requires SolvedCell(mode, sentinel, rows, g, c1, v1, pol1, v01, pol01)
    requires SolvedCell(mode, sentinel, rows, g, c2, v2, pol2, v02, pol02)
    requires RowOutcome(rows, sentinel, c2).accepted.Some?
    requires mode == OnImprove ==> RowOutcome(rows, sentinel, c1).accepted.Some?
    ensures pol1 <= pol2
  {
    var a2 := RowOutcome(rows, sentinel, c2).accepted.value;
    match RowOutcome(rows, sentinel, c1).accepted
    case Some(a1) =>
      PolicyNonDecreasing(rows, sentinel, g, c1, c2, a1, a2);
    case None =>
      EveryCellWritten(mode, sentinel, rows, g, c1, v1, pol1, v01, pol01);
      assert 0 <= a2;
  }

  /** With the -infinity sentinel the whole policy column is non-decreasing over a strictly increasing grid. */
  lemma NegInfPolicyMonotone(mode: WriteMode, rows: seq<seq<real>>, g: seq<real>, c1: nat, c2: nat,
                             v1: real, pol1: real, v01: real, pol01: real, v2: real, pol2: real, v02: real, pol02: real)
    requires StrictlyIncreasing(g) && Square(rows, |g|) && c1 < c2 < |g|
    requires SolvedCell(mode, NegInf, rows, g, c1, v1, pol1, v01, pol01)
    requires SolvedCell(mode, NegInf, rows, g, c2, v2, pol2, v02, pol02)
    ensures pol1 <= pol2
  {
    NegInfAcceptsEveryRow(rows, |g|, c1);
    NegInfAcceptsEveryRow(rows, |g|, c2);
    PolicyMonotone(mode, NegInf, rows, g, c1, c2, v1, pol1, v01, pol01, v2, pol2, v02, pol02);
  }

  // ---------------------------------------------------------------------------
  // The convergence step.

  /** The absolute value, as fabs, std::abs, Math.abs and abs compute it on doubles. */
  function Abs(x: real): (r: real)
    ensures 0.0 <= r && (r == x || r == -x)
  {
    if x < 0.0 then -x else x
  }

  /** a is at most b, where -infinity is below everything. */
  predicate AtMost(a: Best, b: Best) {
    match a
    case NegInf => true
    case Finite(x) => b.Finite? && x <= b.value
  }

  /** Both matrices are n x m. */
  ghost predicate SameShape(A: seq<seq<real>>, B: seq<seq<real>>, n: nat, m: nat) {
    |A| == n && |B| == n && (forall c :: 0 <= c < n ==> |A[c]| == m) && (forall c :: 0 <= c < n ==> |B[c]| == m)
  }

  /** |A[c][p] - B[c][p]|. */
  function AbsDiff(A: seq<seq<real>>, B: seq<seq<real>>, n: nat, m: nat, c: nat, p: nat): (diff: real)
    requires SameShape(A, B, n, m) && c < n && p < m
  {
    Abs(A[c][p] - B[c][p])
  }

  /**
   * r is the running maximum of |A - B| over the cells (d, q) visited before (c, p) in
   * column order (q < p, or q == p and d < c), started from the sentinel: it is at least
   * the sentinel and at least every visited difference, and it is the sentinel or one of
   * those differences.
   */
  ghost predicate RunningMax(r: Best, sentinel: Best, A: seq<seq<real>>, B: seq<seq<real>>, n: nat, m: nat, c: nat, p: nat)
    requires SameShape(A, B, n, m)
  {
    && AtMost(sentinel, r)
    && (forall d, q :: 0 <= d < n && 0 <= q < m && (q < p || (q == p && d < c)) ==>
          AtMost(Finite(AbsDiff(A, B, n, m, d, q)), r))
    && (|| r == sentinel
        || exists d, q :: 0 <= d < n && 0 <= q < m && (q < p || (q == p && d < c)) && r == Finite(AbsDiff(A, B, n, m, d, q)))
  }

  /** Visiting cell (c, p): the running maximum takes |A[c][p] - B[c][p]| when that is strictly greater. */
  lemma RunningMaxStep(r: Best, sentinel: Best, A: seq<seq<real>>, B: seq<seq<real>>, n: nat, m: nat, c: nat, p: nat)
    requires SameShape(A, B, n, m) && c < n && p < m
    requires RunningMax(r, sentinel, A, B, n, m, c, p)
    ensures var x := AbsDiff(A, B, n, m, c, p);
      RunningMax(if Improves(x, r) then Finite(x) else r, sentinel, A, B, n, m, c + 1, p)
  {
    var x := AbsDiff(A, B, n, m, c, p);
    if Improves(x, r) {
      forall d, q | 0 <= d < n && 0 <= q < m && (q < p || (q == p && d < c + 1))
        ensures AtMost(Finite(AbsDiff(A, B, n, m, d, q)), Finite(x))
      {
        if q < p || (q == p && d < c) {
          assert AtMost(Finite(AbsDiff(A, B, n, m, d, q)), r);
        }
      }
      assert AtMost(r, Finite(x));
    } else {
      if r != sentinel {
        var d, q :| 0 <= d < n && 0 <= q < m && (q < p || (q == p && d < c)) && r == Finite(AbsDiff(A, B, n, m, d, q));
        assert q < p || (q == p && d < c + 1);
      }
    }
  }

  /** Once a column has been visited entirely, the next column starts. */
  lemma RunningMaxNextColumn(r: Best, sentinel: Best, A: seq<seq<real>>, B: seq<seq<real>>, n: nat, m: nat, p: nat)
    requires SameShape(A, B, n, m) && p < m
    requires RunningMax(r, sentinel, A, B, n, m, n, p)
    ensures RunningMax(r, sentinel, A, B, n, m, 0, p + 1)
  {
    if r != sentinel {
      var d, q :| 0 <= d < n && 0 <= q < m && (q < p || (q == p && d < n)) && r == Finite(AbsDiff(A, B, n, m, d, q));
      assert q < p + 1;
    }
  }

  /** The sup-difference: the running maximum once every column has been visited. */
  ghost predicate SupDiff(r: Best, sentinel: Best, A: seq<seq<real>>, B: seq<seq<real>>, n: nat, m: nat)
    requires SameShape(A, B, n, m)
  {
    RunningMax(r, sentinel, A, B, n, m, 0, m)
  }

  /**
   * The convergence step: the running maximum of |V - Vnew| over all cells, started from
   * the sentinel, with each cell of V overwritten by Vnew once it has been compared.
   */
  method SupDiffAndCopy(sentinel: Best, V: array2<real>, Vnew: array2<real>) returns (maxDifference: Best)
    requires V != Vnew && V.Length0 == Vnew.Length0 && V.Length1 == Vnew.Length1
    modifies V
    ensures SupDiff(maxDifference, sentinel, old(Matrix(V)), old(Matrix(Vnew)), V.Length0, V.Length1)
    ensures forall c, p :: 0 <= c < V.Length0 && 0 <= p < V.Length1 ==> V[c, p] == Vnew[c, p]
  {
    var n, m := V.Length0, V.Length1;
    ghost var A, B := Matrix(V), Matrix(Vnew);
    var diffHighSoFar := sentinel;
    for p := 0 to m
      invariant RunningMax(diffHighSoFar, sentinel, A, B, n, m, 0, p)
      invariant forall d, q :: 0 <= d < n && 0 <= q < m ==> V[d, q] == if q < p then B[d][q] else A[d][q]
    {
      diffHighSoFar := SupDiffColumn(sentinel, V, Vnew, p, diffHighSoFar, A, B);
    }
    maxDifference := diffHighSoFar;
  }

  /** Column p of the convergence step, continuing the running maximum `start` of the columns before it. */
  method SupDiffColumn(sentinel: Best, V: array2<real>, Vnew: array2<real>, p: nat, start: Best,
                       ghost A: seq<seq<real>>, ghost B: seq<seq<real>>) returns (diffHighSoFar: Best)
    requires V != Vnew && V.Length0 == Vnew.Length0 && V.Length1 == Vnew.Length1 && p < V.Length1
    requires SameShape(A, B, V.Length0, V.Length1) && B == Matrix(Vnew)
    requires RunningMax(start, sentinel, A, B, V.Length0, V.Length1, 0, p)
    requires forall d, q :: 0 <= d < V.Length0 && 0 <= q < V.Length1 ==> V[d, q] == if q < p then B[d][q] else A[d][q]
    modifies V
    ensures RunningMax(diffHighSoFar, sentinel, A, B, V.Length0, V.Length1, 0, p + 1)
    ensures forall d, q :: 0 <= d < V.Length0 && 0 <= q < V.Length1 ==> V[d, q] == if q <= p then B[d][q] else A[d][q]
  {
    var n, m := V.Length0, V.Length1;
    diffHighSoFar := start;
    for c := 0 to n
      invariant RunningMax(diffHighSoFar, sentinel, A, B, n, m, c, p)
      invariant forall d, q :: 0 <= d < n && 0 <= q < m ==>
        V[d, q] == if q < p || (q == p && d < c) then B[d][q] else A[d][q]
    {
      var diff := Abs(V[c, p] - Vnew[c, p]);
      assert diff == AbsDiff(A, B, n, m, c, p);
      RunningMaxStep(diffHighSoFar, sentinel, A, B, n, m, c, p);
      if Improves(diff, diffHighSoFar) {
        diffHighSoFar := Finite(diff);
      }
      V[c, p] := Vnew[c, p];
    }
    RunningMaxNextColumn(diffHighSoFar, sentinel, A, B, n, m, p);
  }

  /**
   * Started below zero over a non-empty matrix, the sup-difference is a finite, non-negative
   * upper bound of every |A[c][p] - B[c][p]| and is one of them: it is the true maximum.
   */
  lemma SupDiffIsMaximum(r: Best, sentinel: Best, A: seq<seq<real>>, B: seq<seq<real>>, n: nat, m: nat)
    requires SameShape(A, B, n, m) && 0 < n && 0 < m && BelowZero(sentinel)
    requires SupDiff(r, sentinel, A, B, n, m)
    ensures r.Finite? && 0.0 <= r.value
    ensures forall c, p :: 0 <= c < n && 0 <= p < m ==> AbsDiff(A, B, n, m, c, p) <= r.value
    ensures exists c, p :: 0 <= c < n && 0 <= p < m && r.value == AbsDiff(A, B, n, m, c, p)
  {
    assert AtMost(Finite(AbsDiff(A, B, n, m, 0, 0)), r);
    assert r != sentinel;
  }

  /** Over an empty matrix the sup-difference is the sentinel itself. */
  lemma SupDiffOfEmpty(r: Best, sentinel: Best, A: seq<seq<real>>, B: seq<seq<real>>, n: nat, m: nat)
    requires SameShape(A, B, n, m) && (n == 0 || m == 0)
    requires SupDiff(r, sentinel, A, B, n, m)
    ensures r == sentinel
  {
  }
}
