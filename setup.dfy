/**
 * Setup shared by the full solvers: the steady-state capital, the equally spaced capital
 * grid around it, the output table, zero-filled work matrices and the transition matrix
 * as a table. log and pow are not interpreted: pow is a parameter.
 */
module Setup {
  import opened Search
  import opened Sweep
  import opened Calibration

  /** capitalSteadyState = pow(aalpha * bbeta, 1 / (1 - aalpha)). */
  function CapitalSteadyState(pow: (real, real) -> real, alpha: real): (kss: real)
    requires alpha != 1.0
  {
    pow(alpha * Beta, 1.0 / (1.0 - alpha))
  }

  /** Capital grid point i: 0.5 * capitalSteadyState + 0.00001 * i. */
  function GridPoint(capitalSteadyState: real, i: nat): (point: real) {
    0.5 * capitalSteadyState + GridStep * i as real
  }

  /** The capital grid of n points, filled by index. */
  method BuildGrid(capitalSteadyState: real, n: nat) returns (grid: array<real>)
    ensures fresh(grid) && grid.Length == n
    ensures forall i :: 0 <= i < n ==> grid[i] == GridPoint(capitalSteadyState, i)
  {
    grid := new real[n];
    for i := 0 to n
      invariant forall j :: 0 <= j < i ==> grid[j] == GridPoint(capitalSteadyState, j)
    {
      grid[i] := GridPoint(capitalSteadyState, i);
    }
  }

  /**
   * The grid is strictly increasing, consecutive points are GridStep apart, and it starts
   * at half the steady state.
   */
  lemma GridSpacing(capitalSteadyState: real, grid: seq<real>)
    requires forall i :: 0 <= i < |grid| ==> grid[i] == GridPoint(capitalSteadyState, i)
    ensures StrictlyIncreasing(grid)
    ensures forall i :: 0 <= i < |grid| - 1 ==> grid[i + 1] - grid[i] == GridStep
    ensures 0 < |grid| ==> grid[0] == 0.5 * capitalSteadyState
  {
    forall i, j | 0 <= i < j < |grid|
      ensures grid[i] < grid[j]
    {
      assert grid[j] - grid[i] == GridStep * (j - i) as real;
    }
  }

  /** The output table: output[i, j] = prod[j] * pow(grid[i], alpha), filled column by column. */
  method BuildOutput(pow: (real, real) -> real, alpha: real, prod: seq<real>, grid: array<real>, output: array2<real>)
    requires output.Length0 == grid.Length && output.Length1 == |prod|
    modifies output
    ensures forall i, j :: 0 <= i < output.Length0 && 0 <= j < output.Length1 ==>
      output[i, j] == prod[j] * pow(grid[i], alpha)
  {
    for j := 0 to |prod|
      invariant forall i, q :: 0 <= i < output.Length0 && 0 <= q < j ==> output[i, q] == prod[q] * pow(grid[i], alpha)
    {
      for i := 0 to grid.Length
        invariant forall d, q :: 0 <= d < output.Length0 && 0 <= q < j ==> output[d, q] == prod[q] * pow(grid[d], alpha)
        invariant forall d :: 0 <= d < i ==> output[d, j] == prod[j] * pow(grid[d], alpha)
      {
        output[i, j] := prod[j] * pow(grid[i], alpha);
      }
    }
  }

  /** An n x m matrix of zeros, filled entry by entry. */
  method ZeroMatrix(n: nat, m: nat) returns (a: array2<real>)
    ensures fresh(a) && a.Length0 == n && a.Length1 == m
    ensures forall i, j :: 0 <= i < n && 0 <= j < m ==> a[i, j] == 0.0
    ensures Zeros(Matrix(a))
  {
    a := new real[n, m];
    for i := 0 to n
      invariant forall d, j :: 0 <= d < i && 0 <= j < m ==> a[d, j] == 0.0
    {
      for j := 0 to m
        invariant forall d, q :: 0 <= d < i && 0 <= q < m ==> a[d, q] == 0.0
        invariant forall q :: 0 <= q < j ==> a[i, q] == 0.0
      {
        a[i, j] := 0.0;
      }
    }
  }

  /** A matrix as the sources declare it without an initialiser: n x m with unspecified contents. */
  method UninitialisedMatrix(n: nat, m: nat) returns (a: array2<real>)
    ensures fresh(a) && a.Length0 == n && a.Length1 == m
  {
    a := new real[n, m];
  }

  /** The transition matrix as a table, initialised from its literal rows. */
  method TransitionTable() returns (T: array2<real>)
    ensures fresh(T) && T.Length0 == ProductivityGridSize && T.Length1 == ProductivityGridSize
    ensures forall p, k :: 0 <= p < T.Length0 && 0 <= k < T.Length1 ==> T[p, k] == Transition[p][k]
  {
    TransitionShape();
    T := new real[ProductivityGridSize, ProductivityGridSize]((p, k) =>
      if 0 <= p < |Transition| && 0 <= k < |Transition[p]| then Transition[p][k] else 0.0);
  }

  /** A table filled from the transition matrix is the transition matrix. */
  lemma TransitionTableContents(T: array2<real>)
    requires T.Length0 == ProductivityGridSize && T.Length1 == ProductivityGridSize
    requires forall p, k :: 0 <= p < T.Length0 && 0 <= k < T.Length1 ==> T[p, k] == Transition[p][k]
    ensures Matrix(T) == Transition
  {
    TransitionShape();
    forall p | 0 <= p < ProductivityGridSize
      ensures Matrix(T)[p] == Transition[p]
    {
    }
  }

  /**
   * The grid and output table of a full solver: grid point i is
   * 0.5 * capitalSteadyState + 0.00001 * i, strictly increasing, and output[i, j] is
   * vProductivity[j] * pow(grid[i], alpha).
   */
  ghost predicate Prepared(pow: (real, real) -> real, alpha: real, grid: array<real>, output: array2<real>)
    reads grid, output
  {
    && alpha != 1.0
    && output.Length0 == grid.Length && output.Length1 == |Productivity|
    && (forall i :: 0 <= i < grid.Length ==> grid[i] == GridPoint(CapitalSteadyState(pow, alpha), i))
    && StrictlyIncreasing(grid[..])
    && (forall i, j :: 0 <= i < output.Length0 && 0 <= j < output.Length1 ==>
          output[i, j] == Productivity[j] * pow(grid[i], alpha))
  }

  /**
   * Steps 2 and 4 of a full solver: the steady-state capital, the grid of n points around
   * it and the output table over that grid, in a freshly allocated n x 5 table.
   */
  method Prepare(pow: (real, real) -> real, alpha: real, n: nat) returns (grid: array<real>, output: array2<real>)
    requires alpha != 1.0
    ensures fresh(grid) && fresh(output) && grid.Length == n
    ensures Prepared(pow, alpha, grid, output)
  {
    var capitalSteadyState := CapitalSteadyState(pow, alpha);
    grid := BuildGrid(capitalSteadyState, n);
    GridSpacing(capitalSteadyState, grid[..]);
    ghost var g := grid[..];
    output := UninitialisedMatrix(n, |Productivity|);
    BuildOutput(pow, alpha, Productivity, grid, output);
    assert grid[..] == g;
  }

  /** Every entry of the table is zero. */
  ghost predicate Zeros(a: seq<seq<real>>) {
    forall i, j :: 0 <= i < |a| && 0 <= j < |a[i]| ==> a[i][j] == 0.0
  }
}
