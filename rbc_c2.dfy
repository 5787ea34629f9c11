/**
 * RBC_C2.c: the program over five heap blocks of nGridCapital * nGridProductivity doubles,
 * each reached through a table of row pointers. malloc leaves the blocks uninitialised,
 * so their starting contents are left unspecified. Through the row pointers each block
 * behaves as an n x m matrix, which is how the iteration is modelled.
 */
module RbcC2 {
  import opened Search
  import opened Sweep
  import opened Calibration
  import opened Setup
  import opened Engine
  import opened Layout

  /** The address of entry (i, j) through the row pointers: rowStart[i] + j. */
  function Address(rowStart: array<nat>, i: nat, j: nat): (address: nat)
    reads rowStart
    requires i < rowStart.Length
  {
    rowStart[i] + j
  }

  /** Row pointer k of an n x m block points k * m entries past its start. */
  ghost predicate RowLayout(rowStart: array<nat>, n: nat, m: nat)
    reads rowStart
  {
    rowStart.Length == n && forall k :: 0 <= k < n ==> rowStart[k] == Offset(k, 0, m)
  }

  /** The row pointers of an n x m block, set row by row. */
  method RowPointers(n: nat, m: nat) returns (rowStart: array<nat>)
    ensures fresh(rowStart) && RowLayout(rowStart, n, m)
  {
    rowStart := new nat[n];
    for k := 0 to n
      invariant forall q :: 0 <= q < k ==> rowStart[q] == Offset(q, 0, m)
    {
      rowStart[k] := k * m;
    }
  }

  /**
   * Through the row pointers every entry of an n x m matrix has an address inside its
   * block of n * m doubles, and no two entries share one.
   */
  lemma RowPointersAddressBlock(rowStart: array<nat>, n: nat, m: nat)
    requires RowLayout(rowStart, n, m)
    ensures forall i, j :: 0 <= i < n && 0 <= j < m ==> Address(rowStart, i, j) == Offset(i, j, m) < n * m
    ensures forall i1, j1, i2, j2 ::
      (0 <= i1 < n && 0 <= j1 < m && 0 <= i2 < n && 0 <= j2 < m &&
       Address(rowStart, i1, j1) == Address(rowStart, i2, j2)) ==> i1 == i2 && j1 == j2
  {
    forall i, j | 0 <= i < n && 0 <= j < m
      ensures Address(rowStart, i, j) == Offset(i, j, m) < n * m
    {
      OffsetInBlock(i, j, m, n);
    }
    forall i1, j1, i2, j2 | 0 <= i1 < n && 0 <= j1 < m && 0 <= i2 < n && 0 <= j2 < m &&
      Address(rowStart, i1, j1) == Address(rowStart, i2, j2)
      ensures i1 == i2 && j1 == j2
    {
      OffsetInjective(i1, j1, i2, j2, m);
    }
  }

  /**
   * Everything the iteration works on: the transition table, the four uninitialised
   * blocks, the row pointers into them, and then the grid and the output table over it.
   */
  method Allocate(pow: (real, real) -> real)
      returns (T: array2<real>, grid: array<real>, output: array2<real>,
               V: array2<real>, Vnew: array2<real>, policy: array2<real>, E: array2<real>, rowStart: array<nat>)
    ensures fresh(T) && Matrix(T) == Transition
    ensures fresh(rowStart) && RowLayout(rowStart, CapitalGridSize, ProductivityGridSize)
    ensures fresh(grid) && fresh(output) && fresh(V) && fresh(Vnew) && fresh(policy) && fresh(E)
    ensures grid.Length == CapitalGridSize && Prepared(pow, AlphaDecimal, grid, output)
    ensures Conformable(T, grid, output, V, Vnew, policy, E) && Separate(T, output, V, Vnew, policy, E)
  {
    T := TransitionTable();
    TransitionTableContents(T);
    V := UninitialisedMatrix(CapitalGridSize, ProductivityGridSize);
    Vnew := UninitialisedMatrix(CapitalGridSize, ProductivityGridSize);
    policy := UninitialisedMatrix(CapitalGridSize, ProductivityGridSize);
    E := UninitialisedMatrix(CapitalGridSize, ProductivityGridSize);
    rowStart := RowPointers(CapitalGridSize, ProductivityGridSize);
    grid, output := Prepare(pow, AlphaDecimal, CapitalGridSize);
  }

  /**
   * Calibration, steady state, the grid of 17820 points, the output table, then the outer
   * loop with the -100000 sentinel, writing value and policy after each improvement.
   * The row pointers, set up before the output table, are returned with the final state.
   */
  method Run(ln: real -> real, pow: (real, real) -> real, maxIterations: nat)
      returns (T: array2<real>, maxDifference: Best, iteration: nat, grid: array<real>, output: array2<real>,
               V: array2<real>, Vnew: array2<real>, policy: array2<real>, E: array2<real>,
               rowStart: array<nat>, ghost trace: seq<Buffers>, ghost diffs: seq<Best>)
    ensures fresh(T) && Matrix(T) == Transition
    ensures fresh(rowStart) && RowLayout(rowStart, CapitalGridSize, ProductivityGridSize)
    ensures fresh(grid) && fresh(output) && fresh(V) && fresh(Vnew) && fresh(policy) && fresh(E)
    ensures grid.Length == CapitalGridSize && Prepared(pow, AlphaDecimal, grid, output)
    ensures Ran(OnImprove, ln, Sentinel, Matrix(T), grid[..], Matrix(output), ProductivityGridSize, maxIterations, trace, diffs)
    ensures iteration == |diffs| && maxDifference == LastDifference(diffs)
    ensures trace[iteration] == Contents(V, Vnew, policy, E)
  {
    T, grid, output, V, Vnew, policy, E, rowStart := Allocate(pow);
    maxDifference, iteration, trace, diffs := Solve(OnImprove, ln, Sentinel, T, grid, output, V, Vnew, policy, E, maxIterations);
  }
}
