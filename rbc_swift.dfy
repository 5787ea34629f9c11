/**
 * RBC_Swift.swift: the top-level script over nested Swift arrays, every work matrix made
 * by the Double2 allocator.
 */
module RbcSwift {
  import opened Search
  import opened Sweep
  import opened Calibration
  import opened Setup
  import opened Engine

  /** Double2(cols, rows): cols arrays of rows zeros each. */
  method Double2(cols: nat, rows: nat) returns (a: array2<real>)
    ensures fresh(a) && a.Length0 == cols && a.Length1 == rows
    ensures forall i, j :: 0 <= i < cols && 0 <= j < rows ==> a[i, j] == 0.0
    ensures Zeros(Matrix(a))
  {
    a := ZeroMatrix(cols, rows);
  }

  /** The transition table, the grid, the output table and the four work matrices, before the first sweep. */
  method Allocate(pow: (real, real) -> real)
      returns (T: array2<real>, grid: array<real>, output: array2<real>,
               V: array2<real>, Vnew: array2<real>, policy: array2<real>, E: array2<real>)
    ensures fresh(T) && Matrix(T) == Transition
    ensures fresh(grid) && fresh(output) && fresh(V) && fresh(Vnew) && fresh(policy) && fresh(E)
    ensures grid.Length == CapitalGridSize && Prepared(pow, AlphaDecimal, grid, output)
    ensures Zeros(Matrix(V)) && Zeros(Matrix(Vnew)) && Zeros(Matrix(policy)) && Zeros(Matrix(E))
    ensures Conformable(T, grid, output, V, Vnew, policy, E) && Separate(T, output, V, Vnew, policy, E)
  {
    T := TransitionTable();
    TransitionTableContents(T);
    grid, output := Prepare(pow, AlphaDecimal, CapitalGridSize);
    V := Double2(CapitalGridSize, ProductivityGridSize);
    Vnew := Double2(CapitalGridSize, ProductivityGridSize);
    policy := Double2(CapitalGridSize, ProductivityGridSize);
    E := Double2(CapitalGridSize, ProductivityGridSize);
  }

  /**
   * Calibration with aalpha = 0.33333333333, the grid of 17820 points, the matrices made
   * by Double2, the output table, then the outer loop with the -100000 sentinel, writing
   * value and policy after each improvement. Returns the final state of the script.
   */
  method Run(ln: real -> real, pow: (real, real) -> real, maxIterations: nat)
      returns (T: array2<real>, maxDifference: Best, iteration: nat, grid: array<real>, output: array2<real>,
               V: array2<real>, Vnew: array2<real>, policy: array2<real>, E: array2<real>,
               ghost trace: seq<Buffers>, ghost diffs: seq<Best>)
    ensures fresh(T) && Matrix(T) == Transition
    ensures fresh(grid) && fresh(output) && fresh(V) && fresh(Vnew) && fresh(policy) && fresh(E)
    ensures grid.Length == CapitalGridSize && Prepared(pow, AlphaDecimal, grid, output)
    ensures Ran(OnImprove, ln, Sentinel, Matrix(T), grid[..], Matrix(output), ProductivityGridSize, maxIterations, trace, diffs)
    ensures iteration == |diffs| && maxDifference == LastDifference(diffs)
    ensures trace[iteration] == Contents(V, Vnew, policy, E)
    ensures Zeros(trace[0].V) && Zeros(trace[0].Vnew) && Zeros(trace[0].policy) && Zeros(trace[0].E)
  {
    T, grid, output, V, Vnew, policy, E := Allocate(pow);
    maxDifference, iteration, trace, diffs := Solve(OnImprove, ln, Sentinel, T, grid, output, V, Vnew, policy, E, maxIterations);
  }
}
