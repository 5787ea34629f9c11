/**
 * RBC_CS.cs: the program over double[,] arrays, which C# fills with zeros.
 */
module RbcCs {
  import opened Search
  import opened Sweep
  import opened Calibration
  import opened Setup
  import opened Engine

  /** The transition table, the grid, the output table and the four work matrices, before the first sweep. */
  method Allocate(pow: (real, real) -> real)
      returns (T: array2<real>, grid: array<real>, output: array2<real>,
               V: array2<real>, Vnew: array2<real>, policy: array2<real>, E: array2<real>)
    ensures fresh(T) && Matrix(T) == Transition
    ensures fresh(grid) && fresh(output) && fresh(V) && fresh(Vnew) && fresh(policy) && fresh(E)
    ensures grid.Length == CapitalGridSize && Prepared(pow, AlphaDecimal, grid, output)
    ensures Zeros(Matrix(V)) && Zeros(Matrix(Vnew)) && Zeros(Matrix(policy)) && Zeros(Matrix(E))
    ensures Conformable(T, grid, output, V, Vnew, policy, E) && Separate(T, output, V, Vnew, policy, E)
  {
    T := TransitionTable();
    TransitionTableContents(T);
    grid, output := Prepare(pow, AlphaDecimal, CapitalGridSize);
    V := ZeroMatrix(CapitalGridSize, ProductivityGridSize);
    Vnew := ZeroMatrix(CapitalGridSize, ProductivityGridSize);
    policy := ZeroMatrix(CapitalGridSize, ProductivityGridSize);
    E := ZeroMatrix(CapitalGridSize, ProductivityGridSize);
  }

  /**
   * Calibration with aalpha = 0.33333333333, the grid of 17820 points, the output table,
   * then the outer loop with the -100000 sentinel, writing value and policy after each
   * improvement. Returns the final state of the program.
   */
  method Run(ln: real -> real, pow: (real, real) -> real, maxIterations: nat)
      returns (T: array2<real>, maxDifference: Best, iteration: nat, grid: array<real>, output: array2<real>,
               V: array2<real>, Vnew: array2<real>, policy: array2<real>, E: array2<real>,
               ghost trace: seq<Buffers>, ghost diffs: seq<Best>)
    ensures fresh(T) && Matrix(T) == Transition
    ensures fresh(grid) && fresh(output) && fresh(V) && fresh(Vnew) && fresh(policy) && fresh(E)
    ensures grid.Length == CapitalGridSize && Prepared(pow, AlphaDecimal, grid, output)
    ensures Ran(OnImprove, ln, Sentinel, Matrix(T), grid[..], Matrix(output), ProductivityGridSize, maxIterations, trace, diffs)
    ensures iteration == |diffs| && maxDifference == LastDifference(diffs)
    ensures trace[iteration] == Contents(V, Vnew, policy, E)
    ensures Zeros(trace[0].V) && Zeros(trace[0].Vnew) && Zeros(trace[0].policy) && Zeros(trace[0].E)
  {
    T, grid, output, V, Vnew, policy, E := Allocate(pow);
    maxDifference, iteration, trace, diffs := Solve(OnImprove, ln, Sentinel, T, grid, output, V, Vnew, policy, E, maxIterations);
  }
}
