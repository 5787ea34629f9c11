/**
 * RBC_CPP.cpp: the whole program over stack arrays. The five work matrices are declared
 * without initialisers, so their starting contents are left unspecified.
 */
module RbcCpp {
  import opened Search
  import opened Sweep
  import opened Calibration
  import opened Setup
  import opened Engine

  /** The transition table, the grid, the output table and the four work matrices, before the first sweep. */
  method Allocate(pow: (real, real) -> real)
      returns (T: array2<real>, grid: array<real>, output: array2<real>,
               V: array2<real>, Vnew: array2<real>, policy: array2<real>, E: array2<real>)
    ensures fresh(T) && Matrix(T) == Transition
    ensures fresh(grid) && fresh(output) && fresh(V) && fresh(Vnew) && fresh(policy) && fresh(E)
    ensures grid.Length == CapitalGridSize && Prepared(pow, AlphaDecimal, grid, output)
    ensures Conformable(T, grid, output, V, Vnew, policy, E) && Separate(T, output, V, Vnew, policy, E)
  {
    T := TransitionTable();
    TransitionTableContents(T);
    grid, output := Prepare(pow, AlphaDecimal, CapitalGridSize);
    V := UninitialisedMatrix(CapitalGridSize, ProductivityGridSize);
    Vnew := UninitialisedMatrix(CapitalGridSize, ProductivityGridSize);
    policy := UninitialisedMatrix(CapitalGridSize, ProductivityGridSize);
    E := UninitialisedMatrix(CapitalGridSize, ProductivityGridSize);
  }

  /**
   * Calibration, steady state, the grid of 17820 points, the output table, then the outer
   * loop with the -100000 sentinel, writing value and policy after each improvement.
   * Returns the final state of the program.
   */
  method Run(ln: real -> real, pow: (real, real) -> real, maxIterations: nat)
      returns (T: array2<real>, maxDifference: Best, iteration: nat, grid: array<real>, output: array2<real>,
               V: array2<real>, Vnew: array2<real>, policy: array2<real>, E: array2<real>,
               ghost trace: seq<Buffers>, ghost diffs: seq<Best>)
    ensures fresh(T) && Matrix(T) == Transition
    ensures fresh(grid) && fresh(output) && fresh(V) && fresh(Vnew) && fresh(policy) && fresh(E)
    ensures grid.Length == CapitalGridSize && Prepared(pow, AlphaDecimal, grid, output)
    ensures Ran(OnImprove, ln, Sentinel, Matrix(T), grid[..], Matrix(output), ProductivityGridSize, maxIterations, trace, diffs)
    ensures iteration == |diffs| && maxDifference == LastDifference(diffs)
    ensures trace[iteration] == Contents(V, Vnew, policy, E)
  {
    T, grid, output, V, Vnew, policy, E := Allocate(pow);
    maxDifference, iteration, trace, diffs := Solve(OnImprove, ln, Sentinel, T, grid, output, V, Vnew, policy, E, maxIterations);
  }
}
