/**
 * rbc_ruby.rb: the top-level script over nested arrays filled with zeros. The grid is the
 * float range from 0.5 to 1.5 times the steady state in steps of 0.00001; its length is
 * taken as the parameter n.
 */
module RbcRuby {
  import opened Search
  import opened Sweep
  import opened Calibration
  import opened Setup
  import opened Engine

  /** The transition table, the grid, the output table and the four work matrices, before the first sweep. */
  method Allocate(pow: (real, real) -> real, n: nat)
      returns (T: array2<real>, grid: array<real>, output: array2<real>,
               V: array2<real>, Vnew: array2<real>, policy: array2<real>, E: array2<real>)
    ensures fresh(T) && Matrix(T) == Transition
    ensures fresh(grid) && fresh(output) && fresh(V) && fresh(Vnew) && fresh(policy) && fresh(E)
    ensures grid.Length == n && Prepared(pow, AlphaThird, grid, output)
    ensures Zeros(Matrix(V)) && Zeros(Matrix(Vnew)) && Zeros(Matrix(policy)) && Zeros(Matrix(E))
    ensures Conformable(T, grid, output, V, Vnew, policy, E) && Separate(T, output, V, Vnew, policy, E)
  {
    T := TransitionTable();
    TransitionTableContents(T);
    grid, output := Prepare(pow, AlphaThird, n);
    V := ZeroMatrix(n, ProductivityGridSize);
    Vnew := ZeroMatrix(n, ProductivityGridSize);
    policy := ZeroMatrix(n, ProductivityGridSize);
    E := ZeroMatrix(n, ProductivityGridSize);
  }

  /**
   * Calibration with aalpha = 1/3, the grid of n points, the zero-filled matrices, the
   * output table, then the outer loop with the -100000 sentinel, writing value and policy
   * after each improvement. The cursor is declared once but reset for every productivity
   * column. Returns the final state of the script.
   */
  method Run(ln: real -> real, pow: (real, real) -> real, n: nat, maxIterations: nat)
      returns (T: array2<real>, maxDifference: Best, iteration: nat, grid: array<real>, output: array2<real>,
               V: array2<real>, Vnew: array2<real>, policy: array2<real>, E: array2<real>,
               ghost trace: seq<Buffers>, ghost diffs: seq<Best>)
    ensures fresh(T) && Matrix(T) == Transition
    ensures fresh(grid) && fresh(output) && fresh(V) && fresh(Vnew) && fresh(policy) && fresh(E)
    ensures grid.Length == n && Prepared(pow, AlphaThird, grid, output)
    ensures Ran(OnImprove, ln, Sentinel, Matrix(T), grid[..], Matrix(output), ProductivityGridSize, maxIterations, trace, diffs)
    ensures iteration == |diffs| && maxDifference == LastDifference(diffs)
    ensures trace[iteration] == Contents(V, Vnew, policy, E)
    ensures Zeros(trace[0].V) && Zeros(trace[0].Vnew) && Zeros(trace[0].policy) && Zeros(trace[0].E)
  {
    T, grid, output, V, Vnew, policy, E := Allocate(pow, n);
    maxDifference, iteration, trace, diffs := Solve(OnImprove, ln, Sentinel, T, grid, output, V, Vnew, policy, E, maxIterations);
  }
}
