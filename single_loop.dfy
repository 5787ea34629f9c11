/**
 * SingleLoop.cpp: the Rcpp function SingleLoop, which receives the productivity levels,
 * the capital grid, the output table and the transition matrix from R, runs the whole
 * iteration on its own zero-filled NumericMatrix buffers and returns the policy function.
 * The sizes 17820 and 5 are constants of the function; the inputs are indexed up to them.
 */
module SingleLoop {
  import opened Search
  import opened Sweep
  import opened Calibration
  import opened Setup
  import opened Engine

  /** The four NumericMatrix buffers, 17820 x 5 and filled with zeros by Rcpp. */
  method NumericMatrices() returns (V: array2<real>, Vnew: array2<real>, policy: array2<real>, E: array2<real>)
    ensures fresh(V) && fresh(Vnew) && fresh(policy) && fresh(E)
    ensures V != Vnew && V != policy && V != E && Vnew != policy && Vnew != E && policy != E
    ensures V.Length0 == Vnew.Length0 == policy.Length0 == E.Length0 == CapitalGridSize
    ensures V.Length1 == Vnew.Length1 == policy.Length1 == E.Length1 == ProductivityGridSize
    ensures Zeros(Matrix(V)) && Zeros(Matrix(Vnew)) && Zeros(Matrix(policy)) && Zeros(Matrix(E))
  {
    Vnew := ZeroMatrix(CapitalGridSize, ProductivityGridSize);
    V := ZeroMatrix(CapitalGridSize, ProductivityGridSize);
    policy := ZeroMatrix(CapitalGridSize, ProductivityGridSize);
    E := ZeroMatrix(CapitalGridSize, ProductivityGridSize);
  }

  /**
   * The iteration over the given grid, output table and transition matrix, with the
   * -100000 sentinel and value and policy written after each improvement. The inputs are
   * only read. Returns the policy table; the ghost results give the last sup-difference,
   * the number of sweeps, and the buffers before and after every sweep with each sweep's
   * sup-difference. vProductivity is not used by the function.
   */
  method SingleLoop(ln: real -> real, vProductivity: array<real>, vGridCapital: array<real>,
                    mOutput: array2<real>, mTransition: array2<real>, maxIterations: nat)
      returns (mPolicyFunction: array2<real>, ghost maxDifference: Best, ghost iteration: nat,
               ghost trace: seq<Buffers>, ghost diffs: seq<Best>)
    requires vGridCapital.Length == CapitalGridSize
    requires mOutput.Length0 == CapitalGridSize && mOutput.Length1 == ProductivityGridSize
    requires mTransition.Length0 == ProductivityGridSize && mTransition.Length1 == ProductivityGridSize
    ensures fresh(mPolicyFunction)
    ensures Ran(OnImprove, ln, Sentinel, Matrix(mTransition), vGridCapital[..], Matrix(mOutput),
                ProductivityGridSize, maxIterations, trace, diffs)
    ensures iteration == |diffs| && maxDifference == LastDifference(diffs)
    ensures Matrix(mPolicyFunction) == trace[iteration].policy
    ensures Zeros(trace[0].V) && Zeros(trace[0].Vnew) && Zeros(trace[0].policy) && Zeros(trace[0].E)
  {
    var mValueFunction, mValueFunctionNew, mPolicy, expectedValueFunction := NumericMatrices();
    maxDifference, iteration, trace, diffs := Solve(OnImprove, ln, Sentinel, mTransition, vGridCapital, mOutput,
                                                    mValueFunction, mValueFunctionNew, mPolicy, expectedValueFunction,
                                                    maxIterations);
    mPolicyFunction := mPolicy;
  }
}
