# RBC value-function iteration in Dafny

This project models the numerical core of the comparison of programming languages
for economics. It covers the value-function iteration that solves a stochastic
neoclassical growth model with full depreciation. Capital lives on a grid of
`nGridCapital` points and productivity takes 5 values. Each sweep of every variant does
three things:

1. **Expectation step.** It fills `expectedValueFunction[c][p] = Σ_k mTransition[p][k] · mValueFunction[c][k]`.
2. **Maximisation step.** For every productivity column `p` the cursor
   `gridCapitalNextPeriod` starts at 0. For each capital index `c`, a scan runs from
   the cursor with a running best that starts at a sentinel. It accepts a candidate
   only when the candidate's Bellman objective is strictly greater, and breaks at the
   first candidate that is not. The cursor then moves to the accepted index.
3. **Convergence step.** It folds `|V - Vnew|` into `maxDifference`, and either copies
   `Vnew` into `V` or rebinds `V` to `Vnew`.

The loop repeats while `maxDifference > tolerance`.

The model has one Dafny module per source file, plus these shared modules:

- `Search`: the scan and the cursor as functions on values. It proves the accepted
  index exactly, the monotonicity of the cursor and the policy, and the cases where
  nothing is accepted.
- `Sweep`: the three steps as imperative methods over `array2<real>`. It covers the
  write modes of the sources:
  - write after each improvement;
  - write also in the `else` branch (RBC_CPP_2.cpp);
  - write once after the scan (RBC_Python.py).
- `Expectation`: weighted sums and their bounds.
- `Engine`: the outer loop over one sweep.
- `Setup`: the grid, the output table, zero-filled and uninitialised buffers, and the
  transition table.
- `Calibration`: the constants.
- `Layout`: linear storage of a two-index table.

A few behaviours of the sources are captured as written:

- The sentinels are −100000 in most sources, −1000 in inside_loop_mex.cpp and −∞ in
  RBC_CPP_2.cpp.
- RBC_CPP.cpp and RBC_C2.c never initialise `mValueFunction`, `mValueFunctionNew` and
  `mPolicyFunction`, so their starting contents are left unspecified. The first sweep
  therefore reads arbitrary values in both models.
- As rounded in the sources, the middle row of the transition matrix sums to 1.0001.
  `Calibration.TransitionRows` states this.

`log` and `pow` are function-valued parameters. Reals are exact, so the model says
nothing about floating-point rounding. The properties proved depend only on strict
comparisons, index ranges and which cells get written.

## Model

| member | source | states |
|---|---|---|
| Calibration.TransitionShape | RBC_CPP.cpp:30-36 | the transition matrix is 5 x 5 with non-negative entries |
| Calibration.TransitionRows | RBC_CPP.cpp:30-36 | rows 0, 1, 3 and 4 are probability distributions; the middle row sums to 1.0001 and is not one |
| Calibration.SentinelsBelowZero | RBC_CPP.cpp:125 | the starts −100000, −1000 and −∞ all lie below every absolute value |
| Expectation.DotBounds | RBC_CPP.cpp:86-89 | with non-negative weights, the accumulated sum lies between lo and hi times the total weight when every value does |
| Expectation.ExpectationWithinBounds | RBC_CPP.cpp:84-91 | under a stochastic transition row the expectation stays within the bounds of the value row |
| Expectation.ExpectationOfConstant | SingleLoop.cpp:30-37 | under a stochastic row a constant value row is its own expectation |
| Expectation.DotCommutes | RBC_Python.py:69 | summing V[c,k]·T[p,k] gives the same value as summing T[p,k]·V[c,k] |
| Expectation.DotOfZero | RBC_CPP_2.cpp:91-93 | an all-zero value row has expectation 0 under any weights |
| Layout.BlockBefore | inside_loop_mex.cpp:110-111 | the column-major block of an earlier productivity index ends before the block of a later one starts |
| Layout.OffsetInBlock | inside_loop_mex.cpp:110-111 | every linear index p·n + c with p < m and c < n lies in [0, n·m) |
| Layout.OffsetInjective | RBC_C2.c:157-165 | two entries with the same linear offset are the same entry |
| Search.Climb | RBC_CPP.cpp:103-115 | defines the inner loop from candidate k: a candidate whose objective is strictly above the running best is accepted and the scan goes on; the first that is not, or the end of the grid, stops it with the last accepted index and the running best |
| Search.Scan | RBC_CPP.cpp:100-115 | defines one state's scan: the inner loop from the cursor with the running best at the sentinel and nothing accepted yet |
| Search.Advance | RBC_CPP.cpp:111 | defines the cursor update: it moves to the accepted index, and stays when nothing was accepted |
| Search.CursorBefore | RBC_CPP.cpp:95-119 | defines the cursor before capital index c of a column: 0 before the first state, then advanced by each earlier state's scan |
| Search.RowOutcome | RBC_CPP.cpp:98-119 | defines the scan of state c: from the cursor CursorBefore gives, with the sentinel |
| Search.ClimbAccepts | RBC_CPP.cpp:103-115 | once the scan has risen strictly from the cursor to k − 1, it accepts a exactly when a ends the strict ascent, and it always accepts something |
| Search.ScanAccepts | inside_loop_mex.cpp:105-120 | the scan from the cursor accepts index a iff: the first candidate beats the sentinel; the objectives rise strictly from the cursor to a; and a is the last candidate or the next one does not rise |
| Search.ScanRejects | inside_loop_mex.cpp:105-120 | the scan accepts nothing iff the range is empty or the first candidate does not beat the sentinel; the running best is then still the sentinel |
| Search.ClimbBest | RBC_CPP.cpp:103-115 | an accepted index lies at or after the point the scan continued from, and the running best is its objective; with nothing accepted the running best is unchanged |
| Search.ScanResult | inside_loop_mex.cpp:108 | an accepted index lies in [cursor, n) and the running best is its objective; with nothing accepted it is the sentinel |
| Search.AscendingBelow | RBC_CPP.cpp:108-111 | inside a strict ascent every objective is at most the last one |
| Search.AcceptedIsScanMaximum | RBC_CPP.cpp:103-115 | the accepted objective is at least every candidate the scan looked at, the rejected one included |
| Search.NegInfAccepts | RBC_CPP_2.cpp:103-114 | from the −∞ sentinel a non-empty scan always accepts an index |
| Search.CursorInRange | InsideLoop.cpp:20-35 | on a non-empty grid the cursor stays below n, so every scan has a candidate |
| Search.CursorNeverDecreases | inside_loop_mex.cpp:101-116 | within a column, the cursor before a later capital index is at least the cursor before an earlier one |
| Search.AcceptedNonDecreasing | InsideLoop.cpp:20-35 | the accepted indices of a column are non-decreasing in the capital index |
| Search.NegInfAcceptsEveryRow | RBC_CPP_2.cpp:100-114 | with the −∞ sentinel every state of a non-empty column accepts an index |
| Search.PolicyNonDecreasing | RBC_CPP.cpp:96-118 | over a strictly increasing grid, the capital levels chosen in a column are non-decreasing |
| Setup.CapitalSteadyState | RBC_CPP.cpp:42 | defines capitalSteadyState = pow(aalpha · bbeta, 1 / (1 − aalpha)) |
| Setup.GridPoint | RBC_CPP.cpp:54-56 | defines grid point i as 0.5 · capitalSteadyState + 0.00001 · i |
| Setup.BuildGrid | RBC_CPP.cpp:54-56 | the grid has n points and point i is 0.5·capitalSteadyState + 0.00001·i |
| Setup.GridSpacing | RBC_CPP_2.cpp:60-61 | the grid is strictly increasing, starts at half the steady state, and consecutive points are 0.00001 apart |
| Setup.BuildOutput | RBC_CPP.cpp:68-72 | every output entry (i, j) equals vProductivity[j]·pow(grid[i], aalpha) |
| Setup.ZeroMatrix | RBC_Java.java:63-67 | a fresh n x m matrix whose every entry is 0 |
| Setup.UninitialisedMatrix | RBC_CPP.cpp:60-64 | a fresh n x m matrix with unspecified contents |
| Setup.TransitionTable | RBC_CPP.cpp:30-36 | a fresh 5 x 5 table whose entry (p, k) is the literal transition probability |
| Setup.TransitionTableContents | RBC_CPP.cpp:30-36 | such a table, read as rows, is the transition matrix |
| Setup.Prepare | RBC_CPP.cpp:42-72 | a fresh grid of n points around the steady state and a fresh output table over it, with the properties above |
| Sweep.ExpectationEntry | RBC_CPP.cpp:86-89 | entry (c, p) reset to 0 and accumulated ends equal to Σ_k T[p,k]·V[c,k]; no other entry changes |
| Sweep.ExpectationStep | SingleLoop.cpp:30-37 | every expectation entry ends equal to Σ_k T(p,k)·V(c,k); only the expectation table is written |
| Sweep.Bellman | RBC_CPP.cpp:105-106 | defines the objective (1 − bbeta) · log(consumption) + bbeta · expected value, with bbeta = 0.95 |
| Sweep.CandidatesOfSnapshot | RBC_CPP.cpp:105-106 | the score of candidate k for state (c, p) is (1 − β)·log(output[c,p] − grid[k]) + β·E[k,p] |
| Sweep.ColumnStep | RBC_CPP.cpp:96-119 | the scan of state c from the cursor before c solves cell c and yields the cursor before c + 1 |
| Sweep.Maximise | RBC_CPP.cpp:93-123 | every cell (c, p) holds what its scan writes in the given mode, from its previous contents; only value and policy are written |
| Sweep.Column | RBC_CPP.cpp:96-121 | the cursor starts at 0 and every cell of column p is solved; other columns are unchanged |
| Sweep.Cell | RBC_CPP.cpp:98-119 | one state's cell is solved and the next cursor returned; every other cell is unchanged |
| Sweep.CellOnImprove | SingleLoop.cpp:46-64 | the running best starts at the sentinel and the choice at grid[0]; the cell is written after each improvement; it keeps its old contents when nothing is accepted; returns the accepted index or the old cursor |
| Sweep.CellAlsoOnBreak | RBC_CPP_2.cpp:103-124 | the same scan, where the cell is also written just before the break, so it is written whenever a candidate was looked at |
| Sweep.CellAfterScan | RBC_Python.py:78-97 | the same scan, where the cell is written once after the scan and holds the running best and its choice, even when nothing was accepted |
| Sweep.EveryCellWritten | RBC_CPP_2.cpp:116-124 | in the two modes that write on every scan, a cell holds the accepted objective and capital level, or the finite sentinel and grid[0], regardless of its old contents |
| Sweep.NegInfCellsAccepted | RBC_CPP_2.cpp:103-114 | with the −∞ sentinel every cell holds the objective and capital level of an accepted index |
| Sweep.WrittenValueIsScanMaximum | RBC_CPP.cpp:108-118 | a written value beats the sentinel and is at least every candidate the scan looked at |
| Sweep.PolicyMonotone | RBC_CPP.cpp:96-118 | over a strictly increasing grid, the policy of a column does not decrease from one accepting state to a later one |
| Sweep.NegInfPolicyMonotone | RBC_CPP_2.cpp:100-124 | with the −∞ sentinel the whole policy column is non-decreasing over a strictly increasing grid |
| Sweep.Abs | RBC_CPP.cpp:128 | the absolute value is non-negative and equals x or −x |
| Sweep.RunningMaxStep | RBC_CPP.cpp:128-131 | visiting a cell keeps `diffHighSoFar` the running maximum: at least every visited difference and equal to the sentinel or one of them |
| Sweep.RunningMaxNextColumn | RBC_CPP.cpp:126-134 | after the last capital index of a column, the running maximum carries over to the next column |
| Sweep.SupDiffColumn | RBC_CPP.cpp:127-133 | one column of the fold: the running maximum extends over column p, and column p of V now holds Vnew |
| Sweep.SupDiffAndCopy | RBC_CPP.cpp:125-135 | the result is the running maximum of the old \|V − Vnew\| from the sentinel, and V equals Vnew cell by cell |
| Sweep.SupDiffIsMaximum | SingleLoop.cpp:69-80 | from a sentinel below zero over a non-empty table, the sup-difference is finite, non-negative, at least every \|V − Vnew\| and equal to one of them |
| Sweep.SupDiffOfEmpty | RBC_CPP_2.cpp:129-139 | over an empty table the sup-difference is the sentinel itself |
| Engine.Step | SingleLoop.cpp:30-80 | one sweep: expectations from the old V; every cell solved in the given mode; maxDifference the running maximum of \|V − Vnew\|; then V = Vnew |
| Engine.AboveTolerance | RBC_CPP.cpp:82 | defines the loop test maxDifference > tolerance over the running maximum; −∞, the result over an empty table, is never above it |
| Engine.Solve | SingleLoop.cpp:16-82 | from maxDifference = 10 and iteration = 0 the loop records every sweep: the trace starts at the initial buffers and ends at the final ones, consecutive entries are related by one sweep (Swept), iteration equals the number of sweeps, maxDifference is the last sweep's sup-difference, every sweep but the last ended above the tolerance, and the loop stops only at or below the tolerance or at the iteration bound |
| Engine.SweepsExtend | SingleLoop.cpp:28-82 | a sweep from the last recorded buffers, taken because the last difference was above the tolerance, extends the record of sweeps |
| Engine.RanAtLeastOnce | SingleLoop.cpp:16-28 | since the initial difference 10 is above the tolerance, a run with a positive bound sweeps at least once |
| Engine.StoppedMeansSettled | SingleLoop.cpp:28-80 | when the loop stops at or below the tolerance, no cell of V moved by more than the tolerance in the last sweep |
| SingleLoop.NumericMatrices | SingleLoop.cpp:23-26 | four fresh, separate 17820 x 5 buffers filled with zeros |
| SingleLoop.SingleLoop | SingleLoop.cpp:6-93 | the whole iteration over the given inputs from zero buffers, with the −100000 sentinel and writes after each improvement, recorded sweep by sweep as Solve states; returns the policy after the last sweep |
| InsideLoop.ScanState | InsideLoop.cpp:24-43 | the scan from the cursor writes the running best to results[c, p] and its choice to results[c, 5 + p]; returns the next cursor; nothing else changes |
| InsideLoop.Cell | InsideLoop.cpp:22-44 | state (c, p) is solved into columns p and 5 + p and the next cursor is returned |
| InsideLoop.Column | InsideLoop.cpp:20-45 | the cursor starts at 0 and every state of column p is solved; only columns p and 5 + p change |
| InsideLoop.InsideLoop | InsideLoop.cpp:7-49 | a fresh zero-filled 17820 x 10 results matrix where, for every state, columns p and 5 + p hold what the scan writes from zero |
| InsideLoopMex.ColumnMajorEntry | inside_loop_mex.cpp:110-111 | entry (c, p) of the column-major view is the flat element p·n + c, which is in bounds |
| InsideLoopMex.DuplicateArray | inside_loop_mex.cpp:71-73 | a fresh copy with the same contents |
| InsideLoopMex.CreateDoubleMatrix | inside_loop_mex.cpp:87-88 | a fresh rows·cols zero-filled array |
| InsideLoopMex.CandidatesOfColumnMajor | inside_loop_mex.cpp:110-111 | the candidate scores computed from the flat arrays at p·n + c and p·n + k are those of the column-major tables |
| InsideLoopMex.ScanState | inside_loop_mex.cpp:105-124 | the scan from −1000 writes the running best and choice at p·n + c after each improvement and leaves the cell alone when nothing is accepted; returns the next cursor; nothing else changes |
| InsideLoopMex.Cell | inside_loop_mex.cpp:103-125 | state (c, p) is solved at linear index p·n + c and the next cursor is returned |
| InsideLoopMex.NextCell | inside_loop_mex.cpp:103-125 | the solved prefix of column p grows by one cell; cells outside it are unchanged |
| InsideLoopMex.Column | inside_loop_mex.cpp:98-128 | the cursor starts at 0 and all n cells of column p are solved in [p·n, p·n + n); nothing outside that block changes |
| InsideLoopMex.TableSolvedStep | inside_loop_mex.cpp:98-128 | solving column p over zeros keeps every earlier column solved |
| InsideLoopMex.TableSolvedCells | inside_loop_mex.cpp:98-128 | once every column is solved, every state (c, p) is solved at p·n + c |
| InsideLoopMex.MexFunction | inside_loop_mex.cpp:78-128 | with n rows and m columns taken from the expectations, two fresh n·m outputs in which every state's cell is what its scan writes from zero |
| RbcCpp.Allocate | RBC_CPP.cpp:27-72 | the transition table, the grid of 17820 points, the output table and four uninitialised work matrices, all fresh and separate |
| RbcCpp.Run | RBC_CPP.cpp:14-141 | the whole program: setup, then the loop with −100000 and writes after each improvement from unspecified starting buffers, recorded sweep by sweep as Solve states |
| RbcCpp2.Allocate | RBC_CPP_2.cpp:34-77 | as above with aalpha = 1/3, V, Vnew and policy set to zero, and the expectations unspecified |
| RbcCpp2.Run | RBC_CPP_2.cpp:21-143 | the whole program from zero V, Vnew and policy, with −∞ sentinels and writes also in the else branch, recorded sweep by sweep as Solve states |
| RbcC2.RowPointers | RBC_C2.c:157-165 | row pointer k points k·m entries into the block |
| RbcC2.RowPointersAddressBlock | RBC_C2.c:157-165 | through the row pointers every (i, j) maps to i·m + j inside the n·m block, and no two entries share an address |
| RbcC2.Allocate | RBC_C2.c:76-172 | the grid, the four uninitialised work blocks, the row pointers into the blocks and then the output table |
| RbcC2.Run | RBC_C2.c:37-242 | the whole program from unspecified malloc'd buffers, recorded sweep by sweep as Solve states, returning the row pointers with the final state |
| RbcJava.Allocate | RBC_Java.java:53-78 | the grid, the output table and four zero-filled work matrices |
| RbcJava.Run | RBC_Java.java:11-147 | the whole program from zero buffers with −100000 and writes after each improvement, recorded sweep by sweep as Solve states |
| RbcCs.Allocate | RBC_CS.cs:53-73 | the grid, the output table and four zero-filled work matrices |
| RbcCs.Run | RBC_CS.cs:17-142 | the whole program from zero buffers with −100000 and writes after each improvement, recorded sweep by sweep as Solve states |
| RbcJs.Allocate | RBC_JS.js:44-74 | the grid and the four work matrices filled with zeros, and the output table |
| RbcJs.Run | RBC_JS.js:77-132 | the whole script from zero buffers with −100000 and writes after each improvement, recorded sweep by sweep as Solve states |
| RbcSwift.Double2 | RBC_Swift.swift:62-64 | cols rows of rows zeros each |
| RbcSwift.Allocate | RBC_Swift.swift:52-78 | the grid, the output table and the four work matrices made by Double2 |
| RbcSwift.Run | RBC_Swift.swift:82-147 | the whole script from zero buffers with −100000 and writes after each improvement, recorded sweep by sweep as Solve states |
| RbcRuby.Allocate | rbc_ruby.rb:23-37 | a grid of n points, the output table and four zero-filled work tables, all fresh and separate |
| RbcRuby.Run | rbc_ruby.rb:39-101 | the whole script over n grid points from zero buffers, the cursor reset at the start of every column, recorded sweep by sweep as Solve states |
| RbcPython.DotTransposed | RBC_Python.py:69 | a fresh table whose entry (c, p) is Σ_k V[c,k]·T[p,k] |
| RbcPython.Larger | RBC_Python.py:99 | the larger of a running maximum and x, which is x when there is none yet |
| RbcPython.RowMax | RBC_Python.py:99 | over the first j cells of row c: None iff j = 0; otherwise at least every \|A − B\| and equal to one of them |
| RbcPython.MaxAbsDiff | RBC_Python.py:99 | `(abs(A − B)).max()`: None (numpy's error on an empty array) iff there is no cell; otherwise an upper bound of every \|A − B\| that is attained |
| RbcPython.Pass | RBC_Python.py:69-99 | one pass: expectations dot(V, T.T); every cell of the zeroed Vnew and of policy written after its scan from −100000; maxDifference the largest \|Vnew − V\| |
| RbcPython.Allocate | RBC_Python.py:39-55 | a grid of n points, the output table and zero-filled V, Vnew and policy |
| RbcPython.MaxAboveTolerance | RBC_Python.py:67 | defines the loop test maxDifference > tolerance over numpy's max, false where max has no value |
| RbcPython.MainFunc | RBC_Python.py:13-108 | from zero V and policy and maxDifference = 10 the loop records every pass: consecutive tables are related by Pass's relation (Passed), with V rebound to Vnew and Vnew to fresh zeros; iteration equals the number of passes, maxDifference is the last pass's, every pass but the last ended above the tolerance, and it stops only at or below the tolerance or at the bound; returns (maxDifference, iteration, V, policy) |
| RbcPython.PassesExtend | RBC_Python.py:67-104 | a pass from the last recorded tables, taken because the last difference was above the tolerance, extends the record of passes |
| RbcPython.MainRanAtLeastOnce | RBC_Python.py:59-67 | since the initial difference 10 is above the tolerance, a run with a positive bound passes at least once |
| RbcPython.ExpectationsAgree | RBC_Python.py:69 | dot(V, T.T) gives the expectations Σ_k T[p,k]·V[c,k] of the in-place sources |
| RbcPython.MaxAbsDiffIsSupDiff | RBC_Python.py:99 | over a non-empty table, the largest \|Vnew − V\| equals the running maximum the in-place sources fold from their sentinel |
| RbcPython.StoppedMeansSettled | RBC_Python.py:67-99 | when the loop stops at or below the tolerance, no cell moved by more than the tolerance in the last pass |

## Left out

- Floating point: reals are exact, and `log`, `pow` and the summation order of numpy's `dot` are not modelled. `log` and `pow` are uninterpreted parameters. The concavity argument behind the early break is not proved, and neither is the convergence of the loop.
- Engine.Solve: the `while maxDifference > tolerance` loop has an extra bound, maxIterations, because whether and when the iteration converges is a numerical fact about the floating-point sweep. The record of sweeps covers the run up to the sweep at which the program stops or the bound is reached, whichever comes first. The same holds for SingleLoop.SingleLoop, every Run and RbcPython.MainFunc.
- Timing (`clock`, `Stopwatch`, `System.nanoTime`, `Date`, `time.time`) and all printing, including the progress line and the "My check" value, are left out as I/O.
- The `malloc` failure checks, `exit(1)` and `free` calls of RBC_C2.c are left out as resource handling. Its five blocks are modelled as `array2` matrices. RbcC2.RowPointersAddressBlock states that the row-pointer layout gives every entry its own address, which is what makes that view exact.
- The host glue is not modelled: `mxGetPr`, `mxGetM`/`mxGetN`, `plhs`/`prhs`, the Rcpp wrappers and `NumericMatrix` conversions. Inputs arrive as arrays. The MATLAB duplicate and allocation calls are modelled by DuplicateArray and CreateDoubleMatrix.
- RBC_Python_Cython.py and setup.py are not part of this model. The first calls a native inner loop whose source is not available; the second is a build script.
- The grid length from `np.arange` in RBC_Python.py and from `Range#step` in rbc_ruby.rb is the parameter n, because it depends on floating-point rounding.
- Integer widths are not modelled. The `int` and `size_t` counters stay far below their limits at these sizes, and the `double` iteration counter of SingleLoop.cpp is modelled as a `nat`.
- SingleLoop.SingleLoop: `vProductivity` is accepted and not used, as in the source. The inputs are required to be 17820 x 5, which the function assumes when it indexes them up to its constant sizes.
- InsideLoop.InsideLoop: the inputs are required to have the fixed sizes 17820 and 5 that the function indexes up to.
- The zero fill of the output table (Java, C#, Swift, Ruby, Python) is not modelled, because the output loop overwrites every entry before any read. The output table is allocated without it.
- RBC_Python.py's initial `expectedValueFunction = zeros(...)` is not modelled, because it is rebound before it is read. The model allocates no buffer for it.
- RbcPython.MainFunc: where numpy would raise a ValueError on an empty grid, MaxAbsDiff returns None and the loop stops, so the model returns instead of propagating an exception.
- No source checks the "consumption > 0" condition that `log` needs. In the C, C++, Java, C#, JavaScript and Swift sources a zero argument gives −∞ and a negative one NaN. In RBC_Python.py (`math.log`, RBC_Python.py:86) a non-positive argument raises a ValueError. In rbc_ruby.rb (`Math.log`, rbc_ruby.rb:68) a negative argument raises Math::DomainError and zero gives −∞. These error paths are not modelled: `ln` is a total function here. On the sources' grid the lowest output (about 0.437) exceeds the highest grid point (about 0.267), so consumption stays positive.
