/**
 * The calibration every source hard-codes: the capital share, the productivity levels,
 * the productivity transition matrix, the grid sizes, the tolerance and the sentinels.
 */
module Calibration {
  import opened Search
  import opened Expectation

  /** aalpha written as the decimal 0.33333333333 (RBC_CPP.cpp, RBC_C2.c, RBC_Java.java, RBC_CS.cs, RBC_Swift.swift). */
  const AlphaDecimal: real := 0.33333333333

  /** aalpha written as 1/3 (RBC_CPP_2.cpp, RBC_JS.js, rbc_ruby.rb, RBC_Python.py). */
  const AlphaThird: real := 1.0 / 3.0

  /** vProductivity. */
  const Productivity: seq<real> := [0.9792, 0.9896, 1.0000, 1.0106, 1.0212]

  /** mTransition: row p holds the probabilities of moving from productivity p to each productivity. */
  const Transition: seq<seq<real>> := [
    [0.9727, 0.0273, 0.0000, 0.0000, 0.0000],
    [0.0041, 0.9806, 0.0153, 0.0000, 0.0000],
    [0.0000, 0.0082, 0.9837, 0.0082, 0.0000],
    [0.0000, 0.0000, 0.0153, 0.9806, 0.0041],
    [0.0000, 0.0000, 0.0000, 0.0273, 0.9727]
  ]

  /** nGridCapital where it is a constant. */
  const CapitalGridSize: nat := 17820

  /** nGridProductivity. */
  const ProductivityGridSize: nat := 5

  /** The stopping tolerance on the sup-difference. */
  const Tolerance: real := 0.0000001

  /** maxDifference before the first sweep. */
  const InitialDifference: real := 10.0

  /** The step between consecutive capital grid points. */
  const GridStep: real := 0.00001

  /** The running-best start of most sources, -100000. */
  const Sentinel: Best := Finite(-100000.0)

  /** The running-best start of inside_loop_mex.cpp, -1000. */
  const MexSentinel: Best := Finite(-1000.0)

  /** The transition matrix is 5 x 5 with non-negative entries. */
  lemma TransitionShape()
    ensures |Transition| == ProductivityGridSize
    ensures forall p :: 0 <= p < |Transition| ==> |Transition[p]| == ProductivityGridSize
    ensures forall p, k :: 0 <= p < |Transition| && 0 <= k < |Transition[p]| ==> 0.0 <= Transition[p][k]
  {
  }

  /**
   * Rows 0, 1, 3 and 4 are probability distributions. The middle row, as rounded in the
   * sources, adds up to 1.0001 (0.0082 + 0.9837 + 0.0082), so it is not.
   */
  lemma TransitionRows()
    ensures Stochastic(Transition[0]) && Stochastic(Transition[1])
    ensures Stochastic(Transition[3]) && Stochastic(Transition[4])
    ensures Total(Transition[2], 5) == 1.0001 && !Stochastic(Transition[2])
  {
    assert Total(Transition[0], 5) == 1.0 by { assert Total(Transition[0], 2) == 1.0; }
    assert Total(Transition[1], 5) == 1.0 by { assert Total(Transition[1], 3) == 1.0; }
    assert Total(Transition[2], 5) == 1.0001 by { assert Total(Transition[2], 4) == 1.0001; }
    assert Total(Transition[3], 5) == 1.0 by { assert Total(Transition[3], 3) == 0.0153; }
    assert Total(Transition[4], 5) == 1.0 by { assert Total(Transition[4], 3) == 0.0; }
  }

  /** Both sentinels lie below every absolute value, so a sup-difference from them is a true maximum. */
  lemma SentinelsBelowZero()
    ensures BelowZero(Sentinel) && BelowZero(MexSentinel) && BelowZero(NegInf)
  {
  }
}
