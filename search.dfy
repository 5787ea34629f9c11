/**
 * The monotone grid search at the heart of every variant of the solver, stated on
 * values. For one state (capital index c, productivity index p) the candidates are
 * the next-period capital indices k, each with a score (the Bellman objective at k).
 * A scan starts at a cursor with a running best equal to a sentinel, accepts a
 * candidate only when its score is strictly greater than the running best, and stops
 * at the first candidate that is not. Within one productivity column the cursor
 * starts at 0 and moves to each accepted index.
 */
module Search {

  datatype Option<T> = None | Some(value: T)

  /** A running best: a finite double, or the -infinity sentinel of RBC_CPP_2.cpp. */
  datatype Best = NegInf | Finite(value: real)

  /** `v > best` on doubles, where nothing is below -infinity. */
  predicate Improves(v: real, best: Best) {
    match best
    case NegInf => true
    case Finite(x) => v > x
  }

  /** A start below every absolute value: -infinity or a negative double such as -100000. */
  predicate BelowZero(sentinel: Best) {
    match sentinel
    case NegInf => true
    case Finite(x) => x < 0.0
  }

  /** What a scan leaves behind: the last accepted index (if any) and the running best. */
  datatype Outcome = Outcome(accepted: Option<nat>, best: Best)

  /** The scan continued from candidate k, with the running best and the last accepted index so far. */
  function Climb(scores: seq<real>, k: nat, best: Best, last: Option<nat>): (o: Outcome)
    decreases |scores| - k
  {
    if k >= |scores| then Outcome(last, best)
    else if Improves(scores[k], best) then Climb(scores, k + 1, Finite(scores[k]), Some(k))
    else Outcome(last, best)
  }

  /** One scan over the candidates [start, |scores|) from the sentinel. */
  function Scan(scores: seq<real>, start: nat, sentinel: Best): (o: Outcome) {
    Climb(scores, start, sentinel, None)
  }

  /** Where the cursor goes after a scan: to the accepted index, or nowhere. */
  function Advance(o: Outcome, cursor: nat): (next: nat) {
    match o.accepted
    case Some(a) => a
    case None => cursor
  }

  /**
   * A scan from `cursor` that has looked at the candidates before k: the rest of the scan
   * from k ends where the whole scan ends; with nothing accepted yet the running best is
   * the sentinel and the choice g[0]; otherwise the last accepted index is k - 1 and the
   * running best and the choice are its score and g[k - 1]. `next` is the cursor so far.
   */
  ghost predicate Scanning(scores: seq<real>, g: seq<real>, cursor: nat, sentinel: Best,
                           k: nat, best: Best, choice: real, next: nat, last: Option<nat>)
  {
    && Climb(scores, k, best, last) == Scan(scores, cursor, sentinel)
    && match last
       case None => best == sentinel && next == cursor && k == cursor && 0 < |g| && choice == g[0]
       case Some(a) => a + 1 == k && next == a && a < |scores| && a < |g| && best == Finite(scores[a]) && choice == g[a]
  }

  /** A scan starts at the cursor with the sentinel and g[0]. */
  lemma ScanningStarts(scores: seq<real>, g: seq<real>, cursor: nat, sentinel: Best)
    requires 0 < |g|
    ensures Scanning(scores, g, cursor, sentinel, cursor, sentinel, g[0], cursor, None)
  {
  }

  /** An improving candidate k is accepted: the scan goes on from k + 1 with its score and g[k]. */
  lemma ScanningAccepts(scores: seq<real>, g: seq<real>, cursor: nat, sentinel: Best,
                        k: nat, best: Best, choice: real, next: nat, last: Option<nat>)
    requires Scanning(scores, g, cursor, sentinel, k, best, choice, next, last)
    requires k < |scores| && k < |g| && Improves(scores[k], best)
    ensures Scanning(scores, g, cursor, sentinel, k + 1, Finite(scores[k]), g[k], k, Some(k))
  {
  }

  /** At the end of the candidates, or at one that does not improve, the scan's outcome is what it holds. */
  lemma ScanningEnds(scores: seq<real>, g: seq<real>, cursor: nat, sentinel: Best,
                     k: nat, best: Best, choice: real, next: nat, last: Option<nat>)
    requires Scanning(scores, g, cursor, sentinel, k, best, choice, next, last)
    requires k >= |scores| || !Improves(scores[k], best)
    ensures Scan(scores, cursor, sentinel) == Outcome(last, best)
  {
  }

  /** The cursor before row c of a column whose rows of candidate scores are `rows`; it starts at 0. */
  function CursorBefore(rows: seq<seq<real>>, sentinel: Best, c: nat): (cursor: nat)
    requires c <= |rows|
  {
    if c == 0 then 0
    else
      var cursor := CursorBefore(rows, sentinel, c - 1);
      Advance(Scan(rows[c - 1], cursor, sentinel), cursor)
  }

  /** The scan performed for row c of the column. */
  function RowOutcome(rows: seq<seq<real>>, sentinel: Best, c: nat): (o: Outcome)
    requires c < |rows|
  {
    Scan(rows[c], CursorBefore(rows, sentinel, c), sentinel)
  }

  // ---------------------------------------------------------------------------
  // An independent description of the accepted index.

  /** Scores strictly increase from index lo up to index hi. */
  ghost predicate Ascending(scores: seq<real>, lo: nat, hi: nat)
    requires hi < |scores|
  {
    forall k :: lo <= k < hi ==> scores[k] < scores[k + 1]
  }

  /**
   * The scan from `start` accepts index a: the first candidate beats the sentinel,
   * scores strictly rise from `start` to a, and a is the last candidate or the one
   * after it does not rise.
   */
  ghost predicate AscentEndsAt(scores: seq<real>, start: nat, sentinel: Best, a: nat) {
    && start <= a < |scores|
    && Improves(scores[start], sentinel)
    && Ascending(scores, start, a)
    && (a + 1 == |scores| || scores[a + 1] <= scores[a])
  }

  /** Nothing is accepted: the range is empty or the first candidate does not beat the sentinel. */
  ghost predicate NoAscent(scores: seq<real>, start: nat, sentinel: Best) {
    start >= |scores| || !Improves(scores[start], sentinel)
  }

  lemma {:induction false} ClimbAccepts(scores: seq<real>, start: nat, sentinel: Best, k: nat, a: nat)
    requires start < k <= |scores|
    requires Improves(scores[start], sentinel)
    requires Ascending(scores, start, k - 1)
    ensures Climb(scores, k, Finite(scores[k - 1]), Some(k - 1)).accepted == Some(a)
            <==> AscentEndsAt(scores, start, sentinel, a)
    ensures Climb(scores, k, Finite(scores[k - 1]), Some(k - 1)).accepted.Some?
    decreases |scores| - k
  {
    if k < |scores| && scores[k] > scores[k - 1] {
      ClimbAccepts(scores, start, sentinel, k + 1, a);
    }
  }

  /** The scan accepts exactly the index described by AscentEndsAt. */
  lemma ScanAccepts(scores: seq<real>, start: nat, sentinel: Best, a: nat)
    ensures Scan(scores, start, sentinel).accepted == Some(a) <==> AscentEndsAt(scores, start, sentinel, a)
  {
    if start < |scores| && Improves(scores[start], sentinel) {
      ClimbAccepts(scores, start, sentinel, start + 1, a);
    }
  }

  /** The scan accepts nothing exactly when there is no first improving candidate. */
  lemma ScanRejects(scores: seq<real>, start: nat, sentinel: Best)
    ensures Scan(scores, start, sentinel).accepted == None <==> NoAscent(scores, start, sentinel)
    ensures Scan(scores, start, sentinel).accepted == None ==> Scan(scores, start, sentinel).best == sentinel
  {
    if start < |scores| && Improves(scores[start], sentinel) {
      ClimbAccepts(scores, start, sentinel, start + 1, 0);
    }
  }

  lemma {:induction false} ClimbBest(scores: seq<real>, k: nat, best: Best, last: Option<nat>)
    requires last.Some? ==> last.value < |scores| && best == Finite(scores[last.value])
    requires last.Some? ==> last.value < k
    ensures var o := Climb(scores, k, best, last);
      match o.accepted
      case Some(a) => a < |scores| && o.best == Finite(scores[a]) && (last.Some? ==> last.value <= a)
                      && (last.None? ==> k <= a)
      case None => last.None? && o.best == best
    decreases |scores| - k
  {
    if k < |scores| && Improves(scores[k], best) {
      ClimbBest(scores, k + 1, Finite(scores[k]), Some(k));
    }
  }

  /**
   * A scan covers [start, |scores|): an accepted index lies in that range and the
   * running best is its score; with nothing accepted the running best is the sentinel.
   */
  lemma ScanResult(scores: seq<real>, start: nat, sentinel: Best)
    ensures var o := Scan(scores, start, sentinel);
      match o.accepted
      case Some(a) => start <= a < |scores| && o.best == Finite(scores[a])
      case None => o.best == sentinel
  {
    ClimbBest(scores, start, sentinel, None);
  }

  lemma {:induction false} AscendingBelow(scores: seq<real>, lo: nat, hi: nat, k: nat)
    requires lo <= k <= hi < |scores|
    requires Ascending(scores, lo, hi)
    ensures scores[k] <= scores[hi]
    decreases hi - k
  {
    if k < hi {
      AscendingBelow(scores, lo, hi, k + 1);
    }
  }

  /** The accepted score is the largest of every candidate the scan looked at before stopping. */
  lemma AcceptedIsScanMaximum(scores: seq<real>, start: nat, sentinel: Best, a: nat, k: nat)
    requires Scan(scores, start, sentinel).accepted == Some(a)
    requires a < |scores| && start <= k <= a + 1 && k < |scores|
    ensures scores[k] <= scores[a]
  {
    ScanAccepts(scores, start, sentinel, a);
    if k <= a {
      AscendingBelow(scores, start, a, k);
    }
  }

  /** With the -infinity sentinel a non-empty scan always accepts its first candidate. */
  lemma NegInfAccepts(scores: seq<real>, start: nat)
    requires start < |scores|
    ensures Scan(scores, start, NegInf).accepted.Some?
  {
    ClimbAccepts(scores, start, NegInf, start + 1, 0);
  }

  // ---------------------------------------------------------------------------
  // The column: the cursor and the accepted indices, row after row.

  ghost predicate Square(rows: seq<seq<real>>, n: nat) {
    |rows| == n && forall c :: 0 <= c < n ==> |rows[c]| == n
  }

  /** The cursor stays inside the grid, so every scan of a non-empty grid is non-empty. */
  lemma {:induction false} CursorInRange(rows: seq<seq<real>>, sentinel: Best, n: nat, c: nat)
    requires Square(rows, n) && c <= n && 0 < n
    ensures CursorBefore(rows, sentinel, c) < n
  {
    if c > 0 {
      CursorInRange(rows, sentinel, n, c - 1);
      ScanResult(rows[c - 1], CursorBefore(rows, sentinel, c - 1), sentinel);
    }
  }

  /** The cursor never moves back within a column. */
  lemma {:induction false} CursorNeverDecreases(rows: seq<seq<real>>, sentinel: Best, c1: nat, c2: nat)
    requires c1 <= c2 <= |rows|
    ensures CursorBefore(rows, sentinel, c1) <= CursorBefore(rows, sentinel, c2)
    decreases c2
  {
    if c1 < c2 {
      CursorNeverDecreases(rows, sentinel, c1, c2 - 1);
      ScanResult(rows[c2 - 1], CursorBefore(rows, sentinel, c2 - 1), sentinel);
    }
  }

  /** The accepted indices of a column are non-decreasing in the capital index. */
  lemma AcceptedNonDecreasing(rows: seq<seq<real>>, sentinel: Best, c1: nat, c2: nat, a1: nat, a2: nat)
    requires c1 < c2 < |rows|
    requires RowOutcome(rows, sentinel, c1).accepted == Some(a1)
    requires RowOutcome(rows, sentinel, c2).accepted == Some(a2)
    ensures a1 <= a2
  {
    assert CursorBefore(rows, sentinel, c1 + 1) == a1;
    CursorNeverDecreases(rows, sentinel, c1 + 1, c2);
    ScanResult(rows[c2], CursorBefore(rows, sentinel, c2), sentinel);
  }

  /** With the -infinity sentinel every row of a non-empty column accepts an index. */
  lemma NegInfAcceptsEveryRow(rows: seq<seq<real>>, n: nat, c: nat)
    requires Square(rows, n) && c < n
    ensures RowOutcome(rows, NegInf, c).accepted.Some?
  {
    CursorInRange(rows, NegInf, n, c);
    NegInfAccepts(rows[c], CursorBefore(rows, NegInf, c));
  }

  /** A strictly increasing grid. */
  ghost predicate StrictlyIncreasing(grid: seq<real>) {
    forall i, j :: 0 <= i < j < |grid| ==> grid[i] < grid[j]
  }

  /** Over a strictly increasing grid the chosen capital levels of a column are non-decreasing. */
  lemma PolicyNonDecreasing(rows: seq<seq<real>>, sentinel: Best, grid: seq<real>, c1: nat, c2: nat, a1: nat, a2: nat)
    requires StrictlyIncreasing(grid)
    requires c1 < c2 < |rows| && a1 < |grid| && a2 < |grid|
    requires RowOutcome(rows, sentinel, c1).accepted == Some(a1)
    requires RowOutcome(rows, sentinel, c2).accepted == Some(a2)
    ensures grid[a1] <= grid[a2]
  {
    AcceptedNonDecreasing(rows, sentinel, c1, c2, a1, a2);
  }
}
