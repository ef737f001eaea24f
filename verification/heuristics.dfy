/** The goal layout and the two distance-to-goal scores of a board. */
module Heuristics {
  import opened Grid
  import opened Boards

  /**
    The label the goal puts at (row, col): 0 in the last cell, n*row+col+1 elsewhere. On
    the board the label is below n*n, and a non-blank label v names its own cell: v-1
    splits back into (row, col).
   */
  function Expected(n: nat, row: nat, col: nat): (e: nat)
    ensures row < n && col < n ==> e < n * n
    ensures e != 0 && col < n ==> Row(e - 1, n) == row && Col(e - 1, n) == col
  {
    var i := Index(row, col, n);
    assert col < n ==> Row(i, n) == row && Col(i, n) == col by {
      if col < n {
        CellOfIndex(row, col, n);
      }
    }
    assert row < n && col < n && !(row == n - 1 && col == n - 1) ==> i + 1 < n * n by {
      if row < n && col < n {
        IndexInRange(row, col, n);
        CellOfIndex(n - 1, n - 1, n);
        IndexIsProduct(n - 1, n - 1, n);
        assert (n - 1) * n + (n - 1) == n * n - 1;
      }
    }
    if row == n - 1 && col == n - 1 then 0 else i + 1
  }

  /** The goal layout read row-major: 1, 2, ..., n*n-1 and then the blank. */
  function GoalTiles(n: nat): (t: seq<nat>)
    ensures |t| == n * n
  {
    seq(n * n, i => if i == n * n - 1 then 0 else i + 1)
  }

  /**
    The expected label of a flat cell is its place in the goal layout: label v belongs
    at flat cell v-1, the blank at the last cell.
   */
  lemma ExpectedIsGoal(n: nat, i: nat)
    requires i < n * n
    ensures n > 0 && Expected(n, Row(i, n), Col(i, n)) == GoalTiles(n)[i]
  {
    RowInRange(i, n);
    IndexOfCell(i, n);
    IndexIsProduct(n - 1, n - 1, n);
    assert (n - 1) * n + (n - 1) == n * n - 1;
    if i == n * n - 1 {
      CellOfIndex(n - 1, n - 1, n);
    }
  }

  /** Label v (0 < v < n*n) has the cell (row (v-1)/n, column (v-1)%n) as its goal. */
  lemma GoalCellOfLabel(n: nat, v: nat)
    requires 0 < v < n * n
    ensures Expected(n, Row(v - 1, n), Col(v - 1, n)) == v
  {
    ExpectedIsGoal(n, v - 1);
  }

  /**
    Cell i holds a non-blank label other than the one the goal puts there: the label
    differs from cell i of the goal layout.
   */
  function Misplaced(b: Board, i: nat): (r: bool)
    requires i < |b.tiles|
    ensures r <==> b.tiles[i] != 0 && b.tiles[i] != GoalTiles(b.dimension)[i]
  {
    ExpectedIsGoal(b.dimension, i);
    b.tiles[i] != 0 && b.tiles[i] != Expected(b.dimension, Row(i, b.dimension), Col(i, b.dimension))
  }

  /** The cells whose tile is out of place. */
  function MisplacedCells(b: Board): set<nat>
  {
    set i: nat | i < |b.tiles| && Misplaced(b, i)
  }

  /** The out-of-place tiles among the first k cells, counted in row-major order. */
  function HammingUpTo(b: Board, k: nat): (h: nat)
    requires k <= |b.tiles|
    ensures h <= k
    ensures b.blank < k ==> h < k
  {
    if k == 0 then 0
    else HammingUpTo(b, k - 1) + (if Misplaced(b, k - 1) then 1 else 0)
  }

  /** The misplaced cells among the first k. */
  function MisplacedBelow(b: Board, k: nat): set<nat>
    requires k <= |b.tiles|
  {
    set i: nat | i < k && Misplaced(b, i)
  }

  /** The naturals below k that satisfy p. */
  function Below(p: nat -> bool, k: nat): set<nat>
  {
    set i: nat | i < k && p(i)
  }

  /** Going from k-1 to k adds k-1 to the set exactly when it satisfies p. */
  lemma BelowStep(p: nat -> bool, k: nat)
    requires 0 < k
    ensures |Below(p, k)| == |Below(p, k - 1)| + (if p(k - 1) then 1 else 0)
  {
    BelowGrows(p, k);
    if p(k - 1) {
      assert k - 1 !in Below(p, k - 1);
    }
  }

  /** The naturals below k that satisfy p are those below k-1, plus k-1 when it does. */
  lemma BelowGrows(p: nat -> bool, k: nat)
    requires 0 < k
    ensures Below(p, k) == Below(p, k - 1) + (if p(k - 1) then {k - 1} else {})
  {
  }

  /** Going from k-1 to k cells adds cell k-1 to the misplaced set exactly when it is misplaced. */
  lemma MisplacedBelowStep(b: Board, k: nat)
    requires 0 < k <= |b.tiles|
    ensures |MisplacedBelow(b, k)| == |MisplacedBelow(b, k - 1)| + (if Misplaced(b, k - 1) then 1 else 0)
  {
    var p := (i: nat) => i < |b.tiles| && Misplaced(b, i);
    BelowStep(p, k);
    assert MisplacedBelow(b, k) == Below(p, k);
    assert MisplacedBelow(b, k - 1) == Below(p, k - 1);
  }

  /** The running count is the size of the set of misplaced cells below k. */
  lemma {:induction false} HammingUpToCounts(b: Board, k: nat)
    requires k <= |b.tiles|
    ensures HammingUpTo(b, k) == |MisplacedBelow(b, k)|
  {
    if k > 0 {
      HammingUpToCounts(b, k - 1);
      MisplacedBelowStep(b, k);
    }
  }

  /** Board.hamming: the number of non-blank tiles out of place, at most n*n-1. */
  function Hamming(b: Board): (h: nat)
    ensures h <= |b.tiles| - 1
  {
    HammingUpTo(b, |b.tiles|)
  }

  /** The Hamming score is the number of misplaced cells. */
  lemma HammingCountsMisplaced(b: Board)
    ensures Hamming(b) == |MisplacedCells(b)|
  {
    HammingUpToCounts(b, |b.tiles|);
    assert MisplacedCells(b) == MisplacedBelow(b, |b.tiles|);
  }

  /** Grid distance from cell i to the goal cell of label v (row (v-1)/n, column (v-1)%n). */
  function Distance(n: nat, i: nat, v: nat): (d: nat)
    requires n > 0 && v >= 1
    ensures d == 0 ==> i == v - 1
  {
    assert Row(i, n) == Row(v - 1, n) && Col(i, n) == Col(v - 1, n) ==> i == v - 1 by {
      if Row(i, n) == Row(v - 1, n) && Col(i, n) == Col(v - 1, n) {
        SameCell(i, v - 1, n);
      }
    }
    Abs(Row(i, n) - Row(v - 1, n)) + Abs(Col(i, n) - Col(v - 1, n))
  }

  /** A misplaced label in range is at least one step away from its goal cell. */
  lemma MisplacedIsAway(b: Board, i: nat)
    requires i < |b.tiles|
    ensures InRange(b) && Misplaced(b, i) ==> Distance(b.dimension, i, b.tiles[i]) >= 1
  {
    var n, v := b.dimension, b.tiles[i];
    if InRange(b) && Misplaced(b, i) && Distance(n, i, v) == 0 {
      SameCell(i, v - 1, n);
      ExpectedIsGoal(n, i);
    }
  }

  /** The Manhattan distances of the out-of-place tiles among the first k cells, summed. */
  function ManhattanUpTo(b: Board, k: nat): (m: nat)
    requires k <= |b.tiles|
    ensures HammingUpTo(b, k) == 0 ==> m == 0
    ensures InRange(b) ==> m >= HammingUpTo(b, k)
  {
    if k == 0 then 0
    else
      var here := if Misplaced(b, k - 1) then Distance(b.dimension, k - 1, b.tiles[k - 1]) else 0;
      MisplacedIsAway(b, k - 1);
      ManhattanUpTo(b, k - 1) + here
  }

  /**
    Board.manhattan: the sum of the grid distances of the non-blank tiles from their
    goal cells. It vanishes when nothing is misplaced and, on labels in range, is never
    below the Hamming score.
   */
  function Manhattan(b: Board): (m: nat)
    ensures Hamming(b) == 0 ==> m == 0
    ensures InRange(b) ==> m >= Hamming(b)
  {
    ManhattanUpTo(b, |b.tiles|)
  }

  /** Every cell, the blank's included, holds the label the goal puts there. */
  predicate EveryCellExpected(b: Board)
  {
    forall row, col :: 0 <= row < b.dimension && 0 <= col < b.dimension ==>
      Index(row, col, b.dimension) < |b.tiles| &&
      b.tiles[Index(row, col, b.dimension)] == Expected(b.dimension, row, col)
  }

  /** Board.isGoal: the cell-by-cell comparison with the expected labels. */
  function IsGoal(b: Board): (r: bool)
    ensures r <==> b.tiles == GoalTiles(b.dimension)
  {
    GoalIsExpectedEverywhere(b);
    EveryCellExpected(b)
  }

  /** Comparing cell by cell against the expected labels is comparing with the goal layout. */
  lemma GoalIsExpectedEverywhere(b: Board)
    ensures b.tiles == GoalTiles(b.dimension) <==> EveryCellExpected(b)
  {
    var n := b.dimension;
    var goal := GoalTiles(n);
    forall row: nat, col: nat | row < n && col < n
      ensures Index(row, col, n) < |b.tiles|
      ensures goal[Index(row, col, n)] == Expected(n, row, col)
    {
      IndexInRange(row, col, n);
      CellOfIndex(row, col, n);
      ExpectedIsGoal(n, Index(row, col, n));
    }
    if EveryCellExpected(b) {
      forall i | 0 <= i < |b.tiles|
        ensures b.tiles[i] == goal[i]
      {
        RowInRange(i, n);
        IndexOfCell(i, n);
      }
    }
  }

  /** The goal board scores zero on both heuristics. */
  lemma GoalScoresZero(b: Board)
    requires IsGoal(b)
    ensures Hamming(b) == 0 && Manhattan(b) == 0
  {
    forall i: nat | i < |b.tiles|
      ensures !Misplaced(b, i)
    {
      ExpectedIsGoal(b.dimension, i);
    }
    assert MisplacedCells(b) == {};
    HammingCountsMisplaced(b);
  }

  /** With a single blank, a zero Hamming score means the goal has been reached. */
  lemma ZeroHammingIsGoal(b: Board)
    requires SingleBlank(b)
    requires Hamming(b) == 0
    ensures IsGoal(b)
  {
    var n, goal := b.dimension, GoalTiles(b.dimension);
    var last := |b.tiles| - 1;
    ZeroHammingNoneMisplaced(b);
    assert b.tiles[last] == 0 by {
      ExpectedIsGoal(n, last);
      assert !Misplaced(b, last);
    }
    assert b.tiles == goal by {
      forall i | 0 <= i < |b.tiles|
        ensures b.tiles[i] == goal[i]
      {
        ExpectedIsGoal(n, i);
        assert !Misplaced(b, i);
        if i != last {
          assert b.tiles[i] != 0;
        }
      }
    }
  }

  /** A zero Hamming score leaves no cell misplaced. */
  lemma ZeroHammingNoneMisplaced(b: Board)
    requires Hamming(b) == 0
    ensures forall i: nat :: i < |b.tiles| ==> !Misplaced(b, i)
  {
    forall i: nat | i < |b.tiles|
      ensures !Misplaced(b, i)
    {
      HammingCountsMisplaced(b);
      assert Misplaced(b, i) ==> i in MisplacedCells(b);
    }
  }

  /**
    On a well-formed puzzle the goal test, a zero Hamming score and a zero Manhattan
    score all agree, and Manhattan never undercounts Hamming.
   */
  lemma GoalIffZeroScores(b: Board)
    requires Permutation(b)
    ensures IsGoal(b) <==> Hamming(b) == 0
    ensures IsGoal(b) <==> Manhattan(b) == 0
    ensures Hamming(b) <= Manhattan(b)
  {
    PermutationHasSingleBlank(b);
    if IsGoal(b) {
      GoalScoresZero(b);
    }
    if Hamming(b) == 0 || Manhattan(b) == 0 {
      ZeroHammingIsGoal(b);
    }
  }
}
