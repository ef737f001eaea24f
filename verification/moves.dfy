/** The boards one move away from a board (Board.neighbors). */
module Moves {
  import opened Wrappers
  import opened Grid
  import opened Boards

  /** Cells i and j of an n-by-n grid share a side. */
  predicate Adjacent(n: nat, i: nat, j: nat)
    requires n > 0
  {
    Abs(Row(i, n) - Row(j, n)) + Abs(Col(i, n) - Col(j, n)) == 1
  }

  /**
    `c` is `b` after the tile at cell k, which shares a side with the blank, slid into
    the blank: the blank's cell takes that tile, cell k becomes 0, nothing else changes.
   */
  predicate SlidFrom(b: Board, c: Board, k: nat)
    requires k < |b.tiles|
  {
    && c.dimension == b.dimension
    && Adjacent(b.dimension, b.blank, k)
    && c.tiles == b.tiles[b.blank := b.tiles[k]][k := 0]
  }

  /** `c` is one slide away from `b`. */
  ghost predicate IsSlide(b: Board, c: Board)
  {
    exists k :: 0 <= k < |b.tiles| && SlidFrom(b, c, k)
  }

  /** Board.moveToBlank and the new Board built from the result: tile k moves into the blank. */
  function Slide(b: Board, k: nat): (c: Board)
    requires k < |b.tiles|
    ensures c.dimension == b.dimension
    ensures c.tiles[k] == 0 && c.tiles[b.blank] == b.tiles[k]
    ensures forall i :: 0 <= i < |b.tiles| && i != k && i != b.blank ==> c.tiles[i] == b.tiles[i]
  {
    var t := b.tiles[b.blank := b.tiles[k]][k := 0];
    FirstZeroAtMost(t, k);
    FromTiles(b.dimension, t)
  }

  /** Cell (row, col) lies on the n-by-n board. */
  predicate InBounds(n: nat, row: int, col: int)
  {
    0 <= row < n && 0 <= col < n
  }

  /** Board.addNeighbor's bounds test: the flat cell (row, col), or nothing when it is off the board. */
  function CellIfOnBoard(n: nat, row: int, col: int): (r: seq<nat>)
    ensures |r| == if InBounds(n, row, col) then 1 else 0
  {
    if InBounds(n, row, col) then [Index(row, col, n)] else []
  }

  /**
    The cells whose tiles Board.neighbors slides into a blank at (row, col): the cell
    above, to the right, below and to the left, in that order, skipping any off the board.
   */
  function MoveCells(n: nat, row: nat, col: nat): (r: seq<nat>)
    ensures |r| <= 4
  {
    CellIfOnBoard(n, row - 1, col) + CellIfOnBoard(n, row, col + 1) +
    CellIfOnBoard(n, row + 1, col) + CellIfOnBoard(n, row, col - 1)
  }

  /** Membership in four concatenated sequences is membership in one of them. */
  lemma InFourParts<T>(x: T, a: seq<T>, b: seq<T>, c: seq<T>, d: seq<T>)
    ensures x in a + b + c + d <==> x in a || x in b || x in c || x in d
  {
  }

  /** Two grid cells at Manhattan distance one differ by one step in one direction. */
  lemma UnitStep(row: int, col: int, r: int, c: int)
    requires Abs(row - r) + Abs(col - c) == 1
    ensures || (r == row - 1 && c == col)
            || (r == row && c == col + 1)
            || (r == row + 1 && c == col)
            || (r == row && c == col - 1)
  {
  }

  /** The cell kept by the bounds test for (r, c) is the cell (r, c), on the board. */
  lemma CellIfOnBoardIs(n: nat, r: int, c: int, k: nat)
    requires k in CellIfOnBoard(n, r, c)
    ensures InBounds(n, r, c) && k < n * n && Row(k, n) == r && Col(k, n) == c
  {
    IndexInRange(r, c, n);
    CellOfIndex(r, c, n);
  }

  /**
    For a blank at (row, col) on the board, the cells `MoveCells` lists are exactly the
    cells on the board that share a side with it.
   */
  lemma MoveCellsAreAdjacent(n: nat, row: nat, col: nat, k: nat)
    requires row < n && col < n
    ensures k in MoveCells(n, row, col) <==>
      k < n * n && Abs(Row(k, n) - row) + Abs(Col(k, n) - col) == 1
  {
    if k in MoveCells(n, row, col) {
      MoveCellsOnlyAdjacent(n, row, col, k);
    }
    if k < n * n && Abs(Row(k, n) - row) + Abs(Col(k, n) - col) == 1 {
      AdjacentInMoveCells(n, row, col, k);
    }
  }

  /** Every cell `MoveCells` lists is on the board and shares a side with (row, col). */
  lemma MoveCellsOnlyAdjacent(n: nat, row: nat, col: nat, k: nat)
    requires k in MoveCells(n, row, col)
    ensures k < n * n && n > 0 && Abs(Row(k, n) - row) + Abs(Col(k, n) - col) == 1
  {
    var up, right, down, left :=
      CellIfOnBoard(n, row - 1, col), CellIfOnBoard(n, row, col + 1),
      CellIfOnBoard(n, row + 1, col), CellIfOnBoard(n, row, col - 1);
    InFourParts(k, up, right, down, left);
    if k in up {
      CellIfOnBoardIs(n, row - 1, col, k);
    } else if k in right {
      CellIfOnBoardIs(n, row, col + 1, k);
    } else if k in down {
      CellIfOnBoardIs(n, row + 1, col, k);
    } else {
      CellIfOnBoardIs(n, row, col - 1, k);
    }
  }

  /** Every cell on the board sharing a side with (row, col) is listed by `MoveCells`. */
  lemma AdjacentInMoveCells(n: nat, row: nat, col: nat, k: nat)
    requires k < n * n && n > 0 && Abs(Row(k, n) - row) + Abs(Col(k, n) - col) == 1
    ensures k in MoveCells(n, row, col)
  {
    RowInRange(k, n);
    IndexOfCell(k, n);
    UnitStep(row, col, Row(k, n), Col(k, n));
    var up, right, down, left :=
      CellIfOnBoard(n, row - 1, col), CellIfOnBoard(n, row, col + 1),
      CellIfOnBoard(n, row + 1, col), CellIfOnBoard(n, row, col - 1);
    InFourParts(k, up, right, down, left);
  }

  /** Every cell `MoveCells` lists lies on the board. */
  lemma MoveCellsOnBoard(n: nat, row: nat, col: nat)
    requires row < n && col < n
    ensures forall j :: 0 <= j < |MoveCells(n, row, col)| ==> MoveCells(n, row, col)[j] < n * n
  {
    var cells := MoveCells(n, row, col);
    forall j | 0 <= j < |cells|
      ensures cells[j] < n * n
    {
      MoveCellsOnlyAdjacent(n, row, col, cells[j]);
    }
  }

  /** The row of the blank. */
  function BlankRow(b: Board): (row: nat)
    ensures b.dimension > 0 && row < b.dimension
  {
    RowInRange(b.blank, b.dimension);
    Row(b.blank, b.dimension)
  }

  /** The column of the blank; together with its row it names the blank's cell. */
  function BlankCol(b: Board): (col: nat)
    ensures col < b.dimension
  {
    RowInRange(b.blank, b.dimension);
    Col(b.blank, b.dimension)
  }

  /** The cells next to the blank, in the order Board.neighbors tries them. */
  function BlankMoves(b: Board): (cells: seq<nat>)
    ensures forall j :: 0 <= j < |cells| ==> cells[j] < |b.tiles|
  {
    MoveCellsOnBoard(b.dimension, BlankRow(b), BlankCol(b));
    MoveCells(b.dimension, BlankRow(b), BlankCol(b))
  }

  /**
    Board.neighbors: one board per cell next to the blank (above, right, below, left,
    skipping cells off the board), that cell's tile slid into the blank.
   */
  function Neighbors(b: Board): (r: seq<Board>)
    ensures |r| == |BlankMoves(b)|
    ensures forall j :: 0 <= j < |r| ==> SlidFrom(b, r[j], BlankMoves(b)[j])
  {
    var cells := BlankMoves(b);
    BlankMovesSlide(b);
    seq(|cells|, j requires 0 <= j < |cells| => Slide(b, cells[j]))
  }

  /**
    Board.addNeighbor as Java performs it: on a copy of the grid, moveToBlank stores the
    tile at (row, col) into the blank's cell and then 0 into (row, col), and the
    constructor builds the board. That board is the slide of flat cell row*n+col.
   */
  lemma SlideThroughGrid(b: Board, row: nat, col: nat)
    requires row < b.dimension && col < b.dimension
    ensures var g := ToGrid(b);
      var g' := SetCell(SetCell(g, BlankRow(b), BlankCol(b), g[row][col]), row, col, 0);
      Index(row, col, b.dimension) < |b.tiles| && Create(g') == Success(Slide(b, Index(row, col, b.dimension)))
  {
    var n, t := b.dimension, b.tiles;
    var k := Index(row, col, n);
    IndexOfCell(b.blank, n);
    GridOfUpdate(n, t, BlankRow(b), BlankCol(b), t[k]);
    GridOfUpdate(n, t[b.blank := t[k]], row, col, 0);
    var c := Slide(b, k);
    CreateOfGrid(n, c.tiles);
  }

  /** A cell is next to the blank exactly when `BlankMoves` lists it. */
  lemma BlankMovesAreAdjacent(b: Board, k: nat)
    ensures k in BlankMoves(b) <==> k < |b.tiles| && Adjacent(b.dimension, b.blank, k)
  {
    var n := b.dimension;
    MoveCellsAreAdjacent(n, BlankRow(b), BlankCol(b), k);
  }

  /** Sliding each cell `BlankMoves` lists gives a board one slide away through that cell. */
  lemma BlankMovesSlide(b: Board)
    ensures forall j :: 0 <= j < |BlankMoves(b)| ==> SlidFrom(b, Slide(b, BlankMoves(b)[j]), BlankMoves(b)[j])
  {
    var cells := BlankMoves(b);
    forall j | 0 <= j < |cells|
      ensures SlidFrom(b, Slide(b, cells[j]), cells[j])
    {
      assert cells[j] in cells;
      BlankMovesAreAdjacent(b, cells[j]);
      SlideIsSlidFrom(b, cells[j]);
    }
  }

  /** The slide of the tile at an adjacent cell is described by `SlidFrom`. */
  lemma SlideIsSlidFrom(b: Board, k: nat)
    requires k < |b.tiles| && Adjacent(b.dimension, b.blank, k)
    ensures SlidFrom(b, Slide(b, k), k)
  {
  }

  /** A board related to `b` by `SlidFrom` is the one `Slide` builds. */
  lemma SlidFromIsSlide(b: Board, c: Board, k: nat)
    requires k < |b.tiles| && SlidFrom(b, c, k)
    ensures c == Slide(b, k)
  {
  }

  /**
    The boards `Neighbors` returns are exactly the boards one slide away: every result
    is a slide into the blank, and every slide into the blank is among the results.
   */
  lemma NeighborsAreSlides(b: Board, c: Board)
    ensures c in Neighbors(b) <==> IsSlide(b, c)
  {
    var cells := BlankMoves(b);
    var r := Neighbors(b);
    if c in r {
      var j :| 0 <= j < |r| && r[j] == c;
      var k := cells[j];
      assert k in cells;
      BlankMovesAreAdjacent(b, k);
      SlideIsSlidFrom(b, k);
    }
    if IsSlide(b, c) {
      var k :| 0 <= k < |b.tiles| && SlidFrom(b, c, k);
      SlidFromIsSlide(b, c, k);
      BlankMovesAreAdjacent(b, k);
      var j :| 0 <= j < |cells| && cells[j] == k;
      assert r[j] == c;
    }
  }

  /** How many of the four sides of cell (row, col) face another cell of the board. */
  lemma MoveCellsCount(n: nat, row: nat, col: nat)
    requires row < n && col < n
    ensures |MoveCells(n, row, col)| ==
      (if row > 0 then 1 else 0) + (if col + 1 < n then 1 else 0) +
      (if row + 1 < n then 1 else 0) + (if col > 0 then 1 else 0)
  {
  }

  /**
    A board has no neighbours when n == 1 and two to four once n >= 2: four exactly when
    the blank is away from every edge, two exactly when it is in a corner.
   */
  lemma NeighborCount(b: Board)
    ensures b.dimension == 1 ==> Neighbors(b) == []
    ensures b.dimension >= 2 ==> 2 <= |Neighbors(b)| <= 4
    ensures |Neighbors(b)| == 4 <==>
      0 < BlankRow(b) < b.dimension - 1 && 0 < BlankCol(b) < b.dimension - 1
    ensures b.dimension >= 2 ==>
      (|Neighbors(b)| == 2 <==>
        (BlankRow(b) == 0 || BlankRow(b) == b.dimension - 1) &&
        (BlankCol(b) == 0 || BlankCol(b) == b.dimension - 1))
  {
    MoveCellsCount(b.dimension, BlankRow(b), BlankCol(b));
  }

  /**
    With a single blank, sliding the tile at a cell next to the blank leaves a board
    whose only blank is that cell.
   */
  lemma SlideMovesBlank(b: Board, k: nat)
    requires SingleBlank(b)
    requires k < |b.tiles| && k != b.blank
    ensures Slide(b, k).blank == k
    ensures SingleBlank(Slide(b, k))
  {
    var c := Slide(b, k);
    assert b.tiles[k] != 0;
    FirstZeroAtMost(c.tiles, k);
    assert c.tiles[c.blank] == 0;
  }

  /** A slide can be undone: with a single blank, `b` is one slide away from each neighbour. */
  lemma SlideIsReversible(b: Board, c: Board)
    requires SingleBlank(b)
    requires IsSlide(b, c)
    ensures IsSlide(c, b)
  {
    var k :| 0 <= k < |b.tiles| && SlidFrom(b, c, k);
    SlidFromIsSlide(b, c, k);
    SlideMovesBlank(b, k);
    UndoSlide(b.tiles, b.blank, k);
    assert SlidFrom(c, b, b.blank);
  }

  /** Sliding the tile back into the cell it came from restores the tiles. */
  lemma UndoSlide(t: seq<nat>, z: nat, k: nat)
    requires z < |t| && k < |t| && z != k && t[z] == 0
    ensures var u := t[z := t[k]][k := 0]; u[k := u[z]][z := 0] == t
  {
    var u := t[z := t[k]][k := 0];
    assert forall i :: 0 <= i < |t| ==> u[k := u[z]][z := 0][i] == t[i];
  }

  /** The side of (row, col) that cell k lies on: 0 above, 1 right, 2 below, 3 left. */
  function Direction(n: nat, row: nat, col: nat, k: nat): nat
    requires n > 0
  {
    if Row(k, n) < row then 0
    else if Col(k, n) > col then 1
    else if Row(k, n) > row then 2
    else 3
  }

  /**
    In a concatenation of four sequences of at most one element each, whose elements
    have ranks 0, 1, 2 and 3 by part, ranks strictly increase along the sequence.
   */
  lemma RanksIncrease<T>(a: seq<T>, b: seq<T>, c: seq<T>, d: seq<T>, rank: T -> nat)
    requires |a| <= 1 && |b| <= 1 && |c| <= 1 && |d| <= 1
    requires forall x :: x in a ==> rank(x) == 0
    requires forall x :: x in b ==> rank(x) == 1
    requires forall x :: x in c ==> rank(x) == 2
    requires forall x :: x in d ==> rank(x) == 3
    ensures forall j, j' :: 0 <= j < j' < |a + b + c + d| ==>
      rank((a + b + c + d)[j]) < rank((a + b + c + d)[j'])
  {
    var s := a + b + c + d;
    forall j | 0 <= j < |s|
      ensures rank(s[j]) == if j < |a| then 0 else if j < |a| + |b| then 1
                            else if j < |a| + |b| + |c| then 2 else 3
    {
      if j < |a| {
        assert s[j] in a;
      } else if j < |a| + |b| {
        assert s[j] == b[j - |a|];
      } else if j < |a| + |b| + |c| {
        assert s[j] == c[j - |a| - |b|];
      } else {
        assert s[j] == d[j - |a| - |b| - |c|];
      }
    }
  }

  /**
    Board.neighbors tries the sides in the order up, right, down, left: the directions
    of the listed cells strictly increase.
   */
  lemma MoveCellsInOrder(n: nat, row: nat, col: nat)
    requires row < n && col < n
    ensures forall j, j' :: 0 <= j < j' < |MoveCells(n, row, col)| ==>
      Direction(n, row, col, MoveCells(n, row, col)[j]) <
      Direction(n, row, col, MoveCells(n, row, col)[j'])
  {
    var up, right, down, left :=
      CellIfOnBoard(n, row - 1, col), CellIfOnBoard(n, row, col + 1),
      CellIfOnBoard(n, row + 1, col), CellIfOnBoard(n, row, col - 1);
    var rank := k => Direction(n, row, col, k);
    forall k | k in up ensures rank(k) == 0 {
      CellIfOnBoardIs(n, row - 1, col, k);
    }
    forall k | k in right ensures rank(k) == 1 {
      CellIfOnBoardIs(n, row, col + 1, k);
    }
    forall k | k in down ensures rank(k) == 2 {
      CellIfOnBoardIs(n, row + 1, col, k);
    }
    forall k | k in left ensures rank(k) == 3 {
      CellIfOnBoardIs(n, row, col - 1, k);
    }
    RanksIncrease(up, right, down, left, rank);
  }

  /**
    With a single blank, the blanks of the neighbours lie on strictly increasing sides of
    the original blank: up first, then right, down and left.
   */
  lemma NeighborsInOrder(b: Board)
    requires SingleBlank(b)
    ensures var n, row, col := b.dimension, BlankRow(b), BlankCol(b);
      forall j, j' :: 0 <= j < j' < |Neighbors(b)| ==>
        Direction(n, row, col, Neighbors(b)[j].blank) < Direction(n, row, col, Neighbors(b)[j'].blank)
  {
    var cells, r := BlankMoves(b), Neighbors(b);
    MoveCellsInOrder(b.dimension, BlankRow(b), BlankCol(b));
    forall j | 0 <= j < |r|
      ensures r[j].blank == cells[j]
    {
      BlankMovesAreAdjacent(b, cells[j]);
      assert cells[j] in cells;
      SlideMovesBlank(b, cells[j]);
    }
  }
}
