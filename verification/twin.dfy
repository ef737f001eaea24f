/** The twin of a board: two fixed non-blank tiles exchanged (Board.twin). */
module Twins {
  import opened Wrappers
  import opened Grid
  import opened Boards

  /** The first cell twin exchanges: (0, 0), or (1, 1) when (0, 0) holds the blank. */
  function FirstTwinCell(b: Board): nat
    requires b.dimension >= 2
  {
    if b.tiles[Index(0, 0, b.dimension)] == 0 then Index(1, 1, b.dimension) else Index(0, 0, b.dimension)
  }

  /** The second cell twin exchanges: (0, 1), or (1, 0) when (0, 1) holds the blank. */
  function SecondTwinCell(b: Board): nat
    requires b.dimension >= 2
  {
    if b.tiles[Index(0, 1, b.dimension)] == 0 then Index(1, 0, b.dimension) else Index(0, 1, b.dimension)
  }

  /** Cells (0, 0), (0, 1), (1, 0) and (1, 1) lie on any board with n >= 2. */
  lemma TopLeftCellsOnBoard(n: nat)
    requires n >= 2
    ensures n + 1 < n * n
  {
    MulAtLeast(n, n);
    assert n * n == (n - 1) * n + n;
    MulAtLeast(n - 1, n);
  }

  /** The two twin cells are distinct cells of the board. */
  lemma TwinCellsOnBoard(b: Board)
    requires b.dimension >= 2
    ensures FirstTwinCell(b) < |b.tiles| && SecondTwinCell(b) < |b.tiles|
    ensures FirstTwinCell(b) != SecondTwinCell(b)
  {
    TopLeftCellsOnBoard(b.dimension);
  }

  /** The tiles with the labels at cells i and j exchanged. */
  function Swap(t: seq<nat>, i: nat, j: nat): (u: seq<nat>)
    requires i < |t| && j < |t|
    ensures |u| == |t|
  {
    t[i := t[j]][j := t[i]]
  }

  /** Exchanging two labels keeps the multiset of labels. */
  lemma SwapKeepsLabels(t: seq<nat>, i: nat, j: nat)
    requires i < |t| && j < |t|
    ensures multiset(Swap(t, i, j)) == multiset(t)
  {
    var u := t[i := t[j]];
    assert multiset(u) == multiset(t) - multiset{t[i]} + multiset{t[j]};
    assert multiset(u[j := t[i]]) == multiset(u) - multiset{u[j]} + multiset{t[i]};
  }

  /** After an exchange the cell the blank went to holds 0. */
  function BlankAfterSwap(blank: nat, i: nat, j: nat): nat
  {
    if blank == i then j else if blank == j then i else blank
  }

  /**
    Board.twin: exchanges the tiles at the two twin cells of the grid copy and builds a
    new board from it. The copy has a single column when n == 1, so reading (0, 1) fails.
   */
  function Twin(b: Board): (r: Result<Board, Error>)
    ensures b.dimension < 2 <==> r == Failure(IndexOutOfBounds)
    ensures r.Success? ==> r.value.dimension == b.dimension
  {
    if b.dimension < 2 then Failure(IndexOutOfBounds)
    else
      TwinCellsOnBoard(b);
      var i, j := FirstTwinCell(b), SecondTwinCell(b);
      var t := Swap(b.tiles, i, j);
      FirstZeroAtMost(t, BlankAfterSwap(b.blank, i, j));
      Success(FromTiles(b.dimension, t))
  }

  /**
    A twin differs from its board in exactly two distinct cells, whose labels it
    exchanges, and keeps the multiset of labels.
   */
  lemma TwinExchangesTwoCells(b: Board)
    requires b.dimension >= 2
    ensures var r, i, j := Twin(b).value, FirstTwinCell(b), SecondTwinCell(b);
      && i < |b.tiles| && j < |b.tiles| && i != j
      && r.tiles[i] == b.tiles[j] && r.tiles[j] == b.tiles[i]
      && (forall k :: 0 <= k < |b.tiles| && k != i && k != j ==> r.tiles[k] == b.tiles[k])
      && multiset(r.tiles) == multiset(b.tiles)
  {
    TwinCellsOnBoard(b);
    SwapKeepsLabels(b.tiles, FirstTwinCell(b), SecondTwinCell(b));
  }

  /** With a single blank, neither twin cell holds it. */
  lemma TwinCellsAreTiles(b: Board)
    requires b.dimension >= 2 && SingleBlank(b)
    ensures FirstTwinCell(b) < |b.tiles| && SecondTwinCell(b) < |b.tiles|
    ensures b.tiles[FirstTwinCell(b)] != 0 && b.tiles[SecondTwinCell(b)] != 0
  {
    TwinCellsOnBoard(b);
  }

  /** With a single blank, the twin keeps the blank where it was, still the only one. */
  lemma TwinKeepsBlank(b: Board)
    requires b.dimension >= 2 && SingleBlank(b)
    ensures Twin(b).value.blank == b.blank
    ensures SingleBlank(Twin(b).value)
  {
    var r := Twin(b).value;
    TwinCellsAreTiles(b);
    TwinExchangesTwoCells(b);
    FirstZeroAtMost(r.tiles, b.blank);
  }

  /** The twin of a well-formed puzzle is a well-formed puzzle different from it. */
  lemma TwinOfPermutation(b: Board)
    requires b.dimension >= 2 && Permutation(b)
    ensures Permutation(Twin(b).value)
    ensures Twin(b).value != b
  {
    var r, i, j := Twin(b).value, FirstTwinCell(b), SecondTwinCell(b);
    TwinExchangesTwoCells(b);
    assert b.tiles[i] != b.tiles[j] by {
      if i < j { assert b.tiles[i] != b.tiles[j]; } else { assert b.tiles[j] != b.tiles[i]; }
    }
    forall p, q | 0 <= p < q < |r.tiles|
      ensures r.tiles[p] != r.tiles[q]
    {
      var p', q' := if p == i then j else if p == j then i else p, if q == i then j else if q == j then i else q;
      assert r.tiles[p] == b.tiles[p'] && r.tiles[q] == b.tiles[q'];
      if p' < q' {
        assert b.tiles[p'] != b.tiles[q'];
      } else {
        assert b.tiles[q'] != b.tiles[p'];
      }
    }
  }

  /** With a single blank, taking the twin twice gives the board back. */
  lemma TwinInvolution(b: Board)
    requires b.dimension >= 2 && SingleBlank(b)
    ensures Twin(b).Success? && Twin(Twin(b).value).Success?
    ensures Twin(Twin(b).value).value == b
  {
    var r := Twin(b).value;
    TwinCellsAreTiles(b);
    TwinExchangesTwoCells(b);
    TwinKeepsBlank(b);
    assert FirstTwinCell(r) == FirstTwinCell(b);
    assert SecondTwinCell(r) == SecondTwinCell(b);
    TwinExchangesTwoCells(r);
    assert Twin(r).value.tiles == b.tiles;
  }

  /**
    Board.twin as Java performs it: on a copy of the grid, the first twin cell's value is
    stored into the second twin cell and the saved second value into the first, and the
    constructor builds the board. That board is `Twin(b)`.
   */
  lemma TwinThroughGrid(b: Board)
    requires b.dimension >= 2
    ensures var g := ToGrid(b);
      var row1 := if g[0][0] == 0 then 1 else 0;
      var col1 := if g[0][0] == 0 then 1 else 0;
      var row2 := if g[0][1] == 0 then 1 else 0;
      var col2 := if g[0][1] == 0 then 0 else 1;
      var temp := g[row2][col2];
      Create(SetCell(SetCell(g, row2, col2, g[row1][col1]), row1, col1, temp)) == Twin(b)
  {
    var n, t := b.dimension, b.tiles;
    TwinCellsOnBoard(b);
    var i, j := FirstTwinCell(b), SecondTwinCell(b);
    var g := ToGrid(b);
    var row1, row2 := if g[0][0] == 0 then 1 else 0, if g[0][1] == 0 then 1 else 0;
    var col1, col2 := row1, 1 - row2;
    assert Index(row1, col1, n) == i && Index(row2, col2, n) == j;
    GridOfUpdate(n, t, row2, col2, t[i]);
    GridOfUpdate(n, t[j := t[i]], row1, col1, t[j]);
    assert t[j := t[i]][i := t[j]] == Swap(t, i, j);
    var twin := Twin(b).value;
    assert twin.tiles == Swap(t, i, j);
    CreateOfGrid(n, twin.tiles);
  }
}
