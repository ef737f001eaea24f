/**
  The immutable puzzle board: an n-by-n grid of tile labels stored flat in
  row-major order, with the index of the blank (label 0) cached.
 */
module Boards {
  import opened Wrappers
  import opened Grid

  /** Tiles are stored in Java `char`s, so every stored label lies below 0x1_0000. */
  const CharLimit: nat := 0x1_0000

  /** The fields of a board: its dimension n, its n*n tiles and the cached blank index. */
  datatype BoardState = BoardState(dimension: nat, tiles: seq<nat>, blank: nat)

  /** The first index holding 0, or |t| when no index does (the constructor's blank scan). */
  function FirstZero(t: seq<nat>): (k: nat)
    ensures k <= |t|
    ensures k < |t| ==> t[k] == 0
    ensures forall i :: 0 <= i < k ==> t[i] != 0
  {
    FirstZeroFrom(t, 0)
  }

  /** The scan for a 0 from index `start` onwards. */
  function FirstZeroFrom(t: seq<nat>, start: nat): (k: nat)
    requires start <= |t|
    ensures start <= k <= |t|
    ensures k < |t| ==> t[k] == 0
    ensures forall i :: start <= i < k ==> t[i] != 0
    decreases |t| - start
  {
    if start == |t| then |t|
    else if t[start] == 0 then start
    else FirstZeroFrom(t, start + 1)
  }

  /** A 0 at index k means the scan stops at k or earlier. */
  lemma FirstZeroAtMost(t: seq<nat>, k: nat)
    requires k < |t| && t[k] == 0
    ensures FirstZero(t) <= k
  {
  }

  /** What every constructed board satisfies: n*n tiles, a blank cached at the first 0. */
  predicate Valid(b: BoardState)
  {
    && |b.tiles| == b.dimension * b.dimension
    && b.blank == FirstZero(b.tiles)
    && b.blank < |b.tiles|
    && forall i :: 0 <= i < |b.tiles| ==> b.tiles[i] < CharLimit
  }

  type Board = b: BoardState | Valid(b) witness BoardState(1, [0], 0)

  /** Every row is at least n cells long, so copying the n-by-n grid stays in bounds. */
  predicate RowsCover(grid: seq<seq<int>>)
  {
    forall row :: 0 <= row < |grid| ==> |grid[row]| >= |grid|
  }

  /** Some in-range cell of the grid holds a label that is stored as 0. */
  predicate HasBlankCell(grid: seq<seq<int>>)
    requires RowsCover(grid)
  {
    exists row, col :: 0 <= row < |grid| && 0 <= col < |grid| && grid[row][col] % CharLimit == 0
  }

  /** The row-major copy of the grid, each label cut to a `char` (Board.flatCopy). */
  function Flatten(grid: seq<seq<int>>): (t: seq<nat>)
    requires RowsCover(grid)
    ensures |t| == |grid| * |grid|
    ensures forall i :: 0 <= i < |t| ==> t[i] < CharLimit
  {
    var n := |grid|;
    seq(n * n, i requires 0 <= i < n * n =>
      RowInRange(i, n);
      IndexOfCell(i, n);
      grid[Row(i, n)][Col(i, n)] % CharLimit)
  }

  /** Cell (row, col) of the grid lands at flat index row*n+col of the copy. */
  lemma FlattenCells(grid: seq<seq<int>>)
    requires RowsCover(grid)
    ensures forall row, col :: 0 <= row < |grid| && 0 <= col < |grid| ==>
      Index(row, col, |grid|) < |grid| * |grid| &&
      Flatten(grid)[Index(row, col, |grid|)] == grid[row][col] % CharLimit
  {
    var n := |grid|;
    forall row, col | 0 <= row < n && 0 <= col < n
      ensures Index(row, col, n) < n * n
      ensures Flatten(grid)[Index(row, col, n)] == grid[row][col] % CharLimit
    {
      IndexInRange(row, col, n);
      CellOfIndex(row, col, n);
    }
  }

  /** The copy holds a 0 exactly when some in-range grid cell is stored as 0. */
  lemma FlattenHasBlank(grid: seq<seq<int>>)
    requires RowsCover(grid)
    ensures FirstZero(Flatten(grid)) < |Flatten(grid)| <==> HasBlankCell(grid)
  {
    var n := |grid|;
    var t := Flatten(grid);
    FlattenCells(grid);
    if FirstZero(t) < |t| {
      var k := FirstZero(t);
      RowInRange(k, n);
      IndexOfCell(k, n);
      assert grid[Row(k, n)][Col(k, n)] % CharLimit == 0;
    }
    if HasBlankCell(grid) {
      var row, col :| 0 <= row < n && 0 <= col < n && grid[row][col] % CharLimit == 0;
      assert t[Index(row, col, n)] == 0;
    }
  }

  /** The copy's first 0 sits at a grid cell stored as 0, after only non-zero cells. */
  lemma FlattenBlankCell(grid: seq<seq<int>>)
    requires RowsCover(grid)
    requires FirstZero(Flatten(grid)) < |Flatten(grid)|
    ensures var k, n := FirstZero(Flatten(grid)), |grid|;
      && n > 0
      && (RowInRange(k, n); grid[Row(k, n)][Col(k, n)] % CharLimit == 0)
      && (forall row, col ::
            0 <= row < n && 0 <= col < n && Index(row, col, n) < k
            ==> grid[row][col] % CharLimit != 0)
  {
    var k, n := FirstZero(Flatten(grid)), |grid|;
    FlattenCells(grid);
    RowInRange(k, n);
    IndexOfCell(k, n);
  }

  /**
    `b` is the row-major copy of `grid` (labels cut to `char`), with its blank cached at
    the first cell, in row-major order, that is stored as 0.
   */
  predicate CopiedFrom(grid: seq<seq<int>>, b: Board)
    requires RowsCover(grid)
  {
    && b.dimension == |grid|
    && (forall row, col :: 0 <= row < |grid| && 0 <= col < |grid| ==>
          Index(row, col, |grid|) < |b.tiles| &&
          b.tiles[Index(row, col, |grid|)] == grid[row][col] % CharLimit)
    && (RowInRange(b.blank, |grid|);
        grid[Row(b.blank, |grid|)][Col(b.blank, |grid|)] % CharLimit == 0)
    && (forall row, col ::
          0 <= row < |grid| && 0 <= col < |grid| && Index(row, col, |grid|) < b.blank
          ==> grid[row][col] % CharLimit != 0)
  }

  /** The board whose tiles are `t`, with its blank found by scanning (new Board on a copy). */
  function FromTiles(n: nat, t: seq<nat>): (b: Board)
    requires |t| == n * n
    requires FirstZero(t) < |t|
    requires forall i :: 0 <= i < |t| ==> t[i] < CharLimit
    ensures b.dimension == n && b.tiles == t
  {
    BoardState(n, t, FirstZero(t))
  }

  /** Flattening a grid with a blank cell and scanning for the blank copies the grid. */
  lemma FlattenCopied(grid: seq<seq<int>>)
    requires RowsCover(grid)
    requires FirstZero(Flatten(grid)) < |Flatten(grid)|
    ensures CopiedFrom(grid, FromTiles(|grid|, Flatten(grid)))
  {
    FlattenCells(grid);
    FlattenBlankCell(grid);
  }

  /**
    The constructor (Board(int[][])): copies the grid row-major, then caches the first
    blank, failing when a row is too short to copy or when no blank is present.
   */
  function Create(grid: seq<seq<int>>): (r: Result<Board, Error>)
    ensures !RowsCover(grid) ==> r == Failure(IndexOutOfBounds)
    ensures RowsCover(grid) && !HasBlankCell(grid) ==> r == Failure(InvalidArgument)
    ensures RowsCover(grid) && HasBlankCell(grid) ==> r.Success? && CopiedFrom(grid, r.value)
  {
    if !RowsCover(grid) then Failure(IndexOutOfBounds)
    else
      var t := Flatten(grid);
      FlattenHasBlank(grid);
      FlattenCells(grid);
      if FirstZero(t) == |t| then Failure(InvalidArgument)
      else
        FlattenCopied(grid);
        Success(FromTiles(|grid|, t))
  }

  /** The n-by-n grid whose row-major reading is `t`. */
  function GridOf(n: nat, t: seq<nat>): (grid: seq<seq<int>>)
    requires |t| == n * n
    ensures |grid| == n
    ensures forall row :: 0 <= row < n ==> |grid[row]| == n
    ensures forall row: nat, col: nat :: row < n && col < n ==>
      Index(row, col, n) < |t| && grid[row][col] == t[Index(row, col, n)]
  {
    AllIndicesInRange(n);
    seq(n, row requires 0 <= row < n =>
      seq(n, col requires 0 <= col < n => t[Index(row, col, n)]))
  }

  /** The board as a two-dimensional grid (Board.getDoubleArray). */
  function ToGrid(b: Board): (grid: seq<seq<int>>)
    ensures |grid| == b.dimension
    ensures forall row :: 0 <= row < b.dimension ==> |grid[row]| == b.dimension
    ensures forall row: nat, col: nat :: row < b.dimension && col < b.dimension ==>
      Index(row, col, b.dimension) < |b.tiles| &&
      grid[row][col] == b.tiles[Index(row, col, b.dimension)]
  {
    GridOf(b.dimension, b.tiles)
  }

  /** The grid with cell (row, col) set to v: one Java array store `grid[row][col] = v`. */
  function SetCell(grid: seq<seq<int>>, row: nat, col: nat, v: int): (g: seq<seq<int>>)
    requires row < |grid| && col < |grid[row]|
    ensures |g| == |grid| && |g[row]| == |grid[row]| && g[row][col] == v
    ensures forall r, c :: 0 <= r < |grid| && 0 <= c < |grid[r]| && (r, c) != (row, col) ==>
      |g[r]| == |grid[r]| && g[r][c] == grid[r][c]
  {
    grid[row := grid[row][col := v]]
  }

  /** Storing into cell (row, col) of a board's grid stores into flat cell row*n+col. */
  lemma GridOfUpdate(n: nat, t: seq<nat>, row: nat, col: nat, v: nat)
    requires |t| == n * n && row < n && col < n
    ensures Index(row, col, n) < |t|
    ensures SetCell(GridOf(n, t), row, col, v) == GridOf(n, t[Index(row, col, n) := v])
  {
    IndexInRange(row, col, n);
    var k := Index(row, col, n);
    var g, g' := SetCell(GridOf(n, t), row, col, v), GridOf(n, t[k := v]);
    forall r | 0 <= r < n
      ensures g[r] == g'[r]
    {
      forall c | 0 <= c < n
        ensures g[r][c] == g'[r][c]
      {
        if (r, c) != (row, col) && Index(r, c, n) == k {
          CellOfIndex(r, c, n);
          CellOfIndex(row, col, n);
        }
      }
    }
  }

  /**
    Copying tiles into a grid and constructing a board from it gives the board that
    `FromTiles` describes: the round trip every neighbour and twin takes.
   */
  lemma {:induction false} CreateOfGrid(n: nat, t: seq<nat>)
    requires |t| == n * n
    requires FirstZero(t) < |t|
    requires forall i :: 0 <= i < |t| ==> t[i] < CharLimit
    ensures Create(GridOf(n, t)) == Success(FromTiles(n, t))
  {
    var grid := GridOf(n, t);
    assert RowsCover(grid);
    var f := Flatten(grid);
    assert f == t by {
      forall i | 0 <= i < n * n
        ensures f[i] == t[i]
      {
        RowInRange(i, n);
        IndexOfCell(i, n);
      }
    }
    FlattenHasBlank(grid);
  }

  /** Constructing a board from a board's own grid gives that board back. */
  lemma CreateToGrid(b: Board)
    ensures Create(ToGrid(b)) == Success(b)
  {
    CreateOfGrid(b.dimension, b.tiles);
  }

  /** Every row of the grid is exactly n cells long. */
  predicate Square(grid: seq<seq<int>>)
  {
    forall row :: 0 <= row < |grid| ==> |grid[row]| == |grid|
  }

  /** Every cell of the grid holds a label a Java `char` can store. */
  predicate CharLabels(grid: seq<seq<int>>)
    requires Square(grid)
  {
    forall row, col :: 0 <= row < |grid| && 0 <= col < |grid| ==> 0 <= grid[row][col] < CharLimit
  }

  /** Reading a square grid of `char` labels row-major and folding it back gives the grid. */
  lemma {:induction false} GridOfFlatten(grid: seq<seq<int>>)
    requires Square(grid) && CharLabels(grid)
    ensures GridOf(|grid|, Flatten(grid)) == grid
  {
    var n := |grid|;
    var g := GridOf(n, Flatten(grid));
    forall row | 0 <= row < n
      ensures g[row] == grid[row]
    {
      forall col | 0 <= col < n
        ensures g[row][col] == grid[row][col]
      {
        FlattenCell(grid, row, col);
      }
    }
  }

  /** One cell of the grid survives the row-major copy and the fold back. */
  lemma FlattenCell(grid: seq<seq<int>>, row: nat, col: nat)
    requires Square(grid) && CharLabels(grid)
    requires row < |grid| && col < |grid|
    ensures GridOf(|grid|, Flatten(grid))[row][col] == grid[row][col]
  {
    var n := |grid|;
    IndexInRange(row, col, n);
    CellOfIndex(row, col, n);
    assert 0 <= grid[row][col] < CharLimit;
  }

  /** For a square grid of `char` labels with a blank, construction loses nothing. */
  lemma ToGridCreate(grid: seq<seq<int>>)
    requires Square(grid) && CharLabels(grid)
    requires exists row, col :: 0 <= row < |grid| && 0 <= col < |grid| && grid[row][col] == 0
    ensures Create(grid).Success?
    ensures ToGrid(Create(grid).value) == grid
  {
    assert RowsCover(grid);
    var row0, col0 :| 0 <= row0 < |grid| && 0 <= col0 < |grid| && grid[row0][col0] == 0;
    assert grid[row0][col0] % CharLimit == 0;
    assert HasBlankCell(grid);
    assert Create(grid).value.tiles == Flatten(grid);
    GridOfFlatten(grid);
  }

  /**
    Board.equals: a non-null board equals this one exactly when its flat tile
    arrays are equal. The dimension is not compared, but arrays of equal length n*n
    force equal n, so this is equality of boards as values.
   */
  function Equals(a: Board, other: Option<Board>): (r: bool)
    ensures r <==> other == Some(a)
  {
    if other.Some? && other.value.tiles == a.tiles then
      SquareInjective(a.dimension, other.value.dimension);
      true
    else false
  }

  /** A square of naturals determines its root. */
  lemma SquareInjective(n: nat, m: nat)
    requires n * n == m * m
    ensures n == m
  {
  }

  /** Board equality is reflexive, symmetric and transitive, and null is never equal. */
  lemma EqualsIsEquivalence(a: Board, b: Board, c: Board)
    ensures Equals(a, Some(a))
    ensures Equals(a, Some(b)) <==> Equals(b, Some(a))
    ensures Equals(a, Some(b)) && Equals(b, Some(c)) ==> Equals(a, Some(c))
    ensures !Equals(a, None)
  {
  }

  /** Every label is a cell number of the board, 0 .. n*n-1. */
  predicate InRange(b: Board)
  {
    forall i :: 0 <= i < |b.tiles| ==> b.tiles[i] < |b.tiles|
  }

  /** The cached blank is the only cell holding 0. */
  predicate SingleBlank(b: Board)
  {
    forall i :: 0 <= i < |b.tiles| && b.tiles[i] == 0 ==> i == b.blank
  }

  /** The labels are exactly 0 .. n*n-1, each once: a well-formed puzzle. */
  predicate Permutation(b: Board)
  {
    && InRange(b)
    && forall i, j :: 0 <= i < j < |b.tiles| ==> b.tiles[i] != b.tiles[j]
  }

  /** A permutation board has its labels in range and a single blank. */
  lemma PermutationHasSingleBlank(b: Board)
    requires Permutation(b)
    ensures InRange(b) && SingleBlank(b)
  {
  }
}
