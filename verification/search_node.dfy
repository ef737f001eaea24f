/** The nodes of the A* search: a board, the moves made to reach it and the node it came from. */
module SearchNodes {
  import opened Wrappers
  import opened Boards
  import opened Heuristics
  import opened Moves

  /**
    Solver.SearchNode: the board, the number of moves made from the start, the node it
    was reached from (None for a start node) and the board's two scores, computed once.
   */
  datatype Node = Node(board: Board, moves: nat, previous: Option<Node>, hamming: nat, manhattan: nat)

  /** The cached scores are the board's own. */
  predicate Cached(x: Node)
  {
    x.hamming == Hamming(x.board) && x.manhattan == Manhattan(x.board)
  }

  /** The SearchNode constructor: records the board, moves and predecessor and caches both scores. */
  function NewNode(board: Board, moves: nat, previous: Option<Node>): (x: Node)
    ensures x.board == board && x.moves == moves && x.previous == previous
    ensures Cached(x)
  {
    Node(board, moves, previous, Hamming(board), Manhattan(board))
  }

  /** The A* priority the node is ordered by: cached Manhattan score plus moves so far. */
  function Priority(x: Node): nat
  {
    x.manhattan + x.moves
  }

  /** SearchNode.compareTo: Integer.compare of the two priorities, -1, 0 or 1. */
  function Compare(x: Node, y: Node): (c: int)
    ensures c == -1 || c == 0 || c == 1
  {
    if Priority(x) < Priority(y) then -1
    else if Priority(x) == Priority(y) then 0
    else 1
  }

  /**
    The comparison orders nodes by priority alone: the sign says which priority is
    smaller, and nodes of equal priority compare as equal whatever their boards.
   */
  lemma CompareIsPriorityOrder(x: Node, y: Node)
    ensures Compare(x, y) < 0 <==> x.manhattan + x.moves < y.manhattan + y.moves
    ensures Compare(x, y) == 0 <==> x.manhattan + x.moves == y.manhattan + y.moves
    ensures Compare(x, y) > 0 <==> x.manhattan + x.moves > y.manhattan + y.moves
  {
  }

  /** The comparison is antisymmetric and transitive, a total preorder on nodes. */
  lemma CompareIsTotalPreorder(x: Node, y: Node, z: Node)
    ensures Compare(x, x) == 0
    ensures Compare(x, y) == -Compare(y, x)
    ensures Compare(x, y) <= 0 && Compare(y, z) <= 0 ==> Compare(x, z) <= 0
  {
  }

  /**
    A node with cached scores has priority at least its moves; on a well-formed puzzle
    the priority equals the moves exactly when the board is the goal.
   */
  lemma PriorityOfCached(x: Node)
    requires Cached(x)
    ensures Priority(x) >= x.moves
    ensures Permutation(x.board) ==> (IsGoal(x.board) <==> Priority(x) == x.moves)
    ensures Permutation(x.board) ==> x.hamming <= x.manhattan
  {
    if Permutation(x.board) {
      GoalIffZeroScores(x.board);
    }
  }

  /**
    Following `previous` links from `x` ends at a start node on `root` after x.moves
    links, each link one slide: the node records a path of slides from `root`.
   */
  ghost predicate ChainFrom(x: Node, root: Board)
    decreases x
  {
    match x.previous
    case None => x.board == root && x.moves == 0
    case Some(p) => x.moves == p.moves + 1 && IsSlide(p.board, x.board) && ChainFrom(p, root)
  }

  /** The boards along the `previous` links, from the start node to `x`. */
  function Path(x: Node): (path: seq<Board>)
    ensures |path| >= 1 && path[|path| - 1] == x.board
    decreases x
  {
    match x.previous
    case None => [x.board]
    case Some(p) => Path(p) + [x.board]
  }

  /**
    A chained node's path starts at the root, ends at its board, has x.moves slides,
    and each board on it is one slide from the one before.
   */
  lemma {:induction false} PathOfChain(x: Node, root: Board)
    requires ChainFrom(x, root)
    ensures |Path(x)| == x.moves + 1
    ensures Path(x)[0] == root
    ensures forall i :: 0 < i < |Path(x)| ==> IsSlide(Path(x)[i - 1], Path(x)[i])
    decreases x
  {
    match x.previous
    case None =>
    case Some(p) =>
      PathOfChain(p, root);
      var before := Path(p);
      assert Path(x) == before + [x.board];
  }

  /** A node linked to a chained parent, one move further, on one of its neighbours, is chained too. */
  lemma ChildChains(parent: Node, root: Board, child: Node)
    requires ChainFrom(parent, root)
    requires child.previous == Some(parent) && child.moves == parent.moves + 1
    requires child.board in Neighbors(parent.board)
    ensures ChainFrom(child, root)
  {
    NeighborsAreSlides(parent.board, child.board);
  }
}
