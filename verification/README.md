# 8-puzzle board and A* solver, modelled in Dafny

This project models the core of a sliding-tile ("8-puzzle", n-by-n) solver written in
Java. It covers the two classes that do the work:

- `Board` is an immutable n-by-n grid of tile labels. It is stored row-major in a
  `char[]`, and the index of the blank (label 0) is cached. It provides the Hamming and
  Manhattan scores, the goal test, value equality, the neighbours (every board one
  slide away, tried in the order up, right, down, left) and the twin (two fixed
  non-blank tiles exchanged).
- `Solver` runs two A* searches in lock-step: one from the board and one from its
  twin. Each search (a *lane*) has a priority queue of search nodes ordered by
  Manhattan score plus moves, and a set of boards it has already expanded. A round
  does four things:
  1. It expands the main lane's least node and records that node's board.
  2. It stops as solvable when that board is the goal.
  3. It stops as unsolvable when the twin lane's least node is the goal.
  4. Otherwise it expands the twin lane.

Modules, one per file:

| file | module | contents |
|---|---|---|
| `wrappers.dfy` | `Wrappers` | `Option`, `Result` and the Java exceptions as an `Error` datatype |
| `grid.dfy` | `Grid` | row, column and flat index of a cell, tied to Java's `/`, `%` and `row * n + col` |
| `board.dfy` | `Boards` | the board, the constructor, `getDoubleArray`, `equals` |
| `heuristics.dfy` | `Heuristics` | the goal layout, `hamming`, `manhattan`, `isGoal` |
| `moves.dfy` | `Moves` | slides and `neighbors` |
| `twin.dfy` | `Twins` | `twin` |
| `search_node.dfy` | `SearchNodes` | `SearchNode` and `compareTo`, and predecessor chains |
| `trace.dfy` | `Traces` | runs of a deterministic step function, used to describe the solver's loop |
| `solver.dfy` | `Solvers` | `doNextMove`, the two-lane loop of the `Solver` constructor |
| `findings.dfy` | `Findings` | `doNextMove` with the set lookup as the Java code performs it |

How Java behaviour is modelled:

- A Java exception is a `Failure`:
  - `ArrayIndexOutOfBoundsException` is `IndexOutOfBounds`.
  - `IllegalArgumentException` is `InvalidArgument`.
  - `MinPQ`'s `NoSuchElementException` is `NoSuchElement`.
- A `null` board is `None`.
- A `char` label is an `int` cut to 16 bits (`% 0x1_0000`).
- The `Solver` constructor loops until one lane reaches a goal. `Solvers.Solve` takes a
  round budget `fuel` instead, and returns `Failure(OutOfFuel)` when the budget runs
  out.

Where the documented behaviour and the code disagree, the model follows the code:

- The comment on `solution()` (`Solver.java:60`) promises "a shortest solution". The
  code records every board the main lane expands, in expansion order
  (`Solver.java:26`). So the recorded boards start at the initial board and end at the
  goal, but in general they are not a path of slides. The
  model records the expanded boards. Separately, `Solvers.Solve` guarantees, through
  `Solvers.SolvedFrom`, that a path of `moves()` slides leads from the initial board to
  the goal.
- The goal test is applied to the node the main lane has just removed. For the twin
  lane, the goal test looks at its least node before that lane is expanded
  (`Solver.java:25-35`).
- Each lane keeps a set of every expanded board, not just the predecessor. `Board` does
  not override `hashCode`, however. `HashSet` first compares identity hash codes, so it
  finds an equal board only when two equal boards happen to share an identity hash,
  which practically never happens (see Findings). The rest of the model uses the
  value-based set the code evidently intends.
- Each `SearchNode` stores its predecessor, but the code never reads it: the getter
  `getPreviousNode` (`Solver.java:114-116`) has no caller, and `solution()` is the
  queue of expanded boards. The model follows predecessor links only in the ghost
  `SearchNodes.ChainFrom` and `SearchNodes.Path`, to state what `moves()` counts.

## Model

| member | source | states |
|---|---|---|
| Grid.Row | src/main/java/Board.java:179-181 | `getRow`: flat cells below n lie in row 0, and a cell's row never exceeds its index (the exact `i / n` is `Grid.RowColAreDivMod`) |
| Grid.Col | src/main/java/Board.java:175-177 | `getColumn`: the column of every flat cell is below n (the exact `i % n` is `Grid.RowColAreDivMod`) |
| Grid.Index | src/main/java/Board.java:208-210 | `i(row, col)` is at least `col`, and at least n below row 0 (the exact `row * n + col` is `Grid.IndexIsProduct`) |
| Grid.RowBelow | src/main/java/Board.java:179-181 | a flat index below m*n lies in a row below m |
| Grid.RowColAreDivMod | src/main/java/Board.java:175-181 | the row and column of flat cell i are Java's `i / n` and `i % n` |
| Grid.IndexIsProduct | src/main/java/Board.java:208-210 | the flat index of (row, col) is `row * n + col` |
| Grid.IndexOfCell | src/main/java/Board.java:175-181 | splitting a flat index into row and column and joining them with `i(row, col)` gives the index back |
| Grid.CellOfIndex | src/main/java/Board.java:208-210 | joining a row and an in-range column and splitting them again gives the same row and column |
| Grid.RowInRange | src/main/java/Board.java:179-181 | every flat index below n*n lies in a row below n |
| Grid.IndexInRange | src/main/java/Board.java:208-210 | every in-range cell has a flat index below n*n, so `tiles[i(row, col)]` stays in bounds |
| Grid.SameCell | src/main/java/Board.java:175-181 | two flat cells with the same row and column are the same cell |
| Boards.FirstZero | src/main/java/Board.java:20-26 | the blank scan stops at a cell holding 0 with no 0 before it, or runs off the end when there is no 0 |
| Boards.FromTiles | src/main/java/Board.java:20-27 | the board built on a tile array keeps exactly those tiles and that dimension, with its blank cached by the scan |
| Boards.Create | src/main/java/Board.java:15-28 | a grid with a short row fails as out of bounds; a grid with no cell stored as 0 fails as an illegal argument; otherwise the board is the row-major copy cut to `char`, with its blank at the first 0 |
| Boards.Flatten | src/main/java/Board.java:197-206 | `flatCopy` gives an array of n*n cells, every one a `char` value |
| Boards.FlattenCopied | src/main/java/Board.java:197-206 | `flatCopy` puts cell (row, col) at `row * n + col`, cut to `char` |
| Boards.ToGrid | src/main/java/Board.java:155-163 | `getDoubleArray` is an n-by-n grid whose cell (row, col) is the tile at `i(row, col)` |
| Boards.SetCell | src/main/java/Board.java:123-125 | one array store `grid[row][col] = v` changes that cell and no other |
| Boards.GridOfUpdate | src/main/java/Board.java:155-163 | a store into cell (row, col) of a board's grid is a store into flat cell row*n+col of its tiles |
| Boards.CreateOfGrid | src/main/java/Board.java:185-187 | building a board from a grid copy of valid tiles gives the board with exactly those tiles, the route every neighbour and twin takes |
| Boards.CreateToGrid | src/main/java/Board.java:155-163 | constructing a board from a board's own grid gives that board back |
| Boards.ToGridCreate | src/main/java/Board.java:15-28 | a square grid of `char` labels with a blank succeeds and reads back unchanged |
| Boards.Equals | src/main/java/Board.java:88-94 | comparing the flat tile arrays is exactly equality of the boards as values, and `equals(null)` is false |
| Boards.EqualsIsEquivalence | src/main/java/Board.java:88-94 | `equals` is reflexive, symmetric and transitive, and never holds for null |
| Boards.PermutationHasSingleBlank | src/main/java/Board.java:20-26 | on a board whose labels are 0 .. n*n-1, the cached blank is the only 0 |
| Heuristics.Expected | src/main/java/Board.java:169-173 | `getExpected` gives a label below n*n on the board, and a non-blank expected label v names its own cell: v-1 splits back into (row, col) |
| Heuristics.Misplaced | src/main/java/Board.java:53-54 | a cell counts as misplaced exactly when it holds a non-blank label that differs from the goal layout's label for that cell |
| Heuristics.ExpectedIsGoal | src/main/java/Board.java:169-173 | the expected label at flat cell i is the goal layout's: i+1, and 0 in the last cell |
| Heuristics.GoalCellOfLabel | src/main/java/Board.java:67-68 | label v's goal cell is (row (v-1)/n, column (v-1)%n), the cell `manhattan` measures to |
| Heuristics.HammingUpTo | src/main/java/Board.java:50-56 | the running Hamming count over the first k cells is at most k, and below k once the blank lies among them |
| Heuristics.HammingUpToCounts | src/main/java/Board.java:51-56 | the running count over the first k cells is the number of misplaced non-blank tiles among them |
| Heuristics.Hamming | src/main/java/Board.java:49-58 | the Hamming score is at most n*n-1, since the blank is never counted |
| Heuristics.HammingCountsMisplaced | src/main/java/Board.java:49-58 | the Hamming score is the size of the set of cells holding a misplaced non-blank tile |
| Heuristics.Distance | src/main/java/Board.java:67-69 | a tile's grid distance to the goal cell of label v is 0 only when it already sits in that cell |
| Heuristics.MisplacedIsAway | src/main/java/Board.java:66-69 | a misplaced tile with an in-range label adds at least 1 to the Manhattan score |
| Heuristics.ManhattanUpTo | src/main/java/Board.java:63-72 | the partial Manhattan sum is 0 when no tile is misplaced, and with in-range labels it is never below the partial Hamming count |
| Heuristics.Manhattan | src/main/java/Board.java:61-74 | Manhattan is 0 when Hamming is 0, and with in-range labels Manhattan >= Hamming |
| Heuristics.IsGoal | src/main/java/Board.java:77-84 | the goal test holds exactly when the tiles are the goal layout 1 .. n*n-1, 0 |
| Heuristics.GoalIsExpectedEverywhere | src/main/java/Board.java:165-167 | the cell-by-cell `isNotInPlace` test agrees with comparing the whole goal layout |
| Heuristics.GoalScoresZero | src/main/java/Board.java:49-84 | the goal board has Hamming and Manhattan score 0 |
| Heuristics.ZeroHammingIsGoal | src/main/java/Board.java:49-58 | with a single blank, a Hamming score of 0 means the board is the goal |
| Heuristics.ZeroHammingNoneMisplaced | src/main/java/Board.java:53-54 | a Hamming score of 0 leaves no non-blank tile out of place |
| Heuristics.GoalIffZeroScores | src/main/java/Board.java:49-84 | on a permutation board: goal <=> Hamming 0 <=> Manhattan 0, and Hamming <= Manhattan |
| Moves.Slide | src/main/java/Board.java:191-195 | the tile at cell k moves into the blank's cell, cell k becomes 0, and no other cell changes |
| Moves.CellIfOnBoard | src/main/java/Board.java:183-184 | `addNeighbor` yields one cell exactly when (row, col) passes its bounds test, and none otherwise |
| Moves.MoveCells | src/main/java/Board.java:101-104 | `neighbors` tries at most four cells from the blank (which ones, and in what order, is `Moves.MoveCellsAreAdjacent` and `Moves.MoveCellsInOrder`) |
| Moves.MoveCellsAreAdjacent | src/main/java/Board.java:183-184 | a cell is tried from (row, col) exactly when it is on the board and shares a side with (row, col) |
| Moves.MoveCellsOnlyAdjacent | src/main/java/Board.java:101-104 | every tried cell is on the board and at grid distance 1 |
| Moves.AdjacentInMoveCells | src/main/java/Board.java:101-104 | every on-board cell at grid distance 1 is tried |
| Moves.BlankRow | src/main/java/Board.java:99 | the blank's row, `getRow(blank)`, is a row of the board |
| Moves.BlankCol | src/main/java/Board.java:100 | the blank's column, `getColumn(blank)`, is a column of the board |
| Moves.Neighbors | src/main/java/Board.java:97-106 | `neighbors` gives one board per tried cell, in the same order, each the board with that cell's tile slid into the blank |
| Moves.BlankMovesSlide | src/main/java/Board.java:183-187 | sliding each tried cell gives a board one slide away through that cell |
| Moves.SlideThroughGrid | src/main/java/Board.java:183-195 | `moveToBlank` on a grid copy followed by the constructor gives exactly `Slide` of the cell |
| Moves.BlankMovesAreAdjacent | src/main/java/Board.java:97-106 | the cells `neighbors` slides from are exactly the cells next to the blank |
| Moves.SlideIsSlidFrom | src/main/java/Board.java:183-195 | sliding a tile next to the blank gives a board one slide away |
| Moves.SlidFromIsSlide | src/main/java/Board.java:191-195 | a board one slide away through cell k is the slide of cell k |
| Moves.NeighborsAreSlides | src/main/java/Board.java:97-106 | a board is among the neighbours exactly when it is one slide away |
| Moves.MoveCellsCount | src/main/java/Board.java:101-104 | the number of tried cells is the number of the four sides of (row, col) that lie inside the board |
| Moves.NeighborCount | src/main/java/Board.java:97-106 | n=1 has no neighbours; otherwise 2 to 4, with 4 exactly for an interior blank and 2 exactly for a corner blank |
| Moves.SlideMovesBlank | src/main/java/Board.java:186-187 | with a single blank, after sliding cell k the only blank is k |
| Moves.SlideIsReversible | src/main/java/Board.java:191-195 | with a single blank, each neighbour has the original board as one of its own neighbours |
| Moves.MoveCellsInOrder | src/main/java/Board.java:101-104 | cells are tried in the order up, right, down, left |
| Moves.NeighborsInOrder | src/main/java/Board.java:97-106 | the neighbours' blanks lie on strictly increasing sides of the original blank: up, right, down, left |
| Twins.FirstTwinCell | src/main/java/Board.java:111-118 | the first exchanged cell is (0, 0), or (1, 1) when (0, 0) holds the blank; `Twins.TwinCellsOnBoard` and `Twins.TwinCellsAreTiles` state its properties |
| Twins.SecondTwinCell | src/main/java/Board.java:111-122 | the second exchanged cell is (0, 1), or (1, 0) when (0, 1) holds the blank; same lemmas |
| Twins.Swap | src/main/java/Board.java:123-125 | exchanging two cells keeps the array length (the labels kept are `Twins.SwapKeepsLabels`) |
| Twins.TwinCellsOnBoard | src/main/java/Board.java:111-122 | for n >= 2 the two exchanged cells are distinct cells of the board |
| Twins.SwapKeepsLabels | src/main/java/Board.java:123-125 | exchanging two cells keeps the multiset of labels |
| Twins.Twin | src/main/java/Board.java:109-127 | `twin` fails with an out-of-bounds error exactly when n < 2, and otherwise keeps the dimension |
| Twins.TwinExchangesTwoCells | src/main/java/Board.java:115-126 | the twin differs from the board in exactly two distinct cells, whose labels it exchanges |
| Twins.TwinCellsAreTiles | src/main/java/Board.java:115-122 | with a single blank, neither exchanged cell holds the blank |
| Twins.TwinKeepsBlank | src/main/java/Board.java:109-127 | with a single blank, the twin has the same single blank |
| Twins.TwinOfPermutation | src/main/java/Board.java:109-127 | the twin of a permutation board is a permutation board different from it |
| Twins.TwinInvolution | src/main/java/Board.java:109-127 | with a single blank, the twin of the twin is the original board |
| Twins.TwinThroughGrid | src/main/java/Board.java:109-127 | the swap on a grid copy followed by the constructor, in Java's order of stores, gives exactly `Twin` |
| SearchNodes.NewNode | src/main/java/Solver.java:97-103 | a new node stores its board, moves and predecessor, and caches the board's own Hamming and Manhattan scores |
| SearchNodes.Priority | src/main/java/Solver.java:107 | the value `compareTo` orders by, Manhattan plus moves; `SearchNodes.PriorityOfCached` and `SearchNodes.CompareIsPriorityOrder` state its properties |
| SearchNodes.Compare | src/main/java/Solver.java:105-108 | `compareTo` answers -1, 0 or 1 |
| SearchNodes.CompareIsPriorityOrder | src/main/java/Solver.java:105-108 | the sign of `compareTo` is the order of Manhattan plus moves, whatever the boards |
| SearchNodes.CompareIsTotalPreorder | src/main/java/Solver.java:105-108 | `compareTo` is reflexive, antisymmetric and transitive |
| SearchNodes.PriorityOfCached | src/main/java/Solver.java:97-108 | a node's priority is at least its moves, and on a permutation board it equals them exactly at the goal |
| SearchNodes.PathOfChain | src/main/java/Solver.java:45 | following predecessor links from a node gives a path of `moves` slides from the start board |
| SearchNodes.ChildChains | src/main/java/Solver.java:43-45 | a node built for a neighbour, one move further, extends its parent's chain of slides |
| Solvers.MinIndex | src/main/java/Solver.java:41 | `delMin` takes a node of least priority, the leftmost such node |
| Solvers.RemoveAt | src/main/java/Solver.java:41 | removing the least node takes exactly that node out of the queue |
| Solvers.Unvisited | src/main/java/Solver.java:43-44 | the neighbours kept are neighbours that are not in the set, and each board that is not in the set is kept as often as it occurs among the neighbours |
| Solvers.UnvisitedCovers | src/main/java/Solver.java:43-44 | every neighbour that is not in the set is kept |
| Solvers.Children | src/main/java/Solver.java:43-46 | one child per neighbour that is not in the set, in the neighbours' order, each one move further and linked to its parent |
| Solvers.ChildrenCoverUnvisited | src/main/java/Solver.java:43-46 | every neighbour that is not in the set gets a child |
| Solvers.DoNextMove | src/main/java/Solver.java:40-48 | an empty queue fails; otherwise the removed node has least priority, its board joins the set, and the queue loses that node and gains its new children |
| Solvers.NoVisitedBoardQueued | src/main/java/Solver.java:42-45 | no node added by an expansion holds an expanded board |
| Solvers.StartLane | src/main/java/Solver.java:18-23 | a lane starts with one node on its start board at 0 moves and an empty set |
| Solvers.StartLaneInvariant | src/main/java/Solver.java:18-23 | before any expansion, every queued node is chained to the lane's start board |
| Solvers.DoNextMoveKeepsInvariant | src/main/java/Solver.java:40-48 | expanding a lane keeps every queued node chained to the start board, with moves bounded by the number of expansions |
| Solvers.ChildKeepsInvariant | src/main/java/Solver.java:45 | a queued child is cached, chained to the start board, and one move further than its parent |
| Solvers.QueuedAfterStep | src/main/java/Solver.java:41-46 | after an expansion the queue holds only the nodes it held before and the new children |
| Solvers.RecordOneMore | src/main/java/Solver.java:26 | recording a reachable non-goal board keeps the recorded boards reachable and goal-free |
| Solvers.RoundKeepsInvariant | src/main/java/Solver.java:24-37 | a round without a goal keeps both lanes chained to their starts and the recorded boards reachable and goal-free |
| Solvers.StartLaneStep | src/main/java/Solver.java:19-25 | the first expansion of a lane returns its start node |
| Solvers.SolvedAtGoal | src/main/java/Solver.java:25-31 | stopping at a main-lane goal gives recorded boards that start at the initial board and end at the first goal among them, and a move count that is the length of a path of slides to that goal |
| Solvers.ChainHasPath | src/main/java/Solver.java:28 | a chained node's move count is the number of slides of a path from the start board to its board |
| Solvers.RecordLast | src/main/java/Solver.java:26-27 | recording a reachable board keeps every recorded board reachable, with none but the last a goal |
| Solvers.TwinGoalReached | src/main/java/Solver.java:32-35 | when the twin lane's least node is a goal, a goal is reachable by slides from the twin |
| Traces.TraceStep | src/main/java/Solver.java:24-37 | step i of a run leaves state i with label i and arrives at state i+1 |
| Traces.TraceExtend | src/main/java/Solver.java:24-37 | a run goes on by one step from its last state |
| Traces.TracesAgree | src/main/java/Solver.java:24-37 | two runs of a deterministic step from the same state agree on every step both took |
| Traces.StoppedTracesAgree | src/main/java/Solver.java:24-37 | two runs from the same state that both end where the step stops are the same run |
| Solvers.BoardsOf | src/main/java/Solver.java:26 | the recorded boards are the expanded nodes' boards, one each, in order |
| Solvers.BoardsOfAppend | src/main/java/Solver.java:26 | recording one more node appends its board |
| Solvers.NextRound | src/main/java/Solver.java:24-37 | one round that goes on: the main lane expands a non-goal node, the twin lane's least node is not a goal, and the twin lane is expanded (`Solvers.FinalRoundStops`, `Solvers.StuckRoundStops` and `Solvers.HaltedRoundStops` relate it to the other rounds) |
| Solvers.FinalRound | src/main/java/Solver.java:25-35 | the round that stops: on a main-lane goal with every expanded main board recorded, or on a twin-lane goal with nothing recorded |
| Solvers.Ran | src/main/java/Solver.java:24-37 | some run of rounds from the start lanes of a board and its twin ends in a stopping round with this outcome (`Solvers.RanIsDeterministic`) |
| Solvers.StuckRound | src/main/java/Solver.java:24-41 | a round that throws `NoSuchElementException`: the main queue is empty, or its node is not a goal and the twin queue is empty at `min()` |
| Solvers.Stuck | src/main/java/Solver.java:24-37 | some run of rounds from the start lanes reaches a round that throws |
| Solvers.GoesOnFor | src/main/java/Solver.java:24-37 | some run from the start lanes goes on for the given number of rounds |
| Solvers.StuckRoundStops | src/main/java/Solver.java:24-41 | a round that throws neither goes on nor stops with an outcome |
| Solvers.HaltedRoundStops | src/main/java/Solver.java:24-37 | a round that neither goes on nor throws has a goal as the main node or as the twin lane's least node, the two ways the loop breaks |
| Solvers.StuckIsNotRan | src/main/java/Solver.java:24-37 | a search that reaches a throwing round has no outcome |
| Solvers.FinalRoundStops | src/main/java/Solver.java:27-35 | a round that stops on a main-lane goal or a twin-lane goal is not a round that goes on |
| Solvers.RanIsDeterministic | src/main/java/Solver.java:24-37 | the lock-step search from a board and its twin stops with a single outcome |
| Solvers.LoopStarts | src/main/java/Solver.java:18-23 | before the first round, both lanes are start lanes, nothing is recorded and no round has run |
| Solvers.MainGoalStops | src/main/java/Solver.java:25-31 | a round whose main node is a goal stops with every expanded main board recorded, the goal last; the outcome meets `SolvedFrom` and is the one the search runs to |
| Solvers.TwinGoalStops | src/main/java/Solver.java:32-35 | a round that stops on the twin lane's least node stops as unsolvable, with a goal reachable from the twin |
| Solvers.RoundGoesOn | src/main/java/Solver.java:24-37 | a round without a goal expands the twin lane, records the main board, and extends the run of rounds |
| Solvers.StuckAt | src/main/java/Solver.java:24-41 | a throwing round reached by the loop makes the search `Stuck` |
| Solvers.GoesOnAt | src/main/java/Solver.java:24-37 | the rounds the loop has run witness that the search goes on that long |
| Solvers.RunRounds | src/main/java/Solver.java:24-37 | the loop on a board and its twin: a success is the outcome of the run of rounds, meets `SolvedFrom` when solvable, and has moves 0, no boards and a goal reachable from the twin when unsolvable; `NoSuchElement` only when the search is `Stuck`; `OutOfFuel` only after `fuel` rounds that go on |
| Solvers.Solve | src/main/java/Solver.java:16-38 | a null board fails as an illegal argument; n = 1 fails as out of bounds; every answer is the outcome of the run of rounds (`Ran`): the recorded boards are every main-lane board expanded, in expansion order, and an unsolvable stop happens exactly when the twin lane's least node is a goal; a solvable answer meets `SolvedFrom`; an unsolvable answer has moves 0, no boards, and a goal reachable from the twin; a goal board is solved in 0 moves; a non-goal board whose twin is the goal is unsolvable; `NoSuchElement` means the search from the board and its twin is `Stuck`, and `OutOfFuel` means it goes on for `fuel` rounds |
| Findings.DoNextMoveAsWritten | src/main/java/Solver.java:40-48 | with the Java set lookup and no identity-hash collision, the removed node has least priority and every neighbour is queued, expanded or not |
| Findings.AsWrittenRequeuesParent | src/main/java/Solver.java:42-45 | as written, expanding a board one slide from an expanded board queues the expanded board again |
| Findings.CorrectedSkipsParent | src/main/java/Solver.java:42-45 | with value lookup, no newly queued node holds an expanded board |
| Findings.AsWrittenQueuesEveryNeighbor | src/main/java/Solver.java:42-45 | as written, every neighbour of the expanded board gets a queued node |
| Findings.AsWrittenFrontier | src/main/java/Solver.java:41-46 | as written, the queue after an expansion is the queue without the removed node, followed by a child for every neighbour |
| Findings.AsWrittenStartQueue | src/main/java/Solver.java:40-48 | as written, the first expansion puts the start board in the set and queues one child per neighbour of it |
| Findings.AsWrittenFirstStep | src/main/java/Solver.java:40-48 | after the first expansion, the start board is in the set and the least queued node is one slide from it |
| Findings.AsWrittenRequeuesStart | src/main/java/Solver.java:40-48 | as written, every search on a board with a single blank and n >= 2 queues its start board again on the second expansion |
| Findings.RequeueOnTwoByTwo | src/main/java/Solver.java:40-48 | from [[1, 2], [0, 3]], the second as-written expansion re-queues the start board, which the first expansion put in the set |

## Left out

- `Board.toString`, `Board.dimension()`, the two `main` methods and all file and console
  I/O are not modelled: they are display and entry-point code.
- The getters of `SearchNode` and the accessors `isSolvable()`, `moves()` and `solution()`
  are the fields of `Solvers.Outcome`.
- Boards.Create: does not model the integer wrap-arounds of very large grids. The model
  is exact for n <= 255, where every flat index is below 65535 and so fits in a `char`
  without meeting the sentinel. Beyond that the Java
  code wraps in three places, and the model returns a board in each case:
  - `blank` is a `char`, so a first 0 at flat index 65535 or later is cut, and at 65535
    it equals the sentinel `(char) -1` and the constructor throws. With n = 256 the last
    cell has index 65535, so a board whose only 0 is in its last cell (the goal layout
    among them) already throws there.
  - `flatCopy` allocates `new char[n * n]`, and the `int` product overflows from
    n = 46341, where Java throws `NegativeArraySizeException` (or an out-of-bounds
    error once the product wraps to a small value).
  - `dimension` is a `char`, cut for n >= 65536.
- A grid with a `null` row is not modelled.
- Heuristics.Expected: does not cut `n * row + col + 1` to a `char`. For n > 256, labels
  of 65536 and above wrap in Java, and the goal test and scores then differ. The model
  compares against the unwrapped label.
- Heuristics.Manhattan: does not model the 32-bit wrap-around of the `int` sum. On a
  permutation board (labels 0 .. n*n-1 held in `char`s, so n <= 256) the sum is at most
  (n*n-1) * 2(n-1), well below 2^31, so it cannot wrap there. The constructor accepts
  any `char` labels, though. A board of 1s with a single 0 sums to about n*n*(n-1),
  which passes 2^31-1 from n = 1291. Java's wrapped value then reaches `compareTo`
  (`Solver.java:107`); the model's unbounded sum does not follow it.
- SearchNodes.Compare: does not model the `int` wrap-around of `manhattan + moves`.
- Solvers.Solve: bounded by `fuel` rounds instead of looping until a lane stops. With
  `OutOfFuel` it promises only that the search goes on for `fuel` rounds, not what it
  would do after them.
- Solvers.Solve: does not prove that the search ends on every board, that `moves()` is
  the least number of slides (A* optimality), or that exactly one lane reaches a goal
  (the parity argument).
- Solvers.MinIndex: `MinPQ` is a binary heap whose choice among nodes of equal priority
  depends on its history. The model takes the leftmost least node in insertion order.
  Every contract about an expansion holds for any least node. The exact boards
  recorded can differ between tie-breaking rules.
- Solvers.DoNextMove: uses a set compared by value. The Java `HashSet` practically
  never finds an equal board, because `hashCode` is not overridden and identity hashes
  of distinct objects rarely collide. That as-written behaviour is modelled only in
  `Findings`, for the case without a collision.
- The cached Hamming score of a search node is stored but never read by the search.
  The model keeps it only for `SearchNodes.PriorityOfCached`.

## Findings

| source | as written | input that shows it | evidently intended | confidence | as-written member | corrected member |
|---|---|---|---|---|---|---|
| src/main/java/Solver.java:42-45 | `Board` overrides `equals` (`Board.java:88-94`) but not `hashCode`. The `HashSet` of expanded boards compares identity hash codes before it calls `equals`. Every neighbour is a new object, so `contains` succeeds only on an identity-hash collision, which practically never happens, and practically no neighbour is skipped. The as-written member models the case without a collision. | Any board with n >= 2, such as the 2x2 board [[1, 2], [0, 3]]. The first expansion puts the start board in the set. The second expansion, of the least child, queues the start board again, although it is in the set. | Skip every neighbour equal in value to an expanded board. | not executed | Findings.DoNextMoveAsWritten, Findings.AsWrittenRequeuesParent, Findings.AsWrittenRequeuesStart, Findings.RequeueOnTwoByTwo | Solvers.DoNextMove, Solvers.NoVisitedBoardQueued, Findings.CorrectedSkipsParent |
