/**
  The solver: two A* lanes, one from the board and one from its twin, advanced in
  lock-step until one of them reaches the goal.
 */
module Solvers {
  import opened Wrappers
  import opened Boards
  import opened Heuristics
  import opened Moves
  import opened Twins
  import opened SearchNodes
  import opened Traces

  /** One A* lane: the priority queue's nodes, in insertion order, and the boards already expanded. */
  datatype Lane = Lane(frontier: seq<Node>, visited: set<Board>)

  /** The node a delete-min returns and the lane after it. */
  datatype Step = Step(node: Node, lane: Lane)

  /** What the solver reports: isSolvable, moves and solution. */
  datatype Outcome = Outcome(solvable: bool, moves: nat, solution: seq<Board>)

  /** `x` has the least priority among the nodes of `f`. */
  predicate IsMin(x: Node, f: seq<Node>)
  {
    forall j :: 0 <= j < |f| ==> Priority(x) <= Priority(f[j])
  }

  /** The index of the leftmost node of least priority (MinPQ.min / delMin's choice). */
  function MinIndex(f: seq<Node>): (k: nat)
    requires |f| > 0
    ensures k < |f| && IsMin(f[k], f)
    ensures forall j :: 0 <= j < k ==> Priority(f[j]) > Priority(f[k])
  {
    if |f| == 1 then 0
    else
      var prefix := f[..|f| - 1];
      var k := MinIndex(prefix);
      assert forall j :: 0 <= j < |prefix| ==> prefix[j] == f[j];
      if Priority(f[|f| - 1]) < Priority(f[k]) then |f| - 1 else k
  }

  /** The frontier without the node at index k. */
  function RemoveAt(f: seq<Node>, k: nat): (r: seq<Node>)
    requires k < |f|
    ensures |r| == |f| - 1
    ensures multiset(r) + multiset{f[k]} == multiset(f)
  {
    assert f == f[..k] + [f[k]] + f[k + 1..];
    f[..k] + f[k + 1..]
  }

  /** The boards of `boards` not in `visited`, in order: those doNextMove does not skip. */
  function Unvisited(boards: seq<Board>, visited: set<Board>): (r: seq<Board>)
    ensures forall j :: 0 <= j < |r| ==> r[j] in boards && r[j] !in visited
    ensures forall b :: multiset(r)[b] == if b in visited then 0 else multiset(boards)[b]
    decreases |boards|
  {
    assert boards != [] ==> boards == [boards[0]] + boards[1..];
    if boards == [] then []
    else if boards[0] in visited then Unvisited(boards[1..], visited)
    else [boards[0]] + Unvisited(boards[1..], visited)
  }

  /** Every board not yet visited is kept. */
  lemma {:induction false} UnvisitedCovers(boards: seq<Board>, visited: set<Board>, b: Board)
    requires b in boards && b !in visited
    ensures b in Unvisited(boards, visited)
    decreases |boards|
  {
    if boards[0] != b {
      UnvisitedCovers(boards[1..], visited, b);
    }
  }

  /**
    The loop of doNextMove over the neighbours: one node per board not yet visited, in
    the neighbours' order, each one move further than the parent and linked to it.
   */
  function Children(parent: Node, boards: seq<Board>, visited: set<Board>): (r: seq<Node>)
    ensures |r| == |Unvisited(boards, visited)|
    ensures forall j :: 0 <= j < |r| ==> r[j].board == Unvisited(boards, visited)[j]
    ensures forall j :: 0 <= j < |r| ==>
      && r[j].board in boards && r[j].board !in visited
      && r[j].moves == parent.moves + 1 && r[j].previous == Some(parent)
  {
    var kept := Unvisited(boards, visited);
    seq(|kept|, j requires 0 <= j < |kept| => NewNode(kept[j], parent.moves + 1, Some(parent)))
  }

  /** Every neighbour not yet visited gets a child node. */
  lemma ChildrenCoverUnvisited(parent: Node, boards: seq<Board>, visited: set<Board>, b: Board)
    requires b in boards && b !in visited
    ensures exists j :: 0 <= j < |Children(parent, boards, visited)| && Children(parent, boards, visited)[j].board == b
  {
    UnvisitedCovers(boards, visited, b);
    var kept := Unvisited(boards, visited);
    var j :| 0 <= j < |kept| && kept[j] == b;
    assert Children(parent, boards, visited)[j].board == b;
  }

  /**
    Solver.doNextMove: removes a least-priority node, marks its board visited and
    queues a child for every neighbour not yet visited; an empty queue fails as
    MinPQ.delMin does.
   */
  function DoNextMove(lane: Lane): (r: Result<Step, Error>)
    ensures |lane.frontier| == 0 <==> r == Failure(NoSuchElement)
    ensures r.Success? ==>
      var x, next := r.value.node, r.value.lane;
      && x in lane.frontier && IsMin(x, lane.frontier)
      && next.visited == lane.visited + {x.board}
      && multiset(next.frontier) ==
         multiset(lane.frontier) - multiset{x} + multiset(Children(x, Neighbors(x.board), next.visited))
  {
    if |lane.frontier| == 0 then Failure(NoSuchElement)
    else
      var k := MinIndex(lane.frontier);
      var x := lane.frontier[k];
      var visited := lane.visited + {x.board};
      var rest := RemoveAt(lane.frontier, k);
      Success(Step(x, Lane(rest + Children(x, Neighbors(x.board), visited), visited)))
  }

  /** A freshly expanded lane never queues a board it has already expanded. */
  lemma NoVisitedBoardQueued(lane: Lane)
    requires |lane.frontier| > 0
    ensures var s := DoNextMove(lane).value;
      forall y :: y in s.lane.frontier && y !in lane.frontier ==> y.board !in s.lane.visited
  {
    var s := DoNextMove(lane).value;
    var kids := Children(s.node, Neighbors(s.node.board), s.lane.visited);
    forall y | y in s.lane.frontier && y !in lane.frontier
      ensures y.board !in s.lane.visited
    {
      QueuedAfterStep(lane, y);
      var j :| 0 <= j < |kids| && kids[j] == y;
    }
  }

  /** The lane a search from `board` starts with: one start node, nothing visited. */
  function StartLane(board: Board): (lane: Lane)
    ensures |lane.frontier| == 1 && lane.frontier[0].board == board && lane.frontier[0].moves == 0
    ensures lane.visited == {}
  {
    Lane([NewNode(board, 0, None)], {})
  }

  /**
    What every node a lane holds satisfies: a chain of slides back to the lane's root
    and no more moves than `expansions`.
   */
  ghost predicate LaneInvariant(lane: Lane, root: Board, expansions: nat)
  {
    forall x :: x in lane.frontier ==> ChainFrom(x, root) && x.moves <= expansions
  }

  /** A start lane satisfies the invariant before any expansion. */
  lemma StartLaneInvariant(board: Board)
    ensures LaneInvariant(StartLane(board), board, 0)
  {
  }

  /**
    Expanding a lane keeps the invariant, with one more expansion, and the node it
    returns is chained to the root.
   */
  lemma DoNextMoveKeepsInvariant(lane: Lane, root: Board, expansions: nat)
    requires LaneInvariant(lane, root, expansions)
    requires |lane.frontier| > 0
    ensures var s := DoNextMove(lane).value;
      && LaneInvariant(s.lane, root, expansions + 1)
      && ChainFrom(s.node, root) && s.node.moves <= expansions
  {
    var s := DoNextMove(lane).value;
    forall y | y in s.lane.frontier
      ensures ChainFrom(y, root) && y.moves <= expansions + 1
    {
      QueuedAfterStep(lane, y);
      if y !in lane.frontier {
        ChildKeepsInvariant(s.node, Neighbors(s.node.board), s.lane.visited, root, y);
      }
    }
  }

  /** A child of a chained node is cached and chained, one move further than its parent. */
  lemma ChildKeepsInvariant(parent: Node, boards: seq<Board>, visited: set<Board>, root: Board, y: Node)
    requires ChainFrom(parent, root)
    requires boards == Neighbors(parent.board)
    requires y in Children(parent, boards, visited)
    ensures Cached(y) && ChainFrom(y, root) && y.moves == parent.moves + 1
  {
    var kids := Children(parent, boards, visited);
    var j :| 0 <= j < |kids| && kids[j] == y;
    ChildChains(parent, root, y);
  }

  /** After an expansion the queue holds only nodes it held before and the new children. */
  lemma QueuedAfterStep(lane: Lane, y: Node)
    requires |lane.frontier| > 0
    ensures var s := DoNextMove(lane).value;
      y in s.lane.frontier ==>
        y in lane.frontier || y in Children(s.node, Neighbors(s.node.board), s.lane.visited)
  {
    var s := DoNextMove(lane).value;
    if y in s.lane.frontier {
      assert multiset(s.lane.frontier)[y] > 0;
    }
  }

  /** Some node chained to `root` sits on `board`: the search can reach it from `root`. */
  ghost predicate Reached(root: Board, board: Board)
  {
    exists x :: ChainFrom(x, root) && x.board == board
  }

  /** No recorded board is a goal, and each is reachable from the start. */
  ghost predicate Recorded(solution: seq<Board>, start: Board)
  {
    forall i :: 0 <= i < |solution| ==> !IsGoal(solution[i]) && Reached(start, solution[i])
  }

  /** Recording one more board that is reachable and not a goal keeps `Recorded`. */
  lemma RecordOneMore(solution: seq<Board>, start: Board, b: Board)
    requires Recorded(solution, start) && !IsGoal(b) && Reached(start, b)
    ensures Recorded(solution + [b], start)
  {
    var expanded := solution + [b];
    forall i | 0 <= i < |expanded|
      ensures !IsGoal(expanded[i]) && Reached(start, expanded[i])
    {
      if i < |solution| {
        assert expanded[i] == solution[i];
      }
    }
  }

  /** What holds of the two lanes and the recorded boards at the start of every round. */
  ghost predicate RoundInvariant(main: Lane, twin: Lane, solution: seq<Board>, start: Board, twinStart: Board)
  {
    && LaneInvariant(main, start, |solution|)
    && LaneInvariant(twin, twinStart, |solution|)
    && Recorded(solution, start)
  }

  /**
    A round without a main-lane goal keeps the invariant, with the expanded board
    recorded, in both lanes after one expansion each.
   */
  lemma RoundKeepsInvariant(main: Lane, twin: Lane, solution: seq<Board>, start: Board, twinStart: Board)
    requires RoundInvariant(main, twin, solution, start, twinStart)
    requires |main.frontier| > 0 && |twin.frontier| > 0
    requires !IsGoal(DoNextMove(main).value.node.board)
    ensures var s := DoNextMove(main).value;
      RoundInvariant(s.lane, DoNextMove(twin).value.lane, solution + [s.node.board], start, twinStart)
  {
    var s := DoNextMove(main).value;
    DoNextMoveKeepsInvariant(main, start, |solution|);
    DoNextMoveKeepsInvariant(twin, twinStart, |solution|);
    assert ChainFrom(s.node, start);
    RecordOneMore(solution, start, s.node.board);
  }

  /** Expanding a start lane returns its start node, the only node it holds. */
  lemma StartLaneStep(board: Board)
    ensures MinIndex(StartLane(board).frontier) == 0
    ensures DoNextMove(StartLane(board)).Success?
    ensures DoNextMove(StartLane(board)).value.node == NewNode(board, 0, None)
  {
  }

  /** `path` is a sequence of slides from its first board to its last. */
  ghost predicate SlidePath(path: seq<Board>)
  {
    forall i :: 0 < i < |path| ==> IsSlide(path[i - 1], path[i])
  }

  /**
    What a solvable outcome promises about `initial`: the recorded boards start at the
    initial board, each is reachable from it, the last is the first goal among them,
    and the move count is the number of slides of a path of slides from the initial
    board to that goal.
   */
  ghost predicate SolvedFrom(initial: Board, o: Outcome)
  {
    && |o.solution| >= 1 && o.solution[0] == initial
    && IsGoal(o.solution[|o.solution| - 1])
    && (forall i :: 0 <= i < |o.solution| - 1 ==> !IsGoal(o.solution[i]))
    && (forall i :: 0 <= i < |o.solution| ==> Reached(initial, o.solution[i]))
    && o.moves < |o.solution|
    && (exists path :: |path| == o.moves + 1 && path[0] == initial
          && path[|path| - 1] == o.solution[|o.solution| - 1] && SlidePath(path))
  }

  /**
    A round whose expanded main node is a goal ends with an outcome that meets
    `SolvedFrom`: its moves and its recorded boards.
   */
  lemma SolvedAtGoal(main: Lane, twin: Lane, solution: seq<Board>, start: Board, twinStart: Board)
    requires RoundInvariant(main, twin, solution, start, twinStart)
    requires |main.frontier| > 0 && IsGoal(DoNextMove(main).value.node.board)
    requires solution == [] ==> main == StartLane(start)
    requires solution != [] ==> solution[0] == start
    ensures var x := DoNextMove(main).value.node;
      SolvedFrom(start, Outcome(true, x.moves, solution + [x.board]))
  {
    var x := DoNextMove(main).value.node;
    DoNextMoveKeepsInvariant(main, start, |solution|);
    if solution == [] {
      StartLaneStep(start);
    }
    ChainHasPath(x, start);
    assert ChainFrom(x, start);
    RecordLast(solution, start, x.board);
  }

  /** A chained node's board is reached from the root by a path of x.moves slides. */
  lemma ChainHasPath(x: Node, root: Board)
    requires ChainFrom(x, root)
    ensures exists path ::
      |path| == x.moves + 1 && path[0] == root && path[|path| - 1] == x.board && SlidePath(path)
  {
    PathOfChain(x, root);
    assert SlidePath(Path(x));
  }

  /**
    Recording a reachable board after recorded ones gives boards all reachable, none
    a goal except perhaps the last.
   */
  lemma RecordLast(solution: seq<Board>, start: Board, b: Board)
    requires Recorded(solution, start) && Reached(start, b)
    ensures var recorded := solution + [b];
      && (forall i :: 0 <= i < |recorded| - 1 ==> !IsGoal(recorded[i]))
      && (forall i :: 0 <= i < |recorded| ==> Reached(start, recorded[i]))
  {
    var recorded := solution + [b];
    forall i | 0 <= i < |recorded|
      ensures Reached(start, recorded[i])
      ensures i < |recorded| - 1 ==> !IsGoal(recorded[i])
    {
      if i < |solution| {
        assert recorded[i] == solution[i];
      }
    }
  }

  /** A goal as the twin lane's least node is reachable from the twin. */
  lemma TwinGoalReached(twin: Lane, twinStart: Board, expansions: nat)
    requires LaneInvariant(twin, twinStart, expansions) && |twin.frontier| > 0
    requires IsGoal(twin.frontier[MinIndex(twin.frontier)].board)
    ensures exists x :: ChainFrom(x, twinStart) && IsGoal(x.board)
  {
    var y := twin.frontier[MinIndex(twin.frontier)];
    assert y in twin.frontier;
  }

  /** The boards of `nodes`, in order. */
  function BoardsOf(nodes: seq<Node>): (boards: seq<Board>)
    ensures |boards| == |nodes|
    ensures forall i :: 0 <= i < |nodes| ==> boards[i] == nodes[i].board
  {
    seq(|nodes|, i requires 0 <= i < |nodes| => nodes[i].board)
  }

  /** Recording one more node appends its board. */
  lemma BoardsOfAppend(nodes: seq<Node>, x: Node)
    ensures BoardsOf(nodes + [x]) == BoardsOf(nodes) + [x.board]
  {
    assert forall i :: 0 <= i < |nodes| ==> (nodes + [x])[i] == nodes[i];
  }

  /** The main and the twin lane between two rounds of the loop. */
  datatype Lanes = Lanes(main: Lane, twin: Lane)

  /**
    One round of the loop that goes on to the next: the main lane expands a node that is
    not a goal, the twin lane's least node is not a goal, and the twin lane is expanded.
    None when the round stops the loop (or throws).
   */
  function NextRound(l: Lanes): (r: Option<(Node, Lanes)>)
  {
    match DoNextMove(l.main)
    case Failure(_) => None
    case Success(s) =>
      if IsGoal(s.node.board) || |l.twin.frontier| == 0 || IsGoal(l.twin.frontier[MinIndex(l.twin.frontier)].board) then None
      else
        match DoNextMove(l.twin)
        case Failure(_) => None
        case Success(t) => Some((s.node, Lanes(s.lane, t.lane)))
  }

  /**
    The round that stops, after the rounds that expanded `nodes`: the main lane's node is
    a goal and every expanded main board is recorded, the goal last; or it is not, the
    twin lane's least node is a goal, and nothing is recorded.
   */
  predicate FinalRound(l: Lanes, nodes: seq<Node>, o: Outcome)
  {
    && DoNextMove(l.main).Success?
    && var x := DoNextMove(l.main).value.node;
       if IsGoal(x.board) then o == Outcome(true, x.moves, BoardsOf(nodes) + [x.board])
       else
         && |l.twin.frontier| > 0
         && IsGoal(l.twin.frontier[MinIndex(l.twin.frontier)].board)
         && o == Outcome(false, 0, [])
  }

  /**
    The lock-step search from `start` and its twin `twinStart` stops with outcome `o`:
    some run of rounds from the two start lanes, expanding `nodes` on the main lane,
    ends in a stopping round with that outcome.
   */
  ghost predicate Ran(start: Board, twinStart: Board, o: Outcome)
  {
    exists lanes: seq<Lanes>, nodes: seq<Node> ::
      && IsTrace(NextRound, lanes, nodes)
      && lanes[0] == Lanes(StartLane(start), StartLane(twinStart))
      && FinalRound(lanes[|nodes|], nodes, o)
  }

  /**
    A round that throws NoSuchElementException: the main lane's queue is empty, or its
    node is not a goal and the twin lane's queue is empty when `min` is asked of it.
   */
  predicate StuckRound(l: Lanes)
  {
    || DoNextMove(l.main).Failure?
    || (!IsGoal(DoNextMove(l.main).value.node.board) && |l.twin.frontier| == 0)
  }

  /** The lock-step search from `start` and `twinStart` reaches a round that throws. */
  ghost predicate Stuck(start: Board, twinStart: Board)
  {
    exists lanes: seq<Lanes>, nodes: seq<Node> ::
      && IsTrace(NextRound, lanes, nodes)
      && lanes[0] == Lanes(StartLane(start), StartLane(twinStart))
      && StuckRound(lanes[|nodes|])
  }

  /** The lock-step search from `start` and `twinStart` goes on for `rounds` rounds. */
  ghost predicate GoesOnFor(start: Board, twinStart: Board, rounds: nat)
  {
    exists lanes: seq<Lanes>, nodes: seq<Node> ::
      && IsTrace(NextRound, lanes, nodes)
      && lanes[0] == Lanes(StartLane(start), StartLane(twinStart))
      && |nodes| == rounds
  }

  /** A round that throws neither goes on nor stops with an outcome. */
  lemma StuckRoundStops(l: Lanes, nodes: seq<Node>, o: Outcome)
    requires StuckRound(l)
    ensures NextRound(l).None? && !FinalRound(l, nodes, o)
  {
  }

  /**
    Every round goes on, stops or throws: a round that neither goes on nor throws has a
    goal as the main lane's node or as the twin lane's least node, the two ways a
    `FinalRound` stops.
   */
  lemma HaltedRoundStops(l: Lanes)
    requires NextRound(l).None? && !StuckRound(l)
    ensures DoNextMove(l.main).Success?
    ensures !IsGoal(DoNextMove(l.main).value.node.board) ==>
      |l.twin.frontier| > 0 && IsGoal(l.twin.frontier[MinIndex(l.twin.frontier)].board)
  {
    if !IsGoal(DoNextMove(l.main).value.node.board) {
      assert DoNextMove(l.twin).Success?;
    }
  }

  /** A search that throws has no outcome. */
  lemma StuckIsNotRan(start: Board, twinStart: Board, o: Outcome)
    requires Stuck(start, twinStart)
    ensures !Ran(start, twinStart, o)
  {
    var lanes: seq<Lanes>, nodes: seq<Node> :|
      && IsTrace(NextRound, lanes, nodes)
      && lanes[0] == Lanes(StartLane(start), StartLane(twinStart))
      && StuckRound(lanes[|nodes|]);
    StuckRoundStops(lanes[|nodes|], nodes, o);
    if Ran(start, twinStart, o) {
      var lanes': seq<Lanes>, nodes': seq<Node> :|
        && IsTrace(NextRound, lanes', nodes')
        && lanes'[0] == Lanes(StartLane(start), StartLane(twinStart))
        && FinalRound(lanes'[|nodes'|], nodes', o);
      FinalRoundStops(lanes'[|nodes'|], nodes', o);
      StoppedTracesAgree(NextRound, lanes, nodes, lanes', nodes');
      StuckRoundStops(lanes[|nodes|], nodes', o);
    }
  }

  /** A stopping round is not a round that goes on. */
  lemma FinalRoundStops(l: Lanes, nodes: seq<Node>, o: Outcome)
    requires FinalRound(l, nodes, o)
    ensures NextRound(l).None?
  {
  }

  /** The search is deterministic: it stops with a single outcome. */
  lemma RanIsDeterministic(start: Board, twinStart: Board, o: Outcome, o': Outcome)
    requires Ran(start, twinStart, o) && Ran(start, twinStart, o')
    ensures o == o'
  {
    var lanes: seq<Lanes>, nodes: seq<Node> :|
      && IsTrace(NextRound, lanes, nodes)
      && lanes[0] == Lanes(StartLane(start), StartLane(twinStart))
      && FinalRound(lanes[|nodes|], nodes, o);
    var lanes': seq<Lanes>, nodes': seq<Node> :|
      && IsTrace(NextRound, lanes', nodes')
      && lanes'[0] == Lanes(StartLane(start), StartLane(twinStart))
      && FinalRound(lanes'[|nodes'|], nodes', o');
    FinalRoundStops(lanes[|nodes|], nodes, o);
    FinalRoundStops(lanes'[|nodes'|], nodes', o');
    StoppedTracesAgree(NextRound, lanes, nodes, lanes', nodes');
  }

  /**
    What holds at the start of every round of the loop: the lanes stay chained to their
    start boards, the recorded boards are the main nodes expanded so far, and the lanes
    are where the rounds so far have taken them; before the first round the lanes are
    the start lanes, and after it the first record is the start board and neither
    start board is a goal.
   */
  ghost predicate LoopState(start: Board, twinStart: Board, main: Lane, twin: Lane, solution: seq<Board>,
                            lanes: seq<Lanes>, nodes: seq<Node>)
  {
    && RoundInvariant(main, twin, solution, start, twinStart)
    && (solution == [] ==> main == StartLane(start) && twin == StartLane(twinStart))
    && (solution != [] ==> solution[0] == start && !IsGoal(start) && !IsGoal(twinStart))
    && IsTrace(NextRound, lanes, nodes) && lanes[0] == Lanes(StartLane(start), StartLane(twinStart))
    && lanes[|nodes|] == Lanes(main, twin) && solution == BoardsOf(nodes)
  }

  /** The loop state before the first round. */
  lemma LoopStarts(start: Board, twinStart: Board)
    ensures LoopState(start, twinStart, StartLane(start), StartLane(twinStart), [],
                      [Lanes(StartLane(start), StartLane(twinStart))], [])
  {
    StartLaneInvariant(start);
    StartLaneInvariant(twinStart);
  }

  /**
    A round whose main node is a goal stops with the recorded boards and the goal's
    moves: an outcome that meets `SolvedFrom` and is the one the search runs to.
   */
  lemma MainGoalStops(start: Board, twinStart: Board, main: Lane, twin: Lane, solution: seq<Board>,
                      lanes: seq<Lanes>, nodes: seq<Node>, s: Step)
    requires LoopState(start, twinStart, main, twin, solution, lanes, nodes)
    requires DoNextMove(main) == Success(s) && IsGoal(s.node.board)
    ensures var o := Outcome(true, s.node.moves, solution + [s.node.board]);
      && SolvedFrom(start, o) && Ran(start, twinStart, o)
      && (solution == [] ==> o == Outcome(true, 0, [start]))
  {
    SolvedAtGoal(main, twin, solution, start, twinStart);
    if solution == [] {
      StartLaneStep(start);
    }
    assert FinalRound(lanes[|nodes|], nodes, Outcome(true, s.node.moves, solution + [s.node.board]));
  }

  /**
    A round whose main node is not a goal while the twin lane's least node is one stops
    as unsolvable: a goal is reachable from the twin, and that is the outcome the search
    runs to.
   */
  lemma TwinGoalStops(start: Board, twinStart: Board, main: Lane, twin: Lane, solution: seq<Board>,
                      lanes: seq<Lanes>, nodes: seq<Node>, s: Step)
    requires LoopState(start, twinStart, main, twin, solution, lanes, nodes)
    requires DoNextMove(main) == Success(s) && !IsGoal(s.node.board)
    requires |twin.frontier| > 0 && IsGoal(twin.frontier[MinIndex(twin.frontier)].board)
    ensures exists x :: ChainFrom(x, twinStart) && IsGoal(x.board)
    ensures Ran(start, twinStart, Outcome(false, 0, []))
  {
    TwinGoalReached(twin, twinStart, |solution|);
    assert FinalRound(lanes[|nodes|], nodes, Outcome(false, 0, []));
  }

  /**
    A round in which neither lane's node is a goal expands the twin lane too, records
    the main node's board, and keeps the loop state.
   */
  lemma RoundGoesOn(start: Board, twinStart: Board, main: Lane, twin: Lane, solution: seq<Board>,
                    lanes: seq<Lanes>, nodes: seq<Node>, s: Step)
    requires LoopState(start, twinStart, main, twin, solution, lanes, nodes)
    requires DoNextMove(main) == Success(s) && !IsGoal(s.node.board)
    requires |twin.frontier| > 0 && !IsGoal(twin.frontier[MinIndex(twin.frontier)].board)
    ensures DoNextMove(twin).Success?
    ensures var twin' := DoNextMove(twin).value.lane;
      LoopState(start, twinStart, s.lane, twin', solution + [s.node.board],
                lanes + [Lanes(s.lane, twin')], nodes + [s.node])
  {
    if solution == [] {
      StartLaneStep(start);
      StartLaneStep(twinStart);
    }
    RoundKeepsInvariant(main, twin, solution, start, twinStart);
    var twin' := DoNextMove(twin).value.lane;
    TraceExtend(NextRound, lanes, nodes, s.node, Lanes(s.lane, twin'));
    BoardsOfAppend(nodes, s.node);
  }

  /** A round that throws, reached by the rounds so far, witnesses `Stuck`. */
  lemma StuckAt(start: Board, twinStart: Board, main: Lane, twin: Lane, solution: seq<Board>,
                lanes: seq<Lanes>, nodes: seq<Node>)
    requires LoopState(start, twinStart, main, twin, solution, lanes, nodes)
    requires StuckRound(Lanes(main, twin))
    ensures Stuck(start, twinStart)
  {
  }

  /** The rounds so far witness `GoesOnFor` their number. */
  lemma GoesOnAt(start: Board, twinStart: Board, main: Lane, twin: Lane, solution: seq<Board>,
                 lanes: seq<Lanes>, nodes: seq<Node>)
    requires LoopState(start, twinStart, main, twin, solution, lanes, nodes)
    ensures GoesOnFor(start, twinStart, |nodes|)
  {
  }

  /**
    The loop of the Solver constructor, bounded by `fuel` rounds, on a board and any
    second board searched in lock-step with it: each round expands the main lane and
    records the board, stops as solvable at a goal, stops as unsolvable when the twin
    lane's least node is a goal, and otherwise expands the twin lane.
   */
  method RunRounds(start: Board, twinStart: Board, fuel: nat) returns (r: Result<Outcome, Error>)
    ensures r.Success? ==> Ran(start, twinStart, r.value)
    ensures r.Failure? ==> r.error == NoSuchElement || r.error == OutOfFuel
    ensures r == Failure(NoSuchElement) ==> Stuck(start, twinStart)
    ensures r == Failure(OutOfFuel) ==> GoesOnFor(start, twinStart, fuel)
    ensures r.Success? && r.value.solvable ==> SolvedFrom(start, r.value)
    ensures r.Success? && !r.value.solvable ==>
      && r.value.moves == 0 && r.value.solution == []
      && exists x :: ChainFrom(x, twinStart) && IsGoal(x.board)
    ensures fuel > 0 && IsGoal(start) ==> r == Success(Outcome(true, 0, [start]))
    ensures fuel > 0 && !IsGoal(start) && IsGoal(twinStart) ==> r == Success(Outcome(false, 0, []))
  {
    var main, twin := StartLane(start), StartLane(twinStart);
    var solution: seq<Board> := [];
    var left := fuel;
    ghost var lanes, nodes := [Lanes(main, twin)], [];
    LoopStarts(start, twinStart);
    while left > 0
      invariant LoopState(start, twinStart, main, twin, solution, lanes, nodes)
      invariant solution == [] ==> left == fuel
      invariant |nodes| + left == fuel
      decreases left
    {
      if solution == [] {
        StartLaneStep(start);
        StartLaneStep(twinStart);
      }
      var mainStep := DoNextMove(main);
      if mainStep.Failure? {
        StuckAt(start, twinStart, main, twin, solution, lanes, nodes);
        return Failure(mainStep.error);
      }
      var s := mainStep.value;
      if IsGoal(s.node.board) {
        MainGoalStops(start, twinStart, main, twin, solution, lanes, nodes, s);
        return Success(Outcome(true, s.node.moves, solution + [s.node.board]));
      }
      if |twin.frontier| == 0 {
        StuckAt(start, twinStart, main, twin, solution, lanes, nodes);
        return Failure(NoSuchElement);
      }
      if IsGoal(twin.frontier[MinIndex(twin.frontier)].board) {
        TwinGoalStops(start, twinStart, main, twin, solution, lanes, nodes, s);
        return Success(Outcome(false, 0, []));
      }
      var twinStep := DoNextMove(twin);
      RoundGoesOn(start, twinStart, main, twin, solution, lanes, nodes, s);
      main, twin, solution := s.lane, twinStep.value.lane, solution + [s.node.board];
      lanes, nodes := lanes + [Lanes(main, twin)], nodes + [s.node];
      left := left - 1;
    }
    GoesOnAt(start, twinStart, main, twin, solution, lanes, nodes);
    return Failure(OutOfFuel);
  }

  /**
    The Solver constructor, its loop bounded by `fuel` rounds: a missing board is
    rejected and the twin is built (failing when n == 1); then the board and its twin
    are searched in lock-step.
   */
  method Solve(initial: Option<Board>, fuel: nat) returns (r: Result<Outcome, Error>)
    ensures initial.None? ==> r == Failure(InvalidArgument)
    ensures initial.Some? && initial.value.dimension < 2 ==> r == Failure(IndexOutOfBounds)
    ensures r.Success? ==> initial.Some? && initial.value.dimension >= 2 && Ran(initial.value, Twin(initial.value).value, r.value)
    ensures r == Failure(NoSuchElement) ==> initial.Some? && initial.value.dimension >= 2 && Stuck(initial.value, Twin(initial.value).value)
    ensures r == Failure(OutOfFuel) ==> initial.Some? && initial.value.dimension >= 2 && GoesOnFor(initial.value, Twin(initial.value).value, fuel)
    ensures r.Success? && r.value.solvable ==> initial.Some? && SolvedFrom(initial.value, r.value)
    ensures r.Success? && !r.value.solvable ==>
      && initial.Some? && initial.value.dimension >= 2
      && r.value.moves == 0 && r.value.solution == []
      && exists x :: ChainFrom(x, Twin(initial.value).value) && IsGoal(x.board)
    ensures initial.Some? && initial.value.dimension >= 2 && fuel > 0 && IsGoal(initial.value) ==>
      r == Success(Outcome(true, 0, [initial.value]))
    ensures initial.Some? && initial.value.dimension >= 2 && fuel > 0 ==>
      !IsGoal(initial.value) && IsGoal(Twin(initial.value).value) ==> r == Success(Outcome(false, 0, []))
  {
    if initial.None? {
      return Failure(InvalidArgument);
    }
    var start := initial.value;
    var twinned := Twin(start);
    if twinned.Failure? {
      return Failure(twinned.error);
    }
    r := RunRounds(start, twinned.value, fuel);
  }
}
