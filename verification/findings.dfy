/**
  doNextMove as the Java code behaves. Board overrides equals but not hashCode, so the
  HashSet of expanded boards compares identity hash codes first; every neighbour is a
  freshly built Board, so `contains` succeeds only on an identity-hash collision, which
  practically never happens. This module models the case without a collision, where no
  neighbour is skipped. The corrected step is Solvers.DoNextMove.
 */
module Findings {
  import opened Wrappers
  import opened Boards
  import opened Moves
  import opened SearchNodes
  import opened Solvers

  /**
    doNextMove with the set lookup as Java performs it when no identity hashes collide:
    removes a least-priority node, adds its board to the set and queues a child for every
    neighbour.
   */
  function DoNextMoveAsWritten(lane: Lane): (r: Result<Step, Error>)
    ensures |lane.frontier| == 0 <==> r == Failure(NoSuchElement)
    ensures r.Success? ==>
      var x, next := r.value.node, r.value.lane;
      && x in lane.frontier && IsMin(x, lane.frontier)
      && next.visited == lane.visited + {x.board}
      && multiset(next.frontier) ==
         multiset(lane.frontier) - multiset{x} + multiset(Children(x, Neighbors(x.board), {}))
  {
    if |lane.frontier| == 0 then Failure(NoSuchElement)
    else
      var k := MinIndex(lane.frontier);
      var x := lane.frontier[k];
      var rest := RemoveAt(lane.frontier, k);
      Success(Step(x, Lane(rest + Children(x, Neighbors(x.board), {}), lane.visited + {x.board})))
  }

  /** As written, the queue after an expansion is the rest of the queue, then the children. */
  lemma AsWrittenFrontier(lane: Lane)
    requires |lane.frontier| > 0
    ensures var k := MinIndex(lane.frontier);
      var x := lane.frontier[k];
      DoNextMoveAsWritten(lane).value.lane.frontier
        == RemoveAt(lane.frontier, k) + Children(x, Neighbors(x.board), {})
  {
  }

  /** A node of the children is in the queue they were appended to. */
  lemma InAppended(rest: seq<Node>, kids: seq<Node>, j: nat)
    requires j < |kids|
    ensures kids[j] in rest + kids
  {
    assert (rest + kids)[|rest| + j] == kids[j];
  }

  /** As written, every neighbour of the expanded board gets a queued node. */
  lemma AsWrittenQueuesEveryNeighbor(lane: Lane, c: Board)
    requires |lane.frontier| > 0
    requires c in Neighbors(lane.frontier[MinIndex(lane.frontier)].board)
    ensures exists y :: y in DoNextMoveAsWritten(lane).value.lane.frontier && y.board == c
  {
    var s := DoNextMoveAsWritten(lane).value;
    var x := s.node;
    assert x == lane.frontier[MinIndex(lane.frontier)];
    var kids := Children(x, Neighbors(x.board), {});
    ChildrenCoverUnvisited(x, Neighbors(x.board), {}, c);
    var j :| 0 <= j < |kids| && kids[j].board == c;
    AsWrittenFrontier(lane);
    InAppended(RemoveAt(lane.frontier, MinIndex(lane.frontier)), kids, j);
  }

  /**
    As written, expanding a node reached by a slide from an expanded board queues that
    board again, although it is in the set of expanded boards.
   */
  lemma AsWrittenRequeuesParent(lane: Lane, parent: Board)
    requires |lane.frontier| > 0
    requires parent in lane.visited && SingleBlank(parent)
    requires IsSlide(parent, lane.frontier[MinIndex(lane.frontier)].board)
    ensures var next := DoNextMoveAsWritten(lane).value.lane;
      exists y :: y in next.frontier && y.board == parent && y.board in next.visited
  {
    var x := lane.frontier[MinIndex(lane.frontier)];
    SlideIsReversible(parent, x.board);
    NeighborsAreSlides(x.board, parent);
    AsWrittenQueuesEveryNeighbor(lane, parent);
  }

  /** The corrected step never queues a board it has already expanded. */
  lemma CorrectedSkipsParent(lane: Lane, parent: Board)
    requires |lane.frontier| > 0 && parent in lane.visited
    ensures var s := DoNextMove(lane).value;
      forall y :: y in s.lane.frontier && y !in lane.frontier ==> y.board != parent
  {
    NoVisitedBoardQueued(lane);
  }

  /** The 2x2 board [[1, 2], [0, 3]]: one slide from the goal. */
  function NearGoal(): (b: Board)
    ensures b.tiles == [1, 2, 0, 3] && b.blank == 2 && b.dimension == 2
  {
    FromTiles(2, [1, 2, 0, 3])
  }

  /**
    The first expansion, as written, of a search on a board with neighbours: the start
    board is in the set, and the least queued node is one slide from it.
   */
  lemma AsWrittenFirstStep(start: Board)
    requires |Neighbors(start)| > 0
    ensures var lane := DoNextMoveAsWritten(StartLane(start)).value.lane;
      && start in lane.visited && |lane.frontier| > 0
      && IsSlide(start, lane.frontier[MinIndex(lane.frontier)].board)
  {
    var root := StartLane(start).frontier[0];
    AsWrittenStartQueue(start);
    var kids := Children(root, Neighbors(start), {});
    var j := MinIndex(kids);
    var u := Unvisited(Neighbors(start), {});
    assert kids[j].board == u[j];
    assert u[j] in Neighbors(start);
    NeighborsAreSlides(start, u[j]);
  }

  /** As written, the first expansion puts the start board in the set and queues its children. */
  lemma AsWrittenStartQueue(start: Board)
    ensures var root := StartLane(start).frontier[0];
      var lane := DoNextMoveAsWritten(StartLane(start)).value.lane;
      && start in lane.visited
      && lane.frontier == Children(root, Neighbors(start), {})
  {
    AsWrittenFrontier(StartLane(start));
    assert RemoveAt(StartLane(start).frontier, 0) == [];
  }

  /**
    As written, every search on a board with a single blank and n >= 2 re-queues its
    start board on the second expansion: the least of the start's children is one slide
    from the start, so the start is among that child's neighbours, and nothing skips it.
   */
  lemma AsWrittenRequeuesStart(start: Board)
    requires SingleBlank(start) && start.dimension >= 2
    ensures var lane := DoNextMoveAsWritten(StartLane(start)).value.lane;
      && start in lane.visited && DoNextMoveAsWritten(lane).Success?
      && exists y :: y in DoNextMoveAsWritten(lane).value.lane.frontier && y.board == start
  {
    NeighborCount(start);
    AsWrittenFirstStep(start);
    AsWrittenRequeuesParent(DoNextMoveAsWritten(StartLane(start)).value.lane, start);
  }

  /**
    A search from [[1, 2], [0, 3]]: as written, the second expansion queues the start
    board again although it is in the set.
   */
  lemma RequeueOnTwoByTwo()
    ensures var start := NearGoal();
      var lane := DoNextMoveAsWritten(StartLane(start)).value.lane;
      && start in lane.visited && DoNextMoveAsWritten(lane).Success?
      && exists y :: y in DoNextMoveAsWritten(lane).value.lane.frontier && y.board == start
  {
    var start := NearGoal();
    assert forall i :: 0 <= i < |start.tiles| && start.tiles[i] == 0 ==> i == 2;
    AsWrittenRequeuesStart(start);
  }
}
