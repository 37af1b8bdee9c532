/** The NPC grid search: successors over the set of trespassable cells, the Manhattan
    weight used as the A* heuristic, and the delegating call into A*, which is an
    oracle with a stated contract. */
module NpcPathfinder {
  import opened Wrappers
  import opened Vectors

  /** A search node: one grid cell. */
  datatype Pos = Pos(cell: IVec2)

  /** The four unit moves, in the order successors are offered. */
  const MOVES: seq<IVec2> := [IVec2(1, 0), IVec2(0, 1), IVec2(-1, 0), IVec2(0, -1)]

  function IAbs(i: int): nat { if i < 0 then -i else i }

  /** Index of a move in MOVES; 4 for anything that is not a unit move. */
  function Rank(m: IVec2): nat
  {
    if m == MOVES[0] then 0
    else if m == MOVES[1] then 1
    else if m == MOVES[2] then 2
    else if m == MOVES[3] then 3
    else 4
  }

  /** Manhattan distance between two cells: the A* heuristic towards `end`. */
  function Weight(p: Pos, end: Pos): (w: int)
    ensures w >= 0
    ensures w == 0 <==> p == end
  {
    IAbs(p.cell.x - end.cell.x) + IAbs(p.cell.y - end.cell.y)
  }

  lemma WeightSymmetric(a: Pos, b: Pos)
    ensures Weight(a, b) == Weight(b, a)
  {
  }

  // ---------------------------------------------------------------------------
  // Successors as the source computes them: the node pushed is the move itself.
  // ---------------------------------------------------------------------------

  /** The successors offered from `pos` by the first `n` moves: a move is offered when the
      cell it leads to is trespassable; the node offered is the raw offset, at cost 1. */
  function Offered(pos: Pos, cells: set<IVec2>, n: nat): (r: seq<(Pos, int)>)
    requires n <= |MOVES|
    ensures |r| <= n
    ensures forall j :: 0 <= j < |r| ==>
      r[j].1 == 1 && Rank(r[j].0.cell) < n && pos.cell.Add(r[j].0.cell) in cells
    ensures forall j, k :: 0 <= j < k < |r| ==> Rank(r[j].0.cell) < Rank(r[k].0.cell)
    ensures forall i :: 0 <= i < n && pos.cell.Add(MOVES[i]) in cells ==> (Pos(MOVES[i]), 1) in r
  {
    if n == 0 then []
    else
      Offered(pos, cells, n - 1)
      + (if pos.cell.Add(MOVES[n - 1]) in cells then [(Pos(MOVES[n - 1]), 1)] else [])
  }

  /** `Pos::successors`: the loop over MOVES that pushes each admissible move. */
  method Successors(pos: Pos, cells: set<IVec2>) returns (succ: seq<(Pos, int)>)
    ensures succ == Offered(pos, cells, |MOVES|)
  {
    succ := [];
    var i := 0;
    while i < |MOVES|
      invariant 0 <= i <= |MOVES|
      invariant succ == Offered(pos, cells, i)
    {
      var mov := MOVES[i];
      if pos.cell.Add(mov) in cells {
        succ := succ + [(Pos(mov), 1)];
      }
      i := i + 1;
    }
  }

  /** The source's successor closure. */
  function SuccessorFn(cells: set<IVec2>): Pos -> seq<(Pos, int)>
  {
    p => Offered(p, cells, |MOVES|)
  }

  /** The corrected successors: the node offered is the neighbouring cell `pos + mov`. */
  function Neighbours(pos: Pos, cells: set<IVec2>, n: nat): (r: seq<(Pos, int)>)
    requires n <= |MOVES|
    ensures |r| <= n
    ensures forall j :: 0 <= j < |r| ==>
      r[j].1 == 1 && r[j].0.cell in cells && Weight(pos, r[j].0) == 1
    ensures forall i :: 0 <= i < n && pos.cell.Add(MOVES[i]) in cells ==>
      (Pos(pos.cell.Add(MOVES[i])), 1) in r
  {
    if n == 0 then []
    else
      Neighbours(pos, cells, n - 1)
      + (if pos.cell.Add(MOVES[n - 1]) in cells then [(Pos(pos.cell.Add(MOVES[n - 1])), 1)] else [])
  }

  function NeighbourFn(cells: set<IVec2>): Pos -> seq<(Pos, int)>
  {
    p => Neighbours(p, cells, |MOVES|)
  }

  // ---------------------------------------------------------------------------
  // A* as an oracle
  // ---------------------------------------------------------------------------

  /** `astar(start, successors, heuristic, success)`: the path found and its cost. */
  type AStar = (Pos, Pos -> seq<(Pos, int)>, Pos -> int, Pos -> bool) -> Option<(seq<Pos>, int)>

  /** `b` is offered as a successor of `a`. */
  predicate Steps(succ: Pos -> seq<(Pos, int)>, a: Pos, b: Pos)
  {
    exists k :: 0 <= k < |succ(a)| && succ(a)[k].0 == b
  }

  /** Each cell of `path` after the first is a successor of the one before it. */
  predicate IsWalk(path: seq<Pos>, succ: Pos -> seq<(Pos, int)>)
  {
    forall i :: 0 <= i < |path| - 1 ==> Steps(succ, path[i], path[i + 1])
  }

  /** What the search crate promises of a path it returns. */
  predicate FoundPath(path: seq<Pos>, start: Pos, succ: Pos -> seq<(Pos, int)>, success: Pos -> bool)
  {
    |path| >= 1 && path[0] == start && success(path[|path| - 1]) && IsWalk(path, succ)
  }

  ghost predicate AStarSound(astar: AStar)
  {
    forall start, succ, h, success {:trigger astar(start, succ, h, success)} ::
      astar(start, succ, h, success).Some? ==>
        FoundPath(astar(start, succ, h, success).value.0, start, succ, success)
  }

  function HeuristicFn(end: Pos): Pos -> int { p => Weight(p, end) }

  function GoalFn(end: Pos): Pos -> bool { p => p == end }

  /** `find_path` over a given successor closure: A* from `start`, with the weight to `end`
      as heuristic, stopping at `end`; only the path is kept. */
  function Search(astar: AStar, start: Pos, end: Pos, succ: Pos -> seq<(Pos, int)>): (r: Option<seq<Pos>>)
    ensures r.Some? <==> astar(start, succ, HeuristicFn(end), GoalFn(end)).Some?
    ensures AStarSound(astar) && r.Some? ==>
      |r.value| >= 1 && r.value[0] == start && r.value[|r.value| - 1] == end && IsWalk(r.value, succ)
  {
    match astar(start, succ, HeuristicFn(end), GoalFn(end))
    case Some(found) => Some(found.0)
    case None => None
  }

  /** `find_path` as written: the search over the source's successors. */
  function FindPath(astar: AStar, start: Pos, end: Pos, cells: set<IVec2>): (r: Option<seq<Pos>>)
    ensures r.Some? <==> astar(start, SuccessorFn(cells), HeuristicFn(end), GoalFn(end)).Some?
    ensures AStarSound(astar) && r.Some? ==>
      |r.value| >= 1 && r.value[0] == start && r.value[|r.value| - 1] == end
      && IsWalk(r.value, SuccessorFn(cells))
  {
    Search(astar, start, end, SuccessorFn(cells))
  }

  /** With the source's successors every node after the start is a raw unit offset, so a
      path can only be found to the start itself or to one of the four offsets. */
  lemma AsWrittenPathStaysAtOffsets(astar: AStar, start: Pos, end: Pos, cells: set<IVec2>)
    requires AStarSound(astar)
    requires FindPath(astar, start, end, cells).Some?
    ensures end == start || Rank(end.cell) < |MOVES|
  {
    var path := FindPath(astar, start, end, cells).value;
    if |path| > 1 {
      var i := |path| - 2;
      assert Steps(SuccessorFn(cells), path[i], path[i + 1]);
      var k :| 0 <= k < |SuccessorFn(cells)(path[i])| && SuccessorFn(cells)(path[i])[k].0 == path[i + 1];
      assert Offered(path[i], cells, |MOVES|)[k].0 == end;
    }
  }

  /** A concrete case: from (5, 5) with (6, 5) trespassable, the node offered is (1, 0),
      nine cells away, where (6, 5) was meant. */
  lemma AsWrittenSuccessorNotAdjacent()
    ensures Offered(Pos(IVec2(5, 5)), {IVec2(6, 5)}, |MOVES|) == [(Pos(IVec2(1, 0)), 1)]
    ensures Weight(Pos(IVec2(5, 5)), Pos(IVec2(1, 0))) == 9
  {
    var pos, cells := Pos(IVec2(5, 5)), {IVec2(6, 5)};
    assert pos.cell.Add(MOVES[1]) !in cells;
    assert pos.cell.Add(MOVES[2]) !in cells;
    assert pos.cell.Add(MOVES[3]) !in cells;
  }

  /** `find_path` with the corrected successors. */
  function FindNeighbourPath(astar: AStar, start: Pos, end: Pos, cells: set<IVec2>): (r: Option<seq<Pos>>)
    ensures r.Some? <==> astar(start, NeighbourFn(cells), HeuristicFn(end), GoalFn(end)).Some?
  {
    Search(astar, start, end, NeighbourFn(cells))
  }

  /** Consecutive cells of `path` are neighbours, and each cell after the first lies in `cells`. */
  predicate Connected(path: seq<Pos>, cells: set<IVec2>)
  {
    forall i :: 0 <= i < |path| - 1 ==> NeighbourStep(path[i], path[i + 1], cells)
  }

  /** `b` is a trespassable cell next to `a`. */
  predicate NeighbourStep(a: Pos, b: Pos, cells: set<IVec2>)
  {
    Weight(a, b) == 1 && b.cell in cells
  }

  /** A path found over the corrected successors runs from `start` to `end` one
      trespassable neighbouring cell at a time. */
  lemma NeighbourPathIsConnected(astar: AStar, start: Pos, end: Pos, cells: set<IVec2>)
    requires AStarSound(astar)
    requires FindNeighbourPath(astar, start, end, cells).Some?
    ensures var path := FindNeighbourPath(astar, start, end, cells).value;
      |path| >= 1 && path[0] == start && path[|path| - 1] == end && Connected(path, cells)
  {
    var path := FindNeighbourPath(astar, start, end, cells).value;
    assert FoundPath(path, start, NeighbourFn(cells), GoalFn(end));
    forall i | 0 <= i < |path| - 1
      ensures NeighbourStep(path[i], path[i + 1], cells)
    {
      assert Steps(NeighbourFn(cells), path[i], path[i + 1]);
      var k :| 0 <= k < |NeighbourFn(cells)(path[i])| && NeighbourFn(cells)(path[i])[k].0 == path[i + 1];
      assert Neighbours(path[i], cells, |MOVES|)[k].0 == path[i + 1];
    }
  }

  /** `process_pathfinding` over a successor closure: nothing happens until the trespassable
      set is ready; then a path is searched from every hunter's cell to the player's cell
      (the paths are only drawn). The source passes `SuccessorFn(cells)`. */
  function ProcessPathfinding(ready: bool, astar: AStar, succ: Pos -> seq<(Pos, int)>, playerCell: IVec2,
                              hunterCells: seq<IVec2>): (r: seq<Option<seq<Pos>>>)
    ensures !ready ==> r == []
    ensures ready ==> |r| == |hunterCells|
    ensures ready ==> forall i :: 0 <= i < |r| ==>
      (r[i].Some? <==> astar(Pos(hunterCells[i]), succ, HeuristicFn(Pos(playerCell)), GoalFn(Pos(playerCell))).Some?)
    ensures AStarSound(astar) ==> forall i :: 0 <= i < |r| && r[i].Some? ==>
      |r[i].value| >= 1 && r[i].value[0] == Pos(hunterCells[i])
      && r[i].value[|r[i].value| - 1] == Pos(playerCell) && IsWalk(r[i].value, succ)
  {
    if !ready then
      []
    else
      seq(|hunterCells|, i requires 0 <= i < |hunterCells| =>
        Search(astar, Pos(hunterCells[i]), Pos(playerCell), succ))
  }

  /** As written, `process_pathfinding` draws a path for a hunter only when the player's cell
      is the hunter's own cell or one of the four unit offsets around the origin. */
  lemma ProcessedPathsAsWritten(ready: bool, astar: AStar, playerCell: IVec2, hunterCells: seq<IVec2>,
                                cells: set<IVec2>, i: nat)
    requires AStarSound(astar)
    requires i < |ProcessPathfinding(ready, astar, SuccessorFn(cells), playerCell, hunterCells)|
    requires ProcessPathfinding(ready, astar, SuccessorFn(cells), playerCell, hunterCells)[i].Some?
    ensures playerCell == hunterCells[i] || Rank(playerCell) < |MOVES|
  {
    assert FindPath(astar, Pos(hunterCells[i]), Pos(playerCell), cells).Some?;
    AsWrittenPathStaysAtOffsets(astar, Pos(hunterCells[i]), Pos(playerCell), cells);
  }

  /** With the corrected successors every drawn path is non-empty (so the drawing loop
      `0..len - 1` does not underflow) and walks from the hunter to the player one
      trespassable neighbouring cell at a time. */
  lemma ProcessedPathsReachPlayer(ready: bool, astar: AStar, playerCell: IVec2, hunterCells: seq<IVec2>,
                                  cells: set<IVec2>, i: nat)
    requires AStarSound(astar)
    requires i < |ProcessPathfinding(ready, astar, NeighbourFn(cells), playerCell, hunterCells)|
    requires ProcessPathfinding(ready, astar, NeighbourFn(cells), playerCell, hunterCells)[i].Some?
    ensures var path := ProcessPathfinding(ready, astar, NeighbourFn(cells), playerCell, hunterCells)[i].value;
      |path| >= 1 && path[0] == Pos(hunterCells[i]) && path[|path| - 1] == Pos(playerCell)
      && Connected(path, cells)
  {
    assert FindNeighbourPath(astar, Pos(hunterCells[i]), Pos(playerCell), cells).Some?;
    NeighbourPathIsConnected(astar, Pos(hunterCells[i]), Pos(playerCell), cells);
  }
}
