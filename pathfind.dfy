/** The stand-alone grid search: Manhattan distance, the four cardinal successors, the
    walkable set read from a bitmap (row index = y), the successor closure restricted to
    that set, and the search from (0, 0) to (0, 3) on the fixed bitmap. A* is an oracle
    with a stated contract. */
module Pathfind {
  import opened Wrappers

  datatype Pos = Pos(x: int, y: int)

  function AbsDiff(a: int, b: int): nat { if a < b then b - a else a - b }

  /** `Pos::distance`: the Manhattan distance. */
  function Distance(p: Pos, q: Pos): (d: nat)
    ensures d == 0 <==> p == q
  {
    AbsDiff(p.x, q.x) + AbsDiff(p.y, q.y)
  }

  lemma DistanceSymmetric(p: Pos, q: Pos)
    ensures Distance(p, q) == Distance(q, p)
  {
  }

  lemma DistanceTriangle(p: Pos, q: Pos, r: Pos)
    ensures Distance(p, r) <= Distance(p, q) + Distance(q, r)
  {
  }

  /** The cells of a successor list, in order. */
  function Targets(s: seq<(Pos, nat)>): (r: seq<Pos>)
    ensures |r| == |s| && forall k :: 0 <= k < |s| ==> r[k] == s[k].0
  {
    if s == [] then [] else [s[0].0] + Targets(s[1..])
  }

  /** `Pos::successors`: the four cardinal neighbours +x, -x, +y, -y, each at cost 1. */
  function Successors(p: Pos): (r: seq<(Pos, nat)>)
    ensures |r| == 4
    ensures forall k :: 0 <= k < |r| ==> r[k].1 == 1
  {
    [(Pos(p.x + 1, p.y), 1), (Pos(p.x - 1, p.y), 1), (Pos(p.x, p.y + 1), 1), (Pos(p.x, p.y - 1), 1)]
  }

  /** The successors are exactly the cells at distance one. */
  lemma SuccessorsAreNeighbours(p: Pos, q: Pos)
    ensures q in Targets(Successors(p)) <==> Distance(p, q) == 1
  {
    var t := Targets(Successors(p));
    assert t == [Pos(p.x + 1, p.y), Pos(p.x - 1, p.y), Pos(p.x, p.y + 1), Pos(p.x, p.y - 1)];
    if Distance(p, q) == 1 {
      if q.x == p.x {
        assert q == t[2] || q == t[3];
      } else {
        assert q.y == p.y;
        assert q == t[0] || q == t[1];
      }
    }
  }

  /** The position of q in the successor order of p: 0 for +x, 1 for -x, 2 for +y, 3 for -y,
      and 4 for a cell that is not a successor. */
  function MoveRank(p: Pos, q: Pos): (k: nat)
    ensures k < 4 ==> Successors(p)[k].0 == q
  {
    if q == Pos(p.x + 1, p.y) then 0
    else if q == Pos(p.x - 1, p.y) then 1
    else if q == Pos(p.x, p.y + 1) then 2
    else if q == Pos(p.x, p.y - 1) then 3
    else 4
  }

  // ---------------------------------------------------------------------------
  // The walkable set
  // ---------------------------------------------------------------------------

  const BITMAP: seq<seq<int>> := [
    [1, 1, 1, 1, 1, 1],
    [0, 1, 0, 0, 1, 1],
    [1, 1, 1, 0, 1, 1],
    [1, 0, 1, 0, 1, 1],
    [1, 0, 1, 1, 1, 1],
    [1, 0, 0, 0, 0, 1]
  ]

  /** Cell (x, y) is walkable: row y, column x of the bitmap holds 1. */
  predicate Walkable(bitmap: seq<seq<int>>, p: Pos)
  {
    0 <= p.y < |bitmap| && 0 <= p.x < |bitmap[p.y]| && bitmap[p.y][p.x] == 1
  }

  /** The walkable cells before column x of row y (row-major order) are exactly `allowed`. */
  ghost predicate ScannedUpTo(bitmap: seq<seq<int>>, allowed: set<Pos>, y: int, x: int)
  {
    forall p :: p in allowed <==> Walkable(bitmap, p) && (p.y < y || (p.y == y && p.x < x))
  }

  /** The nested loops filling `allowed_cells`. */
  method AllowedCells(bitmap: seq<seq<int>>) returns (allowed: set<Pos>)
    ensures forall p :: p in allowed <==> Walkable(bitmap, p)
  {
    allowed := {};
    var y := 0;
    while y < |bitmap|
      invariant 0 <= y <= |bitmap|
      invariant ScannedUpTo(bitmap, allowed, y, 0)
    {
      var x := 0;
      while x < |bitmap[y]|
        invariant 0 <= x <= |bitmap[y]|
        invariant ScannedUpTo(bitmap, allowed, y, x)
      {
        if bitmap[y][x] == 1 {
          allowed := allowed + {Pos(x, y)};
        }
        x := x + 1;
      }
      assert ScannedUpTo(bitmap, allowed, y + 1, 0) by {
        forall p
          ensures p in allowed <==> Walkable(bitmap, p) && (p.y < y + 1 || (p.y == y + 1 && p.x < 0))
        {
          if p.y == y && Walkable(bitmap, p) {
            assert p.x < |bitmap[y]|;
          }
        }
      }
      y := y + 1;
    }
  }

  // ---------------------------------------------------------------------------
  // The successor closure and the search
  // ---------------------------------------------------------------------------

  /** The first `n` cardinal successors of `p` that are in `allowed`, in order. */
  function AllowedMoves(p: Pos, allowed: set<Pos>, n: nat): (r: seq<(Pos, nat)>)
    requires n <= 4
    ensures |r| <= n
    ensures forall j :: 0 <= j < |r| ==> r[j].1 == 1 && r[j].0 in allowed && Distance(p, r[j].0) == 1
    ensures forall k :: 0 <= k < n && Successors(p)[k].0 in allowed ==> Successors(p)[k] in r
    ensures forall j :: 0 <= j < |r| ==> r[j] in Successors(p)[..n]
  {
    if n == 0 then []
    else
      var prev := AllowedMoves(p, allowed, n - 1);
      var s := Successors(p)[n - 1];
      SuccessorsAreNeighbours(p, s.0);
      assert Targets(Successors(p))[n - 1] == s.0;
      assert forall j :: 0 <= j < |prev| ==> prev[j] in Successors(p)[..n] by {
        assert Successors(p)[..n - 1] <= Successors(p)[..n];
      }
      prev + (if s.0 in allowed then [s] else [])
  }

  /** The moves of r come in strictly increasing successor rank, all below n. */
  predicate InOrder(p: Pos, r: seq<(Pos, nat)>, n: nat)
  {
    && (forall j :: 0 <= j < |r| ==> MoveRank(p, r[j].0) < n)
    && (forall j, k :: 0 <= j < k < |r| ==> MoveRank(p, r[j].0) < MoveRank(p, r[k].0))
  }

  lemma AppendInOrder(p: Pos, prev: seq<(Pos, nat)>, s: (Pos, nat), n: nat)
    requires n >= 1 && InOrder(p, prev, n - 1) && MoveRank(p, s.0) == n - 1
    ensures InOrder(p, prev, n) && InOrder(p, prev + [s], n)
  {
    var r := prev + [s];
    forall j | 0 <= j < |r|
      ensures MoveRank(p, r[j].0) < n
    {
      if j < |prev| { assert r[j] == prev[j]; }
    }
    forall j, k | 0 <= j < k < |r|
      ensures MoveRank(p, r[j].0) < MoveRank(p, r[k].0)
    {
      assert r[j] == prev[j];
      if k < |prev| { assert r[k] == prev[k]; }
    }
  }

  /** The allowed moves keep the successor order +x, -x, +y, -y: their ranks strictly
      increase, so no move is repeated or reordered. */
  lemma {:induction false} AllowedMovesInOrder(p: Pos, allowed: set<Pos>, n: nat)
    requires n <= 4
    ensures InOrder(p, AllowedMoves(p, allowed, n), n)
  {
    if n > 0 {
      AllowedMovesInOrder(p, allowed, n - 1);
      var s := Successors(p)[n - 1];
      assert MoveRank(p, s.0) == n - 1;
      AppendInOrder(p, AllowedMoves(p, allowed, n - 1), s, n);
    }
  }

  /** The search closure: pushes +x, -x, +y, -y in turn when the cell is allowed. */
  method Moves(p: Pos, allowed: set<Pos>) returns (moves: seq<(Pos, nat)>)
    ensures moves == AllowedMoves(p, allowed, 4)
  {
    moves := [];
    var mov := Pos(p.x + 1, p.y);
    if mov in allowed { moves := moves + [(mov, 1)]; }
    assert moves == AllowedMoves(p, allowed, 1);
    mov := Pos(p.x - 1, p.y);
    if mov in allowed { moves := moves + [(mov, 1)]; }
    assert moves == AllowedMoves(p, allowed, 2);
    mov := Pos(p.x, p.y + 1);
    if mov in allowed { moves := moves + [(mov, 1)]; }
    assert moves == AllowedMoves(p, allowed, 3);
    mov := Pos(p.x, p.y - 1);
    if mov in allowed { moves := moves + [(mov, 1)]; }
  }

  /** Consecutive cells of the walk are one step apart. */
  predicate UnitStep(a: Pos, b: Pos) { Distance(a, b) == 1 }

  predicate IsUnitWalk(w: seq<Pos>)
  {
    forall i :: 0 <= i < |w| - 1 ==> UnitStep(w[i], w[i + 1])
  }

  /** The heuristic `distance(p, GOAL)` never exceeds the number of unit steps of any walk
      from p to GOAL, so A* with it is admissible. */
  lemma {:induction false} HeuristicAdmissible(w: seq<Pos>, goal: Pos)
    requires |w| >= 1 && IsUnitWalk(w) && w[|w| - 1] == goal
    ensures Distance(w[0], goal) <= |w| - 1
  {
    if |w| > 1 {
      assert IsUnitWalk(w[1..]) by {
        forall i | 0 <= i < |w[1..]| - 1
          ensures UnitStep(w[1..][i], w[1..][i + 1])
        {
          assert UnitStep(w[i + 1], w[i + 2]);
        }
      }
      HeuristicAdmissible(w[1..], goal);
      assert UnitStep(w[0], w[1]);
      DistanceTriangle(w[0], w[1], goal);
    }
  }

  /** `astar(start, successors, heuristic, success)`. */
  type AStar = (Pos, Pos -> seq<(Pos, nat)>, Pos -> nat, Pos -> bool) -> Option<(seq<Pos>, nat)>

  predicate Steps(succ: Pos -> seq<(Pos, nat)>, a: Pos, b: Pos)
  {
    exists k :: 0 <= k < |succ(a)| && succ(a)[k].0 == b
  }

  /** `path` starts at `start`, ends in a success cell, and follows `succ`. */
  predicate Walk(path: seq<Pos>, start: Pos, succ: Pos -> seq<(Pos, nat)>, success: Pos -> bool)
  {
    |path| >= 1 && path[0] == start && success(path[|path| - 1])
    && forall i :: 0 <= i < |path| - 1 ==> Steps(succ, path[i], path[i + 1])
  }

  /** A path that is returned is a walk to a success cell. */
  ghost predicate AStarSound(astar: AStar)
  {
    forall start, succ, h, success {:trigger astar(start, succ, h, success)} ::
      astar(start, succ, h, success).Some? ==> Walk(astar(start, succ, h, success).value.0, start, succ, success)
  }

  /** A search that has a walk to a success cell returns one. */
  ghost predicate AStarComplete(astar: AStar)
  {
    forall start, succ, h, success {:trigger astar(start, succ, h, success)} ::
      (exists w :: Walk(w, start, succ, success)) ==> astar(start, succ, h, success).Some?
  }

  const START: Pos := Pos(0, 0)
  const GOAL: Pos := Pos(0, 3)

  function ClosureFn(allowed: set<Pos>): Pos -> seq<(Pos, nat)> { p => AllowedMoves(p, allowed, 4) }
  function HeuristicFn(): Pos -> nat { p => Distance(p, GOAL) }
  function GoalFn(): Pos -> bool { p => p == GOAL }

  /** The demo's call: A* from START to GOAL over the allowed cells; None is the `panic!`. */
  function Search(astar: AStar, allowed: set<Pos>): (r: Option<seq<Pos>>)
    ensures r.Some? <==> astar(START, ClosureFn(allowed), HeuristicFn(), GoalFn()).Some?
  {
    match astar(START, ClosureFn(allowed), HeuristicFn(), GoalFn())
    case Some(found) => Some(found.0)
    case None => None
  }

  /** (0,0) -> (1,0) -> (1,1) -> (1,2) -> (0,2) -> (0,3) over walkable cells of BITMAP. */
  const DEMO_PATH: seq<Pos> := [Pos(0, 0), Pos(1, 0), Pos(1, 1), Pos(1, 2), Pos(0, 2), Pos(0, 3)]

  lemma DemoPathIsWalk(allowed: set<Pos>)
    requires forall p :: p in allowed <==> Walkable(BITMAP, p)
    ensures Walk(DEMO_PATH, START, ClosureFn(allowed), GoalFn())
  {
    forall i | 0 <= i < |DEMO_PATH| - 1
      ensures Steps(ClosureFn(allowed), DEMO_PATH[i], DEMO_PATH[i + 1])
    {
      DemoStep(allowed, i);
    }
  }

  /** Step k of the demo path moves to a walkable neighbour. */
  lemma DemoStep(allowed: set<Pos>, k: nat)
    requires forall p :: p in allowed <==> Walkable(BITMAP, p)
    requires k < |DEMO_PATH| - 1
    ensures Steps(ClosureFn(allowed), DEMO_PATH[k], DEMO_PATH[k + 1])
  {
    var a, b := DEMO_PATH[k], DEMO_PATH[k + 1];
    assert Walkable(BITMAP, b) && Distance(a, b) == 1 by {
      if k == 0 {
        assert a == Pos(0, 0) && b == Pos(1, 0);
      } else if k == 1 {
        assert a == Pos(1, 0) && b == Pos(1, 1);
      } else if k == 2 {
        assert a == Pos(1, 1) && b == Pos(1, 2);
      } else if k == 3 {
        assert a == Pos(1, 2) && b == Pos(0, 2);
      } else {
        assert a == Pos(0, 2) && b == Pos(0, 3);
      }
    }
    StepToAllowed(allowed, a, b);
  }

  /** An allowed cell at distance one is a step of the closure. */
  lemma StepToAllowed(allowed: set<Pos>, a: Pos, b: Pos)
    requires b in allowed && Distance(a, b) == 1
    ensures Steps(ClosureFn(allowed), a, b)
  {
    SuccessorsAreNeighbours(a, b);
    var k :| 0 <= k < 4 && Targets(Successors(a))[k] == b;
    assert Successors(a)[k] in AllowedMoves(a, allowed, 4);
    var j :| 0 <= j < |AllowedMoves(a, allowed, 4)| && AllowedMoves(a, allowed, 4)[j] == Successors(a)[k];
    assert ClosureFn(allowed)(a)[j].0 == b;
  }

  /** With a complete A*, the search on the fixed bitmap finds a path: the `panic!` is unreachable. */
  lemma DemoFindsPath(astar: AStar, allowed: set<Pos>)
    requires AStarComplete(astar)
    requires forall p :: p in allowed <==> Walkable(BITMAP, p)
    ensures Search(astar, allowed).Some?
  {
    DemoPathIsWalk(allowed);
    assert Walk(DEMO_PATH, START, ClosureFn(allowed), GoalFn());
  }

  /** Any path the search returns has at least Distance(START, GOAL) = 3 steps. */
  lemma FoundPathAtLeastDistance(astar: AStar, allowed: set<Pos>)
    requires AStarSound(astar)
    requires Search(astar, allowed).Some?
    ensures |Search(astar, allowed).value| >= 4
  {
    var path := Search(astar, allowed).value;
    assert Walk(path, START, ClosureFn(allowed), GoalFn());
    forall i | 0 <= i < |path| - 1
      ensures UnitStep(path[i], path[i + 1])
    {
      assert Steps(ClosureFn(allowed), path[i], path[i + 1]);
      var k :| 0 <= k < |ClosureFn(allowed)(path[i])| && ClosureFn(allowed)(path[i])[k].0 == path[i + 1];
      assert AllowedMoves(path[i], allowed, 4)[k].0 == path[i + 1];
    }
    HeuristicAdmissible(path, GOAL);
  }
}
