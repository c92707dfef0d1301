/**
 * A* over a GridWorld: Manhattan heuristic, unit step cost, a heap of
 * (priority, coord) pairs, and came_from / cost_so_far dictionaries.
 */
module AStar {
  import opened Wrappers
  import opened Walks
  import opened GridWorld
  import C = AStarCore

  /** The Manhattan heuristic |a0 - b0| + |a1 - b1|. */
  function Heuristic(a: Coord, b: Coord): (r: int)
    ensures r >= 0
    ensures r == 0 <==> a == b
  {
    Dist(a, b)
  }

  /** Every neighbour the grid yields is an in-bounds cell, so it is listed. */
  lemma CoversGrid(grid: Grid, s: Coord)
    ensures C.Covers(Nbrs(grid), C.AllCells(grid.width, grid.height) + [s])
  {
    forall a, b | b in Nbrs(grid)(a) ensures b in C.AllCells(grid.width, grid.height) + [s] {
      C.InAllCells(grid.width, grid.height, b);
    }
  }

  /** The Manhattan heuristic is consistent with grid steps and zero at the goal. */
  lemma HeuristicConsistent(grid: Grid, goal: Coord)
    ensures C.Consistent(Nbrs(grid), p => Heuristic(p, goal), goal)
  {
    forall a, b | b in Nbrs(grid)(a) ensures Heuristic(a, goal) <= Heuristic(b, goal) + 1 {
      assert b in Candidates(a);
    }
  }

  /** A walk ends at its start or at an in-bounds passable cell. */
  lemma WalkEnd(grid: Grid, p: seq<Coord>, s: Coord, t: Coord)
    requires IsWalk(Nbrs(grid), p, s, t)
    ensures t == s || (grid.InBounds(t) && grid.Passable(t))
  {
    if |p| > 1 {
      assert p[|p| - 1] in grid.Neighbors(p[|p| - 2]);
    }
  }

  /** The goal is never reached when it differs from the start and is blocked or outside the grid. */
  lemma UnreachableGoal(grid: Grid, s: Coord, g: Coord)
    requires s != g && !(grid.InBounds(g) && grid.Passable(g))
    ensures !Reachable(Nbrs(grid), s, g)
  {
    if p :| IsWalk(Nbrs(grid), p, s, g) {
      WalkEnd(grid, p, s, g);
    }
  }

  /**
   * The `while frontier` loop of astar: pops the least (priority, coord)
   * entry, stops on the goal, otherwise relaxes the popped cell's neighbours.
   * On return the goal is known exactly when it is reachable, and then its
   * cost is no larger than the steps of any walk to it.
   */
  method Search(grid: Grid, s: Coord, g: Coord)
      returns (came: map<Coord, Option<Coord>>, cost: map<Coord, int>)
    ensures C.TreeOk(Nbrs(grid), s, cost, came)
    ensures g in came <==> Reachable(Nbrs(grid), s, g)
    ensures g in came ==> forall p :: IsWalk(Nbrs(grid), p, s, g) ==> cost[g] <= |p| - 1
  {
    ghost var nbrs := Nbrs(grid);
    var h := (p: Coord) => Heuristic(p, g);
    ghost var cells := C.AllCells(grid.width, grid.height) + [s];
    CoversGrid(grid, s);
    HeuristicConsistent(grid, g);

    var frontier := [C.Entry(0, 0, s)];
    came := map[s := None];
    cost := map[s := 0];
    C.InitInv(nbrs, h, s, g, 0);
    ghost var found := false;

    while frontier != []
      invariant C.SearchInv(nbrs, h, s, g, cost, came, frontier)
      invariant C.Bounded(cells, cost)
      invariant !found
      decreases C.Pot(cells, cost, |cells| + 1), |frontier|
    {
      var i := C.MinIndex(frontier, false);
      var current := frontier[i].c;
      ghost var before := frontier;
      frontier := C.Remove(frontier, i);
      if current == g {
        C.OptimalAtGoal(nbrs, h, s, g, cost, came, before, i);
        found := true;
        break;
      }
      var nb := grid.Neighbors(current);
      NotOwnNeighbor(grid, current);
      NeighborsDistinct(grid, current);
      var cost', came', frontier' := C.Relax(nb, current, h, cost, came, frontier);
      C.ExpandInv(nbrs, cells, h, s, g, cost, came, before, i, cost', came', frontier');
      cost, came, frontier := cost', came', frontier';
    }

    if !found {
      C.Exhausted(nbrs, h, s, g, cost, came);
    } else {
      var w := C.TreeWalk(nbrs, cost, came, s, g);
    }
  }

  /**
   * astar(grid, start, goal): the start and goal default to the grid's.  The
   * result is empty exactly when the goal cannot be reached; otherwise it is a
   * walk of neighbour steps from start to goal with no more cells than any
   * other such walk.
   */
  method AStar(grid: Grid, start: Option<Coord> := None, goal: Option<Coord> := None) returns (path: seq<Coord>)
    ensures var s, g := start.UnwrapOr(grid.start), goal.UnwrapOr(grid.goal);
      && (path == [] <==> !Reachable(Nbrs(grid), s, g))
      && (path != [] ==> IsWalk(Nbrs(grid), path, s, g))
      && (forall p :: IsWalk(Nbrs(grid), p, s, g) ==> |path| <= |p|)
      && (s == g ==> path == [s])
  {
    var s := start.UnwrapOr(grid.start);
    var g := goal.UnwrapOr(grid.goal);
    var came, cost := Search(grid, s, g);
    if g !in came {
      return [];
    }
    path := C.Reconstruct(Nbrs(grid), came, cost, s, g);
    if s == g {
      assert IsWalk(Nbrs(grid), [s], s, g);
    }
  }

  /** One step from s towards g: along x first, then along y; g itself when s == g. */
  function Toward(s: Coord, g: Coord): (t: Coord)
    ensures s != g ==> t in Candidates(s) && Dist(t, g) == Dist(s, g) - 1
    ensures s == g ==> t == g
  {
    if s.0 < g.0 then (s.0 + 1, s.1)
    else if s.0 > g.0 then (s.0 - 1, s.1)
    else if s.1 < g.1 then (s.0, s.1 + 1)
    else if s.1 > g.1 then (s.0, s.1 - 1)
    else s
  }

  /** The walk from s to g that steps Toward g until it arrives: Dist(s, g) steps. */
  function StraightWalk(s: Coord, g: Coord): (p: seq<Coord>)
    ensures |p| == Dist(s, g) + 1 && p[0] == s && p[|p| - 1] == g
    decreases Dist(s, g)
  {
    if s == g then [s] else [s] + StraightWalk(Toward(s, g), g)
  }

  /** On a grid without obstacles, the straight walk between two in-bounds cells is a walk of grid steps. */
  lemma {:induction false} StraightWalkOnOpenGrid(grid: Grid, s: Coord, g: Coord)
    requires grid.obstacles == {} && grid.InBounds(s) && grid.InBounds(g)
    ensures IsWalk(Nbrs(grid), StraightWalk(s, g), s, g)
    decreases Dist(s, g)
  {
    if s == g {
      assert StraightWalk(s, g) == [s];
    } else {
      var t := Toward(s, g);
      StraightWalkOnOpenGrid(grid, t, g);
      assert t in grid.Neighbors(s);
      C.WalkPrepend(Nbrs(grid), s, StraightWalk(t, g));
    }
  }

  /** On an obstacle-free grid, astar's path between two in-bounds cells has exactly Dist(start, goal) steps. */
  method OpenGridPath(grid: Grid, s: Coord, g: Coord) returns (path: seq<Coord>)
    requires grid.obstacles == {} && grid.InBounds(s) && grid.InBounds(g)
    ensures IsWalk(Nbrs(grid), path, s, g) && |path| - 1 == Dist(s, g)
  {
    StraightWalkOnOpenGrid(grid, s, g);
    path := AStar(grid, Some(s), Some(g));
    WalkAtLeastDist(grid, path, s, g);
  }

  /**
   * A goal none of whose four candidate cells is in bounds and passable
   * cannot be reached from a start that is neither the goal nor one of those
   * candidates: the last step into the goal comes from a candidate, which is
   * either the start or a cell the walk entered, hence in bounds and passable.
   */
  lemma EnclosedGoal(grid: Grid, s: Coord, g: Coord)
    requires forall c :: c in Candidates(g) ==> !(grid.InBounds(c) && grid.Passable(c))
    requires s != g && s !in Candidates(g)
    ensures !Reachable(Nbrs(grid), s, g)
  {
    if p :| IsWalk(Nbrs(grid), p, s, g) {
      var k := |p| - 2;
      assert g in grid.Neighbors(p[k]);
      if k > 0 {
        assert p[k] in grid.Neighbors(p[k - 1]);
      }
      CandidatesSymmetric(p[k], g);
      assert false;
    }
  }

  /** astar returns [] for an enclosed goal and a start that is neither the goal nor next to it. */
  method EnclosedGoalPath(grid: Grid, s: Coord, g: Coord) returns (path: seq<Coord>)
    requires forall c :: c in Candidates(g) ==> !(grid.InBounds(c) && grid.Passable(c))
    requires s != g && s !in Candidates(g)
    ensures path == []
  {
    EnclosedGoal(grid, s, g);
    path := AStar(grid, Some(s), Some(g));
  }

  /** The 5 x 5 grid of the test suite: row y = 2 is a wall except at x = 2. */
  function WallGrid(): Grid
  {
    Grid(5, 5, {(0, 2), (1, 2), (3, 2), (4, 2)}, (0, 0), (4, 4))
  }

  /** A sequence of in-bounds, obstacle-free cells, each one step from the last, is a walk. */
  lemma StepsAreWalk(grid: Grid, p: seq<Coord>)
    requires |p| >= 1
    requires forall i :: 0 <= i < |p| - 1 ==> p[i + 1] in Candidates(p[i])
    requires forall i :: 0 <= i < |p| ==> grid.InBounds(p[i]) && p[i] !in grid.obstacles
    ensures IsWalk(Nbrs(grid), p, p[0], p[|p| - 1])
  {
  }

  /** An 8-step walk around the wall, through the gap at (2, 2). */
  lemma WallGridWalk(grid: Grid)
    requires grid == WallGrid()
    ensures IsWalk(Nbrs(grid), [(0, 0), (1, 0), (2, 0), (2, 1), (2, 2), (2, 3), (2, 4), (3, 4), (4, 4)], (0, 0), (4, 4))
  {
    StepsAreWalk(grid, [(0, 0), (1, 0), (2, 0), (2, 1), (2, 2), (2, 3), (2, 4), (3, 4), (4, 4)]);
  }

  /** On the wall grid, astar finds a path of exactly 8 steps from (0, 0) to (4, 4). */
  method WallGridPath() returns (path: seq<Coord>)
    ensures |path| - 1 == 8 && path[0] == (0, 0) && path[|path| - 1] == (4, 4)
  {
    var grid := WallGrid();
    path := AStar(grid);
    WallGridWalk(grid);
    WalkAtLeastDist(grid, path, (0, 0), (4, 4));
  }
}
