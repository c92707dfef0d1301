/**
 * The second A*: it works on a row/column occupancy array (0 free, anything
 * else blocked), heap entries (f, g, coord), and returns None when an end
 * cell is an obstacle or the goal is never popped.  Coordinates are
 * (row, column) pairs.
 */
module Robotics {
  import opened Wrappers
  import opened Walks
  import opened GridWorld
  import C = AStarCore

  /** An element of the uint8 occupancy array. */
  type Cell = x: int | 0 <= x < 256

  /** A rows x cols array, held row by row; every row has the length of the first. */
  type Raster = g: seq<seq<Cell>> | forall r :: 0 <= r < |g| ==> |g[r]| == |g[0]|
    witness []

  /** grid.shape[0]. */
  function Rows(g: Raster): nat
  {
    |g|
  }

  /** grid.shape[1]. */
  function Cols(g: Raster): nat
  {
    if |g| == 0 then 0 else |g[0]|
  }

  /** A cell numpy can index, and its value grid[p] under numpy's index rule. */
  predicate Addressable(g: Raster, p: Coord)
  {
    Indexable(p.0, Rows(g)) && Indexable(p.1, Cols(g))
  }

  function ValueAt(g: Raster, p: Coord): Cell
    requires Addressable(g, p)
  {
    g[Wrap(p.0, Rows(g))][Wrap(p.1, Cols(g))]
  }

  /** A cell the search may enter: within the shape, without wrap-around, and 0 in the array. */
  predicate Free(g: Raster, q: Coord)
  {
    0 <= q.0 < Rows(g) && 0 <= q.1 < Cols(g) && g[q.0][q.1] == 0
  }

  /** The four candidate cells around p, in the order up, down, left, right. */
  function Steps(p: Coord): seq<Coord>
  {
    [(p.0 - 1, p.1), (p.0 + 1, p.1), (p.0, p.1 - 1), (p.0, p.1 + 1)]
  }

  /** The position of q in Steps(p) (0 up, 1 down, 2 left, 3 right); 4 if q is none of them. */
  function StepIndex(p: Coord, q: Coord): nat
  {
    if q == (p.0 - 1, p.1) then 0
    else if q == (p.0 + 1, p.1) then 1
    else if q == (p.0, p.1 - 1) then 2
    else if q == (p.0, p.1 + 1) then 3
    else 4
  }

  /** The free cells of cs, in their order. */
  function FreeOf(g: Raster, cs: seq<Coord>): seq<Coord>
  {
    if cs == [] then []
    else FreeOf(g, cs[..|cs| - 1]) + (if Free(g, cs[|cs| - 1]) then [cs[|cs| - 1]] else [])
  }

  /** The neighbours of p: the free candidate cells, up, down, left, right. */
  function NeighborsOf(g: Raster, p: Coord): seq<Coord>
  {
    FreeOf(g, Steps(p))
  }

  /** FreeOf keeps exactly the free cells of cs. */
  lemma {:induction false} FreeOfMembers(g: Raster, cs: seq<Coord>)
    ensures |FreeOf(g, cs)| <= |cs|
    ensures forall q :: q in FreeOf(g, cs) <==> q in cs && Free(g, q)
  {
    if cs != [] {
      FreeOfMembers(g, cs[..|cs| - 1]);
      assert cs == cs[..|cs| - 1] + [cs[|cs| - 1]];
    }
  }

  /** An order by StepIndex that cs follows, FreeOf(cs) follows too. */
  lemma {:induction false} FreeOfOrdered(g: Raster, p: Coord, cs: seq<Coord>)
    requires forall i, j :: 0 <= i < j < |cs| ==> StepIndex(p, cs[i]) < StepIndex(p, cs[j])
    ensures forall i, j :: 0 <= i < j < |FreeOf(g, cs)| ==> StepIndex(p, FreeOf(g, cs)[i]) < StepIndex(p, FreeOf(g, cs)[j])
  {
    if cs != [] {
      var init, last := cs[..|cs| - 1], cs[|cs| - 1];
      FreeOfOrdered(g, p, init);
      FreeOfMembers(g, init);
      var r, ri := FreeOf(g, cs), FreeOf(g, init);
      if Free(g, last) {
        forall i, j | 0 <= i < j < |r| ensures StepIndex(p, r[i]) < StepIndex(p, r[j]) {
          if j == |r| - 1 {
            assert r[i] == ri[i] && ri[i] in init;
            var k :| 0 <= k < |init| && init[k] == r[i];
            assert cs[k] == r[i];
          } else {
            assert r[i] == ri[i] && r[j] == ri[j];
          }
        }
      }
    }
  }

  /**
   * The neighbours of p are at most four free cells, each one step from p,
   * listed up, down, left, right; every free candidate cell is listed.
   */
  lemma NeighborsOfFacts(g: Raster, p: Coord)
    ensures |NeighborsOf(g, p)| <= 4
    ensures forall q :: q in NeighborsOf(g, p) <==> q in Steps(p) && Free(g, q)
    ensures forall q :: q in NeighborsOf(g, p) ==> Dist(p, q) == 1
    ensures forall i, j :: 0 <= i < j < |NeighborsOf(g, p)| ==>
              StepIndex(p, NeighborsOf(g, p)[i]) < StepIndex(p, NeighborsOf(g, p)[j])
  {
    FreeOfMembers(g, Steps(p));
    FreeOfOrdered(g, p, Steps(p));
  }

  /** A cell is never its own neighbour, and no neighbour is listed twice. */
  lemma NeighborsOfDistinct(g: Raster, p: Coord)
    ensures p !in NeighborsOf(g, p)
    ensures C.Distinct(NeighborsOf(g, p))
  {
    NeighborsOfFacts(g, p);
  }

  /** Neighbourhood is symmetric between free cells. */
  lemma NeighborsOfSymmetric(g: Raster, p: Coord, q: Coord)
    requires q in NeighborsOf(g, p) && Free(g, p)
    ensures p in NeighborsOf(g, q)
  {
    NeighborsOfFacts(g, p);
    NeighborsOfFacts(g, q);
    assert p in Steps(q);
  }

  /** neighbors(pos, grid): the loop over the four steps, appending each free cell. */
  method Neighbors(pos: Coord, grid: Raster) returns (result: seq<Coord>)
    ensures result == NeighborsOf(grid, pos)
  {
    var steps := Steps(pos);
    result := [];
    for k := 0 to 4
      invariant result == FreeOf(grid, steps[..k])
    {
      var n := steps[k];
      assert steps[..k + 1][..k] == steps[..k];
      if 0 <= n.0 < Rows(grid) && 0 <= n.1 < Cols(grid) && grid[n.0][n.1] == 0 {
        result := result + [n];
      }
    }
    assert steps[..4] == steps;
  }

  /** The Manhattan heuristic |a0 - b0| + |a1 - b1|. */
  function Heuristic(a: Coord, b: Coord): (r: int)
    ensures r >= 0
    ensures r == 0 <==> a == b
  {
    Dist(a, b)
  }

  /** neighbors as a value of function type, the shape the search core works on. */
  function Nbrs(g: Raster): Coord -> seq<Coord>
  {
    p => NeighborsOf(g, p)
  }

  /** The Manhattan heuristic is consistent with steps of the array and zero at the goal. */
  lemma HeuristicConsistent(g: Raster, goal: Coord)
    ensures C.Consistent(Nbrs(g), p => Heuristic(p, goal), goal)
  {
    forall a, b | b in Nbrs(g)(a) ensures Heuristic(a, goal) <= Heuristic(b, goal) + 1 {
      NeighborsOfFacts(g, a);
    }
  }

  /** Every walk over the array takes at least the Manhattan distance in steps. */
  lemma HeuristicAdmissible(g: Raster, p: seq<Coord>, s: Coord, t: Coord)
    requires IsWalk(Nbrs(g), p, s, t)
    ensures |p| - 1 >= Heuristic(s, t)
  {
    HeuristicConsistent(g, t);
    C.HeuristicAlongWalk(Nbrs(g), p => Heuristic(p, t), t, p, 0);
  }

  /** Every neighbour is a cell of the array, so it is listed. */
  lemma CoversRaster(g: Raster, s: Coord)
    ensures C.Covers(Nbrs(g), C.AllCells(Rows(g), Cols(g)) + [s])
  {
    forall a, b | b in Nbrs(g)(a) ensures b in C.AllCells(Rows(g), Cols(g)) + [s] {
      NeighborsOfFacts(g, a);
      C.InAllCells(Rows(g), Cols(g), b);
    }
  }

  /** Every cell of a walk after its first is free. */
  lemma WalkFree(g: Raster, p: seq<Coord>, s: Coord, t: Coord, i: nat)
    requires IsWalk(Nbrs(g), p, s, t) && 0 < i < |p|
    ensures Free(g, p[i])
  {
    assert p[i] in NeighborsOf(g, p[i - 1]);
    NeighborsOfFacts(g, p[i - 1]);
  }

  /** The `grid[start] == 1 or grid[goal] == 1` guard. */
  predicate Blocked(g: Raster, p: Coord)
    requires Addressable(g, p)
  {
    ValueAt(g, p) == 1
  }

  /**
   * The `while open_set` loop of a_star: pops the least (f, g, coord) entry,
   * stops on the goal, otherwise relaxes the popped cell's neighbours.  The
   * goal is popped exactly when it is reachable, and then its cost is no
   * larger than the steps of any walk to it.
   */
  method Search(grid: Raster, start: Coord, goal: Coord)
      returns (found: bool, came: map<Coord, Option<Coord>>, cost: map<Coord, int>)
    ensures C.TreeOk(Nbrs(grid), start, cost, came)
    ensures found <==> Reachable(Nbrs(grid), start, goal)
    ensures found ==> goal in came && forall p :: IsWalk(Nbrs(grid), p, start, goal) ==> cost[goal] <= |p| - 1
  {
    ghost var nbrs := Nbrs(grid);
    var h := (p: Coord) => Heuristic(p, goal);
    ghost var cells := C.AllCells(Rows(grid), Cols(grid)) + [start];
    CoversRaster(grid, start);
    HeuristicConsistent(grid, goal);

    var frontier := [C.Entry(Heuristic(start, goal), 0, start)];
    came := map[start := None];
    cost := map[start := 0];
    C.InitInv(nbrs, h, start, goal, Heuristic(start, goal));

    while frontier != []
      invariant C.SearchInv(nbrs, h, start, goal, cost, came, frontier)
      invariant C.Bounded(cells, cost)
      decreases C.Pot(cells, cost, |cells| + 1), |frontier|
    {
      var i := C.MinIndex(frontier, true);
      var current := frontier[i].c;
      ghost var before := frontier;
      frontier := C.Remove(frontier, i);
      if current == goal {
        C.OptimalAtGoal(nbrs, h, start, goal, cost, came, before, i);
        var _ := C.TreeWalk(nbrs, cost, came, start, goal);
        return true, came, cost;
      }
      var nb := Neighbors(current, grid);
      NeighborsOfDistinct(grid, current);
      var cost', came', frontier' := C.Relax(nb, current, h, cost, came, frontier);
      C.ExpandInv(nbrs, cells, h, start, goal, cost, came, before, i, cost', came', frontier');
      cost, came, frontier := cost', came', frontier';
    }
    C.Exhausted(nbrs, h, start, goal, cost, came);
    return false, came, cost;
  }

  /**
   * a_star(grid, start, goal).  None when an end cell holds 1; otherwise None
   * exactly when the goal cannot be reached, and else a walk of neighbour
   * steps from start to goal with no more cells than any other such walk,
   * which is [start] alone when start is the goal.
   */
  method AStar(grid: Raster, start: Coord, goal: Coord) returns (r: Option<seq<Coord>>)
    requires Addressable(grid, start) && (!Blocked(grid, start) ==> Addressable(grid, goal))
    ensures Blocked(grid, start) || Blocked(grid, goal) ==> r == None
    ensures !Blocked(grid, start) && !Blocked(grid, goal) ==> (r == None <==> !Reachable(Nbrs(grid), start, goal))
    ensures r.Some? ==> IsWalk(Nbrs(grid), r.value, start, goal)
    ensures r.Some? ==> forall p :: IsWalk(Nbrs(grid), p, start, goal) ==> |r.value| <= |p|
    ensures start == goal && !Blocked(grid, start) ==> r == Some([start])
  {
    if ValueAt(grid, start) == 1 || ValueAt(grid, goal) == 1 {
      return None;
    }
    var found, came, cost := Search(grid, start, goal);
    if start == goal {
      assert IsWalk(Nbrs(grid), [start], start, goal);
    }
    if !found {
      return None;
    }
    var path := C.Reconstruct(Nbrs(grid), came, cost, start, goal);
    if start == goal {
      assert path == [start];
    }
    return Some(path);
  }
}
