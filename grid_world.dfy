/**
 * The immutable grid world: a width x height rectangle of cells, a set of
 * obstacle cells, a start cell and a goal cell.  Coordinates are (x, y)
 * pairs, exactly as the Python tuples are.
 */
module GridWorld {
  import opened Wrappers
  import opened Walks

  /** Manhattan distance between two cells. */
  function Dist(a: Coord, b: Coord): int
  {
    (if a.0 < b.0 then b.0 - a.0 else a.0 - b.0) + (if a.1 < b.1 then b.1 - a.1 else a.1 - b.1)
  }

  /** The four candidate cells around p, in the order east, west, south, north. */
  function Candidates(p: Coord): seq<Coord>
  {
    [(p.0 + 1, p.1), (p.0 - 1, p.1), (p.0, p.1 + 1), (p.0, p.1 - 1)]
  }

  /** The position of q in Candidates(p) (0 east, 1 west, 2 south, 3 north); 4 if q is none of them. */
  function Direction(p: Coord, q: Coord): nat
  {
    if q == (p.0 + 1, p.1) then 0
    else if q == (p.0 - 1, p.1) then 1
    else if q == (p.0, p.1 + 1) then 2
    else if q == (p.0, p.1 - 1) then 3
    else 4
  }

  /** Numpy's index rule for one axis of length n: -n <= i < n, negative values count from the end. */
  predicate Indexable(i: int, n: int)
  {
    -n <= i < n
  }

  function Wrap(i: int, n: int): int
  {
    if i < 0 then i + n else i
  }

  datatype Grid = Grid(width: int, height: int, obstacles: set<Coord>, start: Coord, goal: Coord)
  {
    predicate InBounds(p: Coord)
    {
      var (x, y) := p;
      0 <= x < width && 0 <= y < height
    }

    /** Passability is non-membership in the obstacle set; no bounds check. */
    predicate Passable(p: Coord)
    {
      p !in obstacles
    }

    /** The cells of cs that are in bounds and passable, in their original order. */
    function Keep(p: Coord, cs: seq<Coord>): (r: seq<Coord>)
      ensures |r| <= |cs|
      ensures forall q :: q in r <==> q in cs && InBounds(q) && Passable(q)
      ensures (forall i, j :: 0 <= i < j < |cs| ==> Direction(p, cs[i]) < Direction(p, cs[j])) ==>
                forall i, j :: 0 <= i < j < |r| ==> Direction(p, r[i]) < Direction(p, r[j])
    {
      if cs == [] then []
      else
        var rest := Keep(p, cs[1..]);
        if InBounds(cs[0]) && Passable(cs[0]) then
          assert (forall i, j :: 0 <= i < j < |cs| ==> Direction(p, cs[i]) < Direction(p, cs[j])) ==>
                   forall j :: 0 <= j < |rest| ==> Direction(p, cs[0]) < Direction(p, rest[j]) by {
            if forall i, j :: 0 <= i < j < |cs| ==> Direction(p, cs[i]) < Direction(p, cs[j]) {
              forall j | 0 <= j < |rest| ensures Direction(p, cs[0]) < Direction(p, rest[j]) {
                assert rest[j] in cs[1..];
                var k :| 0 <= k < |cs[1..]| && cs[1..][k] == rest[j];
                assert cs[k + 1] == rest[j];
              }
            }
          }
          [cs[0]] + rest
        else rest
    }

    /** The candidate cells that are in bounds and passable, keeping the east, west, south, north order. */
    function Neighbors(p: Coord): (r: seq<Coord>)
      ensures |r| <= 4
      ensures forall q :: q in r <==> q in Candidates(p) && InBounds(q) && Passable(q)
      ensures forall i :: 0 <= i < |r| ==> Dist(p, r[i]) == 1
      ensures forall i, j :: 0 <= i < j < |r| ==> Direction(p, r[i]) < Direction(p, r[j])
    {
      var c := Candidates(p);
      assert forall i, j :: 0 <= i < j < |c| ==> Direction(p, c[i]) < Direction(p, c[j]);
      assert forall q :: q in c ==> Dist(p, q) == 1;
      Keep(p, c)
    }

    /** The cost of moving between two cells: always 1. */
    function Cost(a: Coord, b: Coord): int
    {
      1
    }

    /** The summed Cost along a sequence of cells. */
    function PathCost(path: seq<Coord>): int
    {
      if |path| <= 1 then 0 else Cost(path[0], path[1]) + PathCost(path[1..])
    }

    /** True when (x, y) is the target of some obstacle under numpy's index rule. */
    ghost predicate Marked(x: int, y: int)
    {
      exists o :: o in obstacles && Wrap(o.0, width) == x && Wrap(o.1, height) == y
    }

    /** Every obstacle can index a height x width array (otherwise numpy raises IndexError). */
    predicate ObstaclesIndexable()
    {
      forall o :: o in obstacles ==> Indexable(o.0, width) && Indexable(o.1, height)
    }

    /**
     * The 0/1 occupancy array, indexed [y, x].  None stands for the numpy
     * error: a negative dimension or an obstacle that cannot index the array.
     */
    method ToNumpy() returns (r: Option<array2<int>>)
      ensures r.Some? <==> width >= 0 && height >= 0 && ObstaclesIndexable()
      ensures r.Some? ==> fresh(r.value) && r.value.Length0 == height && r.value.Length1 == width
      ensures r.Some? ==> forall y, x :: 0 <= y < height && 0 <= x < width ==>
                            r.value[y, x] == if Marked(x, y) then 1 else 0
    {
      if width < 0 || height < 0 {
        return None;
      }
      var a := new int[height, width]((y, x) => 0);
      var todo := obstacles;
      while todo != {}
        invariant todo <= obstacles
        invariant forall o :: o in obstacles - todo ==> Indexable(o.0, width) && Indexable(o.1, height)
        invariant forall y, x :: 0 <= y < height && 0 <= x < width ==>
                    a[y, x] == if exists o :: o in obstacles - todo && Wrap(o.0, width) == x && Wrap(o.1, height) == y then 1 else 0
        decreases |todo|
      {
        var o :| o in todo;
        if !(Indexable(o.0, width) && Indexable(o.1, height)) {
          return None;
        }
        a[Wrap(o.1, height), Wrap(o.0, width)] := 1;
        todo := todo - {o};
      }
      return Some(a);
    }
  }

  /** The direction order is a strict order on neighbours, so the result never repeats a cell. */
  lemma NeighborsDistinct(g: Grid, p: Coord)
    ensures forall i, j :: 0 <= i < j < |g.Neighbors(p)| ==> g.Neighbors(p)[i] != g.Neighbors(p)[j]
  {
  }

  /** A cell is never its own neighbour. */
  lemma NotOwnNeighbor(g: Grid, p: Coord)
    ensures p !in g.Neighbors(p)
  {
  }

  /** Neighbourhood is symmetric between in-bounds passable cells. */
  lemma NeighborsSymmetric(g: Grid, p: Coord, q: Coord)
    requires q in g.Neighbors(p)
    requires g.InBounds(p) && g.Passable(p)
    ensures p in g.Neighbors(q)
  {
    CandidatesSymmetric(p, q);
  }

  /** Being one step apart is symmetric. */
  lemma CandidatesSymmetric(p: Coord, q: Coord)
    requires q in Candidates(p)
    ensures p in Candidates(q)
  {
  }

  /** Grid.Neighbors as a value of function type, the shape walks and the search core work on. */
  function Nbrs(g: Grid): Coord -> seq<Coord>
  {
    p => g.Neighbors(p)
  }

  /** Every walk over the grid takes at least the Manhattan distance between its ends in steps. */
  lemma {:induction false} WalkAtLeastDist(g: Grid, p: seq<Coord>, s: Coord, t: Coord)
    requires IsWalk(Nbrs(g), p, s, t)
    ensures |p| - 1 >= Dist(s, t)
  {
    if |p| > 1 {
      var rest := p[1..];
      assert IsWalk(Nbrs(g), rest, p[1], t) by {
        forall i | 0 <= i < |rest| - 1 ensures rest[i + 1] in Nbrs(g)(rest[i]) {
          assert p[i + 2] in Nbrs(g)(p[i + 1]);
        }
      }
      WalkAtLeastDist(g, rest, p[1], t);
      assert p[1] in g.Neighbors(s);
    }
  }

  /** With unit step cost, the cost of a path is its number of steps. */
  lemma {:induction false} PathCostIsSteps(g: Grid, path: seq<Coord>)
    requires |path| >= 1
    ensures g.PathCost(path) == |path| - 1
  {
    if |path| > 1 {
      PathCostIsSteps(g, path[1..]);
    }
  }

  /** When every obstacle lies in bounds, cell [y, x] of the array is 1 exactly on obstacles. */
  lemma MarkedInBounds(g: Grid, x: int, y: int)
    requires forall o :: o in g.obstacles ==> g.InBounds(o)
    requires 0 <= x < g.width && 0 <= y < g.height
    ensures g.Marked(x, y) <==> (x, y) in g.obstacles
  {
    if g.Marked(x, y) {
      var o :| o in g.obstacles && Wrap(o.0, g.width) == x && Wrap(o.1, g.height) == y;
      assert o == (x, y);
    }
  }
}
