/**
 * Cells and walks: a cell is an (int, int) pair, and a walk is a sequence of
 * cells each of which is a neighbour of the one before, for any neighbour
 * function.  The grid world, both searches and the greedy path share them.
 */
module Walks {
  type Coord = (int, int)

  /** p is a walk from s to t: consecutive cells are neighbour steps. */
  ghost predicate IsWalk(nbrs: Coord -> seq<Coord>, p: seq<Coord>, s: Coord, t: Coord)
  {
    |p| >= 1 && p[0] == s && p[|p| - 1] == t &&
    forall i :: 0 <= i < |p| - 1 ==> p[i + 1] in nbrs(p[i])
  }

  /** Some walk leads from s to t. */
  ghost predicate Reachable(nbrs: Coord -> seq<Coord>, s: Coord, t: Coord)
  {
    exists p :: IsWalk(nbrs, p, s, t)
  }
}
