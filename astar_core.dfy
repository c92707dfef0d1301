/**
 * The search machinery both A* implementations share: heap entries, the
 * minimum pop, the relaxation of one cell's neighbours, the reconstruction
 * of a path from predecessor links, and the invariants that make A* sound,
 * complete, terminating and optimal.  The grid is abstracted as a
 * neighbour function `nbrs`, the heuristic as `h`.
 */
module AStarCore {
  import opened Wrappers
  import opened Walks

  // ---------------------------------------------------------------- walks

  /** A consistent heuristic: zero at the goal and dropping by at most 1 per step. */
  ghost predicate Consistent(nbrs: Coord -> seq<Coord>, h: Coord -> int, goal: Coord)
  {
    h(goal) == 0 && forall a, b :: b in nbrs(a) ==> h(a) <= h(b) + 1
  }

  /** A step to the first cell of a walk extends it to a walk from the new cell. */
  lemma WalkPrepend(nbrs: Coord -> seq<Coord>, s: Coord, q: seq<Coord>)
    requires |q| >= 1 && q[0] in nbrs(s) && IsWalk(nbrs, q, q[0], q[|q| - 1])
    ensures IsWalk(nbrs, [s] + q, s, q[|q| - 1])
  {
    var p := [s] + q;
    forall i | 0 <= i < |p| - 1
      ensures p[i + 1] in nbrs(p[i])
    {
      if i > 0 {
        assert p[i] == q[i - 1] && p[i + 1] == q[i];
      }
    }
  }

  predicate Distinct(s: seq<Coord>)
  {
    forall i, j :: 0 <= i < j < |s| ==> s[i] != s[j]
  }

  /** Along a walk, a consistent heuristic never overestimates the remaining steps. */
  lemma {:induction false} HeuristicAlongWalk(nbrs: Coord -> seq<Coord>, h: Coord -> int, goal: Coord,
                                              p: seq<Coord>, i: nat)
    requires Consistent(nbrs, h, goal)
    requires i < |p| && IsWalk(nbrs, p, p[0], goal)
    ensures h(p[i]) <= |p| - 1 - i
    decreases |p| - i
  {
    if i < |p| - 1 {
      HeuristicAlongWalk(nbrs, h, goal, p, i + 1);
      assert p[i + 1] in nbrs(p[i]);
    }
  }

  // ------------------------------------------------------------- frontier

  /** A heap entry (f, g, coord). */
  datatype Entry = Entry(f: int, g: int, c: Coord)

  predicate CoordLe(a: Coord, b: Coord)
  {
    a.0 < b.0 || (a.0 == b.0 && a.1 <= b.1)
  }

  /**
   * Python's tuple order on heap entries: by f, then (when byG) by g, then
   * by the coordinate.  With byG false the entry stands for a (f, coord) pair.
   */
  predicate EntryLe(a: Entry, b: Entry, byG: bool)
  {
    a.f < b.f ||
    (a.f == b.f && (if byG then a.g < b.g || (a.g == b.g && CoordLe(a.c, b.c)) else CoordLe(a.c, b.c)))
  }

  /** The index of the entry heappop returns: one that is least in tuple order. */
  method MinIndex(frontier: seq<Entry>, byG: bool) returns (i: nat)
    requires |frontier| > 0
    ensures i < |frontier|
    ensures forall j :: 0 <= j < |frontier| ==> EntryLe(frontier[i], frontier[j], byG)
  {
    i := 0;
    var k := 1;
    while k < |frontier|
      invariant 1 <= k <= |frontier| && i < k
      invariant forall j :: 0 <= j < k ==> EntryLe(frontier[i], frontier[j], byG)
    {
      if !EntryLe(frontier[i], frontier[k], byG) {
        i := k;
      }
      k := k + 1;
    }
  }

  function Remove(frontier: seq<Entry>, i: nat): (r: seq<Entry>)
    requires i < |frontier|
    ensures |r| == |frontier| - 1
    ensures forall j :: 0 <= j < i ==> r[j] == frontier[j]
    ensures forall j :: i <= j < |r| ==> r[j] == frontier[j + 1]
  {
    frontier[..i] + frontier[i + 1..]
  }

  // ---------------------------------------------------------- relaxation

  /** Relaxing via current improves k: k is a neighbour that is new or now strictly cheaper. */
  predicate Improves(nb: seq<Coord>, current: Coord, cost: map<Coord, int>, k: Coord)
    requires current in cost
  {
    k in nb && (k !in cost || cost[current] + 1 < cost[k])
  }

  /** What one pass over current's neighbours does to the maps and the heap. */
  ghost predicate RelaxSpec(nb: seq<Coord>, current: Coord, h: Coord -> int,
                            cost: map<Coord, int>, came: map<Coord, Option<Coord>>, frontier: seq<Entry>,
                            cost': map<Coord, int>, came': map<Coord, Option<Coord>>, frontier': seq<Entry>)
    requires current in cost
  {
    && RelaxKeys(nb, cost, cost', came')
    && RelaxCosts(nb, current, cost, cost', came')
    && RelaxCame(nb, current, cost, came, came')
    && RelaxPushes(nb, current, h, cost, frontier, frontier')
  }

  ghost predicate RelaxKeys(nb: seq<Coord>, cost: map<Coord, int>, cost': map<Coord, int>,
                            came': map<Coord, Option<Coord>>)
  {
    (forall k :: k in cost' <==> k in cost || k in nb) && came'.Keys == cost'.Keys
  }

  ghost predicate RelaxCosts(nb: seq<Coord>, current: Coord, cost: map<Coord, int>, cost': map<Coord, int>,
                             came': map<Coord, Option<Coord>>)
    requires current in cost
  {
    && (forall k :: k in cost' && k in came' && Improves(nb, current, cost, k) ==>
          cost'[k] == cost[current] + 1 && came'[k] == Some(current))
    && (forall k :: k in cost' && !Improves(nb, current, cost, k) ==>
          k in cost && cost'[k] == cost[k])
  }

  ghost predicate RelaxCame(nb: seq<Coord>, current: Coord, cost: map<Coord, int>,
                            came: map<Coord, Option<Coord>>, came': map<Coord, Option<Coord>>)
    requires current in cost
  {
    forall k :: k in came && !Improves(nb, current, cost, k) ==> k in came' && came'[k] == came[k]
  }

  ghost predicate RelaxPushes(nb: seq<Coord>, current: Coord, h: Coord -> int, cost: map<Coord, int>,
                              frontier: seq<Entry>, frontier': seq<Entry>)
    requires current in cost
  {
    && |frontier| <= |frontier'| && frontier'[..|frontier|] == frontier
    && (forall i :: |frontier| <= i < |frontier'| ==>
          Improves(nb, current, cost, frontier'[i].c) && frontier'[i].g == cost[current] + 1 &&
          frontier'[i].f == frontier'[i].g + h(frontier'[i].c))
    && (forall k :: Improves(nb, current, cost, k) ==>
          exists i :: |frontier| <= i < |frontier'| && frontier'[i].c == k)
  }

  /** One iteration of the relaxation loop, on the neighbour nxt. */
  ghost predicate RelaxedOne(nxt: Coord, current: Coord, h: Coord -> int,
                             cost: map<Coord, int>, came: map<Coord, Option<Coord>>, frontier: seq<Entry>,
                             cost': map<Coord, int>, came': map<Coord, Option<Coord>>, frontier': seq<Entry>)
    requires current in cost
  {
    if nxt !in cost || cost[current] + 1 < cost[nxt] then
      && cost' == cost[nxt := cost[current] + 1]
      && came' == came[nxt := Some(current)]
      && frontier' == frontier + [Entry(cost[current] + 1 + h(nxt), cost[current] + 1, nxt)]
    else
      cost' == cost && came' == came && frontier' == frontier
  }

  lemma ImprovesExtend(nb: seq<Coord>, j: nat, current: Coord, cost: map<Coord, int>)
    requires j < |nb| && current in cost
    ensures forall k :: Improves(nb[..j + 1], current, cost, k) <==>
              Improves(nb[..j], current, cost, k) || (k == nb[j] && (k !in cost || cost[current] + 1 < cost[k]))
  {
    assert nb[..j + 1] == nb[..j] + [nb[j]];
  }

  /** The facts about nb[..j] and nb[..j + 1] each part of RelaxStep relies on. */
  ghost predicate StepFacts(nb: seq<Coord>, j: nat, current: Coord, cost: map<Coord, int>, c0: map<Coord, int>)
    requires j < |nb| && current in cost
  {
    && (forall k :: Improves(nb[..j + 1], current, cost, k) <==>
          Improves(nb[..j], current, cost, k) || (k == nb[j] && (k !in cost || cost[current] + 1 < cost[k])))
    && (forall k :: k in nb[..j + 1] <==> k in nb[..j] || k == nb[j])
    && !Improves(nb[..j], current, cost, nb[j])
    && (nb[j] in c0 <==> nb[j] in cost)
    && (nb[j] in c0 ==> c0[nb[j]] == cost[nb[j]])
    && current in c0 && c0[current] == cost[current]
  }

  lemma StepKeys(nb: seq<Coord>, j: nat, current: Coord, h: Coord -> int,
                 cost: map<Coord, int>, c0: map<Coord, int>, m0: map<Coord, Option<Coord>>, f0: seq<Entry>,
                 c1: map<Coord, int>, m1: map<Coord, Option<Coord>>, f1: seq<Entry>)
    requires j < |nb| && current in cost && StepFacts(nb, j, current, cost, c0)
    requires RelaxKeys(nb[..j], cost, c0, m0)
    requires RelaxedOne(nb[j], current, h, c0, m0, f0, c1, m1, f1)
    ensures RelaxKeys(nb[..j + 1], cost, c1, m1)
  {
  }

  lemma StepCosts(nb: seq<Coord>, j: nat, current: Coord, h: Coord -> int,
                  cost: map<Coord, int>, c0: map<Coord, int>, m0: map<Coord, Option<Coord>>, f0: seq<Entry>,
                  c1: map<Coord, int>, m1: map<Coord, Option<Coord>>, f1: seq<Entry>)
    requires j < |nb| && current in cost && current != nb[j] && StepFacts(nb, j, current, cost, c0)
    requires RelaxCosts(nb[..j], current, cost, c0, m0)
    requires RelaxedOne(nb[j], current, h, c0, m0, f0, c1, m1, f1)
    ensures RelaxCosts(nb[..j + 1], current, cost, c1, m1)
  {
  }

  lemma StepCame(nb: seq<Coord>, j: nat, current: Coord, h: Coord -> int,
                 cost: map<Coord, int>, came: map<Coord, Option<Coord>>,
                 c0: map<Coord, int>, m0: map<Coord, Option<Coord>>, f0: seq<Entry>,
                 c1: map<Coord, int>, m1: map<Coord, Option<Coord>>, f1: seq<Entry>)
    requires j < |nb| && current in cost && StepFacts(nb, j, current, cost, c0)
    requires RelaxCame(nb[..j], current, cost, came, m0)
    requires RelaxedOne(nb[j], current, h, c0, m0, f0, c1, m1, f1)
    ensures RelaxCame(nb[..j + 1], current, cost, came, m1)
  {
  }

  lemma StepPushes(nb: seq<Coord>, j: nat, current: Coord, h: Coord -> int,
                   cost: map<Coord, int>, frontier: seq<Entry>,
                   c0: map<Coord, int>, m0: map<Coord, Option<Coord>>, f0: seq<Entry>,
                   c1: map<Coord, int>, m1: map<Coord, Option<Coord>>, f1: seq<Entry>)
    requires j < |nb| && current in cost && StepFacts(nb, j, current, cost, c0)
    requires RelaxPushes(nb[..j], current, h, cost, frontier, f0)
    requires RelaxedOne(nb[j], current, h, c0, m0, f0, c1, m1, f1)
    ensures RelaxPushes(nb[..j + 1], current, h, cost, frontier, f1)
  {
    var nxt := nb[j];
    if nxt !in c0 || c0[current] + 1 < c0[nxt] {
      assert f1[|f1| - 1].c == nxt;
      assert f1[..|frontier|] == f0[..|frontier|];
      assert forall i :: 0 <= i < |f0| ==> f1[i] == f0[i];
    }
  }

  /** Extending the relaxation by one more neighbour keeps RelaxSpec. */
  lemma RelaxStep(nb: seq<Coord>, j: nat, current: Coord, h: Coord -> int,
                  cost: map<Coord, int>, came: map<Coord, Option<Coord>>, frontier: seq<Entry>,
                  c0: map<Coord, int>, m0: map<Coord, Option<Coord>>, f0: seq<Entry>,
                  c1: map<Coord, int>, m1: map<Coord, Option<Coord>>, f1: seq<Entry>)
    requires j < |nb| && current in cost && current !in nb && Distinct(nb)
    requires RelaxSpec(nb[..j], current, h, cost, came, frontier, c0, m0, f0)
    requires current in c0 && c0[current] == cost[current]
    requires RelaxedOne(nb[j], current, h, c0, m0, f0, c1, m1, f1)
    ensures RelaxSpec(nb[..j + 1], current, h, cost, came, frontier, c1, m1, f1)
    ensures current in c1 && c1[current] == cost[current]
  {
    var nxt := nb[j];
    assert nb[..j + 1] == nb[..j] + [nxt];
    assert nxt !in nb[..j] by {
      assert forall i :: 0 <= i < j ==> nb[..j][i] == nb[i] && nb[i] != nxt;
    }
    ImprovesExtend(nb, j, current, cost);
    assert StepFacts(nb, j, current, cost, c0);
    StepKeys(nb, j, current, h, cost, c0, m0, f0, c1, m1, f1);
    StepCosts(nb, j, current, h, cost, c0, m0, f0, c1, m1, f1);
    StepCame(nb, j, current, h, cost, came, c0, m0, f0, c1, m1, f1);
    StepPushes(nb, j, current, h, cost, frontier, c0, m0, f0, c1, m1, f1);
  }

  /**
   * The `for nxt in neighbors(current)` loop: a neighbour whose cost through
   * current is new or strictly smaller gets that cost, current as its
   * predecessor, and a heap entry (g + h, g, nxt).
   */
  method Relax(nb: seq<Coord>, current: Coord, h: Coord -> int,
               cost: map<Coord, int>, came: map<Coord, Option<Coord>>, frontier: seq<Entry>)
    returns (cost': map<Coord, int>, came': map<Coord, Option<Coord>>, frontier': seq<Entry>)
    requires current in cost && current !in nb && Distinct(nb)
    requires came.Keys == cost.Keys
    ensures RelaxSpec(nb, current, h, cost, came, frontier, cost', came', frontier')
    ensures |frontier'| == |frontier| ==> cost' == cost
  {
    cost', came', frontier' := cost, came, frontier;
    for j := 0 to |nb|
      invariant current in cost' && cost'[current] == cost[current]
      invariant RelaxSpec(nb[..j], current, h, cost, came, frontier, cost', came', frontier')
      invariant |frontier'| == |frontier| ==> cost' == cost
    {
      var nxt := nb[j];
      ghost var c0, m0, f0 := cost', came', frontier';
      var newCost := cost'[current] + 1;
      if nxt !in cost' || newCost < cost'[nxt] {
        cost' := cost'[nxt := newCost];
        frontier' := frontier' + [Entry(newCost + h(nxt), newCost, nxt)];
        came' := came'[nxt := Some(current)];
      }
      RelaxStep(nb, j, current, h, cost, came, frontier, c0, m0, f0, cost', came', frontier');
    }
    assert nb[..|nb|] == nb;
  }

  // ---------------------------------------------------- search invariant

  /** k has a recorded predecessor, k is one of its neighbours, and it is strictly cheaper. */
  ghost predicate ParentOk(nbrs: Coord -> seq<Coord>, cost: map<Coord, int>,
                           came: map<Coord, Option<Coord>>, k: Coord)
  {
    k in came && k in cost && came[k].Some? && came[k].value in cost &&
    k in nbrs(came[k].value) && cost[came[k].value] + 1 <= cost[k]
  }

  /** The came_from / cost_so_far maps: same keys, start at cost 0 with no predecessor. */
  ghost predicate TreeOk(nbrs: Coord -> seq<Coord>, start: Coord,
                         cost: map<Coord, int>, came: map<Coord, Option<Coord>>)
  {
    && start in cost && cost[start] == 0
    && came.Keys == cost.Keys
    && came[start] == None
    && (forall k :: k in cost ==> cost[k] >= 0)
    && (forall k :: k in came && k != start ==> ParentOk(nbrs, cost, came, k))
  }

  /** A heap entry names a known cell and, except for the start entry, f is at least g + h. */
  ghost predicate EntryOk(h: Coord -> int, start: Coord, cost: map<Coord, int>, e: Entry)
  {
    e.c in cost && (e.c == start || e.f >= cost[e.c] + h(e.c))
  }

  ghost predicate FrontierOk(h: Coord -> int, start: Coord, goal: Coord,
                             cost: map<Coord, int>, frontier: seq<Entry>)
  {
    && (forall i :: 0 <= i < |frontier| ==> EntryOk(h, start, cost, frontier[i]))
    && (goal in cost ==> exists i :: 0 <= i < |frontier| && frontier[i].c == goal)
  }

  /** Every neighbour of k is known and no dearer than one step past k. */
  ghost predicate Settled(nbrs: Coord -> seq<Coord>, cost: map<Coord, int>, k: Coord)
  {
    k in cost && forall n :: n in nbrs(k) ==> n in cost && cost[n] <= cost[k] + 1
  }

  /** k still has a heap entry whose f does not exceed its current g + h. */
  ghost predicate Queued(h: Coord -> int, cost: map<Coord, int>, frontier: seq<Entry>, k: Coord)
  {
    k in cost && exists i :: 0 <= i < |frontier| && frontier[i].c == k && frontier[i].f <= cost[k] + h(k)
  }

  /** Every known cell, except possibly `except`, is settled or queued. */
  ghost predicate Progress(nbrs: Coord -> seq<Coord>, h: Coord -> int, cost: map<Coord, int>,
                           frontier: seq<Entry>, except: Option<Coord>)
  {
    forall k :: k in cost && Some(k) != except ==> Settled(nbrs, cost, k) || Queued(h, cost, frontier, k)
  }

  ghost predicate SearchInv(nbrs: Coord -> seq<Coord>, h: Coord -> int, start: Coord, goal: Coord,
                            cost: map<Coord, int>, came: map<Coord, Option<Coord>>, frontier: seq<Entry>)
  {
    TreeOk(nbrs, start, cost, came) && FrontierOk(h, start, goal, cost, frontier) &&
    Progress(nbrs, h, cost, frontier, None)
  }

  /** The state before the first pop: only the start is known, with one heap entry. */
  lemma InitInv(nbrs: Coord -> seq<Coord>, h: Coord -> int, start: Coord, goal: Coord, f0: int)
    requires f0 <= h(start)
    ensures SearchInv(nbrs, h, start, goal, map[start := 0], map[start := None], [Entry(f0, 0, start)])
  {
    var frontier := [Entry(f0, 0, start)];
    assert frontier[0].c == start;
    assert Queued(h, map[start := 0], frontier, start);
  }

  /** An entry other than the removed one keeps its place, one lower when it came after it. */
  lemma RemoveKeeps(frontier: seq<Entry>, i: nat, j: nat)
    requires i < |frontier| && j < |frontier| && j != i
    ensures (if j < i then j else j - 1) < |Remove(frontier, i)|
    ensures Remove(frontier, i)[if j < i then j else j - 1] == frontier[j]
  {
  }

  /** Popping an entry that is not the goal keeps the frontier invariant. */
  lemma PopFrontier(h: Coord -> int, start: Coord, goal: Coord,
                    cost: map<Coord, int>, frontier: seq<Entry>, i: nat)
    requires FrontierOk(h, start, goal, cost, frontier)
    requires i < |frontier| && frontier[i].c != goal
    ensures FrontierOk(h, start, goal, cost, Remove(frontier, i))
  {
    if goal in cost {
      var j :| 0 <= j < |frontier| && frontier[j].c == goal;
      RemoveKeeps(frontier, i, j);
    }
  }

  /** Popping an entry keeps every known cell other than the popped one settled or queued. */
  lemma PopProgress(nbrs: Coord -> seq<Coord>, h: Coord -> int,
                    cost: map<Coord, int>, frontier: seq<Entry>, i: nat)
    requires Progress(nbrs, h, cost, frontier, None)
    requires i < |frontier|
    ensures Progress(nbrs, h, cost, Remove(frontier, i), Some(frontier[i].c))
  {
    var current := frontier[i].c;
    forall k | k in cost && Some(k) != Some(current) && !Settled(nbrs, cost, k)
      ensures Queued(h, cost, Remove(frontier, i), k)
    {
      var j :| 0 <= j < |frontier| && frontier[j].c == k && frontier[j].f <= cost[k] + h(k);
      RemoveKeeps(frontier, i, j);
    }
  }

  /** Popping an entry that is not the goal keeps everything except progress for the popped cell. */
  lemma PopInv(nbrs: Coord -> seq<Coord>, h: Coord -> int, start: Coord, goal: Coord,
               cost: map<Coord, int>, came: map<Coord, Option<Coord>>, frontier: seq<Entry>, i: nat)
    requires SearchInv(nbrs, h, start, goal, cost, came, frontier)
    requires i < |frontier| && frontier[i].c != goal
    ensures FrontierOk(h, start, goal, cost, Remove(frontier, i))
    ensures Progress(nbrs, h, cost, Remove(frontier, i), Some(frontier[i].c))
  {
    PopFrontier(h, start, goal, cost, frontier, i);
    PopProgress(nbrs, h, cost, frontier, i);
  }

  lemma TreeAfterRelax(nbrs: Coord -> seq<Coord>, h: Coord -> int, start: Coord, current: Coord,
                       cost: map<Coord, int>, came: map<Coord, Option<Coord>>, frontier: seq<Entry>,
                       cost': map<Coord, int>, came': map<Coord, Option<Coord>>, frontier': seq<Entry>)
    requires TreeOk(nbrs, start, cost, came) && current in cost && current !in nbrs(current)
    requires RelaxSpec(nbrs(current), current, h, cost, came, frontier, cost', came', frontier')
    ensures TreeOk(nbrs, start, cost', came')
    ensures forall k :: k in cost ==> k in cost' && cost'[k] <= cost[k]
  {
    var nb := nbrs(current);
    assert !Improves(nb, current, cost, start);
    assert !Improves(nb, current, cost, current);
    forall k | k in came' && k != start ensures ParentOk(nbrs, cost', came', k) {
      if !Improves(nb, current, cost, k) {
        assert ParentOk(nbrs, cost, came, k);
      }
    }
  }

  lemma FrontierAfterRelax(nbrs: Coord -> seq<Coord>, h: Coord -> int, start: Coord, goal: Coord,
                           current: Coord,
                           cost: map<Coord, int>, came: map<Coord, Option<Coord>>, frontier: seq<Entry>,
                           cost': map<Coord, int>, came': map<Coord, Option<Coord>>, frontier': seq<Entry>)
    requires FrontierOk(h, start, goal, cost, frontier) && current in cost
    requires forall k :: k in cost ==> k in cost' && cost'[k] <= cost[k]
    requires RelaxSpec(nbrs(current), current, h, cost, came, frontier, cost', came', frontier')
    ensures FrontierOk(h, start, goal, cost', frontier')
  {
    var nb := nbrs(current);
    assert forall i :: 0 <= i < |frontier| ==> frontier'[i] == frontier[i];
    forall i | 0 <= i < |frontier'| ensures EntryOk(h, start, cost', frontier'[i]) {
      if i < |frontier| {
        assert EntryOk(h, start, cost, frontier[i]);
      }
    }
  }

  lemma ProgressAfterRelax(nbrs: Coord -> seq<Coord>, h: Coord -> int, current: Coord,
                           cost: map<Coord, int>, came: map<Coord, Option<Coord>>, frontier: seq<Entry>,
                           cost': map<Coord, int>, came': map<Coord, Option<Coord>>, frontier': seq<Entry>)
    requires Progress(nbrs, h, cost, frontier, Some(current)) && current in cost && current !in nbrs(current)
    requires forall k :: k in cost ==> k in cost' && cost'[k] <= cost[k]
    requires RelaxSpec(nbrs(current), current, h, cost, came, frontier, cost', came', frontier')
    ensures Progress(nbrs, h, cost', frontier', None)
  {
    var nb := nbrs(current);
    assert forall i :: 0 <= i < |frontier| ==> frontier'[i] == frontier[i];
    forall k | k in cost' && !Settled(nbrs, cost', k) ensures Queued(h, cost', frontier', k) {
      if Improves(nb, current, cost, k) {
        var i :| |frontier| <= i < |frontier'| && frontier'[i].c == k;
      } else {
        assert k in cost && cost'[k] == cost[k];
        if k == current {
          assert Settled(nbrs, cost', k);
        } else if Settled(nbrs, cost, k) {
          assert Settled(nbrs, cost', k);
        } else {
          var i :| 0 <= i < |frontier| && frontier[i].c == k && frontier[i].f <= cost[k] + h(k);
          assert frontier'[i] == frontier[i];
        }
      }
    }
  }

  /** Relaxing the popped cell's neighbours restores the full invariant. */
  lemma RelaxInv(nbrs: Coord -> seq<Coord>, h: Coord -> int, start: Coord, goal: Coord, current: Coord,
                 cost: map<Coord, int>, came: map<Coord, Option<Coord>>, frontier: seq<Entry>,
                 cost': map<Coord, int>, came': map<Coord, Option<Coord>>, frontier': seq<Entry>)
    requires TreeOk(nbrs, start, cost, came) && FrontierOk(h, start, goal, cost, frontier)
    requires Progress(nbrs, h, cost, frontier, Some(current))
    requires current in cost && current !in nbrs(current)
    requires RelaxSpec(nbrs(current), current, h, cost, came, frontier, cost', came', frontier')
    ensures SearchInv(nbrs, h, start, goal, cost', came', frontier')
    ensures forall k :: k in cost ==> k in cost' && cost'[k] <= cost[k]
  {
    TreeAfterRelax(nbrs, h, start, current, cost, came, frontier, cost', came', frontier');
    FrontierAfterRelax(nbrs, h, start, goal, current, cost, came, frontier, cost', came', frontier');
    ProgressAfterRelax(nbrs, h, current, cost, came, frontier, cost', came', frontier');
  }

  // ---------------------------------------------------------- termination

  /** The cells of row y, x from 0 to w - 1. */
  function Row(y: int, w: int): seq<Coord>
  {
    if w <= 0 then [] else Row(y, w - 1) + [(w - 1, y)]
  }

  /** Every cell (x, y) with 0 <= x < w and 0 <= y < h. */
  function AllCells(w: int, h: int): seq<Coord>
  {
    if h <= 0 then [] else AllCells(w, h - 1) + Row(h - 1, w)
  }

  lemma {:induction false} InRow(y: int, w: int, x: int)
    requires 0 <= x < w
    ensures (x, y) in Row(y, w)
  {
    if x < w - 1 {
      InRow(y, w - 1, x);
    }
  }

  lemma {:induction false} InAllCells(w: int, h: int, p: Coord)
    requires 0 <= p.0 < w && 0 <= p.1 < h
    ensures p in AllCells(w, h)
  {
    if p.1 < h - 1 {
      InAllCells(w, h - 1, p);
    } else {
      InRow(h - 1, w, p.0);
    }
  }

  /** Every neighbour the grid can produce is listed in cells. */
  ghost predicate Covers(nbrs: Coord -> seq<Coord>, cells: seq<Coord>)
  {
    forall a, b :: b in nbrs(a) ==> b in cells
  }

  /** Every known cell is listed in cells, and its cost is below the number of known cells. */
  ghost predicate Bounded(cells: seq<Coord>, cost: map<Coord, int>)
  {
    forall k :: k in cost ==> k in cells && cost[k] < |cost|
  }

  function Term(c: Coord, cost: map<Coord, int>, big: nat): nat
  {
    if c in cost && 0 <= cost[c] then cost[c] else big
  }

  /** The potential that every relaxation lowers: unknown cells count big, known cells their cost. */
  function Pot(cells: seq<Coord>, cost: map<Coord, int>, big: nat): nat
  {
    if cells == [] then 0 else Term(cells[0], cost, big) + Pot(cells[1..], cost, big)
  }

  lemma {:induction false} PotLe(cells: seq<Coord>, cost: map<Coord, int>, cost': map<Coord, int>, big: nat)
    requires forall c :: c in cells ==> Term(c, cost', big) <= Term(c, cost, big)
    ensures Pot(cells, cost', big) <= Pot(cells, cost, big)
  {
    if cells != [] {
      PotLe(cells[1..], cost, cost', big);
    }
  }

  lemma {:induction false} PotLt(cells: seq<Coord>, cost: map<Coord, int>, cost': map<Coord, int>, big: nat, k: Coord)
    requires forall c :: c in cells ==> Term(c, cost', big) <= Term(c, cost, big)
    requires k in cells && Term(k, cost', big) < Term(k, cost, big)
    ensures Pot(cells, cost', big) < Pot(cells, cost, big)
  {
    if cells[0] == k {
      PotLe(cells[1..], cost, cost', big);
    } else {
      PotLt(cells[1..], cost, cost', big, k);
    }
  }

  /** A set of cells all listed in a sequence has no more elements than the sequence. */
  lemma {:induction false} CardBySeq(a: set<Coord>, cells: seq<Coord>)
    requires forall k :: k in a ==> k in cells
    ensures |a| <= |cells|
  {
    if cells != [] {
      var rest := a - {cells[0]};
      assert forall k :: k in rest ==> k in cells[1..];
      CardBySeq(rest, cells[1..]);
    } else {
      assert a == {};
    }
  }

  lemma SubsetCard(a: set<Coord>, b: set<Coord>)
    requires a <= b
    ensures |a| <= |b| && (a != b ==> |a| < |b|)
  {
    assert b == a + (b - a);
    if a != b {
      var x :| x in b - a;
    }
  }

  lemma BoundAfterRelax(nbrs: Coord -> seq<Coord>, cells: seq<Coord>, current: Coord, h: Coord -> int,
                        cost: map<Coord, int>, came: map<Coord, Option<Coord>>, frontier: seq<Entry>,
                        cost': map<Coord, int>, came': map<Coord, Option<Coord>>, frontier': seq<Entry>)
    requires Covers(nbrs, cells) && Bounded(cells, cost)
    requires current in cost && current !in nbrs(current)
    requires RelaxSpec(nbrs(current), current, h, cost, came, frontier, cost', came', frontier')
    ensures Bounded(cells, cost')
  {
    var nb := nbrs(current);
    assert cost.Keys <= cost'.Keys;
    SubsetCard(cost.Keys, cost'.Keys);
    forall k | k in cost' ensures k in cells && cost'[k] < |cost'| {
      if Improves(nb, current, cost, k) && k !in cost {
        assert cost.Keys != cost'.Keys;
      }
    }
  }

  /** Relaxation only adds cells and lowers costs, keeps them non-negative, and a change adds a cell or lowers a cost. */
  lemma RelaxLowers(nb: seq<Coord>, current: Coord, h: Coord -> int,
                    cost: map<Coord, int>, came: map<Coord, Option<Coord>>, frontier: seq<Entry>,
                    cost': map<Coord, int>, came': map<Coord, Option<Coord>>, frontier': seq<Entry>)
    requires current in cost && current !in nb && forall k :: k in cost ==> cost[k] >= 0
    requires RelaxSpec(nb, current, h, cost, came, frontier, cost', came', frontier')
    ensures forall k :: k in cost ==> k in cost' && cost'[k] <= cost[k]
    ensures forall k :: k in cost' ==> cost'[k] >= 0
    ensures cost' != cost ==> exists k :: k in cost' && (k !in cost || cost'[k] < cost[k])
  {
    if cost' != cost {
      if cost'.Keys == cost.Keys {
        var k :| k in cost && cost'[k] != cost[k];
        assert cost'[k] < cost[k];
      } else {
        var k :| k in cost' && k !in cost;
      }
    }
  }

  /** A cost map that only adds cells and lowers costs has no larger potential, and a smaller one when it changed. */
  lemma PotDecreases(cells: seq<Coord>, cost: map<Coord, int>, cost': map<Coord, int>, big: nat)
    requires forall k :: k in cost' ==> k in cells && 0 <= cost'[k] < big
    requires forall k :: k in cost ==> k in cost' && cost'[k] <= cost[k]
    requires cost' != cost ==> exists k :: k in cost' && (k !in cost || cost'[k] < cost[k])
    ensures Pot(cells, cost', big) <= Pot(cells, cost, big)
    ensures cost' != cost ==> Pot(cells, cost', big) < Pot(cells, cost, big)
  {
    assert forall c :: c in cells ==> Term(c, cost', big) <= Term(c, cost, big);
    PotLe(cells, cost, cost', big);
    if cost' != cost {
      var k :| k in cost' && (k !in cost || cost'[k] < cost[k]);
      PotLt(cells, cost, cost', big, k);
    }
  }

  /** With every cost below the number of known cells, the potential with big = |cells| + 1 drops on every change. */
  lemma PotAfterRelax(cells: seq<Coord>, cost: map<Coord, int>, cost': map<Coord, int>)
    requires Bounded(cells, cost') && forall k :: k in cost' ==> cost'[k] >= 0
    requires forall k :: k in cost ==> k in cost' && cost'[k] <= cost[k]
    requires cost' != cost ==> exists k :: k in cost' && (k !in cost || cost'[k] < cost[k])
    ensures Pot(cells, cost', |cells| + 1) <= Pot(cells, cost, |cells| + 1)
    ensures cost' != cost ==> Pot(cells, cost', |cells| + 1) < Pot(cells, cost, |cells| + 1)
  {
    CardBySeq(cost'.Keys, cells);
    PotDecreases(cells, cost, cost', |cells| + 1);
  }

  /**
   * One relaxation keeps the bound, and either changes nothing and pushes
   * nothing, or strictly lowers the potential.
   */
  lemma RelaxMeasure(nbrs: Coord -> seq<Coord>, cells: seq<Coord>, start: Coord, current: Coord, h: Coord -> int,
                     cost: map<Coord, int>, came: map<Coord, Option<Coord>>, frontier: seq<Entry>,
                     cost': map<Coord, int>, came': map<Coord, Option<Coord>>, frontier': seq<Entry>)
    requires Covers(nbrs, cells) && Bounded(cells, cost) && TreeOk(nbrs, start, cost, came)
    requires current in cost && current !in nbrs(current)
    requires RelaxSpec(nbrs(current), current, h, cost, came, frontier, cost', came', frontier')
    ensures Bounded(cells, cost')
    ensures cost' == cost ==> |frontier'| == |frontier|
    ensures Pot(cells, cost', |cells| + 1) <= Pot(cells, cost, |cells| + 1)
    ensures cost' != cost ==> Pot(cells, cost', |cells| + 1) < Pot(cells, cost, |cells| + 1)
  {
    BoundAfterRelax(nbrs, cells, current, h, cost, came, frontier, cost', came', frontier');
    RelaxLowers(nbrs(current), current, h, cost, came, frontier, cost', came', frontier');
    PotAfterRelax(cells, cost, cost');
    assert |frontier'| > |frontier| ==> Improves(nbrs(current), current, cost, frontier'[|frontier|].c);
  }

  // ------------------------------------------------------------- outcomes

  /** When every known cell is settled, every walk from start stays among the known cells. */
  lemma {:induction false} WalkStaysKnown(nbrs: Coord -> seq<Coord>, cost: map<Coord, int>, p: seq<Coord>, i: nat)
    requires |p| >= 1 && p[0] in cost && IsWalk(nbrs, p, p[0], p[|p| - 1])
    requires forall k :: k in cost ==> Settled(nbrs, cost, k)
    requires i < |p|
    ensures p[i] in cost
  {
    if i > 0 {
      WalkStaysKnown(nbrs, cost, p, i - 1);
      assert p[i] in nbrs(p[i - 1]);
    }
  }

  /** An exhausted frontier means the goal was never discovered and cannot be reached. */
  lemma Exhausted(nbrs: Coord -> seq<Coord>, h: Coord -> int, start: Coord, goal: Coord,
                  cost: map<Coord, int>, came: map<Coord, Option<Coord>>)
    requires SearchInv(nbrs, h, start, goal, cost, came, [])
    ensures goal !in came
    ensures !Reachable(nbrs, start, goal)
  {
    if p :| IsWalk(nbrs, p, start, goal) {
      WalkStaysKnown(nbrs, cost, p, |p| - 1);
      assert false;
    }
  }

  /**
   * Walking a path from start: either some cell on it is queued no dearer
   * than its position, or its last cell costs no more than its position.
   */
  lemma {:induction false} WalkMeetsFrontier(nbrs: Coord -> seq<Coord>, h: Coord -> int,
                                             cost: map<Coord, int>, frontier: seq<Entry>, p: seq<Coord>, j: nat)
      returns (m: nat)
    requires |p| >= 1 && IsWalk(nbrs, p, p[0], p[|p| - 1])
    requires Progress(nbrs, h, cost, frontier, None)
    requires j < |p| && p[j] in cost && cost[p[j]] <= j
    ensures j <= m < |p| && p[m] in cost && cost[p[m]] <= m
    ensures m == |p| - 1 || Queued(h, cost, frontier, p[m])
    decreases |p| - j
  {
    if j == |p| - 1 || Queued(h, cost, frontier, p[j]) {
      m := j;
    } else {
      assert Settled(nbrs, cost, p[j]);
      assert p[j + 1] in nbrs(p[j]);
      m := WalkMeetsFrontier(nbrs, h, cost, frontier, p, j + 1);
    }
  }

  /**
   * When heappop returns an entry for the goal, the goal's recorded cost is
   * no larger than the number of steps of any walk from start to goal.
   */
  lemma OptimalAtGoal(nbrs: Coord -> seq<Coord>, h: Coord -> int, start: Coord, goal: Coord,
                      cost: map<Coord, int>, came: map<Coord, Option<Coord>>, frontier: seq<Entry>, i: nat)
    requires Consistent(nbrs, h, goal)
    requires SearchInv(nbrs, h, start, goal, cost, came, frontier)
    requires i < |frontier| && frontier[i].c == goal
    requires forall j :: 0 <= j < |frontier| ==> frontier[i].f <= frontier[j].f
    ensures goal in cost
    ensures forall p :: IsWalk(nbrs, p, start, goal) ==> cost[goal] <= |p| - 1
  {
    assert EntryOk(h, start, cost, frontier[i]);
    forall p | IsWalk(nbrs, p, start, goal) ensures cost[goal] <= |p| - 1 {
      var m := WalkMeetsFrontier(nbrs, h, cost, frontier, p, 0);
      if m < |p| - 1 {
        var j :| 0 <= j < |frontier| && frontier[j].c == p[m] && frontier[j].f <= cost[p[m]] + h(p[m]);
        HeuristicAlongWalk(nbrs, h, goal, p, m);
      }
    }
  }

  /** Following predecessor links back from any known cell reaches start along a walk. */
  lemma {:induction false} TreeWalk(nbrs: Coord -> seq<Coord>, cost: map<Coord, int>,
                                    came: map<Coord, Option<Coord>>, start: Coord, k: Coord)
      returns (p: seq<Coord>)
    requires TreeOk(nbrs, start, cost, came) && k in came
    ensures IsWalk(nbrs, p, start, k)
    decreases cost[k]
  {
    if k == start {
      p := [start];
    } else {
      assert ParentOk(nbrs, cost, came, k);
      var q := TreeWalk(nbrs, cost, came, start, came[k].value);
      p := q + [k];
      assert forall i :: 0 <= i < |q| ==> p[i] == q[i];
    }
  }

  /**
   * The reconstruction loop: follow predecessors back from the goal until
   * the start's None, then reverse.
   */
  method Reconstruct(ghost nbrs: Coord -> seq<Coord>, came: map<Coord, Option<Coord>>,
                     ghost cost: map<Coord, int>, ghost start: Coord, goal: Coord)
      returns (path: seq<Coord>)
    requires TreeOk(nbrs, start, cost, came) && goal in came
    ensures IsWalk(nbrs, path, start, goal)
    ensures |path| <= cost[goal] + 1
  {
    var rev: seq<Coord> := [];
    var cur: Option<Coord> := Some(goal);
    while cur.Some?
      invariant cur.Some? ==> cur.value in came
      invariant rev == [] ==> cur == Some(goal)
      invariant forall i :: 0 <= i < |rev| ==> rev[i] in came
      invariant rev != [] ==> rev[0] == goal && came[rev[|rev| - 1]] == cur
      invariant forall i :: 0 <= i < |rev| - 1 ==> rev[i] in nbrs(rev[i + 1])
      invariant cur.Some? ==> |rev| + cost[cur.value] <= cost[goal]
      invariant cur.None? ==> rev != [] && rev[|rev| - 1] == start && |rev| <= cost[goal] + 1
      decreases if cur.Some? then cost[cur.value] + 1 else 0
    {
      var c := cur.value;
      if c != start {
        assert ParentOk(nbrs, cost, came, c);
      }
      if rev != [] {
        assert ParentOk(nbrs, cost, came, rev[|rev| - 1]);
      }
      rev := rev + [c];
      cur := came[c];
    }
    path := seq(|rev|, i requires 0 <= i < |rev| => rev[|rev| - 1 - i]);
    forall i | 0 <= i < |path| - 1 ensures path[i + 1] in nbrs(path[i]) {
      assert path[i] == rev[|rev| - 1 - i] && path[i + 1] == rev[|rev| - 2 - i];
    }
  }

  /**
   * One expansion as both A* loops do it: pop entry i (not the goal), relax
   * the popped cell's neighbours.  The invariant is kept and the pair
   * (potential, frontier size) strictly drops.
   */
  lemma ExpandInv(nbrs: Coord -> seq<Coord>, cells: seq<Coord>, h: Coord -> int, start: Coord, goal: Coord,
                  cost: map<Coord, int>, came: map<Coord, Option<Coord>>, frontier: seq<Entry>, i: nat,
                  cost': map<Coord, int>, came': map<Coord, Option<Coord>>, frontier': seq<Entry>)
    requires SearchInv(nbrs, h, start, goal, cost, came, frontier)
    requires Covers(nbrs, cells) && Bounded(cells, cost)
    requires i < |frontier| && frontier[i].c != goal && frontier[i].c !in nbrs(frontier[i].c)
    requires RelaxSpec(nbrs(frontier[i].c), frontier[i].c, h, cost, came, Remove(frontier, i), cost', came', frontier')
    ensures SearchInv(nbrs, h, start, goal, cost', came', frontier') && Bounded(cells, cost')
    ensures Pot(cells, cost', |cells| + 1) < Pot(cells, cost, |cells| + 1) ||
            (Pot(cells, cost', |cells| + 1) == Pot(cells, cost, |cells| + 1) && |frontier'| < |frontier|)
  {
    var current := frontier[i].c;
    PopInv(nbrs, h, start, goal, cost, came, frontier, i);
    RelaxInv(nbrs, h, start, goal, current, cost, came, Remove(frontier, i), cost', came', frontier');
    RelaxMeasure(nbrs, cells, start, current, h, cost, came, Remove(frontier, i), cost', came', frontier');
  }
}
