/**
 * The tabular Q-learning environment and agent over a GridWorld: the
 * environment moves one cell per action and pays rewards, the agent keeps a
 * width x height x 4 table of action values, applies the temporal-difference
 * update, and reads a greedy path off the table.  Q-values are reals.
 */
module QLearning {
  import opened Wrappers
  import opened Walks
  import opened GridWorld
  import C = AStarCore

  /** The keyword defaults of the environment, the agent and derive_greedy_path. */
  const DefaultStepPenalty: real := -1.0
  const DefaultGoalReward: real := 100.0
  const DefaultInvalidPenalty: real := -5.0
  const DefaultAlpha: real := 0.5
  const DefaultGamma: real := 0.95
  const DefaultEpsilon: real := 0.1
  const DefaultGreedySteps: int := 500

  /** Number of actions: 0 up, 1 right, 2 down, 3 left. */
  const Actions: int := 4

  /** moves[action] with Python's list index rule: -4 <= action < 4, negative values count from the end. */
  function Move(action: int): (d: Coord)
    requires Indexable(action, Actions)
    ensures Dist((0, 0), d) == 1
  {
    var a := Wrap(action, Actions);
    if a == 0 then (0, -1) else if a == 1 then (1, 0) else if a == 2 then (0, 1) else (-1, 0)
  }

  /** The cell an action aims at from s. */
  function Target(s: Coord, action: int): Coord
    requires Indexable(action, Actions)
  {
    (s.0 + Move(action).0, s.1 + Move(action).1)
  }

  /** r is a cell next to s that the agent may stand on: in bounds and passable, i.e. r is in grid.Neighbors(s). */
  predicate Adjacent(grid: Grid, s: Coord, r: Coord)
  {
    r in Candidates(s) && grid.InBounds(r) && grid.Passable(r)
  }

  /** The state after an action: the aimed-at cell when it is in bounds and passable, otherwise s. */
  function Next(grid: Grid, s: Coord, action: int): Coord
    requires Indexable(action, Actions)
  {
    var t := Target(s, action);
    if grid.InBounds(t) && grid.Passable(t) then t else s
  }

  /** An action either leaves the state alone or moves it to an adjacent cell; it moves exactly when the aimed-at cell is in bounds and passable. */
  lemma NextMoves(grid: Grid, s: Coord, action: int)
    requires Indexable(action, Actions)
    ensures Next(grid, s, action) == s || Adjacent(grid, s, Next(grid, s, action))
    ensures Next(grid, s, action) != s <==> grid.InBounds(Target(s, action)) && grid.Passable(Target(s, action))
  {
    var d := Move(action);
    assert d in [(1, 0), (-1, 0), (0, 1), (0, -1)];
  }

  /** Every one of the four actions fails exactly when the cell has no neighbour. */
  lemma StuckIffNoNeighbors(grid: Grid, s: Coord)
    ensures (forall a :: 0 <= a < Actions ==> Next(grid, s, a) == s) <==> grid.Neighbors(s) == []
  {
    var c := Candidates(s);
    assert Target(s, 0) == c[3] && Target(s, 1) == c[0] && Target(s, 2) == c[2] && Target(s, 3) == c[1];
    if grid.Neighbors(s) != [] {
      var q := grid.Neighbors(s)[0];
      assert q in c;
      var a := if q == c[0] then 1 else if q == c[1] then 3 else if q == c[2] then 2 else 0;
      assert Next(grid, s, a) != s;
    }
  }

  /** `max_steps or W * H * 4`: None and 0 both select the default budget. */
  function EpisodeBudget(grid: Grid, maxSteps: Option<int>): int
  {
    if maxSteps == None || maxSteps == Some(0) then grid.width * grid.height * 4 else maxSteps.value
  }

  /** Whether an episode ends in state s after n steps: at the goal, or once the budget is used up. */
  predicate Done(grid: Grid, budget: int, s: Coord, n: int)
  {
    s == grid.goal || n >= budget
  }

  /** The environment: the grid, the reward constants, the step budget, and the mutable state and step counter. */
  class Env {
    const grid: Grid
    const stepPenalty: real
    const goalReward: real
    const invalidPenalty: real
    const maxSteps: int
    var state: Coord
    var steps: int

    constructor (grid: Grid, stepPenalty: real := DefaultStepPenalty, goalReward: real := DefaultGoalReward,
                 invalidPenalty: real := DefaultInvalidPenalty, maxSteps: Option<int> := None)
      ensures this.grid == grid && this.stepPenalty == stepPenalty
      ensures this.goalReward == goalReward && this.invalidPenalty == invalidPenalty
      ensures this.maxSteps == EpisodeBudget(grid, maxSteps)
      ensures state == grid.start && steps == 0
    {
      this.grid := grid;
      this.stepPenalty := stepPenalty;
      this.goalReward := goalReward;
      this.invalidPenalty := invalidPenalty;
      this.maxSteps := EpisodeBudget(grid, maxSteps);
      new;
      var _ := Reset();
    }

    /** The reward for taking action from s: the step penalty, plus the invalid-move penalty, plus the goal reward when the resulting state is the goal. */
    function Reward(s: Coord, action: int): real
      requires Indexable(action, Actions)
    {
      stepPenalty
      + (if Next(grid, s, action) == s then invalidPenalty else 0.0)
      + (if Next(grid, s, action) == grid.goal then goalReward else 0.0)
    }

    /**
     * A move that is blocked costs the step and invalid-move penalties (and
     * earns the goal reward only when s is already the goal); a move that
     * goes through costs the step penalty and earns the goal reward when it
     * lands on the goal.
     */
    lemma RewardCases(s: Coord, action: int)
      requires Indexable(action, Actions)
      ensures !(grid.InBounds(Target(s, action)) && grid.Passable(Target(s, action))) ==>
        Reward(s, action) == stepPenalty + invalidPenalty + (if s == grid.goal then goalReward else 0.0)
      ensures grid.InBounds(Target(s, action)) && grid.Passable(Target(s, action)) ==>
        Reward(s, action) == stepPenalty + (if Target(s, action) == grid.goal then goalReward else 0.0)
    {
      NextMoves(grid, s, action);
    }

    method Reset() returns (s: Coord)
      modifies this
      ensures state == grid.start && steps == 0 && s == state
    {
      state := grid.start;
      steps := 0;
      s := state;
    }

    method Step(action: int) returns (s: Coord, reward: real, done: bool)
      requires Indexable(action, Actions)
      modifies this
      ensures state == Next(grid, old(state), action) && steps == old(steps) + 1
      ensures s == state
      ensures reward == Reward(old(state), action)
      ensures done <==> Done(grid, maxSteps, state, steps)
    {
      var (dx, dy) := Move(action);
      var t := (state.0 + dx, state.1 + dy);
      reward := stepPenalty;
      if !grid.InBounds(t) || !grid.Passable(t) {
        reward := reward + invalidPenalty;
      } else {
        state := t;
      }
      steps := steps + 1;
      done := false;
      if state == grid.goal {
        reward := reward + goalReward;
        done := true;
      }
      if steps >= maxSteps {
        done := true;
      }
      s := state;
    }
  }

  /** A step of the environment never leaves the grid once inside it, and lands on a passable cell. */
  lemma NextStaysInGrid(grid: Grid, s: Coord, action: int)
    requires Indexable(action, Actions)
    requires grid.InBounds(s) && grid.Passable(s)
    ensures grid.InBounds(Next(grid, s, action)) && grid.Passable(Next(grid, s, action))
  {
  }

  /** The first index of row[..n] holding its largest value. */
  function ArgmaxPrefix(row: seq<real>, n: nat): (i: nat)
    requires 0 < n <= |row|
    ensures i < n
  {
    if n == 1 then 0
    else
      var i := ArgmaxPrefix(row, n - 1);
      if row[n - 1] > row[i] then n - 1 else i
  }

  /** np.argmax: the first index holding the largest value (see ArgmaxFirstMax). */
  function Argmax(row: seq<real>): (i: nat)
    requires |row| > 0
    ensures i < |row|
  {
    ArgmaxPrefix(row, |row|)
  }

  /** ArgmaxPrefix picks a largest value of the prefix, and every earlier index holds a strictly smaller one. */
  lemma {:induction false} ArgmaxPrefixFirstMax(row: seq<real>, n: nat)
    requires 0 < n <= |row|
    ensures forall j :: 0 <= j < n ==> row[j] <= row[ArgmaxPrefix(row, n)]
    ensures forall j :: 0 <= j < ArgmaxPrefix(row, n) ==> row[j] < row[ArgmaxPrefix(row, n)]
  {
    if n > 1 {
      ArgmaxPrefixFirstMax(row, n - 1);
    }
  }

  /** Argmax picks a largest value, and every earlier index holds a strictly smaller one. */
  lemma ArgmaxFirstMax(row: seq<real>)
    requires |row| > 0
    ensures forall j :: 0 <= j < |row| ==> row[j] <= row[Argmax(row)]
    ensures forall j :: 0 <= j < Argmax(row) ==> row[j] < row[Argmax(row)]
  {
    ArgmaxPrefixFirstMax(row, |row|);
  }

  /** np.max: the largest value. */
  function MaxOf(row: seq<real>): (m: real)
    requires |row| > 0
    ensures m in row
    ensures forall j :: 0 <= j < |row| ==> row[j] <= m
  {
    ArgmaxFirstMax(row);
    row[Argmax(row)]
  }

  /** The order of np.argsort(row)[::-1]: larger values first, equal values by larger index first. */
  predicate Before(row: seq<real>, a: nat, b: nat)
  {
    a < |row| && b < |row| && (row[a] > row[b] || (row[a] == row[b] && a > b))
  }

  predicate SortedDesc(row: seq<real>, o: seq<nat>)
  {
    (forall i :: 0 <= i < |o| ==> o[i] < |row|) &&
    forall i, j :: 0 <= i < j < |o| ==> Before(row, o[i], o[j])
  }

  lemma InsertFront(row: seq<real>, k: nat, o: seq<nat>)
    requires o != [] && Before(row, k, o[0]) && SortedDesc(row, o)
    ensures SortedDesc(row, [k] + o)
  {
    var r := [k] + o;
    forall i, j | 0 <= i < j < |r|
      ensures Before(row, r[i], r[j])
    {
      if i == 0 && j > 1 {
        assert Before(row, o[0], o[j - 1]);
      }
    }
  }

  lemma InsertLater(row: seq<real>, k: nat, o: seq<nat>, rest: seq<nat>)
    requires o != [] && k < |row| && k != o[0] && !Before(row, k, o[0]) && SortedDesc(row, o)
    requires SortedDesc(row, rest) && multiset(rest) == multiset(o[1..]) + multiset{k}
    ensures SortedDesc(row, [o[0]] + rest)
  {
    var r := [o[0]] + rest;
    forall j | 0 <= j < |rest|
      ensures Before(row, o[0], rest[j])
    {
      assert rest[j] in multiset(rest);
      if rest[j] != k {
        assert rest[j] in o[1..];
        var m :| 0 <= m < |o[1..]| && o[1..][m] == rest[j];
        assert Before(row, o[0], o[m + 1]);
      }
    }
    forall i, j | 0 <= i < j < |r|
      ensures Before(row, r[i], r[j])
    {
      if i == 0 {
        assert r[j] == rest[j - 1];
      } else {
        assert r[i] == rest[i - 1] && r[j] == rest[j - 1];
      }
    }
  }

  /** Insert k into the best-first order o in front of the first index it comes before. */
  function Insert(row: seq<real>, k: nat, o: seq<nat>): seq<nat>
  {
    if o == [] then [k]
    else if Before(row, k, o[0]) then [k] + o
    else [o[0]] + Insert(row, k, o[1..])
  }

  /** Inserting a new index into a best-first order gives a best-first order with one more element. */
  lemma {:induction false} InsertSorted(row: seq<real>, k: nat, o: seq<nat>)
    requires k < |row| && k !in o && SortedDesc(row, o)
    ensures multiset(Insert(row, k, o)) == multiset(o) + multiset{k}
    ensures SortedDesc(row, Insert(row, k, o))
  {
    if o != [] {
      if Before(row, k, o[0]) {
        InsertFront(row, k, o);
      } else {
        assert o == [o[0]] + o[1..];
        InsertSorted(row, k, o[1..]);
        InsertLater(row, k, o, Insert(row, k, o[1..]));
      }
    }
  }

  /** Insertion sort of the indices ks, best first. */
  function SortDesc(row: seq<real>, ks: seq<nat>): seq<nat>
  {
    if ks == [] then [] else Insert(row, ks[0], SortDesc(row, ks[1..]))
  }

  /** Sorting distinct indices of row gives a best-first permutation of them. */
  lemma {:induction false} SortDescSorted(row: seq<real>, ks: seq<nat>)
    requires forall i :: 0 <= i < |ks| ==> ks[i] < |row|
    requires forall i, j :: 0 <= i < j < |ks| ==> ks[i] != ks[j]
    ensures multiset(SortDesc(row, ks)) == multiset(ks)
    ensures SortedDesc(row, SortDesc(row, ks))
  {
    if ks != [] {
      assert ks == [ks[0]] + ks[1..];
      var rest := SortDesc(row, ks[1..]);
      SortDescSorted(row, ks[1..]);
      assert ks[0] !in ks[1..];
      assert ks[0] !in rest by {
        assert ks[0] !in multiset(ks[1..]);
        assert ks[0] !in multiset(rest);
      }
      InsertSorted(row, ks[0], rest);
    }
  }

  /** list(np.argsort(q)[::-1]) for a row of four values: the four actions, best first. */
  function FallbackOrder(row: seq<real>): seq<nat>
  {
    SortDesc(row, [0, 1, 2, 3])
  }

  /** The fallback order is a permutation of the four actions, sorted best first. */
  lemma FallbackOrderSorted(row: seq<real>)
    requires |row| == Actions
    ensures multiset(FallbackOrder(row)) == multiset{0, 1, 2, 3}
    ensures SortedDesc(row, FallbackOrder(row))
    ensures forall i :: 0 <= i < |FallbackOrder(row)| ==> FallbackOrder(row)[i] < Actions
  {
    SortDescSorted(row, [0, 1, 2, 3]);
  }

  /**
   * The fallback scan: try the actions of order in turn until one moves.
   * The cell reached (s when none moves) and the number of steps taken.
   */
  function Fallback(grid: Grid, s: Coord, order: seq<nat>): (r: (Coord, nat))
    requires forall i :: 0 <= i < |order| ==> order[i] < Actions
    ensures r.1 <= |order|
    ensures order != [] ==> 1 <= r.1
  {
    if order == [] then (s, 0)
    else if Next(grid, s, order[0]) != s then (Next(grid, s, order[0]), 1)
    else
      var r := Fallback(grid, s, order[1..]);
      (r.0, r.1 + 1)
  }

  /** The scan either stays at s or reaches a cell adjacent to s. */
  lemma {:induction false} FallbackMoves(grid: Grid, s: Coord, order: seq<nat>)
    requires forall i :: 0 <= i < |order| ==> order[i] < Actions
    ensures Fallback(grid, s, order).0 == s || Adjacent(grid, s, Fallback(grid, s, order).0)
  {
    if order != [] {
      NextMoves(grid, s, order[0]);
      if Next(grid, s, order[0]) == s {
        FallbackMoves(grid, s, order[1..]);
      }
    }
  }

  /** The scan stays at s exactly when every action it tries fails. */
  lemma {:induction false} FallbackFails(grid: Grid, s: Coord, order: seq<nat>)
    requires forall i :: 0 <= i < |order| ==> order[i] < Actions
    ensures Fallback(grid, s, order).0 == s <==> forall i :: 0 <= i < |order| ==> Next(grid, s, order[i]) == s
  {
    if order != [] && Next(grid, s, order[0]) == s {
      FallbackFails(grid, s, order[1..]);
      assert forall i :: 1 <= i < |order| ==> order[i] == order[1..][i - 1];
    }
  }

  /** The scan from position j of order: the step at order[j], then the scan from j + 1 if it failed. */
  lemma FallbackFrom(grid: Grid, s: Coord, order: seq<nat>, j: nat)
    requires j < |order| && forall i :: 0 <= i < |order| ==> order[i] < Actions
    ensures var r := Fallback(grid, s, order[j + 1..]);
      Fallback(grid, s, order[j..]) ==
        if Next(grid, s, order[j]) != s then (Next(grid, s, order[j]), 1) else (r.0, r.1 + 1)
  {
    assert order[j..][1..] == order[j + 1..];
  }

  /** When the fallback scan covers all four actions, it fails only at a cell without neighbours. */
  lemma FallbackStuck(grid: Grid, s: Coord, order: seq<nat>)
    requires forall i :: 0 <= i < |order| ==> order[i] < Actions
    requires forall a :: 0 <= a < Actions ==> a in order
    ensures Fallback(grid, s, order).0 == s <==> grid.Neighbors(s) == []
  {
    StuckIffNoNeighbors(grid, s);
    FallbackFails(grid, s, order);
    if Fallback(grid, s, order).0 == s {
      forall a | 0 <= a < Actions
        ensures Next(grid, s, a) == s
      {
        assert a in order;
        var i :| 0 <= i < |order| && order[i] == a;
      }
    }
  }

  /** An order that is a permutation of the four actions names only actions and names each of them. */
  lemma ActionPermutation(order: seq<nat>)
    requires multiset(order) == multiset{0, 1, 2, 3}
    ensures forall i :: 0 <= i < |order| ==> order[i] < Actions
    ensures forall a :: 0 <= a < Actions ==> a in order
  {
    forall i | 0 <= i < |order|
      ensures order[i] < Actions
    {
      assert order[i] in multiset(order);
    }
    forall a | 0 <= a < Actions
      ensures a in order
    {
      assert a in multiset(order);
    }
  }

  /**
   * One iteration of derive_greedy_path's loop from cell s, with row the Q
   * values of s, order the actions in the order the fallback tries them, and
   * the counter at steps: the step by the first best action and, when it
   * does not move, the fallback scan.  The cell reached (s when no action
   * moves), the counter afterwards, and the done flag of the first step.
   */
  function AdvanceWith(grid: Grid, budget: int, row: seq<real>, order: seq<nat>, s: Coord, steps: int): (Coord, int, bool)
    requires |row| == Actions
    requires forall i :: 0 <= i < |order| ==> order[i] < Actions
  {
    var s2 := Next(grid, s, Argmax(row));
    var fb := if s2 == s then Fallback(grid, s, order) else (s2, 0);
    (fb.0, steps + 1 + fb.1, Done(grid, budget, s2, steps + 1))
  }

  /**
   * For any fallback order that is a permutation of the four actions, however
   * ties among equal values were broken: an iteration moves to an adjacent
   * cell or stays put, stays put exactly at a cell without neighbours,
   * advances the counter, and is flagged done only when it reaches the goal,
   * uses up the budget, or started at the goal.
   */
  lemma AdvanceWithFacts(grid: Grid, budget: int, row: seq<real>, order: seq<nat>, s: Coord, steps: int)
    requires |row| == Actions && multiset(order) == multiset{0, 1, 2, 3}
    ensures forall i :: 0 <= i < |order| ==> order[i] < Actions
    ensures var a := AdvanceWith(grid, budget, row, order, s, steps);
      && (a.0 == s || Adjacent(grid, s, a.0))
      && (a.0 == s <==> grid.Neighbors(s) == [])
      && a.1 > steps
      && (a.2 ==> a.0 == grid.goal || a.1 >= budget || s == grid.goal)
  {
    ActionPermutation(order);
    NextMoves(grid, s, Argmax(row));
    FallbackMoves(grid, s, order);
    FallbackStuck(grid, s, order);
  }

  /** The iteration with the fallback order the model fixes: equal values tried larger action first. */
  function AdvanceRow(grid: Grid, budget: int, row: seq<real>, s: Coord, steps: int): (Coord, int, bool)
    requires |row| == Actions
  {
    FallbackOrderSorted(row);
    AdvanceWith(grid, budget, row, FallbackOrder(row), s, steps)
  }

  /** AdvanceWithFacts for the model's fallback order. */
  lemma AdvanceRowFacts(grid: Grid, budget: int, row: seq<real>, s: Coord, steps: int)
    requires |row| == Actions
    ensures var a := AdvanceRow(grid, budget, row, s, steps);
      && (a.0 == s || Adjacent(grid, s, a.0))
      && (a.0 == s <==> grid.Neighbors(s) == [])
      && a.1 > steps
      && (a.2 ==> a.0 == grid.goal || a.1 >= budget || s == grid.goal)
  {
    FallbackOrderSorted(row);
    AdvanceWithFacts(grid, budget, row, FallbackOrder(row), s, steps);
  }

  /** The greedy run read off the table: the cells visited after the start, and the environment's final step counter. */
  datatype Run = Run(cells: seq<Coord>, steps: int)

  /**
   * The loop of derive_greedy_path for an iteration function step (cell and
   * counter in; cell reached, counter and done flag out) from cell s with
   * fuel iterations left: stop when the step stays put, stop after the move
   * when it reaches goal or is flagged done, otherwise go on from the new cell.
   */
  function Iterate(step: (Coord, int) -> (Coord, int, bool), goal: Coord, s: Coord, steps: int, fuel: int): Run
    decreases fuel
  {
    if fuel <= 0 then Run([], steps)
    else
      var a := step(s, steps);
      if a.0 == s then Run([], a.1)
      else if a.0 == goal || a.2 then Run([a.0], a.1)
      else
        var rest := Iterate(step, goal, a.0, a.1, fuel - 1);
        Run([a.0] + rest.cells, rest.steps)
  }

  /** The run takes at most fuel iterations, and a counter that grows every iteration grows by at least one per cell. */
  lemma {:induction false} IterateBounds(step: (Coord, int) -> (Coord, int, bool), goal: Coord, s: Coord, steps: int, fuel: int)
    requires forall p, n :: step(p, n).1 > n
    ensures |Iterate(step, goal, s, steps, fuel).cells| <= if fuel < 0 then 0 else fuel
    ensures steps + |Iterate(step, goal, s, steps, fuel).cells| <= Iterate(step, goal, s, steps, fuel).steps
    decreases fuel
  {
    if fuel > 0 {
      var a := step(s, steps);
      if a.0 != s && a.0 != goal && !a.2 {
        IterateBounds(step, goal, a.0, a.1, fuel - 1);
      }
    }
  }

  /** When every step moves to a neighbour or stays put, s followed by the run is a walk. */
  lemma {:induction false} IterateWalk(step: (Coord, int) -> (Coord, int, bool), nbrs: Coord -> seq<Coord>,
                                       goal: Coord, s: Coord, steps: int, fuel: int)
    requires forall p, n :: step(p, n).0 == p || step(p, n).0 in nbrs(p)
    ensures var q := [s] + Iterate(step, goal, s, steps, fuel).cells; IsWalk(nbrs, q, s, q[|q| - 1])
    decreases fuel
  {
    if fuel > 0 {
      var a := step(s, steps);
      if a.0 != s && a.0 != goal && !a.2 {
        IterateWalk(step, nbrs, goal, a.0, a.1, fuel - 1);
        C.WalkPrepend(nbrs, s, [a.0] + Iterate(step, goal, a.0, a.1, fuel - 1).cells);
      }
    }
  }

  /** The goal can only be the last cell of the run: the loop stops as soon as it gets there. */
  lemma {:induction false} IterateGoalLast(step: (Coord, int) -> (Coord, int, bool), goal: Coord, s: Coord, steps: int, fuel: int)
    ensures forall i :: 0 <= i < |Iterate(step, goal, s, steps, fuel).cells| - 1 ==> Iterate(step, goal, s, steps, fuel).cells[i] != goal
    decreases fuel
  {
    if fuel > 0 {
      var a := step(s, steps);
      if a.0 != s && a.0 != goal && !a.2 {
        var r := Iterate(step, goal, a.0, a.1, fuel - 1).cells;
        IterateGoalLast(step, goal, a.0, a.1, fuel - 1);
        AvoidsBeforeLast([a.0], r, goal);
      }
    }
  }

  /**
   * When a step stays put only at a cell without neighbours and is flagged
   * done only at the goal, past the budget or from the goal, a run that
   * stops before its fuel is spent ends at the goal, at a cell with no
   * neighbour, with the counter at the budget, or one cell after the goal.
   */
  lemma {:induction false} IterateStops(step: (Coord, int) -> (Coord, int, bool), grid: Grid, budget: int,
                                        s: Coord, steps: int, fuel: int)
    requires forall p, n :: step(p, n).0 == p ==> grid.Neighbors(p) == []
    requires forall p, n :: step(p, n).2 ==> step(p, n).0 == grid.goal || step(p, n).1 >= budget || p == grid.goal
    requires forall p, n :: step(p, n).1 > n
    ensures var r := Iterate(step, grid.goal, s, steps, fuel); var q := [s] + r.cells;
      |r.cells| < fuel ==>
        || q[|q| - 1] == grid.goal
        || grid.Neighbors(q[|q| - 1]) == []
        || r.steps >= budget
        || (|q| >= 2 && q[|q| - 2] == grid.goal)
    decreases fuel
  {
    if fuel > 0 {
      var a := step(s, steps);
      if a.0 != s && a.0 != grid.goal && !a.2 {
        IterateStops(step, grid, budget, a.0, a.1, fuel - 1);
        LastTwo(s, a.0, Iterate(step, grid.goal, a.0, a.1, fuel - 1).cells);
      }
    }
  }

  /** Q[x, y, :] of a table held as a value, with numpy's index rule; zeros where the table has no such row. */
  function RowAt(t: seq<seq<seq<real>>>, s: Coord): (r: seq<real>)
    ensures |r| == Actions
  {
    var x := Wrap(s.0, |t|);
    if 0 <= x < |t| && 0 <= Wrap(s.1, |t[x]|) < |t[x]| && |t[x][Wrap(s.1, |t[x]|)]| == Actions then
      t[x][Wrap(s.1, |t[x]|)]
    else [0.0, 0.0, 0.0, 0.0]
  }

  /** The learner: the environment, the learning constants and the Q table indexed [x, y, action]. */
  class Agent {
    const env: Env
    const alpha: real
    const gamma: real
    const epsilon: real
    const Q: array3<real>

    /** The table has the grid's shape. */
    predicate Valid()
    {
      Q.Length0 == env.grid.width && Q.Length1 == env.grid.height && Q.Length2 == Actions
    }

    /** Q[x, y] is a legal numpy index: each coordinate within -n .. n-1 of its axis. */
    predicate Addressable(s: Coord)
    {
      Indexable(s.0, env.grid.width) && Indexable(s.1, env.grid.height)
    }

    constructor (env: Env, alpha: real := DefaultAlpha, gamma: real := DefaultGamma, epsilon: real := DefaultEpsilon)
      requires env.grid.width >= 0 && env.grid.height >= 0
      ensures this.env == env && this.alpha == alpha && this.gamma == gamma && this.epsilon == epsilon
      ensures Valid() && fresh(Q)
      ensures forall x, y, a :: 0 <= x < Q.Length0 && 0 <= y < Q.Length1 && 0 <= a < Actions ==> Q[x, y, a] == 0.0
    {
      this.env := env;
      this.alpha := alpha;
      this.gamma := gamma;
      this.epsilon := epsilon;
      Q := new real[env.grid.width, env.grid.height, Actions]((x, y, a) => 0.0);
    }

    /** Q[x, y, :] with numpy's index rule on x and y. */
    function Row(s: Coord): (r: seq<real>)
      requires Valid() && Addressable(s)
      reads Q
      ensures |r| == Actions
    {
      var x, y := Wrap(s.0, Q.Length0), Wrap(s.1, Q.Length1);
      [Q[x, y, 0], Q[x, y, 1], Q[x, y, 2], Q[x, y, 3]]
    }

    /**
     * The temporal-difference update of Q[state, action] towards
     * reward + gamma * max Q[next_state, :]; no other entry changes.
     */
    method Learn(state: Coord, action: int, reward: real, next: Coord)
      requires Valid() && Addressable(state) && Addressable(next) && Indexable(action, Actions)
      modifies Q
      ensures var x, y, a := Wrap(state.0, Q.Length0), Wrap(state.1, Q.Length1), Wrap(action, Actions);
        Q[x, y, a] == TdUpdate(old(Q[x, y, a]), reward + gamma * MaxOf(old(Row(next))), alpha)
      ensures var x, y, a := Wrap(state.0, Q.Length0), Wrap(state.1, Q.Length1), Wrap(action, Actions);
        forall i, j, k :: 0 <= i < Q.Length0 && 0 <= j < Q.Length1 && 0 <= k < Actions && (i, j, k) != (x, y, a) ==>
          Q[i, j, k] == old(Q[i, j, k])
    {
      var x, y, a := Wrap(state.0, Q.Length0), Wrap(state.1, Q.Length1), Wrap(action, Actions);
      var bestNext := MaxOf(Row(next));
      var tdTarget := reward + gamma * bestNext;
      var tdError := tdTarget - Q[x, y, a];
      Q[x, y, a] := Q[x, y, a] + alpha * tdError;
    }

    /** The table as a value: Table()[x][y][a] == Q[x, y, a]. */
    ghost function Table(): (t: seq<seq<seq<real>>>)
      requires Valid()
      reads Q
      ensures |t| == Q.Length0
      ensures forall x :: 0 <= x < |t| ==> |t[x]| == Q.Length1
      ensures forall x, y :: 0 <= x < |t| && 0 <= y < Q.Length1 ==> t[x][y] == [Q[x, y, 0], Q[x, y, 1], Q[x, y, 2], Q[x, y, 3]]
    {
      seq(Q.Length0, x requires 0 <= x < Q.Length0 reads Q =>
        seq(Q.Length1, y requires 0 <= y < Q.Length1 reads Q => [Q[x, y, 0], Q[x, y, 1], Q[x, y, 2], Q[x, y, 3]]))
    }

    /** One iteration of derive_greedy_path's loop on the current table, as a function value. */
    ghost function Stepper(): (Coord, int) -> (Coord, int, bool)
      requires Valid()
      reads Q
    {
      var t := Table();
      (p: Coord, n: int) => AdvanceRow(env.grid, env.maxSteps, RowAt(t, p), p, n)
    }

    /** The iteration from cell s with the counter at steps. */
    function Advance(s: Coord, steps: int): (Coord, int, bool)
      requires Valid() && Addressable(s)
      reads Q
    {
      AdvanceRow(env.grid, env.maxSteps, Row(s), s, steps)
    }

    /** On a cell the table can index, the function value and Advance agree. */
    lemma StepperAgrees(s: Coord, steps: int)
      requires Valid() && Addressable(s)
      ensures Stepper()(s, steps) == Advance(s, steps)
    {
      assert RowAt(Table(), s) == Row(s);
    }

    /** The iteration function meets the requirements of the run lemmas. */
    lemma StepperFacts()
      requires Valid()
      ensures var step := Stepper();
        && (forall p, n :: step(p, n).0 == p || step(p, n).0 in Nbrs(env.grid)(p))
        && (forall p, n :: step(p, n).0 == p ==> env.grid.Neighbors(p) == [])
        && (forall p, n :: step(p, n).2 ==> step(p, n).0 == env.grid.goal || step(p, n).1 >= env.maxSteps || p == env.grid.goal)
        && (forall p, n :: step(p, n).1 > n)
    {
      var t := Table();
      forall p, n
        ensures var a := AdvanceRow(env.grid, env.maxSteps, RowAt(t, p), p, n);
          && (a.0 == p || a.0 in env.grid.Neighbors(p))
          && (a.0 == p ==> env.grid.Neighbors(p) == [])
          && (a.2 ==> a.0 == env.grid.goal || a.1 >= env.maxSteps || p == env.grid.goal)
          && a.1 > n
      {
        AdvanceRowFacts(env.grid, env.maxSteps, RowAt(t, p), p, n);
      }
    }

    /** The rest of derive_greedy_path's run from cell s, with the counter at steps and fuel iterations left. */
    ghost function Greedy(s: Coord, steps: int, fuel: int): Run
      requires Valid()
      reads Q
    {
      Iterate(Stepper(), env.grid.goal, s, steps, fuel)
    }

    /** One iteration of a run: it stops where it is, stops one cell on, or continues from the cell it moved to. */
    lemma GreedyUnfold(s: Coord, steps: int, fuel: int)
      requires Valid() && Addressable(s) && fuel > 0
      ensures var a := Advance(s, steps); var s3, n, done := a.0, a.1, a.2;
        && (s3 == s ==> Greedy(s, steps, fuel) == Run([], n))
        && (s3 != s && (s3 == env.grid.goal || done) ==> Greedy(s, steps, fuel) == Run([s3], n))
        && (s3 != s && s3 != env.grid.goal && !done ==>
              Addressable(s3) &&
              Greedy(s, steps, fuel) == Run([s3] + Greedy(s3, n, fuel - 1).cells, Greedy(s3, n, fuel - 1).steps))
    {
      StepperAgrees(s, steps);
      AdvanceRowFacts(env.grid, env.maxSteps, Row(s), s, steps);
    }

    /** The run takes at most fuel iterations, and the counter grows by at least one per cell. */
    lemma GreedyBounds(s: Coord, steps: int, fuel: int)
      requires Valid()
      ensures |Greedy(s, steps, fuel).cells| <= if fuel < 0 then 0 else fuel
      ensures steps + |Greedy(s, steps, fuel).cells| <= Greedy(s, steps, fuel).steps
    {
      StepperFacts();
      IterateBounds(Stepper(), env.grid.goal, s, steps, fuel);
    }

    /** s followed by the run is a walk over the grid: each cell is a neighbour of the one before it. */
    lemma GreedyWalk(s: Coord, steps: int, fuel: int)
      requires Valid()
      ensures var p := [s] + Greedy(s, steps, fuel).cells; IsWalk(Nbrs(env.grid), p, s, p[|p| - 1])
    {
      StepperFacts();
      IterateWalk(Stepper(), Nbrs(env.grid), env.grid.goal, s, steps, fuel);
    }

    /** The goal can only be the last cell of the run. */
    lemma GreedyGoalLast(s: Coord, steps: int, fuel: int)
      requires Valid()
      ensures var r := Greedy(s, steps, fuel).cells; forall i :: 0 <= i < |r| - 1 ==> r[i] != env.grid.goal
    {
      IterateGoalLast(Stepper(), env.grid.goal, s, steps, fuel);
    }

    /**
     * A run that stops before its fuel is spent stopped for one of the loop's
     * reasons: it ends at the goal, it ends at a cell with no neighbour, the
     * counter reached the episode budget, or the cell before the last was the
     * goal (the first step's done flag, when the run starts at the goal).
     */
    lemma GreedyStops(s: Coord, steps: int, fuel: int)
      requires Valid()
      ensures var r := Greedy(s, steps, fuel); var p := [s] + r.cells;
        |r.cells| < fuel ==>
          || p[|p| - 1] == env.grid.goal
          || env.grid.Neighbors(p[|p| - 1]) == []
          || r.steps >= env.maxSteps
          || (|p| >= 2 && p[|p| - 2] == env.grid.goal)
    {
      StepperFacts();
      IterateStops(Stepper(), env.grid, env.maxSteps, s, steps, fuel);
    }

    /** A greedy path that reaches the goal is never shorter than the Manhattan distance, the length of a best path on an open grid. */
    lemma GreedyNoShorterThanManhattan(s: Coord, steps: int, fuel: int)
      requires Valid()
      ensures var p := [s] + Greedy(s, steps, fuel).cells;
        p[|p| - 1] == env.grid.goal ==> |p| - 1 >= Dist(s, env.grid.goal)
    {
      var p := [s] + Greedy(s, steps, fuel).cells;
      GreedyWalk(s, steps, fuel);
      WalkAtLeastDist(env.grid, p, s, p[|p| - 1]);
    }

    /**
     * The fallback loop of derive_greedy_path: step the environment with each
     * action of order until the state changes.
     */
    method Scan(s: Coord, order: seq<nat>) returns (s2: Coord)
      requires env.state == s && forall i :: 0 <= i < |order| ==> order[i] < Actions
      modifies env
      ensures s2 == Fallback(env.grid, s, order).0
      ensures env.steps - old(env.steps) == Fallback(env.grid, s, order).1
      ensures env.state == s2
    {
      s2 := s;
      var j := 0;
      while j < |order| && s2 == s
        invariant 0 <= j <= |order| && env.state == s2 && env.steps == old(env.steps) + j
        invariant s2 == s ==> Fallback(env.grid, s, order) ==
                                (Fallback(env.grid, s, order[j..]).0, Fallback(env.grid, s, order[j..]).1 + j)
        invariant s2 != s ==> Fallback(env.grid, s, order) == (s2, j)
      {
        FallbackFrom(env.grid, s, order, j);
        var reward, done;
        s2, reward, done := env.Step(order[j]);
        j := j + 1;
      }
    }

    /**
     * One iteration of derive_greedy_path's loop: the step by the best action
     * and, when it does not move, the fallback loop.
     */
    method GreedyMove(s: Coord) returns (s2: Coord, done: bool)
      requires Valid() && Addressable(s) && env.state == s
      modifies env
      ensures s2 == Advance(s, old(env.steps)).0
      ensures env.steps == Advance(s, old(env.steps)).1
      ensures done == Advance(s, old(env.steps)).2
      ensures env.state == s2
    {
      var row := Row(s);
      var reward;
      s2, reward, done := env.Step(Argmax(row));
      if s2 == s {
        FallbackOrderSorted(row);
        s2 := Scan(s, FallbackOrder(row));
      }
    }

    /**
     * One iteration of the loop in derive_greedy_path from cell s, the last
     * cell of path, where rest is the remainder of the run with fuel
     * iterations left.  Either the run stops here, and path2 is path
     * completed by rest, or the iteration moves to s2, appends it, and rest2
     * is the remainder from s2.
     */
    method GreedyIter(s: Coord, fuel: int, path: seq<Coord>, ghost rest: Run)
      returns (s2: Coord, stop: bool, path2: seq<Coord>, ghost rest2: Run)
      requires Valid() && Addressable(s) && env.state == s && fuel > 0
      requires |path| >= 1 && path[|path| - 1] == s
      requires rest == Greedy(s, env.steps, fuel)
      modifies env
      ensures env.state == s2 && |path2| >= 1 && path2[|path2| - 1] == s2
      ensures stop ==> path2 == path + rest.cells && env.steps == rest.steps
      ensures !stop ==> s2 != s && Addressable(s2) && rest2 == Greedy(s2, env.steps, fuel - 1)
      ensures !stop ==> path2 + rest2.cells == path + rest.cells && rest2.steps == rest.steps
    {
      ghost var n := env.steps;
      var done;
      s2, done := GreedyMove(s);
      GreedyUnfold(s, n, fuel);
      stop := s2 == s || s2 == env.grid.goal || done;
      if s2 == s {
        assert rest.cells == [];
        path2 := path;
        assert path2 == path + rest.cells;
      } else {
        path2 := path + [s2];
      }
      rest2 := if stop then rest else Greedy(s2, env.steps, fuel - 1);
      if !stop {
        assert path2 + rest2.cells == path + ([s2] + rest2.cells);
      }
    }

    /**
     * The loop of derive_greedy_path from cell s0 with the environment
     * standing there, where total is the greedy run from there: the path it
     * builds is s0 followed by the cells of the run, and the counter ends
     * where the run says.
     */
    method FollowGreedy(s0: Coord, maxSteps: int, ghost total: Run) returns (path: seq<Coord>)
      requires Valid() && (maxSteps > 0 ==> Addressable(s0)) && env.state == s0
      requires total == Greedy(s0, env.steps, maxSteps)
      modifies env
      ensures path == [s0] + total.cells && env.steps == total.steps
      ensures env.state == path[|path| - 1]
    {
      var s := s0;
      path := [s];
      var fuel := maxSteps;
      ghost var rest := total;
      while fuel > 0
        invariant (fuel > 0 ==> Addressable(s)) && env.state == s && |path| >= 1 && path[|path| - 1] == s
        invariant rest == Greedy(s, env.steps, fuel)
        invariant path + rest.cells == [s0] + total.cells && rest.steps == total.steps
      {
        var stop;
        s, stop, path, rest := GreedyIter(s, fuel, path, rest);
        fuel := fuel - 1;
        if stop {
          return;
        }
      }
    }

    /**
     * derive_greedy_path: reset the environment, place it at start (the
     * grid's start by default) and follow the best action of each cell, or
     * the first action in descending-value order that moves when the best
     * one does not; stop at the goal, when the environment reports the
     * episode done, when no action moves, or after maxSteps cells.
     */
    method DeriveGreedyPath(start: Option<Coord> := None, maxSteps: int := DefaultGreedySteps) returns (path: seq<Coord>)
      requires Valid() && (maxSteps > 0 ==> Addressable(start.UnwrapOr(env.grid.start)))
      modifies env
      ensures var s := start.UnwrapOr(env.grid.start); var run := Greedy(s, 0, maxSteps);
        path == [s] + run.cells && env.steps == run.steps
      ensures env.state == path[|path| - 1]
    {
      var s0 := start.UnwrapOr(env.grid.start);
      var _ := env.Reset();
      env.state := s0;
      path := FollowGreedy(s0, maxSteps, Greedy(s0, env.steps, maxSteps));
    }
  }

  /** Prepending cells other than g to a sequence whose cells before the last avoid g keeps that property. */
  lemma AvoidsBeforeLast(pre: seq<Coord>, r: seq<Coord>, g: Coord)
    requires g !in pre && forall i :: 0 <= i < |r| - 1 ==> r[i] != g
    ensures var q := pre + r; forall i :: 0 <= i < |q| - 1 ==> q[i] != g
  {
    var q := pre + r;
    forall i | 0 <= i < |q| - 1
      ensures q[i] != g
    {
      if i >= |pre| {
        assert q[i] == r[i - |pre|];
      }
    }
  }

  /** The last two cells of s, x, rest... are those of x, rest... */
  lemma LastTwo(s: Coord, x: Coord, rest: seq<Coord>)
    ensures var p, q := [s] + ([x] + rest), [x] + rest;
      p[|p| - 1] == q[|q| - 1] && |p| >= 2 && (|q| >= 2 ==> p[|p| - 2] == q[|q| - 2])
  {
  }

  /** Q[s, a] + alpha * (target - Q[s, a]): the learning step from the old value towards the target. */
  function TdUpdate(q: real, target: real, alpha: real): real
  {
    q + alpha * (target - q)
  }

  /**
   * With a learning rate in [0, 1] the updated value lies between the old
   * value and the target; with a rate strictly between 0 and 1 it lies
   * strictly between them, so every update moves the value and never
   * reaches or overshoots a different target.
   */
  lemma TdUpdateBetween(q: real, target: real, alpha: real)
    requires 0.0 <= alpha <= 1.0
    ensures q <= target ==> q <= TdUpdate(q, target, alpha) <= target
    ensures target <= q ==> target <= TdUpdate(q, target, alpha) <= q
    ensures 0.0 < alpha < 1.0 && q < target ==> q < TdUpdate(q, target, alpha) < target
    ensures 0.0 < alpha < 1.0 && target < q ==> target < TdUpdate(q, target, alpha) < q
  {
    StepWithin(alpha, q, target);
  }

  /**
   * A fraction alpha in [0, 1] of the distance from q to target lies between
   * 0 and that distance, strictly inside when 0 < alpha < 1 and q != target.
   */
  lemma StepWithin(alpha: real, q: real, target: real)
    requires 0.0 <= alpha <= 1.0
    ensures target - q >= 0.0 ==> 0.0 <= alpha * (target - q) <= target - q
    ensures target - q <= 0.0 ==> target - q <= alpha * (target - q) <= 0.0
    ensures 0.0 < alpha < 1.0 && target - q > 0.0 ==> 0.0 < alpha * (target - q) < target - q
    ensures 0.0 < alpha < 1.0 && target - q < 0.0 ==> target - q < alpha * (target - q) < 0.0
  {
    var d := target - q;
    var e := if d >= 0.0 then d else -d;
    MulNonneg(alpha, e);
    MulNonneg(1.0 - alpha, e);
    assert (1.0 - alpha) * e == e - alpha * e;
    assert alpha * d == if d >= 0.0 then alpha * e else -(alpha * e);
    if 0.0 < alpha < 1.0 && d != 0.0 {
      MulPos(alpha, e);
      MulPos(1.0 - alpha, e);
    }
  }

  lemma MulNonneg(a: real, b: real)
    requires a >= 0.0 && b >= 0.0
    ensures a * b >= 0.0
  {
  }

  lemma MulPos(a: real, b: real)
    requires a > 0.0 && b > 0.0
    ensures a * b > 0.0
  {
  }
}
