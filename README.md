# Grid navigation: grid world, two A* searches, and a tabular Q-learning agent

This project models, in Dafny, the navigation core of a small robotics demo.

- **Grid world** (`grid_world.dfy`, module `GridWorld`). An immutable `width x height` rectangle of `(x, y)` cells, with an obstacle set, a start cell and a goal cell. It answers bounds, passability, 4-neighbour and step-cost queries, and exports a 0/1 occupancy array.
- **A\* on the grid world** (`astar.dfy`, module `AStar`). It uses a heap of `(priority, coord)` pairs and the `came_from` / `cost_so_far` dictionaries. It breaks on the goal pop, then rebuilds the path from the goal back to the start. It returns `[]` when the goal is never discovered.
- **A second A\*** (`robotics.dfy`, module `Robotics`). It works on a row/column `uint8` array (0 free, anything else blocked) with `(f, g, coord)` heap entries. It returns None when the start or goal cell holds 1, returns the path as soon as the goal is popped, and returns None when the heap runs dry.
- **Shared search machinery** (`astar_core.dfy`, module `AStarCore`). Both searches pop the least heap entry and relax neighbours in the same way, so the heap as a sequence of entries, the relaxation loop, the path reconstruction loop and the loop invariants live here once. The core is generic in the neighbour function and the heuristic.
- **Q-learning** (`q_learning.dfy`, module `QLearning`). It has two classes:
  - `Env`: a deterministic step machine whose `state` and `steps` fields change in place;
  - `Agent`: owns a `W x H x 4` table `Q` (a Dafny `array3<real>`), which `Learn` updates one entry at a time in place. `DeriveGreedyPath` walks the table greedily.
- `walks.dfy` (module `Walks`) holds the `(x, y)` cell type and walks over any neighbour function, which the grid world, both searches and the greedy path share. `wrappers.dfy` holds the `Option` type.

What is proved:

- `neighbors` is exactly the in-bounds, passable (free) candidate cells, in the source's order. Neighbourhood is symmetric.
- The grid-world A* returns `[]` exactly when the goal is unreachable. Otherwise it returns a walk of neighbour steps from start to goal. The walk is a shortest one (no walk has fewer cells), and it is `[start]` when start is the goal.
- On an obstacle-free grid its path between in-bounds cells has exactly the Manhattan distance in steps. A goal whose four candidate cells are all out of bounds or obstacles gives `[]` from any start that is neither the goal nor one of those cells.
- The array A* returns None when the start or goal cell holds 1, even if the goal is reachable. With both ends free, it returns None exactly when the goal is unreachable, and otherwise a shortest walk, which is `[start]` when start is the goal.
- Both searches terminate. Every push strictly lowers a potential: the sum over all cells of the cell's cost, or a large constant for an unknown cell.
- The `came_from` / `cost_so_far` maps keep a tree invariant throughout:
  - the start has cost 0 and no predecessor;
  - every other known cell's predecessor is a neighbour that is strictly cheaper.

  So reconstruction terminates and yields a walk.
- `Env.Step` moves by the action's vector exactly when the target is in bounds and passable. It adds 1 to the counter, computes the reward and the done flag as the source does, and never leaves the grid.
- `Learn` changes only `Q[x, y, a]`, and sets it to the TD update towards `reward + gamma * max Q[next]`.
- The greedy path starts at the start cell and has at most `max_steps + 1` cells. Each cell is a grid neighbour of the one before. No cell after the first and before the last is the goal; the first may be, when the run starts on the goal. When it stops early, it stopped at the goal, at a cell with no neighbour, at the episode budget, or one cell after the goal.

Python's semantics appear where the source depends on them:

- numpy's negative-index rule is written out for `Q[x, y]`, `grid[start]` and `grid[goal]` (`Wrap`, `Indexable`), and Python's list index rule for `moves[action]` (`Move`), which is the same rule on a list of length 4;
- `max_steps or W * H * 4` treats 0 like None;
- `np.argmax` picks the first maximal index;
- `np.argsort(q)[::-1]` orders by descending value. numpy leaves the order of equal values unspecified, because its default sort is not stable. `AdvanceWith` takes the fallback order as a parameter, and `AdvanceWithFacts` holds for every permutation of the four actions. `AdvanceRow` fixes one permutation: among equal values, the larger index comes first. The greedy-run lemmas use only the facts that hold for every permutation.

A quirk of the source is modelled as written. When `derive_greedy_path` starts on the goal and the best action is blocked, the first step reports `done`. The fallback then still moves the agent off the goal. The path is then `[goal, neighbour]`, which `Agent.GreedyStops` allows through its "one cell after the goal" case.

## Model

| member | source | states |
|---|---|---|
| GridWorld.Grid.InBounds | capstone/cs_capstone/robotics/grid_world.py:17-19 | definition: 0 <= x < width and 0 <= y < height |
| GridWorld.Grid.Passable | capstone/cs_capstone/robotics/grid_world.py:21-22 | definition: the cell is not an obstacle; no bounds check |
| GridWorld.Grid.Keep | capstone/cs_capstone/robotics/grid_world.py:27 | the list comprehension keeps exactly the in-bounds passable cells of its input, never more cells, and in the original relative order |
| GridWorld.Grid.Neighbors | capstone/cs_capstone/robotics/grid_world.py:24-27 | at most 4 cells; a cell is listed iff it is one of the four candidates and in bounds and passable; each is at Manhattan distance 1; they come in the order east, west, south, north |
| GridWorld.NeighborsDistinct | capstone/cs_capstone/robotics/grid_world.py:24-27 | no neighbour is listed twice |
| GridWorld.NotOwnNeighbor | capstone/cs_capstone/robotics/grid_world.py:24-27 | a cell is never its own neighbour |
| GridWorld.NeighborsSymmetric | capstone/cs_capstone/robotics/grid_world.py:24-27 | if q is a neighbour of an in-bounds passable p, then p is a neighbour of q |
| GridWorld.WalkAtLeastDist | capstone/cs_capstone/robotics/grid_world.py:24-27 | every walk of neighbour steps takes at least the Manhattan distance between its ends in steps |
| GridWorld.Grid.Cost | capstone/cs_capstone/robotics/grid_world.py:29-30 | definition: every move between two cells costs 1 |
| GridWorld.PathCostIsSteps | capstone/cs_capstone/robotics/grid_world.py:29-30 | with cost 1 for every pair, a path's summed cost is its number of steps |
| GridWorld.Grid.ToNumpy | capstone/cs_capstone/robotics/grid_world.py:32-36 | fails exactly on a negative dimension or an obstacle that cannot index the array; otherwise a fresh height x width array whose [y, x] is 1 exactly when some obstacle lands there under numpy's index rule, else 0 |
| GridWorld.MarkedInBounds | capstone/cs_capstone/robotics/grid_world.py:32-36 | when every obstacle is in bounds, array cell [y, x] is 1 exactly when (x, y) is an obstacle |
| AStar.Heuristic | capstone/cs_capstone/robotics/astar.py:7-8 | the Manhattan distance; never negative and zero exactly at the goal |
| AStar.HeuristicConsistent | capstone/cs_capstone/robotics/astar.py:7-8 | the heuristic drops by at most 1 per neighbour step, so A* with it is optimal |
| AStar.WalkEnd | capstone/cs_capstone/robotics/astar.py:28 | a walk ends at its start or at an in-bounds passable cell |
| AStar.UnreachableGoal | capstone/cs_capstone/robotics/astar.py:28 | a goal that differs from the start and is blocked or out of bounds is unreachable, so astar returns [] for it |
| AStar.CoversGrid | capstone/cs_capstone/robotics/astar.py:28 | every neighbour the grid yields is one of its finitely many cells, which bounds the search |
| AStar.Search | capstone/cs_capstone/robotics/astar.py:17-34 | the maps keep the tree invariant; the goal ends up in came_from exactly when it is reachable; its cost is then no more than the steps of any walk to it |
| AStar.AStar | capstone/cs_capstone/robotics/astar.py:11-45 | start and goal default to the grid's; [] exactly when the goal is unreachable; otherwise a walk of neighbour steps from start to goal with no more cells than any other such walk; exactly [start] when start == goal |
| AStar.WallGridWalk | capstone/tests/test_astar.py:5-11 | on the 5 x 5 grid with a wall at y = 2 broken at x = 2, there is an 8-step walk from (0, 0) to (4, 4) |
| AStar.StraightWalkOnOpenGrid | capstone/cs_capstone/robotics/grid_world.py:24-27 | on a grid without obstacles, stepping along x and then along y between in-bounds cells is a walk of Manhattan-distance steps |
| AStar.OpenGridPath | capstone/cs_capstone/robotics/astar.py:11-45 | on an obstacle-free grid, astar's path between in-bounds cells is a walk of exactly the Manhattan distance in steps |
| AStar.EnclosedGoal | capstone/cs_capstone/robotics/grid_world.py:24-27 | a goal none of whose four candidates is in bounds and passable is unreachable from any start that is neither the goal nor one of those candidates |
| AStar.EnclosedGoalPath | capstone/cs_capstone/robotics/astar.py:11-45 | for such a goal and start, astar returns [] |
| AStar.WallGridPath | capstone/tests/test_astar.py:5-11 | on that grid astar's path starts at (0, 0), ends at (4, 4) and takes exactly 8 steps |
| AStarCore.MinIndex | capstone/cs_capstone/robotics/astar.py:24 | heappop: an index of the entry that is least in Python's tuple order, (f, coord) or (f, g, coord) |
| AStarCore.Remove | capstone/cs_capstone/robotics/astar.py:24 | the heap without the popped entry, all other entries in place |
| AStarCore.Relax | capstone/cs_capstone/robotics/astar.py:28-34 | the relaxation loop: a neighbour that is new or strictly cheaper through current gets cost g + 1, current as predecessor and a pushed entry (g + 1 + h, g + 1, nxt); nothing else changes; no push means no change |
| AStarCore.RelaxStep | capstone/cs_capstone/robotics/astar.py:28-34 | one more neighbour processed keeps the description of the whole pass |
| AStarCore.InitInv | capstone/cs_capstone/robotics/astar.py:17-21 | the initial heap and maps satisfy the search invariant |
| AStarCore.PopInv | capstone/cs_capstone/robotics/astar.py:24-26 | popping a non-goal entry keeps the frontier invariant and progress for every other known cell |
| AStarCore.TreeAfterRelax | capstone/cs_capstone/robotics/astar.py:28-34 | relaxation keeps the tree invariant: start at cost 0 with no predecessor, every other cell's predecessor a strictly cheaper neighbour; costs only fall |
| AStarCore.RelaxInv | capstone/cs_capstone/robotics/astar.py:28-34 | relaxing the popped cell restores the full search invariant |
| AStarCore.RelaxLowers | capstone/cs_capstone/robotics/astar.py:30-31 | relaxation only adds cells and lowers costs, keeps them non-negative, and any change adds a cell or lowers a cost |
| AStarCore.PotAfterRelax | capstone/cs_capstone/robotics/astar.py:23-34 | such a change strictly lowers the termination potential |
| AStarCore.RelaxMeasure | capstone/cs_capstone/robotics/astar.py:23-34 | every iteration keeps costs below the number of known cells and either pushes nothing or lowers the potential, so the loop terminates |
| AStarCore.ExpandInv | capstone/cs_capstone/robotics/astar.py:23-34 | a whole non-goal iteration keeps the invariant and decreases the loop measure |
| AStarCore.Exhausted | capstone/cs_capstone/robotics/astar.py:23-37 | when the heap runs dry before the goal is popped, the goal was never discovered and is unreachable |
| AStarCore.OptimalAtGoal | capstone/cs_capstone/robotics/astar.py:24-26 | when the goal is popped as a least entry, its recorded cost is no more than the steps of any walk to it |
| AStarCore.TreeWalk | capstone/cs_capstone/robotics/astar.py:40-43 | following predecessors from a known cell reaches the start along a walk |
| AStarCore.Reconstruct | capstone/cs_capstone/robotics/astar.py:39-45 | the reconstruction loop and reverse give a walk from start to goal with at most cost[goal] + 1 cells |
| AStarCore.HeuristicAlongWalk | capstone/cs_capstone/robotics/astar.py:7-8 | along a walk to the goal, a consistent heuristic never overestimates the remaining steps |
| Robotics.NeighborsOfFacts | modules/robotics.py:20-28 | at most 4 cells; a cell is listed iff it is a candidate inside the array's shape whose value is 0; each at Manhattan distance 1; ordered up, down, left, right by (row, col) |
| Robotics.NeighborsOfDistinct | modules/robotics.py:20-28 | a cell is not its own neighbour and none is listed twice |
| Robotics.NeighborsOfSymmetric | modules/robotics.py:20-28 | neighbourhood is symmetric between free cells |
| Robotics.FreeOfMembers | modules/robotics.py:24-27 | the append loop keeps exactly the free cells of the step list, never more cells |
| Robotics.FreeOfOrdered | modules/robotics.py:24-27 | the append loop keeps the order of the step list |
| Robotics.Neighbors | modules/robotics.py:20-28 | the loop's result is exactly the free candidate cells in step order |
| Robotics.Heuristic | modules/robotics.py:31-32 | the Manhattan distance; never negative and zero exactly at the goal |
| Robotics.HeuristicConsistent | modules/robotics.py:31-32 | the heuristic drops by at most 1 per neighbour step |
| Robotics.HeuristicAdmissible | modules/robotics.py:31-32 | every walk takes at least the Manhattan distance in steps |
| Robotics.CoversRaster | modules/robotics.py:26 | every neighbour lies in the array's shape, which bounds the search |
| Robotics.WalkFree | modules/robotics.py:51 | every cell of a walk after the first is inside the array and 0 there |
| Robotics.Search | modules/robotics.py:38-57 | the maps keep the tree invariant; the goal is popped exactly when it is reachable, and its cost is then no more than the steps of any walk to it |
| Robotics.AStar | modules/robotics.py:35-58 | asks for an addressable goal only when grid[start] is not 1, since the `or` test stops there; None when grid[start] or grid[goal] is 1; otherwise None exactly when the goal is unreachable; a returned path is a shortest walk of neighbour steps from start to goal, and [start] when start == goal |
| QLearning.Move | capstone/cs_capstone/ml/q_learning.py:33-35 | moves[action] under Python's list index rule; always a unit step |
| QLearning.NextMoves | capstone/cs_capstone/ml/q_learning.py:36-43 | an action leaves the state alone or moves it to an adjacent in-bounds passable cell, and it moves exactly when the target is in bounds and passable |
| QLearning.StuckIffNoNeighbors | capstone/cs_capstone/ml/q_learning.py:36-43 | all four actions fail exactly at a cell without grid neighbours |
| QLearning.NextStaysInGrid | capstone/cs_capstone/ml/q_learning.py:36-43 | from an in-bounds passable cell a step lands on an in-bounds passable cell |
| QLearning.EpisodeBudget | capstone/cs_capstone/ml/q_learning.py:22 | definition: the given budget unless it is None or 0, then width * height * 4 |
| QLearning.Env.constructor | capstone/cs_capstone/ml/q_learning.py:9-24 | stores the grid and reward constants (defaults -1, 100, -5), the budget by the `or` rule, and starts reset |
| QLearning.Env.Reset | capstone/cs_capstone/ml/q_learning.py:26-29 | state becomes the start, steps 0, and the start is returned |
| QLearning.Env.Step | capstone/cs_capstone/ml/q_learning.py:31-53 | state becomes the action's target when in bounds and passable and is unchanged otherwise; steps grows by exactly 1; the reward is the step reward; done iff state is the goal or steps reached the budget |
| QLearning.Env.RewardCases | capstone/cs_capstone/ml/q_learning.py:38-48 | a blocked move earns step + invalid penalty (plus the goal reward only when already on the goal); a valid move earns the step penalty plus the goal reward when it lands on the goal |
| QLearning.ArgmaxFirstMax | capstone/cs_capstone/ml/q_learning.py:114 | np.argmax picks a largest value, and every earlier index holds a strictly smaller one |
| QLearning.ArgmaxPrefixFirstMax | capstone/cs_capstone/ml/q_learning.py:114 | the same for every prefix of the row |
| QLearning.MaxOf | capstone/cs_capstone/ml/q_learning.py:86 | np.max: a value of the row no smaller than any other |
| QLearning.InsertSorted | capstone/cs_capstone/ml/q_learning.py:118 | inserting a new index into a best-first order gives a best-first order with exactly one more element |
| QLearning.SortDescSorted | capstone/cs_capstone/ml/q_learning.py:118 | sorting distinct indices yields a permutation of them in best-first order |
| QLearning.FallbackOrderSorted | capstone/cs_capstone/ml/q_learning.py:118 | argsort(q)[::-1] is a permutation of the four actions, in descending value order |
| QLearning.Fallback | capstone/cs_capstone/ml/q_learning.py:116-121 | the fallback scan takes at most one step per action tried and at least one when it tries any |
| QLearning.FallbackMoves | capstone/cs_capstone/ml/q_learning.py:116-121 | the scan either stays put or reaches an adjacent passable cell |
| QLearning.FallbackFails | capstone/cs_capstone/ml/q_learning.py:116-123 | the scan stays put exactly when every action it tries fails |
| QLearning.FallbackStuck | capstone/cs_capstone/ml/q_learning.py:116-123 | a scan over all four actions stays put exactly at a cell without neighbours |
| QLearning.AdvanceWithFacts | capstone/cs_capstone/ml/q_learning.py:112-123 | for any fallback order that is a permutation of the four actions (any tie order of argsort): one loop iteration moves to an adjacent cell or stays put; it stays put exactly at a cell without neighbours; the counter grows; done only on reaching the goal, at the budget, or from the goal |
| QLearning.AdvanceRowFacts | capstone/cs_capstone/ml/q_learning.py:112-123 | the same for the model's fixed tie order: one loop iteration moves to an adjacent cell or stays put; it stays put exactly at a cell without neighbours; the counter grows; done only on reaching the goal, at the budget, or from the goal |
| QLearning.IterateBounds | capstone/cs_capstone/ml/q_learning.py:111-127 | the loop appends at most max_steps cells, and the step counter grows by at least one per cell |
| QLearning.IterateWalk | capstone/cs_capstone/ml/q_learning.py:111-127 | when each iteration moves to a neighbour or stays put, the path is a walk |
| QLearning.IterateGoalLast | capstone/cs_capstone/ml/q_learning.py:126-127 | no appended cell before the last is the goal |
| QLearning.IterateStops | capstone/cs_capstone/ml/q_learning.py:116-127 | a loop that stops before max_steps stopped at the goal, at a cell without neighbours, at the budget, or one cell after the goal |
| QLearning.Agent.constructor | capstone/cs_capstone/ml/q_learning.py:65-72 | stores alpha, gamma and epsilon (defaults 0.5, 0.95, 0.1); Q is a fresh W x H x 4 table of zeros |
| QLearning.Agent.Row | capstone/cs_capstone/ml/q_learning.py:113 | Q[x, y, :] has the four action values |
| QLearning.Agent.Learn | capstone/cs_capstone/ml/q_learning.py:83-89 | Q[x, y, a] becomes old + alpha * (reward + gamma * max Q[next] - old); every other entry is unchanged |
| QLearning.TdUpdateBetween | capstone/cs_capstone/ml/q_learning.py:87-89 | with 0 <= alpha <= 1 the new value lies between the old value and the target, in either order; with 0 < alpha < 1 and a target different from the old value it lies strictly between them |
| QLearning.Agent.StepperFacts | capstone/cs_capstone/ml/q_learning.py:112-123 | every iteration on the current table moves to a neighbour or stays put only when stuck, flags done only at the goal, the budget or from the goal, and advances the counter |
| QLearning.Agent.GreedyUnfold | capstone/cs_capstone/ml/q_learning.py:111-127 | the run from s stops where it is, stops one cell on, or continues from the cell it moved to |
| QLearning.Agent.GreedyBounds | capstone/cs_capstone/ml/q_learning.py:111 | at most max_steps cells are appended, and the counter grows by at least one per cell |
| QLearning.Agent.GreedyWalk | capstone/cs_capstone/ml/q_learning.py:115-124 | start followed by the run is a walk: each appended cell is an in-bounds passable neighbour of the previous one |
| QLearning.Agent.GreedyGoalLast | capstone/cs_capstone/ml/q_learning.py:126-127 | no appended cell before the last is the goal; the start itself may be the goal |
| QLearning.Agent.GreedyStops | capstone/cs_capstone/ml/q_learning.py:116-127 | a path shorter than max_steps + 1 ended at the goal, at a cell with no neighbour, at the episode budget, or one cell after the goal |
| QLearning.Agent.GreedyNoShorterThanManhattan | capstone/cs_capstone/ml/q_learning.py:103-128 | a greedy path that reaches the goal takes at least the Manhattan distance in steps |
| QLearning.Agent.Scan | capstone/cs_capstone/ml/q_learning.py:118-121 | the fallback loop steps the environment once per action tried until one moves, ending where the scan says |
| QLearning.Agent.GreedyMove | capstone/cs_capstone/ml/q_learning.py:112-123 | one iteration: the best action's step and, if it did not move, the fallback loop; state, counter and done as the iteration function says |
| QLearning.Agent.GreedyIter | capstone/cs_capstone/ml/q_learning.py:112-127 | one iteration either stops, and the path is completed by the rest of the run, or appends the cell reached, and the rest of the run continues from there |
| QLearning.Agent.FollowGreedy | capstone/cs_capstone/ml/q_learning.py:109-128 | the loop builds start followed by the greedy run, and leaves the counter and state where the run ends |
| QLearning.Agent.DeriveGreedyPath | capstone/cs_capstone/ml/q_learning.py:103-128 | the start defaults to the grid's and max_steps to 500; after the reset the path is the start followed by the greedy run with max_steps iterations, from counter 0 |

## Left out

- `choose_action` and `train`: driven by `random.Random` draws (epsilon-greedy). The seeds, the RNG and `epsilon`'s use are not modelled; `epsilon` is only stored. The test's "within optimal + 4 steps" claim depends on the random training run.
- `generate_grid` and `visualize_grid_path`: seeded random obstacles, and plotting.
- `action_space_n` and `observation_space_shape`: constant accessors; the model uses the constant `Actions` = 4.
- The `info` dict returned by `step`, and the unused popped cost in the second A*.
- float32 Q values and float rewards: these are mathematical reals, so rounding is not modelled. Path costs are integers, which unit steps keep exact.
- Heap order among entries with equal keys: the model pops a least entry under the full tuple order, but keeps the heap as a plain sequence rather than a binary heap.
- Tie order of `np.argsort` on equal values: numpy does not specify it. `AdvanceRow`, and with it the concrete greedy path, fixes "larger index first". `AdvanceWithFacts` holds for every order.
- Calls that raise `IndexError` in the source are preconditions instead of error results:
  - an action outside -4..3;
  - a Q index outside the table;
  - `grid[start]` outside the array, or `grid[goal]` outside it when `grid[start]` is not 1;
  - a greedy start outside the table when `max_steps > 0`. With `max_steps <= 0` the loop never indexes `Q`, and `DeriveGreedyPath` accepts any start.
- Helper structure: the source's single functions are split into more than one method.
  - `AStar.Search` and `Robotics.Search` are the search loops.
  - `Agent.Scan`, `Agent.GreedyMove`, `Agent.GreedyIter` and `Agent.FollowGreedy` are the pieces of `derive_greedy_path`'s loop.
  - `Robotics.Search` returns a flag on the goal pop, and reconstruction follows it. The source reconstructs inside the loop.
- The capstone search adds `grid.cost(current, nxt)` to the cost; `AStarCore.Relax` adds the constant 1, which is what `Grid.Cost` always returns. `GridWorld.PathCostIsSteps` states that the summed cost is the step count.
- The capstone search's heap holds `(priority, coord)` pairs. The model's entries also carry `g`, which the pair order never consults.
- QLearning.Agent.constructor: requires a non-negative width and height. `np.zeros` raises `ValueError` for a negative dimension, and the model does not represent that error.
- QLearning.Agent.GreedyNoShorterThanManhattan: states only the Manhattan lower bound, not the test's "optimal + 4" upper bound, because that bound depends on the random training.
