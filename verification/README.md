# Grid-world value iteration, modelled in Dafny

This project models the reinforcement-learning core of `frontend.py`, a
Streamlit demo. An agent walks an N×N grid from the top-left cell `(0,0)` to
the goal `(N-1,N-1)`. Some cells are walls. Every step costs -1 and entering
the goal earns +10.

The model covers four pieces of the demo:

- the transition function `move_agent`;
- the reward function `get_reward`;
- the value-iteration solver `value_iteration`;
- the policy rollout loop of `agent_movement`.

The files follow the program's structure:

- `grid.dfy` (`Grid`): cells, the environment (board side and wall list), `Move` and `Reward`.
- `tables.dfy` (`Tables`): the N×N value and policy arrays as nested sequences.
- `greedy.dfy` (`Greedy`): Python's `max` and numpy's `argmax` (first index attaining the maximum) over the four Q-values.
- `sweep.dfy` (`Sweep`): one sweep of the solver. It is defined as a row-major fold of per-cell updates (`FullSweep`). The nested loops as written (`RunSweep`) are proved to compute exactly that fold.
- `solver.dfy` (`Solver`): the `while True` loop around the sweeps. It stops at the first sweep whose `delta` is below `theta`. `fuel` bounds the number of sweeps.
- `results.dfy` (`Results`): properties of the solved tables:
  - values never exceed 10 when 0 ≤ gamma ≤ 1;
  - cells beside the goal are solved exactly;
  - a worked 3×3 example;
  - with gamma = 1 and a walled-in start, the loop never stops.
- `rollout.dfy` (`Rollout`): the greedy rollout from `(0,0)`. It is bounded by `fuel`.
- `option.dfy` (`Maybe`): the `Option` type used for fuel-bounded results.

Some points about how the model reads the code:

- **The sweep is in place.** `values[i, j]` is overwritten during the sweep. A cell visited later in the same sweep therefore reads the new values of the cells visited before it (Gauss–Seidel). `Sweep.GaussSeidelRead` states this ordering exactly.
- **Terminal cells are never updated.** The goal and the walls keep the value 0 and the policy entry 0 that `np.zeros` gave them. Rewards are collected on entering a cell. So after any sweep, for every gamma in [0, 1], a cell beside the goal holds exactly 10: 10 for entering the goal, plus gamma times the goal's value of 0. Every other move is worth at most -1 + gamma·10 ≤ 9. The range [0, 1] covers the slider's range 0.01–1.0 (frontend.py:18). On the 3×3 board without walls and with gamma = 0.9, this puts 10 in both (2,1) and (1,2), with policy entries Right and Down (`Results.ThreeByThree`).
- **`value_iteration` validates nothing.** It checks neither gamma nor theta and has no cap on the number of sweeps.
- **Action codes are the integers 0..3**, meaning Up, Down, Left and Right. `move_agent` returns the position unchanged for any other code. `Grid.Move` does the same.

## Model

| member | source | states |
|---|---|---|
| Grid.Move | frontend.py:41-51 | The result is either the start cell or its neighbour in the action's direction, and never a wall when the start is not one. It stays on the board. It is the neighbour whenever that direction is open. Unknown action codes do nothing. |
| Grid.MoveSucceedsIffOpen | frontend.py:41-51 | From a board cell, the agent moves exactly when the neighbour in the action's direction is on the board and not a wall. When it moves, it lands on that neighbour. |
| Grid.MoveBlockedAtBoundary | frontend.py:43-50 | A move toward an edge the cell already touches leaves the agent where it is. |
| Grid.MoveIntoWallStays | frontend.py:51 | A move aimed at a wall leaves the agent where it is. |
| Grid.MoveIsUnitStep | frontend.py:41-51 | Every transition covers Manhattan distance 0 or 1, and exactly 1 when the position changes. |
| Grid.Reward | frontend.py:54-58 | The reward is 10 exactly when the cell entered is the goal, and -1 exactly when it is not. |
| Tables.Filled | frontend.py:79-80 | The zero tables have the board's shape and hold the given value in every cell. |
| Greedy.MaxValue | frontend.py:99 | The new cell value is at least every Q-value and equals one of them. |
| Greedy.ArgMax | frontend.py:101 | The policy entry indexes a maximal Q-value, and every earlier index holds a strictly smaller one (ties go to the first action). |
| Greedy.ArgMaxAttainsMax | frontend.py:99-101 | The action stored in the policy is one whose Q-value is the value stored in the table. |
| Sweep.QValueByTarget | frontend.py:94-96 | An action that enters the goal is worth 10 plus gamma times the goal's stored value. Any other action is worth -1 plus gamma times the value stored in the cell it reaches. A blocked action is worth the current cell's reward plus gamma times that cell's own value. |
| Sweep.QValues | frontend.py:92-96 | There is one Q-value per action code. The Q-value for code `a` is the reward of the cell `Move` reaches plus gamma times that cell's current value. |
| Sweep.UpdateCell | frontend.py:86-103 | Visiting the goal or a wall changes nothing. Visiting any other cell changes no other cell's value or policy entry. |
| Sweep.UpdateCellIsGreedy | frontend.py:89-103 | A visited cell's new value and policy entry are the greedy Bellman update against the table as it stands, and `delta` becomes the larger of the old `delta` and this cell's change. |
| Sweep.FullSweep | frontend.py:83-103 | One whole sweep, with `delta` starting at 0, yields tables of the board's shape. What those tables hold is stated by `Sweep.SweepOutcome`, `Sweep.GaussSeidelRead` and `Sweep.SweepDelta`. |
| Sweep.GaussSeidelRead | frontend.py:84-100 | When a cell is visited, every cell earlier in row-major order already holds the value its own visit wrote. Every other cell still holds its value from the start of the sweep. |
| Sweep.SweepOutcome | frontend.py:84-103 | After a sweep, each non-terminal cell holds the greedy update computed against the in-place table at the moment of its visit. Terminal cells keep their value and policy entry. |
| Sweep.RowStepDelta | frontend.py:103 | One more visit never lowers the running `delta`, and leaves it either unchanged or equal to that cell's change. When the running `delta` is non-negative, as it is from its start at 0, the new `delta` covers that change. |
| Sweep.RowDelta | frontend.py:85-103 | After part of a row, `delta` bounds every change made in that part. It equals either the value it had at the start of the row or one of those changes. |
| Sweep.RowsDelta | frontend.py:83-103 | After whole rows, `delta` is non-negative and bounds every change made. It is 0 or equals one of the changes. |
| Sweep.SweepDelta | frontend.py:83-103 | A sweep's `delta` is the largest \|old − new\| over all cells: it bounds every change and equals one of them, or is 0. |
| Sweep.CollectQValues | frontend.py:90-96 | The loop over the four actions builds exactly the list of Q-values in action-code order. |
| Sweep.VisitCell | frontend.py:86-103 | The loop body for one cell, updating the tables in place, computes exactly the per-cell update. |
| Sweep.RunSweep | frontend.py:83-103 | The nested row and column loops compute exactly the row-major fold of per-cell updates, with `delta` starting from 0. |
| Solver.Initial | frontend.py:79-80 | Both starting tables have the board's shape and are 0 everywhere. |
| Solver.Sweeps | frontend.py:82-103 | The tables after `k` passes of the loop keep the board's shape. |
| Solver.SweepsOneMore | frontend.py:82-103 | The tables after `k + 1` passes are one more sweep of the tables after `k` passes. |
| Solver.Iterate | frontend.py:82-107 | Whatever the loop returns has the board's shape and passed the stopping test `delta < theta`. |
| Solver.IterateStopsAtFirstConvergedSweep | frontend.py:82-107 | The loop returns the tables of the first sweep whose `delta` is below `theta`. It reports no result exactly when none of the first `fuel` sweeps got there. |
| Solver.SweepKeepsInvariant | frontend.py:84-101 | A sweep keeps the goal and every wall at value 0 and policy entry 0, and keeps every policy entry a valid action code. |
| Solver.IterateKeepsInvariant | frontend.py:82-107 | Every sweep of the loop preserves that invariant. |
| Solver.ValueIteration | frontend.py:78-109 | Starting from zero tables, any result passed `delta < theta`, has the goal and walls still at 0 and 0, and has an action code in every policy entry. |
| Solver.RunValueIteration | frontend.py:78-109 | The solver loop as written (zero tables, repeated sweeps, break on `delta < theta`) computes exactly `ValueIteration`. |
| Results.GoalReadsStart | frontend.py:84-87 | The goal is the last cell in row-major order and is never updated, so every visit reads the goal's value from the start of the sweep. |
| Results.GreedyCapped | frontend.py:93-99 | For 0 ≤ gamma ≤ 1, the greedy update against a table capped at 10 with goal value 0 is at most 10. |
| Results.GreedyNextToGoal | frontend.py:93-101 | Against such a table, a cell that some action moves into the goal gets value exactly 10. Its greedy action enters the goal and is the first action that does. |
| Results.VisitedCapped | frontend.py:86-100 | In a sweep from a capped table with goal value 0, every visit writes at most 10. |
| Results.BeforeCapped | frontend.py:84-100 | In such a sweep, every value that any visit reads is at most 10. |
| Results.BeforeAllCapped | frontend.py:84-100 | The in-place table at every visit is capped at 10 and still has goal value 0. |
| Results.SweepKeepsCap | frontend.py:84-103 | A sweep keeps every value at most 10. |
| Results.SweepNextToGoal | frontend.py:84-103 | For 0 ≤ gamma ≤ 1, after a sweep from a capped table that keeps the invariant, a non-terminal cell beside the goal holds 10, and its policy entry is the first action that enters the goal. |
| Results.IterateEndsWithCappedSweep | frontend.py:82-107 | The loop's result is one sweep of a table that keeps the invariant and the cap. |
| Results.ValueIterationCapped | frontend.py:78-109 | For 0 ≤ gamma ≤ 1, no value the solver returns exceeds 10. |
| Results.SolvedNextToGoal | frontend.py:78-109 | For 0 ≤ gamma ≤ 1, in the solved tables, a non-terminal cell beside the goal has value 10, and its policy entry is the first action that moves into the goal. |
| Results.ThreeByThree | frontend.py:78-109 | On the 3×3 board without walls with gamma = 0.9, whenever the loop stops, (2,1) and (1,2) hold 10 and their policy entries are Right and Down. |
| Results.EnclosedStartStays | frontend.py:41-51 | With walls at (0,1) and (1,0), no action moves the agent off (0,0). |
| Results.EnclosedStartChange | frontend.py:93-103 | With gamma = 1 and a walled-in start, every sweep lowers the start's value by exactly 1, so the sweep's change there is exactly 1. |
| Results.EnclosedStartNeverConverges | frontend.py:82-107 | With gamma = 1, a walled-in start and any `theta` ≤ 1, no number of sweeps ever meets the stopping test. |
| Rollout.PolicyStep | frontend.py:134-135 | One rollout step stays on the board, covers distance at most 1, and never enters a wall from a non-wall cell. |
| Rollout.StepsFrom | frontend.py:133-136 | The cell after `k` policy steps stays on the board and off the walls. |
| Rollout.Walk | frontend.py:133-136 | A walk that arrives takes at most `fuel` steps. It enters no cell exactly when it started on the goal. |
| Rollout.Rollout | frontend.py:128-136 | A completed rollout starts at (0,0) and ends on the goal. It reaches the goal nowhere earlier. Each cell follows from the previous one by the policy step. It takes at most `fuel` steps and never touches a wall. |
| Rollout.WalkFollowsPolicy | frontend.py:133-136 | The cells a walk enters, after its starting cell, form a path that follows the policy to the goal within `fuel` steps. The path stays off the walls. |
| Rollout.WalkReachesGoal | frontend.py:133-136 | A walk arrives exactly when some number of policy steps, at most `fuel`, lands on the goal. Its length is the first such number. |
| Rollout.StuckCellNeverArrives | frontend.py:133-135 | A non-goal cell whose own policy step stays put traps the agent for any fuel. |
| Rollout.EnclosedStartNeverArrives | frontend.py:129-135 | With walls at (0,1) and (1,0), no policy ever brings the agent from (0,0) to the goal. |
| Rollout.AgentMovement | frontend.py:128-136 | The `while` loop as written, collecting the start cell followed by every cell it draws, computes exactly `Rollout`. |

## Left out

- `random_movement` (frontend.py:60-75) is left out. Its random action choice is randomness, and the rest of it is drawing; its stepping is `Grid.Move`, which is modelled.
- `create_walls` (frontend.py:26-33) samples wall positions at random, so it is not modelled. `Grid.ValidEnv` states what that sampler guarantees instead: every wall is on the board, none sits on the start or the goal, and none is listed twice. The wall count derived from the percentage slider is not modelled.
- The Streamlit page is not modelled: the sliders, buttons, `visualize_grid`, matplotlib drawing, `time.sleep` and the success messages. The slider ranges for the board side, gamma, theta and the wall percentage are not imposed. Lemmas that need a range (0 ≤ gamma ≤ 1, theta ≤ 1) say so in their own preconditions.
- Floating point is not modelled: values are exact reals. In float64, a walled-in start at gamma = 1 would stop changing once its value reaches −2^53. Exact reals never stop changing.
- Solver.Iterate: the source's `while True` has no bound. The model gives it `fuel` sweeps and returns `None` when they run out, so it says nothing about sweeps beyond `fuel`.
- Rollout.Rollout: the source's `while` has no bound either. The model gives it `fuel` steps and returns `None` when they run out.
- Rollout.AgentMovement does not return the `steps` counter. It equals the length of the returned path minus one.
- Results.ThreeByThree states only the two cells beside the goal, and only when the loop stops within `fuel` sweeps. Convergence itself is not proved.
