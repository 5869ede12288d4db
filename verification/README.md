# Grid-world Monte Carlo control: a Dafny model of the environment core

The training service learns a tabular policy by Monte Carlo control on a small
grid world. This project models the service's environment and the
bookkeeping around it. The environment is a grid of cells with a start, an
absorbing goal and wall cells. Its transition moves the agent one cell up,
down, left or right. A move into a wall or off the grid leaves the agent where
it is. The move that enters the goal pays 10; every other move from a non-goal
cell pays -1. A step taken in the goal pays 0 and stays there. Around the
transition sit:

- the state enumeration and the initial Q-table;
- the episode generator, capped at 50 moves;
- the greedy action over a Q-table row;
- the snapshot's policy map and Q-table, keyed by `"r,c"` text.

The backend holds two versions of the environment:

- `backend/main.py`, the production one: a 3×5 grid, start (2,0), goal (2,4),
  walls (1,2) and (2,2). It is modelled in module `GridWorld`.
- `backend/test.py`, an earlier prototype: a 3×4 grid, start (2,0), goal (0,3),
  wall (1,1). It also computes discounted returns. It is modelled in module
  `Prototype`.

Shared vocabulary is in `Grid` (`grid.dfy`):

- actions and their one-letter names;
- cells, and the `GridSpec` record of a grid's constants;
- the transition rule `Move`;
- the `IsRollout` predicate that says a trajectory is a faithful record of a walk.

`GridWorld.Step` is the parsed action name followed by `Move` with the
production constants. `Prototype.Step` keeps the prototype's own chain of
guarded moves. Its contract proves it equals `Move` with the prototype's
constants, which is the sense in which both files implement one rule.
`CellKey` (`cell_key.dfy`) writes cells as decimal `"r,c"` keys and parses them
back. `Greedy` (`greedy.dfy`) holds the Q-table row and the argmax choice.

Randomness becomes a parameter:

- `GridWorld.GenerateEpisode` takes a chooser `choose(t, s)`. It gives the
  action picked at step `t` in state `s`, standing for the epsilon-greedy draw.
- `Prototype.GenerateEpisode` takes `actions(t)`, the action drawn at step `t`.
- `Greedy.GreedyAction` and the snapshot take a tie-break index per cell. It
  stands for `random.choice` among the tied best actions.

Rewards are integers (-1, 0, 10). Q-values are `real`. The discount factor
0.9 is the exact rational 9/10.

## Model

| member | source | states |
|---|---|---|
| Grid.ParseAction | backend/main.py:27-28 | A name reads as an action exactly when it is one of "U", "D", "L", "R", and then it is that action's name; every other name is rejected |
| Grid.Move | backend/main.py:30-49 | The goal is absorbing with reward 0 and done; elsewhere the agent moves to the aimed-at neighbour when it is valid and otherwise stays; done holds exactly when the agent ends on the goal; the reward is 10 on entering the goal and -1 otherwise, blocked moves included; from a valid cell the result is valid and at most one orthogonal step away |
| GridWorld.Step | backend/main.py:26-49 | An unknown action name is an error and a known one never is; a known action steps by the shared rule with the 3×5 constants; at the goal it returns (goal, 0, done); done holds exactly when the next state is the goal; valid states stay valid |
| GridWorld.ValidCellsListed | backend/main.py:22-24 | A cell is valid exactly when it is one of the 13 cells of the 3×5 grid that are not the walls (1,2) and (2,2) |
| GridWorld.InScan | backend/main.py:60-65 | Scanning on from a cell adds to what was already listed exactly the occupiable cells at or after that cell in row-major order |
| GridWorld.AllStatesMembers | backend/main.py:60-65 | The enumeration yields exactly the occupiable cells: every non-wall cell of the grid and nothing else |
| GridWorld.ScanOrdered | backend/main.py:61-65 | Scanning on from a cell, after a row-major list of earlier cells, keeps the list in strictly row-major order |
| GridWorld.AllStatesOrdered | backend/main.py:60-65 | The enumeration is in strictly row-major order, rows top to bottom and each row left to right, so it yields no cell twice |
| GridWorld.InitQ | backend/main.py:67-68 | The initial Q-table's keys are exactly the valid cells other than the goal, and every action value is 0 |
| Grid.RolloutExtend | backend/main.py:79-82 | Recording a move taken from where the walk stands keeps the record a rollout, and adds that move's reward to the running return |
| Grid.RolloutReturn | backend/main.py:73-84 | From a non-goal start the undiscounted return is -1 per move before the last plus 10 or -1 for the last move, according to whether it reached the goal |
| GridWorld.WalkingStep | backend/main.py:75-84 | One more chosen move from a non-goal state keeps the loop's state: a bounded rollout from the start, chosen actions, valid states, return equal to the reward sum |
| GridWorld.WalkingEnd | backend/main.py:75-86 | When the loop stops, the record is non-empty and at most 50 moves long; stopping early means the last move finished the episode with reward 10; the return has the closed form above |
| GridWorld.GenerateEpisode | backend/main.py:70-86 | For any chooser, the trajectory is a rollout from the start of 1 to 50 moves; each action is the chooser's pick for its step and state; all states are valid; a stop before 50 moves means the last move entered the goal with reward 10; the returned sum equals the sum of the recorded rewards and its closed form |
| Greedy.MaxValue | backend/main.py:97 | The maximum bounds all four action values and is attained by one of them |
| Greedy.ValuedFrom | backend/main.py:98 | The actions from a position of the action list whose value equals a given `m`, exactly those, in list order; `BestActions` takes `m` to be the maximum |
| Greedy.BestActions | backend/main.py:96-98 | The tied best actions are non-empty, are exactly the actions attaining the maximum, and keep the order U, D, L, R |
| Greedy.GreedyAction | backend/main.py:95-99 | The greedy choice has a value no smaller than any other action's and is one of the tied best actions |
| Greedy.Wrap | backend/main.py:99 | The tie-break index counted cyclically lands on one of the ties, and an index already below the number of ties is kept as it is |
| Greedy.GreedyReachesEveryTie | backend/main.py:99 | Every action attaining the maximum is chosen for some tie-break index |
| CellKey.NatText | backend/main.py:137 | The decimal text of a natural number is a non-empty digit string that starts with `0` exactly when the number is zero, so it carries no padding |
| CellKey.IntText | backend/main.py:137 | The decimal text of an integer starts with `-` exactly when it is negative, is followed only by digits, unpadded, and is `"0"` whenever it starts with `0` |
| CellKey.NatTextRoundTrip | backend/main.py:137 | Decimal text of a natural number reads back as that number |
| CellKey.IntTextRoundTrip | backend/main.py:137 | Decimal text of an integer, with a leading minus sign for negatives, reads back as that integer |
| CellKey.KeyRoundTrip | backend/main.py:137 | The `"r,c"` key of a cell parses back to that cell |
| CellKey.KeyOfInjective | backend/main.py:137 | Distinct cells have distinct keys |
| CellKey.KeySetSize | backend/main.py:133-137 | A set of cells has exactly as many keys as cells |
| CellKey.Rekey | backend/main.py:143 | Re-keying a cell map by `"r,c"` keeps every cell's value under its key, adds no key that is not a cell's key, and keeps the number of entries |
| Grid.RectCellsCount | backend/main.py:133-134 | The rows-by-columns scan visits exactly H × W cells |
| GridWorld.GridCells | backend/main.py:133-135 | The cells the snapshot scans are exactly the in-bounds cells |
| GridWorld.GridCellsCount | backend/main.py:133-134 | The snapshot scans H × W cells |
| GridWorld.PolicyEntryMeaning | backend/main.py:136-141 | A wall gets no policy value, the goal gets "G", and any other occupiable cell gets the name of an action of maximal Q-value |
| GridWorld.SnapshotPolicy | backend/main.py:131-141 | The policy map has exactly one `"r,c"` key per grid cell and no other key, H × W keys in all, and each cell's key holds that cell's policy entry |
| GridWorld.SnapshotPolicyValues | backend/main.py:136-141 | In the published policy, a wall's key holds no value, the goal's key holds "G", and every other occupiable cell's key holds the name of an action whose Q-value is maximal there |
| GridWorld.SnapshotQ | backend/main.py:143 | The published Q-table holds every state's row under that state's key, and nothing else; it has as many keys as the table has states |
| GridWorld.SnapshotKeysAgree | backend/main.py:131-143 | For a table keyed like the initial one, every published Q key is also a policy key, and its policy value is an action name |
| GridWorld.KeyAgrees | backend/main.py:131-143 | The same for one published Q key |
| Prototype.ValidCellsListed | backend/test.py:22-26 | A cell is valid exactly when it is one of the 11 cells of the 3×4 grid other than (1,1) |
| Prototype.Step | backend/test.py:28-47 | An unknown action name is an error and a known one never is; for a known action the guarded chain gives exactly the shared transition rule with the 3×4 constants |
| Prototype.StepProperties | backend/test.py:32-47 | A named action always steps; the goal is absorbing; valid cells stay valid; each move is at most one orthogonal step; away from the goal, done holds exactly when the move ends on the goal, and the reward is then 10 and otherwise -1 |
| Prototype.WalkingStep | backend/test.py:52-58 | One more drawn move keeps the loop's state, and the stop flag is set exactly when that move finished the episode |
| Prototype.WalkingEnd | backend/test.py:52-60 | When the loop stops, the record is 1 to 50 moves long, and stopping early means the last move finished the episode with reward 10 |
| Prototype.GenerateEpisode | backend/test.py:49-60 | For any drawn action stream, the trajectory is a rollout from the start of 1 to 50 moves; its actions are the drawn ones in order; no move before the last finishes the episode; a stop before 50 moves means the last move entered the goal with reward 10 |
| Prototype.CalculateReturns | backend/test.py:62-71 | The returns are as many as the entries; each is the discounted sum of the rewards from its position on; the last equals the last reward; each earlier one is its reward plus 0.9 times the next return |

## Left out

- The HTTP app, its CORS setup and its endpoints (backend/main.py:160-188) are left out. They are framework plumbing with no logic of their own.
- `choose_action_eps_greedy` (backend/main.py:51-58) is left out. It is a random draw, replaced by the chooser parameter of `GridWorld.GenerateEpisode`. The distribution is not modelled.
- `update_q` (backend/main.py:88-93) is left out. It is floating-point learning arithmetic.
- `Trainer.epsilon_schedule`, `evaluate_greedy` and `train` (backend/main.py:111-129) are left out. They are floating-point averaging and a mutable history, with no property beyond the episode generator's.
- `Trainer.reset`, the `trainer` singleton and the snapshot's episode, epsilon and history fields (backend/main.py:101-110, 145-158) are left out. They are stateful service plumbing. The snapshot is modelled through its policy and Q-table maps only.
- `GridWorld.SnapshotPolicy` requires the Q-table to hold every valid cell other than the goal. In the source, a missing cell raises a lookup error. The trainer never lets that happen, since `init_q` creates every such key and `update_q` only updates existing keys.
- Prototype.CalculateReturns uses exact rational arithmetic with GAMMA = 9/10. It does not model floating-point rounding, so its equalities hold of the idealised returns and not bit-for-bit of the Python floats.
- Greedy.MaxValue does not model NaN action values. With reals every pair of values is ordered, so the maximum always exists.
- The module-level script lines of the prototype (backend/test.py:73-74) are left out. They are one random run.
- The visualization client, with its chart smoothing, downsampling, coordinate mapping and greedy-path overlay, is not part of this model. None of its source files are among the modelled files.
