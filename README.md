# SnakeWars in Dafny

SnakeWars holds two small tabular Q-learning games on a grid. This project
models their game logic in Dafny and proves properties of the model.

- **The maze** (`MAZE.py`). A mouse learns to walk from the start cell `?`
  to the exit `!` of a text maze whose walls are `x`. Its Q-table is keyed
  on its position.
- **The snake arena** (`snake_wars.py`). A snake moves on a walled
  rectangle that holds food and bombs. It reads a "radar" of distances to
  the food and learns, with an epsilon-greedy Q-table, which way to turn.

The modules follow the program.

- `Grid` holds the actions U, D, L and R, cells, steps and Manhattan
  distance.
- `Text` holds Python's `strip`, `split` and `join` on strings.
- `Board` reads a map text into rows and lists the cells that hold a given
  character, in scan order.
- `QLearning` holds what both Q-tables share:
  - a row of four action values;
  - the first best action, which is `max` over a dict in insertion order;
  - the update rule of `set`, as the function `Learn` on the whole table;
  - the epsilon decay.
- `Maze` holds the maze's `QTable`, `Environment` and `Agent`, as classes.
- `SnakeMap` (the map generator), `SnakeBody` (the `Snake` class),
  `SnakeQTable` (the epsilon-greedy table) and `Arena` (the snake
  `Environment` class) hold the arena.
- `SnakeGame` holds the tick of the game window, without drawing.

Objects that the source changes in place are classes whose methods state
their new state:

- the two Q-tables;
- the maze agent;
- the maze and snake environments;
- the snake;
- the game.

Those methods are proved against functions that specify them. `QTable.Set`
is proved equal to `Learn`, `ReduceEpsilon` to `Decayed` and `Snake.Move`
to `DropLast`. `CreateWalls` and the maze constructor are proved equal to
`Cells` and `LastOf`. Lemmas prove what the source promises about those
functions.

Randomness is a parameter:

- `pick` stands for a `random.choice(ACTIONS)`;
- `roll` stands for `random.random()`;
- a list of `draws` stands for the indices that `random.choice` takes in
  the `place_food` loop as written;
- a `:|` choice stands for the draw in `place_bombs` and in the corrected
  `place_food`.

Q-values, epsilon and the reduction percentage are Dafny `real`s.

Four points where the code does something easy to miss:

- **The radar.** `get_radar` merges its wall distances with the food
  distances using the same four keys. The food distances win, so the radar
  never reports a wall. Up and down both give the smallest row gap to a
  food item; left and right both give the smallest column gap.
  `GetRadar`'s contract states exactly this.
- **The bomb penalty.** A bomb costs `REWARD_OUT` (-200), not
  `REWARD_BOMB`.
- **The snake's state.** The state the snake learns from is its head, the
  food list, its tail and the four radar values.
- **Epsilon.** Epsilon decays once per learning tick, not once per
  episode.

## Model

| member | source | states |
|---|---|---|
| Grid.Delta | snake_wars.py:32-37 | each action moves one cell: U is row -1, D row +1, L column -1, R column +1 |
| Grid.Shift | MAZE.py:123-124 | the cell one step away is a different cell at Manhattan distance 1 |
| Grid.Rank | snake_wars.py:30 | the position of an action in the order U, D, L, R |
| Text.StripLeft | MAZE.py:110 | `lstrip` drops exactly the leading whitespace: what remains is a suffix starting with a non-space |
| Text.StripRight | MAZE.py:110 | `rstrip` drops exactly the trailing whitespace: what remains is a prefix ending with a non-space |
| Text.Strip | MAZE.py:110 | `strip` leaves no whitespace at either end |
| Text.StripKeeps | MAZE.py:110 | a text with no whitespace at either end is its own strip |
| Text.Split | MAZE.py:110 | `split` gives at least one piece and no piece holds the separator |
| Text.JoinSplit | MAZE.py:110 | joining the pieces of a split gives back the text |
| Text.Join | snake_wars.py:17 | `sep.join(rows)`: the rows with one separator between neighbours; no rows give the empty text |
| Text.SplitPrefix | MAZE.py:110 | splitting a separator-free text followed by more text extends the first piece |
| Text.SplitJoin | snake_wars.py:17 | splitting a join of separator-free rows gives back the rows |
| Board.ParseRows | snake_wars.py:92 | reading a map gives at least one row, and no row holds a newline |
| Board.RowCells | snake_wars.py:101-104 | the positions `(i, j)` of one row's cells that hold `c`, left to right |
| Board.Cells | snake_wars.py:100-105 | the `RowCells` of every row, top to bottom: the order of the nested loops and of the comprehensions in `place_food` and `place_bombs` |
| Board.DomainSpec | MAZE.py:113-116 | the keys of the maze dict are exactly the on-board (row, column) pairs |
| Board.RowCellsSpec | snake_wars.py:101-104 | one row's scan lists exactly the columns holding the character, left to right |
| Board.CellsSpec | snake_wars.py:100-105 | the scan lists exactly the on-board cells holding the character, in row-major order |
| Board.CellsDistinct | snake_wars.py:109-114 | the scan lists no cell twice |
| Board.LastOf | MAZE.py:117-120 | the last hit is absent only for an empty scan, and otherwise one of the scanned cells |
| Board.LastOfCells | MAZE.py:114-120 | a last `c` exists iff some cell holds `c`; it holds `c` and every other `c` cell comes before it in scan order |
| QLearning.FullHasAll | MAZE.py:51 | a full row has a value for every action |
| QLearning.ZerosFull | MAZE.py:51 | a fresh row maps all four actions to 0 |
| QLearning.ActionsAscending | MAZE.py:24 | U, D, L, R is the dict's insertion order |
| QLearning.InOrderSpec | MAZE.py:40-41 | taking a row's keys in a given ascending order lists exactly the keys present, in that order |
| QLearning.KeysSpec | MAZE.py:40-41 | a row's keys in insertion order are exactly its keys, ascending, and non-empty for a non-empty row |
| QLearning.Scan | MAZE.py:41 | the left-to-right maximum scan returns a key of the row |
| QLearning.ScanSpec | MAZE.py:41 | the scan's result is the start or a scanned key, and no scanned key has a greater value |
| QLearning.ScanFirst | MAZE.py:41 | the scan keeps the first of equal maxima: every earlier key has a strictly smaller value |
| QLearning.ArgMax | MAZE.py:40-41 | `arg_max` returns a key of the row |
| QLearning.MaxOver | MAZE.py:54 | the largest row value over a non-empty list of keys, scanned left to right |
| QLearning.MaxValue | snake_wars.py:67-69 | `max(row.values())`: `MaxOver` over the row's keys in insertion order |
| QLearning.MaxOverSpec | snake_wars.py:67-69 | the maximum of the values is one of them and no value exceeds it |
| QLearning.ArgMaxIsFirstBest | MAZE.py:40-41 | `arg_max` returns an action of greatest value, and every action before it in U, D, L, R has a strictly smaller value |
| QLearning.MaxIsGreedyValue | MAZE.py:54 | `max(values())` is the value of the `arg_max` action and bounds every value |
| QLearning.ZerosMax | MAZE.py:51-54 | a fresh row has maximum 0 and greedy action U |
| QLearning.Touch | MAZE.py:50-53 | lazy initialisation adds the state with a zero row when missing and changes no existing row |
| QLearning.Learn | snake_wars.py:57-70 | `set` as a function of the table: a missing row for the state or the new state is added as zeros, then only `Q(s, a)` changes, to `Q + lr * (reward + gamma * max Q(s2) - Q)` with `max Q(s2)` read before the write (the same rule as MAZE.py lines 49-55) |
| QLearning.LearnKeys | snake_wars.py:61-65 | after `set` both states are keys, a newly created row is 0 except at the updated entry, and rows stay full |
| QLearning.LearnUpdatesOneEntry | snake_wars.py:67-70 | `set` writes `Q + lr*(r + gamma*max Q(s') - Q)` into `(s, a)`, with both values read before the write, and keeps every other entry |
| QLearning.BellmanContracts | snake_wars.py:69-70 | with a rate in [0, 1] one update shrinks the distance to the target by the factor 1 - lr, strictly when lr > 0 |
| QLearning.Decayed | snake_wars.py:55-56 | `reduce_epsilon`'s new value `max(epsilon_min, epsilon * decay)` |
| QLearning.LearnMovesTowardTarget | snake_wars.py:67-70 | `set` moves `Q(s, a)` toward its target by the factor 1 - lr |
| QLearning.DecayBounds | snake_wars.py:55-56 | `reduce_epsilon` never goes below epsilon_min, and never raises epsilon when epsilon_min <= epsilon, 0 <= epsilon and decay <= 1 |
| QLearning.DecayStep | snake_wars.py:55-56 | one decay of `max(min, x)` is `max(min, x*decay)` |
| QLearning.DecayLink | snake_wars.py:55-56 | one decay after k steps in closed form gives the closed form for k + 1 |
| QLearning.DecayClosedForm | snake_wars.py:55-56 | after k decays epsilon is `max(epsilon_min, epsilon*decay^k)` |
| QLearning.DecayMonotone | snake_wars.py:55-56 | repeated decay never increases epsilon and stays between epsilon_min and the start value |
| QLearning.ScaledBernoulli | snake_wars.py:55-56 | `epsilon*decay^k * (1 + k*(1 - decay)) <= epsilon` for a decay in [0, 1] (Bernoulli's inequality) |
| QLearning.DecayReachesMin | snake_wars.py:55-56 | with a decay below 1 and a positive epsilon_min at or below epsilon, some finite number of decays brings epsilon to exactly epsilon_min |
| Maze.QTable.constructor | MAZE.py:44-47 | an empty table with rate 1 and discount 0.9 by default |
| Maze.QTable.Set | MAZE.py:49-55 | the new table is `Learn` of the old one; rows stay full |
| Maze.DefaultRateLearnsTarget | MAZE.py:44-55 | with the default rate 1, `Q(s, a)` becomes exactly `r + 0.9*max Q(s')`, read before the write |
| Maze.QTable.BestAction | MAZE.py:57-61 | a known position gets the first action of greatest value; an unknown one gets the random pick |
| Maze.Environment.constructor | MAZE.py:109-120 | every character of the stripped, newline-split text becomes a cell; height and width; start and goal are the last `?` and `!` scanned |
| Maze.ScanRow | MAZE.py:115-120 | one row of the scan: every cell of the row enters the map, and start and goal become the last `?` and `!` of the rows scanned so far |
| Maze.Environment.Move | MAZE.py:122-135 | the mouse moves iff the target is on the map and not a wall; staying costs 100, reaching `!` earns 1000, any other move costs 1 |
| Maze.Agent.constructor | MAZE.py:84-87 | a new agent stands on the start cell with score 0 and an empty table |
| Maze.Agent.Reset | MAZE.py:89-91 | the agent goes back to the start with score 0 and keeps its table |
| Maze.Agent.BestAction | MAZE.py:102-103 | for a seen position, an action of greatest value with every lower-ranked action strictly worse (the first of equals); for an unseen one, the random pick |
| Maze.Agent.Do | MAZE.py:93-100 | it plays the given or greedy action, learns from the move by `Learn`, takes the new position, and adds exactly the reward to the score |
| SnakeMap.Repeat | snake_wars.py:13-15 | `c * n` has `max(0, n)` characters, all `c` |
| SnakeMap.MapRows | snake_wars.py:12-16 | the border row of `x`, `height - 2` inner rows `x...x` (none when height < 2), and the border row again |
| SnakeMap.GenerateMap | snake_wars.py:12-17 | the text is a border row, `height - 2` inner rows and a border row, joined with newlines |
| SnakeMap.MapRowsShape | snake_wars.py:12-17 | there are `max(2, height)` rows, none with a newline, all of length `width` once `width >= 2` |
| SnakeMap.MapTiles | snake_wars.py:12-17 | a cell of the generated map is a wall exactly on the outer ring and floor inside it |
| SnakeMap.JoinLast | snake_wars.py:17 | the last character of a join is the last character of the last row |
| SnakeMap.ParseGeneratedMap | snake_wars.py:92 | reading a generated map of width >= 1 gives back its rows |
| SnakeBody.DropLast | snake_wars.py:196 | `s[:-1]` is the prefix one shorter, and `[]` for `[]` |
| SnakeBody.Trunc | snake_wars.py:199 | `int()` truncates toward zero |
| SnakeBody.KeepCount | snake_wars.py:197-200 | `max(1, int(len * (1 - p)))` segments, capped at the body length because a slice past the end keeps the whole body |
| SnakeBody.KeepCountBounds | snake_wars.py:197-200 | `reduce_body` keeps between 1 and all segments, fewer than all for a positive percentage and all for a percentage <= 0 |
| SnakeBody.KeepHalf | snake_wars.py:163 | a bomb keeps `max(1, len // 2)` segments |
| SnakeBody.Snake.constructor | snake_wars.py:187-189 | a new snake is its start cell and is not growing |
| SnakeBody.Snake.Move | snake_wars.py:191-196 | the new head goes in front; a growing snake keeps its old body and grows by one, any other drops its tail; the flag is cleared |
| SnakeBody.Snake.ReduceBody | snake_wars.py:197-200 | a snake longer than 1 keeps its first `max(1, int(len*(1-p)))` segments; a one-segment snake is unchanged; the head stays |
| SnakeQTable.ArgMaxOr | snake_wars.py:41-44 | an empty row gives the random pick; otherwise the first action of greatest value |
| SnakeQTable.QTable.constructor | snake_wars.py:47-53 | an empty table with the default rates 0.1, 0.95, 1.0, 0.01 and 0.99 |
| SnakeQTable.QTable.ReduceEpsilon | snake_wars.py:55-56 | epsilon becomes `max(epsilon_min, epsilon*epsilon_decay)`; nothing else changes |
| SnakeQTable.QTable.Set | snake_wars.py:57-70 | the new table is `Learn` of the old one; rows stay full; the other fields are unchanged |
| SnakeQTable.QTable.BestAction | snake_wars.py:72-79 | an unknown state or empty row gives the random pick regardless of epsilon; otherwise a roll below epsilon explores and any other roll gives an action of greatest value, every lower-ranked action strictly worse (the first of equals) |
| Arena.RemoveFirst | snake_wars.py:119 | `list.remove` takes out one copy of a present item (the multiset loses exactly it, one element shorter); a list without the item is unchanged |
| Arena.RemoveFirstOrder | snake_wars.py:119 | the copy taken out is the first occurrence, and the rest keep their order (`RemovedAt`) |
| Arena.Without | snake_wars.py:124-129 | the filter keeps exactly the cells not in the excluded list |
| Arena.Nearest | snake_wars.py:173-174 | the nearest food item is in the list and no item is nearer |
| Arena.NearestIsFirst | snake_wars.py:173-174 | `min` with a key keeps the first of equally near items |
| Arena.MinOr | snake_wars.py:145-150 | `min(xs or [d])` is `d` for an empty list and otherwise the least element |
| Arena.GapsSpec | snake_wars.py:145-150 | with food present, the row and column radar values are each attained by a food item and bound all items |
| Arena.FoodRunSpaced | snake_wars.py:107-120 | while the `place_food` loop as written runs, the items it holds are floor cells more than 3 apart |
| Arena.FoodRunBound | snake_wars.py:115-118 | the loop as written never holds more than `num_food` items |
| Arena.FoodStep | snake_wars.py:116-119 | one pass of the loop as written: the candidate at `draw` modulo the list length is appended and removed from the candidates when it is more than 3 from every item, and otherwise nothing changes |
| Arena.FoodRun | snake_wars.py:115-119 | the loop as written over a list of draws: `FoodStep` until the draws run out, `num_food` items are placed or no candidate is left |
| Arena.StuckIsFixed | snake_wars.py:115-119 | once every candidate left is within 3 of a placed item, no draw changes the loop's state |
| Arena.FirstTwoDraws | snake_wars.py:115-119 | on a nine-cell floor, draws 0 and 7 place `(1, 1)` and then `(3, 3)` |
| Arena.RestStuck | snake_wars.py:115-119 | after those two draws, seven candidates are left, all within 3 of the two items |
| Arena.RunStep | snake_wars.py:115-119 | one draw of a loop that has not stopped is one step of the loop body |
| Arena.TwoDrawsStall | snake_wars.py:115-119 | after draws 0 and 7 the loop holds two items and seven candidates, whatever it draws next |
| Arena.PlaceFoodStalls | snake_wars.py:107-120 | on `generate_map(5, 5)`, `place_food(30)` as written gets stuck with 2 items and 7 candidates, so its loop never ends |
| Arena.Environment.constructor | snake_wars.py:91-97 | it reads the rows and sets height and width; the walls are the `x` cells; at most 30 spaced food items (placed by the corrected loop) and at most 10 bombs, on floor cells, with no bomb on food |
| Arena.Environment.CreateWalls | snake_wars.py:99-105 | the walls are exactly the `x` cells, in scan order |
| Arena.Environment.PlaceFood | snake_wars.py:107-120 | corrected loop: at most `n` floor cells, pairwise more than 3 apart; when fewer than `n` are placed every floor cell is within 3 of one; with `n > 0` and some floor, at least one item |
| Arena.PlaceOne | snake_wars.py:116-119 | one pass of the corrected loop: a candidate leaves the list (one fewer), at most one item is added, and the items stay spaced floor cells that cover every floor cell no longer a candidate |
| Arena.Environment.PlaceFoodAsWritten | snake_wars.py:107-120 | the loop as written, run on given draws, equals the run `FoodRun`, keeps its items spaced floor cells and never places more than `num_food` |
| Arena.Environment.PlaceBombs | snake_wars.py:122-134 | distinct floor cells without food, `min(n, number free)` of them |
| Arena.DrawDistinct | snake_wars.py:130-133 | the drawn positions are a sub-multiset of the candidates, `min(n, number of candidates)` of them (none for `n <= 0`) |
| Arena.Environment.GetRadar | snake_wars.py:135-152 | keys U, D, L, R; U = D = least row gap to food and L = R = least column gap, or height and width with no food; wall distances are overwritten |
| Arena.Environment.EatFood | snake_wars.py:168-169 | the eaten item leaves the list and a new floor cell goes at its end, so the count is unchanged |
| Arena.Environment.Move | snake_wars.py:154-183 | the step follows the cases of `Moved`: wall, then bomb, then food, then closer or farther from the nearest food; the error case needs an empty floor |
| Arena.Moved | snake_wars.py:154-183 | the relation of one `move`, case by case in the source's order: into a wall the head stays, -200, nothing changes; into a bomb the head moves, -200, the body keeps `KeepCount(len, 0.5)` segments; onto food +50, the snake grows, the item's first occurrence leaves the list and a floor cell is appended; with no food the error (`None`), which needs an empty floor; otherwise +5 when the step nears the first nearest item, else -10 |
| Arena.MovedShape | snake_wars.py:154-183 | a step keeps the head, never lengthens the body and keeps the food count; the snake grows iff it ate; -200 iff a wall or bomb |
| SnakeGame.Game.constructor | snake_wars.py:203-222 | no reward yet, timer 0, interval 0.1, heading right, learner in control |
| SnakeGame.Game.Observe | snake_wars.py:306-315 | the state is the head, the food list, the tail and the radar values U, D, L, R, with U = D and L = R; with food, U is the row gap and L the column gap of some item, and no item has a smaller one; without food, height and width |
| SnakeGame.RadarValues | snake_wars.py:314 | `tuple(radar.values())` of the merged radar: the values in key order U, D, L, R |
| SnakeGame.Game.Stepped | snake_wars.py:322-341 | one tick after the state is read: `Moved` scores the step; on `None` nothing more happens; otherwise the table learns from the old state, the direction, the reward and the new state and epsilon decays once (only when learning), the new head goes in front with the tail dropped unless growing, and the map, walls, bombs, rates and size are unchanged |
| SnakeGame.Game.Advance | snake_wars.py:322-341 | the environment scores the step (`Moved`); the table learns from the states before and after, when asked; the snake moves; the reward is added; the grid, walls, bombs, height and width stay as they were |
| SnakeGame.Game.Proceed | snake_wars.py:327-341 | after a scored step: `Learn` and one epsilon decay when learning, then the snake moves and the reward is added |
| SnakeGame.Game.Do | snake_wars.py:224-254 | the learner's choice is played and learnt from (`Stepped`), with one epsilon decay; the map, walls and bombs stay as they were |
| SnakeGame.Game.Tick | snake_wars.py:304-341 | the timer restarts; the direction is the pending one under manual control, else the learner's; learning only without manual control; the step is `Stepped`, so the map, walls and bombs stay as they were |
| SnakeGame.Game.OnUpdate | snake_wars.py:300-341 | the time accumulates and nothing else changes until the interval is reached; then one tick |

## Left out

- Drawing, sprites and keyboard input are left out. This covers
  `on_draw`, `setup`, `update_snake_position`, `update_food_positions`,
  `on_key_press` and the maze window. They only render, or set the fields
  the model takes as given (`pending_direction`, `manual_control`).
- Saving and loading a Q-table with pickle is file I/O. The screen-size
  constants only size the window.
- The `__main__` blocks (`snake_wars.py` lines 375-389, `MAZE.py` lines
  179-200) are the program's entry points: they build the environment and
  the agent, load the pickled table when the file exists, open the window
  with `arcade.run()` and save the table afterwards. The block of `MAZE.py`
  also holds a training loop of 50 episodes after `exit(0)`, which never
  runs. The model has the operations these blocks call, not the blocks.
  `launcher.py` is not part of this model.
- `MAZE.QTable.__repr__` is string formatting only.
- Floating point: Q-values, epsilon and percentages are exact reals, so
  the model makes no claim about rounding.
- `REWARD_SURVIVAL`, `REWARD_NEAR_FOOD`, `REWARD_AWAY_FOOD` and
  `REWARD_BOMB` are declared but never used by the code, so the model has
  no counterpart for them.
- Maze.Agent.constructor: requires a start cell. Without one the source
  fails with an attribute error in `reset`.
- Maze.Agent.Reset: requires a start cell, for the same reason. It reads
  the agent's own environment, where the source reads the global `env`.
  The `__main__` block of `MAZE.py` builds the global `env` and passes
  that same object to `Agent`, so the two agree.
- Maze.Environment.Move: `in [TILE_WALL]` is modelled as equality with
  `x`.
- Arena.Environment.constructor: places the food with the corrected
  `PlaceFood`, not the loop as written. On a map where the program's
  `place_food(30)` never ends (see Findings), the model's constructor
  returns with the items placed so far, while the program hangs.
- Arena.Environment.PlaceFoodAsWritten: runs for a finite list of draws,
  not until its loop condition fails, because the loop as written need not
  end (see Findings).
- Arena.Environment.PlaceBombs: the random draw is any element (`:|`), so
  the model says nothing about the distribution. The same holds for the
  corrected `PlaceFood`.
- Arena.Environment.Move: the error that `min` raises on an empty food
  list is the result `None`. The bomb message the source prints is not
  modelled.
- SnakeGame.Game.Tick: the check that the new head is a 2-tuple
  (`isinstance(new_head, tuple) and len(new_head) == 2`) is left out. The
  model's positions are always pairs, so the check cannot fail.
- Arena.Environment.GetRadar: the same 2-tuple check on the head, and the
  error it raises, are left out for the same reason.
- SnakeGame.Game.OnUpdate: a failed step stops the tick, as the
  exception does in the source. The model does not capture how the window
  then ends.

## Findings

| source | as written | input that shows it | evidently intended | confidence | as-written member | corrected member |
|---|---|---|---|---|---|---|
| snake_wars.py:115-119 | `place_food` removes a candidate from `empty_spaces` only when it accepts it; a rejected candidate is drawn again and again | `generate_map(5, 5)` has 9 floor cells. Draw index 0 (`(1, 1)`), then index 7 (`(3, 3)`). Every floor cell is now within 3 of one of the two, so with 2 < 30 items and 7 candidates the loop never ends | discard every candidate drawn, so the loop ends once each floor cell is placed or within 3 of a placed item | not executed | Arena.PlaceFoodStalls | Arena.Environment.PlaceFood |
