# Maze game session model

A Dafny model of the game logic in `app.js`, a browser maze game. The player walks a
10×10 maze. They collect keys and collectibles, avoid traps and patrolling enemies, and
reach the exit once every key is collected. Levels are authored tasks, picked at random
until none is left.

The browser code keeps the content of each cell in CSS classes on DOM elements. The model
keeps the live board as a `map<Coord, Cell>` instead. A coordinate with no entry is a cell
the level never built, because its maze row is missing.

The model is split by module:

- `Grid` (grid.dfy) holds coordinates, authored tiles, live cells, and the row-major search
  for the last tile of a kind.
- `Enemies` (enemies.dfy) covers enemy spawning, the per-tick index update with its clamp,
  and the contact sweep.
- `Tasks` (tasks.dfy) covers the filter of selectable tasks and the in-place Fisher–Yates
  shuffle on an array. Its random indices come from a parameter
  `choose: nat -> nat` with `choose(i) <= i`.
- `Input` and `Clock` (input.dfy) map keys and clicks to unit steps. They also hold the
  minutes and seconds arithmetic on integer milliseconds, including the sign rule of
  JavaScript's `%`.
- `Level` (level.dfy) treats one level as a value. It gives the player's step and the enemy
  tick as functions, with the properties of a step proved as lemmas.
- `Session` (session.dfy) has one class, `Game`. Its fields are the module-level counters
  (`keys`, `keyCount`, `collectibles`, `collectibleCount`, `collectiblesCollected`,
  `deaths`) and the fields of the session record. Its methods are the source's functions,
  updating those fields in place. Most methods are proved against the `Level` and `Session`
  functions; `Start`, `LoadTasks`, `ResetGameState`, `EndGame` and `GetNextTask` state their
  results directly.

Two invariants are kept:

- `Valid()` says positions stay on the board, an open exit can only be the exit, every
  enemy stands on its path at an index inside it, and every enemy of every loaded task has
  a non-empty path. The last clause is why `LoadTasks` and `SetupLevel` refuse tasks that
  the source would accept (see "## Left out").
- `Conserved` says that keys collected plus keys on the board equal the level's key count,
  and likewise for collectibles. It is separate from `Valid()` because `resetGameState`
  clears the board without clearing the counters.

Notes on behaviour that follows the code:

- **Enemy clamp.** The enemy index moves one step in its direction and is then clamped to
  the path. At each end an enemy therefore stays on the endpoint for a second tick before
  turning. A fresh enemy on a three-cell path visits indices 1, 2, 2, 1, 0, 0, 1, where a
  plain ping-pong would visit 1, 2, 1, 0, 1. The model follows the clamp as written.
- **Timer after game end.** When no task is left, `initializeGame` ends the game and then
  calls `setupLevel(null)`. That call sets `isTimerRunning` back to true.
  `Game.InitializeGame` states this: it ensures `isTimerRunning` whenever it ran.
- **Continue with no task left.** The continue button on the level-complete screen calls
  `endGame` a second time when no task is left. `getNextTask` has already called it once.
  Both calls leave the same state.
- **Unreachable branch.** The check that the first shuffled task has an id
  (app.js:222-227) cannot fail. `Game.GetNextTask` proves that the pick is selectable.

## Model

| member | source | states |
|---|---|---|
| Grid.CellOf | app.js:336-363 | A tile yields a key, collectible or exit cell exactly when it is that tile; no tile yields an open exit |
| Grid.CellOfWallTrap | app.js:336-363 | A tile yields a wall or a trap cell exactly when it is that tile |
| Grid.KindCellsUpdate | app.js:381-394 | Writing one cell changes the number of cells of a kind by what leaves and what arrives |
| Grid.LastTileIsLast | app.js:324-345 | The row-major search finds the last cell authored with a tile before a point, in a present row, or none exactly when there is none |
| Grid.LastTileSkipsMissingRow | app.js:325-328 | A missing row contributes nothing to the search |
| Enemies.Spawn | app.js:295-300 | A spawned enemy stands on the first cell of its path at index 0, heading forward |
| Enemies.SpawnAll | app.js:295-300 | Every authored enemy, in order, is spawned on its path's first cell, and all are well formed |
| Enemies.Advance | app.js:446-460 | One tick keeps the index inside the path, the enemy on path[index], and moves the index by at most one |
| Enemies.AdvanceN | app.js:446-460 | Any number of ticks keeps the enemy well formed on the same path |
| Enemies.EndpointDwell | app.js:446-458 | Forward from the last index and backward from index 0 stay put and turn round; any other tick moves the index by exactly one and keeps the direction |
| Enemies.ThreeCellPatrol | app.js:446-460 | A fresh enemy on a three-cell path visits indices 1, 2, 2, 1, 0, 0, 1 |
| Enemies.SweepOutcome | app.js:430-434 | A contact sweep traps the player iff some enemy stands on the player's cell; without a trap the player stays, after one the player is at start, with at most one trap per enemy |
| Enemies.Sweep | app.js:430-434 | The in-order contact sweep leaves the player where they were or on start |
| Tasks.Available | app.js:203-209 | A task is in the filtered list iff it is in the task list, has an id, has a non-empty maze array and is not completed |
| Tasks.SweptPermutes | app.js:217-220 | The swap loop is a permutation of its input |
| Tasks.Swept | app.js:217-220 | The swaps from index i down to 1 keep the length |
| Tasks.Shuffled | app.js:217-220 | The whole Fisher–Yates swap loop keeps the length and the multiset of its input |
| Tasks.Shuffle | app.js:217-220 | The in-place loop leaves the array equal to the shuffle of its old contents, a permutation of them |
| Tasks.PickShrinksPool | app.js:208-229 | Completing a selectable task's id removes exactly that id from the pool of selectable ids, which shrinks by one |
| Tasks.PoolEmptyIffNoneAvailable | app.js:203-215 | The pool of selectable ids is empty exactly when the filtered list is |
| Input.KeyStep | app.js:553-571 | A key gives a step iff it is an arrow key or w, a, s, d; the step is a unit step whose direction matches the key |
| Input.ClickStep | app.js:587-592 | A click gives a step iff the clicked cell is at Manhattan distance 1, and the step lands on that cell |
| Input.ClickAgreesWithKey | app.js:551-592 | Clicking the neighbour a key would reach asks for the same step as the key |
| Clock.JsRemMinute | app.js:265 | The remainder by 60000 takes the sign of the dividend and differs from it by a multiple of 60000 |
| Clock.Minutes | app.js:264 | The minutes are the floor of elapsed / 60000 |
| Clock.Seconds | app.js:265 | The seconds are the floor of the JavaScript remainder by 60000 divided by 1000: in 0..59 for a non-negative time, in -60..0 for a negative one |
| Clock.ClockRoundTrip | app.js:263-265 | Minutes, seconds and the leftover milliseconds give back a non-negative elapsed time |
| Clock.TimerReading | app.js:261-265 | The timer shows a reading iff there is a non-zero start time and the timer runs; the minutes bracket the elapsed time and the seconds are its `Seconds` |
| Level.OpenExit | app.js:638-642 | Opening the exit changes only a locked exit cell, keeps every key and collectible cell, and leaves no locked exit at the exit position |
| Level.Trapped | app.js:396-401 | The trap puts the player on the start cell, adds one death, and changes nothing else |
| Level.WinCheck | app.js:635-648 | The level is won iff every key is collected and the player is on the exit; with every key collected the exit opens; a win stops the timer; nothing else changes |
| Level.CollectedCollectible | app.js:381-387 | No contract of its own: the collectible pick-up (cell emptied, both collectible counters up by one, then the win check); `CollectibleProperties` states its effect |
| Level.CollectedKey | app.js:389-394 | No contract of its own: the key pick-up (cell emptied, keys up by one, then the win check); `KeyProperties` states its effect |
| Level.EnemyContact | app.js:430-434 | The enemy sweep changes only the player's position and deaths |
| Level.Enter | app.js:404-416 | Entering a live cell (open-exit check, then the move unless it is a wall) stays within the step frame |
| Level.PickUp | app.js:418-424 | The collectible then key pick-ups stay within the step frame |
| Level.Hazards | app.js:426-434 | The trap cell, then the enemy sweep, change only the player's position and deaths, within the step frame |
| Level.Interacted | app.js:403-435 | The interactions of a step change only cell contents (never which cells exist), the player, the pick-up counters, deaths (never down) and the timer |
| Level.Moved | app.js:473-483 | The whole step, bounds check and final win check included, keeps the same frame: start, exit, level totals, enemies and the active flag stay |
| Level.MoveBlockedIsNoOp | app.js:473-483 | A step off the board, onto a cell never built, or onto a locked exit with keys missing changes nothing and wins nothing |
| Level.ContactProperties | app.js:430-434 | Enemy contact keeps everything but the player and deaths, adds at most one death per enemy, traps iff an enemy stands on the player's cell, and any trap leaves the player on start |
| Level.WinCheckProperties | app.js:635-648 | The win check keeps the state valid and conserved, and an open exit stays open |
| Level.EnterProperties | app.js:404-416 | Entering changes only the player's position and the timer, and the player lands on the target unless it is a wall |
| Level.CollectibleProperties | app.js:381-387 | Picking up a collectible empties the cell, raises both collectible counters by one, keeps the keys and keeps conservation |
| Level.KeyProperties | app.js:389-394 | Picking up a key empties the cell, raises the key counter by one, keeps the collectibles and keeps conservation |
| Level.PickUpProperties | app.js:418-424 | A pick-up takes exactly the key or collectible on the cell into its counter; on any other cell it changes nothing |
| Level.HazardProperties | app.js:426-434 | Trap cell and enemy contact keep the board and counters; a trap cell always kills; off a trap, the player dies iff an enemy stands on their cell; after a trap cell, a further death iff an enemy stands on start; after any death the player is on start |
| Level.MoveConserves | app.js:381-435 | A step keeps the state valid and keeps keys and collectibles conserved |
| Level.MoveTrapEndsAtStart | app.js:396-434 | A step raising deaths ends with the player on start; deaths rise by at most one plus the number of enemies; stepping onto a trap, or onto a cell an enemy stands on, always kills, as does an enemy on the player's own cell when the target is a wall |
| Level.MoveCollects | app.js:381-424 | A step that goes ahead empties a key or collectible target and raises exactly its counter by one; the other cells keep their content, except that the exit may open |
| Level.MoveIntoWall | app.js:403-434 | A step into a wall leaves the player where they stood or sends them to start (onto the wall only when the start is that wall), collects nothing (keys, collectibles and the collected total unchanged) and changes the board only by opening the exit |
| Level.MoveOpensExit | app.js:635-642 | After a step that goes ahead, a level with every key collected has no locked exit at the exit position, and every open exit stays open |
| Level.MoveWinMeansAllKeys | app.js:635-648 | A step that wins has every key collected and none left on the board, with the player at or stepping onto the exit |
| Level.AdvancedAll | app.js:445-462 | Each enemy advanced by one tick, in order, keeps its path and stays well formed |
| Level.Ticked | app.js:437-471 | The enemy tick changes only the enemies, the player and deaths (never down), and keeps the number of enemies |
| Level.TickInactiveIsNoOp | app.js:438 | A tick while the game is inactive changes nothing |
| Level.TickProperties | app.js:437-471 | A tick keeps every enemy on its path, the board and counters unchanged and conservation; an active tick traps the player iff an advanced enemy lands on the player's cell; any trap leaves the player on start |
| Session.RowPlacedBuilt | app.js:329-365 | Placing a present row's columns in order keeps the board equal to the cells so far, the counts equal to their key and collectible cells, and the positions at the last matching tile |
| Session.RowPlaced | app.js:329-365 | No contract of its own: the first c columns of row r placed in order; `RowPlacedBuilt` states what they build |
| Session.GeneratedBuilt | app.js:324-366 | Placing the rows in order, skipping missing ones, keeps the same invariant row by row |
| Session.Generated | app.js:324-366 | No contract of its own: the first r rows placed in order, missing rows skipped; `GeneratedBuilt` and `GeneratedMeaning` state what they build |
| Session.GeneratedMeaning | app.js:318-369 | Generation on an empty board builds one cell per position of every present row, counts its key and collectible cells, puts start and player on the last player tile and the exit on the last exit tile, keeping them without such a tile |
| Session.EmptyMazeGeneration | app.js:319-322 | An empty maze array builds nothing and changes nothing |
| Session.Placed | app.js:336-364 | One generated cell: the tile's content at its position, its count raised, and the start, player or exit moved there; on a fresh cell each level total stays in step with the cells of its kind |
| Session.Game.constructor | app.js:3-26 | The initial state: nothing on the board, every counter 0, no task, inactive |
| Session.Game.LoadTasks | app.js:184-189 | A loaded task list replaces the current one only when it is non-empty |
| Session.Game.Start | app.js:251-257 | The start button makes the game active, starts the timer and records the start time |
| Session.Game.BuildRow | app.js:329-365 | The column loop over one row does what the row's placement function says |
| Session.Game.PlaceCell | app.js:336-364 | One pass of the tile switch sets the board fields to the single-cell placement of the old fields |
| Session.Game.BuildRows | app.js:324-366 | The row loop, with its skip of missing rows, does what generation from rows says |
| Session.Game.GenerateMaze | app.js:318-369 | The generated fields satisfy what generation promises, and the state stays valid |
| Session.Game.SetupLevel | app.js:273-311 | The timer runs again; with no task or no maze nothing else changes; otherwise both pick-up counters are 0, the board and both totals come from the maze, the task is current, its enemies start their paths, and the level is conserved; deaths are unchanged |
| Session.Game.LoadLevel | app.js:281-300 | The level is loaded from the task, valid and conserved |
| Session.Game.LoadBoard | app.js:281-289 | The board is cleared and generated afresh with all four level counters restarted |
| Session.Game.PlaceEnemies | app.js:295-300 | The task's enemies replace the old ones at the start of their paths |
| Session.Game.ClearLevel | app.js:281-287 | The board is empty and the four level counters are 0 |
| Session.Game.ClearMaze | app.js:313-316 | The board is emptied |
| Session.Game.ResetGameState | app.js:94-124 | Board, enemies, positions, completed set and current task are cleared, and the game is inactive with no start time; the task list and every module-level counter are kept |
| Session.Game.ResetRecord | app.js:96-112 | The session record starts over: no enemies, no completed ids, no current task, positions at (0, 0), inactive, timer stopped, no start time |
| Session.Game.EndGame | app.js:650-660 | Play and the timer stop; the minutes and seconds shown bracket the elapsed time |
| Session.Game.GetNextTask | app.js:196-231 | No task exactly when none is selectable, and then the game ends; otherwise the pick is a selectable task from the list, the first of the shuffled selectable list, and the completed set grows by exactly its id |
| Session.Game.InitializeGame | app.js:139-151 | With a game active nothing changes, the current task included; otherwise the completed set grows iff a task was selectable; with none selectable only the timer flag changes (it runs again) and the current task is kept; the picked task from the list is loaded (board, totals, positions and enemies from its maze, fresh counters), conserved, the game stays inactive and the timer runs |
| Session.Game.ContinueAfterWin | app.js:618-629 | With no task left the game ends and nothing else changes; otherwise the next selectable task from the list is loaded (board, totals, positions and enemies from its maze), its id completed, and the timer runs |
| Session.Game.RestartGame | app.js:161-171 | After a restart every task is selectable again; iff the list has a selectable task, one is loaded onto the cleared board with positions starting at (0, 0); with none selectable the board and enemies stay empty, there is no current task, the positions stay at (0, 0) and the four level counters keep their values; the start time is cleared; the game waits inactive; deaths are kept |
| Session.Game.TrapPlayer | app.js:396-401 | The player goes to start and deaths rise by one |
| Session.Game.CheckWinCondition | app.js:635-648 | The method does what the win check says |
| Session.Game.CollectCollectibles | app.js:381-387 | The method does what the collectible pick-up says |
| Session.Game.CollectKeys | app.js:389-394 | The method does what the key pick-up says |
| Session.Game.CheckEnemyContact | app.js:430-434 | The enemy loop does what the contact sweep says |
| Session.Game.HandleInteractions | app.js:403-435 | The method does what the interactions of a step say |
| Session.Game.MovePlayer | app.js:473-483 | The step does what `Moved` says, keeps the state valid and keeps conservation |
| Session.Game.Step | app.js:479-481 | The step onto a live cell does the interactions and then the final win check, as `Moved` does on the board |
| Session.Game.HandleKey | app.js:551-573 | Inactive game or another key: nothing changes; a move key takes the player step for its unit direction |
| Session.Game.HandleClick | app.js:578-593 | Inactive game, a click off the cells or on a cell not next to the player: nothing changes; otherwise the player steps onto the clicked neighbour |
| Session.Game.StepEnemy | app.js:446-460 | One enemy advances by one tick, as written with its clamp |
| Session.Game.AdvanceEnemies | app.js:443-470 | Every enemy advances in order, and each one landing on the player traps them |
| Session.Game.MoveEnemies | app.js:437-471 | The tick does what `Ticked` says and keeps the state valid |

## Left out

- Rendering is not modelled: the DOM, `placePlayer`, the enemy markers, the modals, the help
  toggle and the audio. The win and end screens appear only as the `won` result and the
  minutes and seconds returned by `EndGame`.
- With missing maze rows, `placePlayer` indexes the list of built cells by `y * 10 + x`. That
  index can run past the end of the list and throw. Since `placePlayer` is not modelled, the
  model carries on where the source would stop.
- `checkWinCondition` throws when all keys are in and the exit position lies in a missing row
  or in a row never built. The model's `OpenExit` then leaves the board as it is. The throw also
  ends the rest of the step: a pick-up with every key already in throws inside
  `collectCollectibles` or `collectKeys` (app.js:386 and 393), and the source then skips the
  trap-cell check, the enemy sweep and the final win check. `Interacted` and `Moved` carry on
  where the source stops, and can trap the player.
- The source adds the open-exit class to whatever cell `exitPosition` names. That cell may be
  a wall or a key left over from a level with no exit tile. The model opens only a locked
  exit cell. The extra class can trigger a win check before the step, but that check cannot
  win because the player is not yet on the exit.
- `fetch`, `localStorage`, and the save and load of the game state with its defaulting rules
  are foreign I/O. `LoadTasks` takes the fetched list as a parameter.
- `Date.now`, `setInterval` and the enemy timer are not modelled. Times are integer
  parameters, and the enemy tick is the explicit `MoveEnemies` call.
- The uniformity of `Math.random` and of the shuffle is not modelled. Its answers are the
  `choose` parameter, and only the permutation is proved.
- Tilt input is not modelled, because it accumulates floating-point values. The iOS
  permission flow is not modelled either.
- The difficulty and help fields of a task are not kept.
- `gameState`'s own `collectibles`, `keys`, `keyCount`, `deaths` and `enemyPosition` are
  never read during play and are not kept.
- The branch of `getNextTask` for a task list that is not an array cannot arise, because the
  list is a sequence.
- Session.Game.LoadTasks: refuses, at load time, a task list holding a task with an enemy
  whose path is empty or missing. The source stores any non-empty array and fails only when
  such a task is set up (app.js:297 and 303); the model keeps this out of the task list so
  that every level it sets up is well formed.
- Session.Game.SetupLevel: requires every enemy of the task to have a non-empty path.
  Spawning reads `path[0]` and the level setup reads its coordinates, so an empty path would
  throw. As a result, the tick's skip of an enemy with no path (app.js:446) never applies.
- Session.Game.InitializeGame: does not state the first console check on an empty task
  list, because it only logs.
