/**
 * The game session: one object holding the module-level counters and the
 * session record of the game, updated in place by level setup, the player's
 * step, the enemy tick, task selection, reset and the input handlers.
 */
module Session {
  import opened Wrappers
  import opened Grid
  import opened Enemies
  import opened Tasks
  import opened Input
  import opened Clock
  import opened Level

  /** The live grid is what a maze instantiates: one cell per position of every row present. */
  ghost predicate Instantiated(g: map<Coord, Cell>, maze: seq<Row>) {
    && (forall p :: p in g <==> InBounds(p) && RowPresent(maze, p.y))
    && (forall p :: p in g ==> g[p] == CellOf(TileAt(maze, p)))
  }

  /** The board holds exactly the cells of the present rows before (r, c), each with its tile's content. */
  ghost predicate BoardUpTo(g: map<Coord, Cell>, maze: seq<Row>, r: int, c: int) {
    && (forall p :: p in g <==> InBounds(p) && RowPresent(maze, p.y) && Before(p, r, c))
    && (forall p :: p in g ==> g[p] == CellOf(TileAt(maze, p)))
  }

  /** Building the cell at (c, r) of a present row extends the board by that one cell. */
  lemma BoardStep(g: map<Coord, Cell>, maze: seq<Row>, r: int, c: int)
    requires 0 <= r < MazeSize && 0 <= c < MazeSize && RowPresent(maze, r)
    requires BoardUpTo(g, maze, r, c)
    ensures Coord(c, r) !in g
    ensures BoardUpTo(g[Coord(c, r) := CellOf(TileAt(maze, Coord(c, r)))], maze, r, c + 1)
  {
  }

  /** The fields maze generation writes. */
  datatype Setup = Setup(grid: map<Coord, Cell>, keyCount: nat, collectibleCount: nat,
                         playerStart: Coord, playerPosition: Coord, exitPosition: Coord)

  /**
   * One cell of maze generation: the cell at p gets the tile's content, a
   * collectible or key raises its count, the player tile moves the start and
   * the player there, the exit tile moves the exit there.
   */
  function Placed(s: Setup, p: Coord, t: Tile): (r: Setup)
    // a fresh cell keeps each level total in step with the cells of its kind
    ensures p !in s.grid ==>
      && r.keyCount - |KindCells(r.grid, Key)| == s.keyCount - |KindCells(s.grid, Key)|
      && r.collectibleCount - |KindCells(r.grid, Collectible)|
         == s.collectibleCount - |KindCells(s.grid, Collectible)|
    ensures r.grid == s.grid[p := CellOf(t)]
    ensures r.keyCount == s.keyCount + (if t == KeyTile then 1 else 0)
    ensures r.collectibleCount == s.collectibleCount + (if t == CollectibleTile then 1 else 0)
    ensures r.playerStart == (if t == PlayerTile then p else s.playerStart)
    ensures r.playerPosition == (if t == PlayerTile then p else s.playerPosition)
    ensures r.exitPosition == (if t == ExitTile then p else s.exitPosition)
  {
    KindCellsUpdate(s.grid, p, CellOf(t), Key);
    KindCellsUpdate(s.grid, p, CellOf(t), Collectible);
    var s' := s.(grid := s.grid[p := CellOf(t)]);
    match t
    case PlayerTile => s'.(playerStart := p, playerPosition := p)
    case CollectibleTile => s'.(collectibleCount := s.collectibleCount + 1)
    case KeyTile => s'.(keyCount := s.keyCount + 1)
    case ExitTile => s'.(exitPosition := p)
    case _ => s'
  }

  /**
   * The board holds exactly the cells of the present rows before (r, c) in
   * row-major order, each with its tile's content; each count grew by the
   * matching cells; the start, the player and the exit are at the last
   * matching tile so far, or where they were before when there is none.
   */
  ghost predicate Built(maze: seq<Row>, r: nat, c: nat, now: Setup, before: Setup)
    requires c <= MazeSize
  {
    && BoardUpTo(now.grid, maze, r, c)
    && now.keyCount == before.keyCount + |KindCells(now.grid, Key)|
    && now.collectibleCount == before.collectibleCount + |KindCells(now.grid, Collectible)|
    && now.playerStart == FoundOr(LastTile(maze, PlayerTile, r, c), before.playerStart)
    && now.playerPosition == FoundOr(LastTile(maze, PlayerTile, r, c), before.playerPosition)
    && now.exitPosition == FoundOr(LastTile(maze, ExitTile, r, c), before.exitPosition)
  }

  /** Placing the cell at column c - 1 of a present row keeps the generation invariant one cell further on. */
  lemma BuildStep(maze: seq<Row>, r: nat, c: nat, now: Setup, before: Setup)
    requires r < MazeSize && 0 < c <= MazeSize && RowPresent(maze, r)
    requires Built(maze, r, c - 1, now, before)
    ensures Built(maze, r, c, Placed(now, Coord(c - 1, r), TileAt(maze, Coord(c - 1, r))), before)
  {
    var p, t := Coord(c - 1, r), TileAt(maze, Coord(c - 1, r));
    BoardStep(now.grid, maze, r, c - 1);
    KindCellsUpdate(now.grid, p, CellOf(t), Key);
    KindCellsUpdate(now.grid, p, CellOf(t), Collectible);
  }

  /** Columns 0 .. c - 1 of row r placed in order, starting from s. */
  function RowPlaced(maze: seq<Row>, r: int, c: nat, s: Setup): (o: Setup)
    requires c <= MazeSize
    decreases c
  {
    if c == 0 then s
    else Placed(RowPlaced(maze, r, c - 1, s), Coord(c - 1, r), TileAt(maze, Coord(c - 1, r)))
  }

  /** Rows 0 .. r - 1 of the maze placed in order, skipping the missing rows, starting from s. */
  function Generated(maze: seq<Row>, r: nat, s: Setup): (o: Setup)
    decreases r
  {
    if r == 0 then s
    else
      var prev := Generated(maze, r - 1, s);
      if RowPresent(maze, r - 1) then RowPlaced(maze, r - 1, MazeSize, prev) else prev
  }

  /** Placing the first c columns of a present row keeps the generation invariant. */
  lemma {:induction false} RowPlacedBuilt(maze: seq<Row>, r: nat, c: nat, s: Setup, before: Setup)
    requires r < MazeSize && c <= MazeSize && RowPresent(maze, r)
    requires Built(maze, r, 0, s, before)
    ensures Built(maze, r, c, RowPlaced(maze, r, c, s), before)
    decreases c
  {
    if c > 0 {
      RowPlacedBuilt(maze, r, c - 1, s, before);
      BuildStep(maze, r, c, RowPlaced(maze, r, c - 1, s), before);
    }
  }

  /** The end of row r is the start of row r + 1. */
  lemma NextRow(maze: seq<Row>, r: nat, now: Setup, before: Setup)
    requires r < MazeSize && Built(maze, r, MazeSize, now, before)
    ensures Built(maze, r + 1, 0, now, before)
  {
    assert forall p: Coord :: InBounds(p) ==> (Before(p, r, MazeSize) <==> Before(p, r + 1, 0));
  }

  /** A missing row adds nothing: the start of row r is the start of row r + 1. */
  lemma SkipRow(maze: seq<Row>, r: nat, now: Setup, before: Setup)
    requires r < MazeSize && !RowPresent(maze, r) && Built(maze, r, 0, now, before)
    ensures Built(maze, r + 1, 0, now, before)
  {
    LastTileSkipsMissingRow(maze, PlayerTile, r, MazeSize);
    LastTileSkipsMissingRow(maze, ExitTile, r, MazeSize);
  }

  /** Nothing placed yet on an empty board: the invariant holds at the first cell. */
  lemma BuiltAtStart(maze: seq<Row>, s: Setup)
    requires s.grid == map[]
    ensures Built(maze, 0, 0, s, s)
  {
    assert KindCells(s.grid, Key) == {} && KindCells(s.grid, Collectible) == {};
  }

  /** Generating one more row, present or missing, keeps the invariant one row further on. */
  lemma GeneratedStep(maze: seq<Row>, r: nat, s: Setup)
    requires r < MazeSize && Built(maze, r, 0, Generated(maze, r, s), s)
    ensures Built(maze, r + 1, 0, Generated(maze, r + 1, s), s)
  {
    var prev := Generated(maze, r, s);
    if RowPresent(maze, r) {
      RowPlacedBuilt(maze, r, MazeSize, prev, s);
      NextRow(maze, r, RowPlaced(maze, r, MazeSize, prev), s);
    } else {
      SkipRow(maze, r, prev, s);
    }
  }

  /**
   * Generation from an empty board: after rows 0 .. r - 1 the board is
   * exactly those rows' cells, the counts are the counts of key and
   * collectible cells added, and the positions are the last matching tiles.
   */
  lemma {:induction false} GeneratedBuilt(maze: seq<Row>, r: nat, s: Setup)
    requires r <= MazeSize && s.grid == map[]
    ensures Built(maze, r, 0, Generated(maze, r, s), s)
    decreases r
  {
    if r == 0 {
      BuiltAtStart(maze, s);
    } else {
      GeneratedBuilt(maze, r - 1, s);
      GeneratedStep(maze, r - 1, s);
    }
  }

  /**
   * What maze generation promises, from `before` to `after`: the board the
   * maze instantiates, the counts raised by its key and collectible cells, and
   * the start, the player and the exit on the last matching tile in row-major
   * order, or unchanged when the maze has none.
   */
  ghost predicate Generation(maze: seq<Row>, before: Setup, after: Setup) {
    && Instantiated(after.grid, maze)
    && after.keyCount == before.keyCount + |KindCells(after.grid, Key)|
    && after.collectibleCount == before.collectibleCount + |KindCells(after.grid, Collectible)|
    && ((exists p :: HasTile(maze, PlayerTile, p)) ==>
          IsLastTile(maze, PlayerTile, after.playerStart) && after.playerPosition == after.playerStart)
    && ((forall p :: !HasTile(maze, PlayerTile, p)) ==>
          after.playerStart == before.playerStart && after.playerPosition == before.playerPosition)
    && ((exists p :: HasTile(maze, ExitTile, p)) ==> IsLastTile(maze, ExitTile, after.exitPosition))
    && ((forall p :: !HasTile(maze, ExitTile, p)) ==> after.exitPosition == before.exitPosition)
  }

  /** Generation onto a cleared board with both level totals restarted at 0, from the fields `before`. */
  ghost predicate Regenerated(maze: seq<Row>, before: Setup, after: Setup) {
    Generation(maze, before.(grid := map[], keyCount := 0, collectibleCount := 0), after)
  }

  /** Positions on the board, live cells on the board, and no open exit. */
  ghost predicate SetupValid(s: Setup) {
    && InBounds(s.playerStart) && InBounds(s.playerPosition) && InBounds(s.exitPosition)
    && (forall p :: p in s.grid ==> InBounds(p) && s.grid[p] != ExitOpen)
  }

  /** Generation from an empty board does what it promises and keeps positions on the board. */
  lemma GeneratedMeaning(maze: seq<Row>, n: nat, s: Setup)
    requires n == MazeSize && s.grid == map[]
    ensures Generation(maze, s, Generated(maze, n, s))
    ensures SetupValid(s) ==> SetupValid(Generated(maze, n, s))
  {
    GeneratedBuilt(maze, n, s);
    LastTileIsLast(maze, PlayerTile, n, 0);
    LastTileIsLast(maze, ExitTile, n, 0);
  }

  /** A maze with no rows yields an empty board and changes nothing. */
  lemma EmptyMazeGeneration(maze: seq<Row>, s: Setup)
    requires |maze| == 0 && s.grid == map[]
    ensures Generation(maze, s, s)
  {
    assert forall p: Coord :: !RowPresent(maze, p.y);
  }

  /** The cell found by a row-major search, or the fallback when the search found none. */
  function FoundOr(found: Option<Coord>, fallback: Coord): Coord {
    if found.Some? then found.value else fallback
  }

  class Game {
    // The live grid; a position with no entry is a cell that was never built.
    var grid: map<Coord, Cell>
    var playerPosition: Coord
    var playerStart: Coord
    var exitPosition: Coord
    // Per-level counters.
    var keys: nat
    var keyCount: nat
    var collectibles: nat
    var collectibleCount: nat
    // Counters that run across levels.
    var collectiblesCollected: nat
    var deaths: nat
    var enemies: seq<Enemy>
    // Session record.
    var tasks: seq<Option<Task>>
    var completedTasks: set<string>
    var currentTask: Option<Task>
    var isGameActive: bool
    var isTimerRunning: bool
    var startTime: Option<int>

    /** The fields one level is played on, as a value. */
    ghost function Level(): LevelState
      reads this`grid, this`playerPosition, this`playerStart, this`exitPosition, this`keys,
        this`keyCount, this`collectibles, this`collectibleCount, this`collectiblesCollected,
        this`deaths, this`enemies, this`isGameActive, this`isTimerRunning
    {
      LevelState(grid, playerPosition, playerStart, exitPosition, keys, keyCount,
                 collectibles, collectibleCount, collectiblesCollected, deaths, enemies,
                 isGameActive, isTimerRunning)
    }

    /** The level's state is valid and every task's enemies have paths to walk. */
    ghost predicate Valid()
      reads this`grid, this`playerPosition, this`playerStart, this`exitPosition,
        this`enemies, this`tasks
    {
      && BoardValid(grid, playerPosition, playerStart, exitPosition, enemies)
      && forall t :: Some(t) in tasks ==> EnemiesDefined(t)
    }

    /** The state before any task is loaded: nothing on the board, every counter 0. */
    constructor ()
      ensures Valid() && Conserved(Level())
      ensures grid == map[] && enemies == [] && tasks == [] && completedTasks == {}
      ensures playerPosition == Coord(0, 0) && playerStart == Coord(0, 0) && exitPosition == Coord(0, 0)
      ensures keys == 0 && keyCount == 0 && collectibles == 0 && collectibleCount == 0
      ensures collectiblesCollected == 0 && deaths == 0
      ensures currentTask.None? && !isGameActive && !isTimerRunning && startTime.None?
    {
      grid := map[];
      playerPosition, playerStart, exitPosition := Coord(0, 0), Coord(0, 0), Coord(0, 0);
      keys, keyCount, collectibles, collectibleCount := 0, 0, 0, 0;
      collectiblesCollected, deaths := 0, 0;
      enemies := [];
      tasks, completedTasks, currentTask := [], {}, None;
      isGameActive, isTimerRunning, startTime := false, false, None;
      new;
      assert KindCells(grid, Key) == {} && KindCells(grid, Collectible) == {};
    }

    /** A fetched task list replaces the current one only when it is non-empty. */
    method LoadTasks(loaded: seq<Option<Task>>)
      requires Valid()
      requires forall t :: Some(t) in loaded ==> EnemiesDefined(t)
      modifies this`tasks
      ensures Valid()
      ensures tasks == if |loaded| > 0 then loaded else old(tasks)
    {
      if |loaded| > 0 {
        tasks := loaded;
      }
    }

    /** The start button: the game becomes active and the clock starts at `now`. */
    method Start(now: int)
      modifies this`isGameActive, this`isTimerRunning, this`startTime
      ensures isGameActive && isTimerRunning && startTime == Some(now)
    {
      isGameActive := true;
      isTimerRunning := true;
      startTime := Some(now);
    }

    // ----- Maze setup -----

    /** The fields maze generation writes, as a value. */
    ghost function Fields(): Setup
      reads this`grid, this`keyCount, this`collectibleCount, this`playerStart,
        this`playerPosition, this`exitPosition
    {
      Setup(grid, keyCount, collectibleCount, playerStart, playerPosition, exitPosition)
    }

    /** One present row of the maze, column by column. */
    method BuildRow(maze: seq<Row>, row: nat)
      requires row < MazeSize && RowPresent(maze, row)
      modifies this`grid, this`playerStart, this`playerPosition, this`exitPosition,
        this`keyCount, this`collectibleCount
      ensures Fields() == RowPlaced(maze, row, MazeSize, old(Fields()))
    {
      var tiles := maze[row].tiles;
      var col := 0;
      while col < MazeSize
        invariant 0 <= col <= MazeSize
        invariant Fields() == RowPlaced(maze, row, col, old(Fields()))
      {
        var p := Coord(col, row);
        // An entry past the end of the row is undefined and matches no case.
        var element := if col < |tiles| then tiles[col] else OtherTile;
        assert element == TileAt(maze, p);
        assert RowPlaced(maze, row, col + 1, old(Fields())) == Placed(Fields(), p, element);
        PlaceCell(p, element);
        col := col + 1;
      }
    }

    /** One cell of the maze: the tile's effect on the counts and positions, then the cell itself. */
    method PlaceCell(p: Coord, element: Tile)
      modifies this`grid, this`playerStart, this`playerPosition, this`exitPosition,
        this`keyCount, this`collectibleCount
      ensures Fields() == Placed(old(Fields()), p, element)
    {
      match element {
        case PlayerTile =>
          playerStart := p;
          playerPosition := p;
        case CollectibleTile =>
          collectibleCount := collectibleCount + 1;
        case KeyTile =>
          keyCount := keyCount + 1;
        case ExitTile =>
          exitPosition := p;
        case _ =>
      }
      grid := grid[p := CellOf(element)];
    }

    /** Every row of the maze in order, skipping the missing ones. */
    method BuildRows(maze: seq<Row>)
      modifies this`grid, this`playerStart, this`playerPosition, this`exitPosition,
        this`keyCount, this`collectibleCount
      ensures Fields() == Generated(maze, MazeSize, old(Fields()))
    {
      var row := 0;
      while row < MazeSize
        invariant 0 <= row <= MazeSize
        invariant Fields() == Generated(maze, row, old(Fields()))
      {
        if !RowPresent(maze, row) {
          assert Generated(maze, row + 1, old(Fields())) == Fields();
          row := row + 1;
          continue;
        }
        ghost var prev := Fields();
        BuildRow(maze, row);
        assert Generated(maze, row + 1, old(Fields())) == RowPlaced(maze, row, MazeSize, prev);
        row := row + 1;
      }
    }

    /**
     * Builds the live board from a task's maze: the first MazeSize rows, each
     * of MazeSize columns, skipping the rows that are missing. The start cell
     * (and the player) and the exit are the last such tile in row-major order;
     * with none they keep their previous values.
     */
    method GenerateMaze(maze: seq<Row>)
      requires Valid() && grid == map[]
      modifies this`grid, this`playerStart, this`playerPosition, this`exitPosition,
        this`keyCount, this`collectibleCount
      ensures Valid() && Generation(maze, old(Fields()), Fields())
    {
      ghost var before := Fields();
      if |maze| == 0 {
        EmptyMazeGeneration(maze, before);
        return;
      }
      BuildRows(maze);
      GeneratedMeaning(maze, MazeSize, before);
      assert SetupValid(Fields());
    }

    /**
     * A level loaded from task t, starting from the generation fields
     * `before`: both per-level pick-up counters at 0, the board generated from
     * the maze onto a cleared board with both level totals restarted at 0, t
     * current, and its enemies at the start of their paths.
     */
    ghost predicate Loaded(t: Task, before: Setup)
      requires t.maze.Some? && EnemiesDefined(t)
      reads this`grid, this`keyCount, this`collectibleCount, this`playerStart,
        this`playerPosition, this`exitPosition, this`keys, this`collectibles,
        this`currentTask, this`enemies
    {
      && keys == 0 && collectibles == 0
      && Regenerated(t.maze.value, before, Fields())
      && currentTask == Some(t) && enemies == SpawnAll(t.enemies)
    }

    /**
     * Level setup: the timer runs again whatever the task; for a task with a
     * maze the level is loaded from it, with every key and collectible on the
     * board and none collected.
     */
    method SetupLevel(task: Option<Task>)
      requires Valid() && (task.Some? ==> EnemiesDefined(task.value))
      modifies this`grid, this`playerStart, this`playerPosition, this`exitPosition,
        this`keys, this`keyCount, this`collectibles, this`collectibleCount,
        this`currentTask, this`enemies, this`isTimerRunning
      ensures Valid() && isTimerRunning
      ensures !HasMaze(task) ==>
        Level() == old(Level()).(isTimerRunning := true) && currentTask == old(currentTask)
      ensures HasMaze(task) ==> Loaded(task.value, old(Fields())) && Conserved(Level())
      ensures deaths == old(deaths) && collectiblesCollected == old(collectiblesCollected)
    {
      isTimerRunning := true;
      if task.None? || task.value.maze.None? {
        return;
      }
      LoadLevel(task.value);
    }

    /** The part of level setup that runs for a task with a maze. */
    method LoadLevel(t: Task)
      requires Valid() && t.maze.Some? && EnemiesDefined(t)
      modifies this`grid, this`playerStart, this`playerPosition, this`exitPosition,
        this`keys, this`keyCount, this`collectibles, this`collectibleCount,
        this`currentTask, this`enemies
      ensures Valid() && Loaded(t, old(Fields())) && Conserved(Level())
    {
      LoadBoard(t.maze.value);
      ghost var board := Fields();
      currentTask := Some(t);
      PlaceEnemies(t.enemies);
      assert Fields() == board;
    }

    /**
     * The board is cleared and generated afresh from the maze, with both
     * level totals and both pick-up counters restarted at 0.
     */
    method LoadBoard(maze: seq<Row>)
      requires Valid()
      modifies this`grid, this`playerStart, this`playerPosition, this`exitPosition,
        this`keys, this`keyCount, this`collectibles, this`collectibleCount
      ensures Valid() && keys == 0 && collectibles == 0
      ensures Regenerated(maze, old(Fields()), Fields())
      ensures Conserved(Level())
    {
      ClearLevel();
      ghost var before := Fields();
      assert before == old(Fields()).(grid := map[], keyCount := 0, collectibleCount := 0);
      GenerateMaze(maze);
    }

    /** The task's enemies replace the previous ones, each at the start of its path. */
    method PlaceEnemies(ds: seq<EnemyDef>)
      requires Valid() && forall d :: d in ds ==> |d.path| > 0
      modifies this`enemies
      ensures Valid() && enemies == SpawnAll(ds)
    {
      enemies := SpawnAll(ds);
    }

    /** The board is cleared and the per-level counters restart at 0. */
    method ClearLevel()
      requires Valid()
      modifies this`grid, this`keys, this`keyCount, this`collectibles, this`collectibleCount
      ensures Valid()
      ensures Fields() == Setup(map[], 0, 0, playerStart, playerPosition, exitPosition)
      ensures keys == 0 && collectibles == 0
    {
      ClearMaze();
      collectibles, keys, collectibleCount, keyCount := 0, 0, 0, 0;
    }

    /**
     * Back to the state before any level: the task list is kept, the completed
     * set is cleared, the board, enemies and positions are cleared and the game
     * is inactive with no start time. The counters that live outside the
     * session record (deaths, collectiblesCollected and the per-level ones)
     * keep their values.
     */
    method ResetGameState()
      requires Valid()
      modifies this`grid, this`playerStart, this`playerPosition, this`exitPosition,
        this`completedTasks, this`currentTask, this`enemies, this`isGameActive,
        this`isTimerRunning, this`startTime
      ensures Valid()
      ensures grid == map[] && enemies == [] && completedTasks == {} && currentTask.None?
      ensures playerPosition == Coord(0, 0) && playerStart == Coord(0, 0) && exitPosition == Coord(0, 0)
      ensures !isGameActive && !isTimerRunning && startTime.None?
      ensures tasks == old(tasks)
      ensures deaths == old(deaths) && collectiblesCollected == old(collectiblesCollected)
      ensures keys == old(keys) && keyCount == old(keyCount)
      ensures collectibles == old(collectibles) && collectibleCount == old(collectibleCount)
    {
      ResetRecord();
      ClearMaze();
    }

    /** The session record starts over; the task list is kept. */
    method ResetRecord()
      modifies this`playerStart, this`playerPosition, this`exitPosition,
        this`completedTasks, this`currentTask, this`enemies, this`isGameActive,
        this`isTimerRunning, this`startTime
      ensures enemies == [] && completedTasks == {} && currentTask.None?
      ensures playerPosition == Coord(0, 0) && playerStart == Coord(0, 0) && exitPosition == Coord(0, 0)
      ensures !isGameActive && !isTimerRunning && startTime.None?
    {
      playerPosition, playerStart, exitPosition := Coord(0, 0), Coord(0, 0), Coord(0, 0);
      currentTask, completedTasks, startTime := None, {}, None;
      isGameActive, isTimerRunning := false, false;
      enemies := [];
    }

    /** The board is emptied. */
    method ClearMaze()
      modifies this`grid
      ensures grid == map[]
    {
      grid := map[];
    }

    /** The end of the game: play stops, and the total time shown is read off the clock at `now`. */
    method EndGame(now: int) returns (minutes: int, seconds: int)
      modifies this`isGameActive, this`isTimerRunning
      ensures !isGameActive && !isTimerRunning
      ensures var e := Elapsed(now, startTime);
        minutes * 60000 <= e < (minutes + 1) * 60000 && seconds == Seconds(e)
    {
      isGameActive := false;
      var elapsedTime := Elapsed(now, startTime);
      minutes := Minutes(elapsedTime);
      seconds := Seconds(elapsedTime);
      isTimerRunning := false;
    }

    // ----- Task selection -----

    /**
     * The next task: the selectable tasks are copied into an array, shuffled in
     * place with the random source's choices, and the first becomes the pick,
     * whose id is marked completed; with none selectable the game ends.
     */
    method GetNextTask(choose: nat -> nat, now: int) returns (next: Option<Task>)
      requires ValidChoice(choose)
      modifies this`completedTasks, this`isGameActive, this`isTimerRunning
      ensures next.None? <==> Available(tasks, old(completedTasks)) == []
      ensures next.None? ==> completedTasks == old(completedTasks) && !isGameActive && !isTimerRunning
      ensures next.Some? ==>
        && Some(next.value) in tasks && Selectable(next, old(completedTasks))
        && next.value == Shuffled(Available(tasks, old(completedTasks)), choose)[0]
        && completedTasks == old(completedTasks) + {next.value.id}
        && isGameActive == old(isGameActive) && isTimerRunning == old(isTimerRunning)
    {
      var availableTasks := Available(tasks, completedTasks);
      if |availableTasks| == 0 {
        var _, _ := EndGame(now);
        return None;
      }
      var a := new Task[|availableTasks|](i requires 0 <= i < |availableTasks| => availableTasks[i]);
      assert a[..] == availableTasks;
      Shuffle(a, choose);
      var picked := a[0];
      assert picked in multiset(a[..]);
      assert picked in availableTasks;
      completedTasks := completedTasks + {picked.id};
      next := Some(picked);
    }

    /** Starting a new game: while no game is active, the next task is picked and set up. */
    method InitializeGame(choose: nat -> nat, now: int)
      requires Valid() && ValidChoice(choose)
      modifies this`grid, this`playerStart, this`playerPosition, this`exitPosition,
        this`keys, this`keyCount, this`collectibles, this`collectibleCount,
        this`currentTask, this`enemies, this`isTimerRunning, this`isGameActive,
        this`completedTasks
      ensures Valid()
      ensures old(isGameActive) ==>
        Level() == old(Level()) && completedTasks == old(completedTasks) && currentTask == old(currentTask)
      ensures !old(isGameActive) ==> !isGameActive && isTimerRunning
      ensures !old(isGameActive) && Available(tasks, old(completedTasks)) == [] ==>
        Level() == old(Level()).(isTimerRunning := true) && currentTask == old(currentTask)
      ensures !old(isGameActive) ==>
        (Available(tasks, old(completedTasks)) == [] <==> completedTasks == old(completedTasks))
      ensures !old(isGameActive) && Available(tasks, old(completedTasks)) != [] ==>
        && currentTask.Some? && Selectable(currentTask, old(completedTasks))
        && Some(currentTask.value) in tasks && EnemiesDefined(currentTask.value)
        && Loaded(currentTask.value, old(Fields()))
        && completedTasks == old(completedTasks) + {currentTask.value.id}
        && Conserved(Level())
    {
      if !isGameActive {
        var nextTask := GetNextTask(choose, now);
        SetupLevel(nextTask);
      }
    }

    /**
     * The continue button on the level-complete screen: the next task is
     * picked and set up; with none left the game ends (a second time, after
     * the selection already ended it).
     */
    method ContinueAfterWin(choose: nat -> nat, now: int)
      requires Valid() && ValidChoice(choose)
      modifies this`grid, this`playerStart, this`playerPosition, this`exitPosition,
        this`keys, this`keyCount, this`collectibles, this`collectibleCount,
        this`currentTask, this`enemies, this`isTimerRunning, this`isGameActive,
        this`completedTasks
      ensures Valid()
      ensures Available(tasks, old(completedTasks)) == [] ==>
        && Level() == old(Level()).(isGameActive := false, isTimerRunning := false)
        && completedTasks == old(completedTasks) && currentTask == old(currentTask)
      ensures Available(tasks, old(completedTasks)) != [] ==>
        && currentTask.Some? && Selectable(currentTask, old(completedTasks))
        && Some(currentTask.value) in tasks && EnemiesDefined(currentTask.value)
        && Loaded(currentTask.value, old(Fields()))
        && completedTasks == old(completedTasks) + {currentTask.value.id}
        && Conserved(Level()) && isGameActive == old(isGameActive) && isTimerRunning
    {
      var nextTask := GetNextTask(choose, now);
      if nextTask.Some? {
        SetupLevel(nextTask);
      } else {
        var _, _ := EndGame(now);
      }
    }

    /**
     * The restart button: the session record starts over and a new game is
     * initialised on the same task list, every task selectable again; play
     * waits for the start button.
     */
    method RestartGame(choose: nat -> nat, now: int)
      requires Valid() && ValidChoice(choose)
      modifies this
      ensures Valid() && tasks == old(tasks) && !isGameActive && isTimerRunning
      ensures Available(tasks, {}) == [] <==> completedTasks == {}
      ensures Available(tasks, {}) != [] ==>
        && currentTask.Some? && Selectable(currentTask, {})
        && Some(currentTask.value) in tasks && EnemiesDefined(currentTask.value)
        && Loaded(currentTask.value, Setup(map[], 0, 0, Coord(0, 0), Coord(0, 0), Coord(0, 0)))
        && completedTasks == {currentTask.value.id} && Conserved(Level())
      ensures Available(tasks, {}) == [] ==>
        && grid == map[] && enemies == [] && currentTask.None?
        && playerPosition == playerStart == exitPosition == Coord(0, 0)
        && keys == old(keys) && keyCount == old(keyCount)
        && collectibles == old(collectibles) && collectibleCount == old(collectibleCount)
      ensures startTime.None?
      ensures deaths == old(deaths) && collectiblesCollected == old(collectiblesCollected)
    {
      ResetGameState();
      InitializeGame(choose, now);
    }

    // ----- Player interaction -----

    method TrapPlayer()
      modifies this`playerPosition, this`deaths
      ensures Level() == Trapped(old(Level()))
    {
      playerPosition := playerStart;
      deaths := deaths + 1;
    }

    /** Opens the exit once every key is in; a win stops the timer (the level-complete screen). */
    method CheckWinCondition() returns (won: bool)
      modifies this`grid, this`isTimerRunning
      ensures Outcome(Level(), won) == WinCheck(old(Level()))
    {
      var allCollected := keyCount == keys;
      var playerAtExit := playerPosition == exitPosition;
      if allCollected && exitPosition in grid && grid[exitPosition] == Exit {
        grid := grid[exitPosition := ExitOpen];
      }
      won := allCollected && playerAtExit;
      if won {
        isTimerRunning := false;
      }
    }

    method CollectCollectibles(t: Coord) returns (won: bool)
      requires t in grid
      modifies this`grid, this`collectibles, this`collectiblesCollected, this`isTimerRunning
      ensures Outcome(Level(), won) == CollectedCollectible(old(Level()), t)
    {
      grid := grid[t := Empty];
      collectibles := collectibles + 1;
      collectiblesCollected := collectiblesCollected + 1;
      won := CheckWinCondition();
    }

    method CollectKeys(t: Coord) returns (won: bool)
      requires t in grid
      modifies this`grid, this`keys, this`isTimerRunning
      ensures Outcome(Level(), won) == CollectedKey(old(Level()), t)
    {
      grid := grid[t := Empty];
      keys := keys + 1;
      won := CheckWinCondition();
    }

    /** Each enemy, in list order, that stands on the player's current cell traps the player. */
    method CheckEnemyContact()
      modifies this`playerPosition, this`deaths
      ensures Level() == EnemyContact(old(Level()))
    {
      var i := 0;
      while i < |enemies|
        invariant 0 <= i <= |enemies|
        invariant var c := Sweep(Positions(enemies[..i]), old(playerPosition), playerStart);
          playerPosition == c.player && deaths == old(deaths) + c.traps
      {
        assert Positions(enemies[..i + 1])[..i] == Positions(enemies[..i]);
        if playerPosition == enemies[i].position {
          TrapPlayer();
        }
        i := i + 1;
      }
      assert enemies[..i] == enemies;
    }

    /** The effects of stepping towards the live cell t. */
    method HandleInteractions(t: Coord) returns (won: bool)
      requires t in grid
      modifies this`grid, this`playerPosition, this`keys, this`collectibles,
        this`collectiblesCollected, this`deaths, this`isTimerRunning
      ensures Outcome(Level(), won) == Interacted(old(Level()), t)
    {
      var cell := grid[t];
      won := false;
      if cell != Wall {
        if cell == Exit && keys != keyCount {
          return;
        }
        if cell == ExitOpen {
          won := CheckWinCondition();
        }
        playerPosition := t;
      }
      ghost var entered := Level();
      assert Outcome(entered, won) == Enter(old(Level()), t);
      var wonPick := false;
      if cell == Collectible {
        wonPick := CollectCollectibles(t);
      }
      ghost var afterCollectible := Level();
      if cell == Key {
        var w := CollectKeys(t);
        wonPick := wonPick || w;
      }
      assert Outcome(Level(), wonPick) == PickUp(entered, t, cell);
      won := won || wonPick;
      if cell == Trap {
        TrapPlayer();
      }
      CheckEnemyContact();
    }

    /** The player's step by (dx, dy). */
    method MovePlayer(dx: int, dy: int) returns (won: bool)
      requires Valid()
      modifies this`grid, this`playerPosition, this`keys, this`collectibles,
        this`collectiblesCollected, this`deaths, this`isTimerRunning
      ensures Valid()
      ensures Outcome(Level(), won) == Moved(old(Level()), dx, dy)
      ensures old(Conserved(Level())) ==> Conserved(Level())
    {
      ghost var s := Level();
      var newX, newY := playerPosition.x + dx, playerPosition.y + dy;
      won := false;
      if 0 <= newX < MazeSize && 0 <= newY < MazeSize && Coord(newX, newY) in grid {
        // Without a built cell there, the source's handler fails before changing anything.
        var target := Coord(newX, newY);
        MovedOnGrid(s, dx, dy);
        won := Step(target);
      } else {
        MovedOffGrid(s, dx, dy);
      }
      MoveConserves(s, dx, dy);
    }

    /** The step onto the live cell t: the interactions, then the final win check. */
    method Step(t: Coord) returns (won: bool)
      requires t in grid
      modifies this`grid, this`playerPosition, this`keys, this`collectibles,
        this`collectiblesCollected, this`deaths, this`isTimerRunning
      ensures var o := Interacted(old(Level()), t); var w := WinCheck(o.state);
        Outcome(Level(), won) == Outcome(w.state, o.won || w.won)
    {
      won := HandleInteractions(t);
      var w := CheckWinCondition();
      won := won || w;
    }

    /**
     * A key press while the game is active: the arrow keys and w, a, s, d
     * step the player by one cell; anything else, or any key while the game is
     * inactive, changes nothing.
     */
    method HandleKey(key: string) returns (won: bool)
      requires Valid()
      modifies this`grid, this`playerPosition, this`keys, this`collectibles,
        this`collectiblesCollected, this`deaths, this`isTimerRunning
      ensures Valid()
      ensures !old(isGameActive) || !IsMoveKey(key) ==> Level() == old(Level()) && !won
      ensures old(isGameActive) && IsMoveKey(key) ==>
        var st := KeyStep(key).value;
        IsUnit(st) && Outcome(Level(), won) == Moved(old(Level()), st.dx, st.dy)
      ensures old(Conserved(Level())) ==> Conserved(Level())
    {
      won := false;
      if !isGameActive {
        return;
      }
      match KeyStep(key) {
        case Some(st) => won := MovePlayer(st.dx, st.dy);
        case None =>
      }
    }

    /**
     * A click while the game is active: on a cell next to the player it steps
     * the player there; a click off the cells, on any other cell, or while the
     * game is inactive changes nothing. `target` is the clicked cell, None when
     * the click was not on a cell.
     */
    method HandleClick(target: Option<Coord>) returns (won: bool)
      requires Valid()
      modifies this`grid, this`playerPosition, this`keys, this`collectibles,
        this`collectiblesCollected, this`deaths, this`isTimerRunning
      ensures Valid()
      ensures !old(isGameActive) || target.None? || ClickStep(old(playerPosition), target.value).None? ==>
        Level() == old(Level()) && !won
      ensures old(isGameActive) && target.Some? && ClickStep(old(playerPosition), target.value).Some? ==>
        var st := ClickStep(old(playerPosition), target.value).value;
        Apply(old(playerPosition), st) == target.value
        && Outcome(Level(), won) == Moved(old(Level()), st.dx, st.dy)
      ensures old(Conserved(Level())) ==> Conserved(Level())
    {
      won := false;
      if !isGameActive || target.None? {
        return;
      }
      match ClickStep(playerPosition, target.value) {
        case Some(st) => won := MovePlayer(st.dx, st.dy);
        case None =>
      }
    }

    // ----- Enemies -----

    /** Moves enemy i one tick along its path: one step on, clamped to the path's ends. */
    method StepEnemy(i: nat)
      requires i < |enemies| && Wellformed(enemies[i])
      modifies this`enemies
      ensures enemies == old(enemies)[i := Advance(old(enemies)[i])]
    {
      var e := enemies[i];
      var index, forward := e.index, e.movingForward;
      if forward {
        index := index + 1;
        if index >= |e.path| {
          index := |e.path| - 1;
          forward := false;
        }
      } else {
        index := index - 1;
        if index < 0 {
          index := 0;
          forward := true;
        }
      }
      enemies := enemies[i := Enemy(e.path, e.path[index], index, forward)];
    }

    /** Every enemy takes its tick in list order, and each one that lands on the player traps them. */
    method AdvanceEnemies()
      requires forall e :: e in enemies ==> Wellformed(e)
      modifies this`enemies, this`playerPosition, this`deaths
      ensures enemies == AdvancedAll(old(enemies))
      ensures var c := Sweep(Positions(enemies), old(playerPosition), playerStart);
        playerPosition == c.player && deaths == old(deaths) + c.traps
    {
      var i := 0;
      while i < |enemies|
        invariant 0 <= i <= |enemies| == |old(enemies)|
        invariant forall k :: 0 <= k < i ==> enemies[k] == Advance(old(enemies)[k])
        invariant forall k :: i <= k < |enemies| ==> enemies[k] == old(enemies)[k]
        invariant var c := Sweep(Positions(enemies[..i]), old(playerPosition), playerStart);
          playerPosition == c.player && deaths == old(deaths) + c.traps
      {
        assert enemies[i] == old(enemies)[i] && old(enemies)[i] in old(enemies);
        StepEnemy(i);
        assert Positions(enemies[..i + 1])[..i] == Positions(enemies[..i]);
        if enemies[i].position == playerPosition {
          TrapPlayer();
        }
        i := i + 1;
      }
      assert enemies == enemies[..i];
    }

    /** The enemy tick: while the game is active, every enemy advances and traps the player it lands on. */
    method MoveEnemies()
      requires Valid()
      modifies this`enemies, this`playerPosition, this`deaths
      ensures Valid()
      ensures Level() == Ticked(old(Level()))
    {
      ghost var s := Level();
      if !isGameActive {
        TickInactiveIsNoOp(s);
        return;
      }
      AdvanceEnemies();
      TickProperties(s);
    }
  }
}
