/**
 * The rules of one level as functions on a value of the level's state: the
 * trap, the win check, collecting, the player's step and the enemy tick. The
 * `Game` class in module Session performs the same steps in place and is
 * proved to agree with these functions.
 */
module Level {
  import opened Grid
  import opened Enemies

  /** The state one level is played on: the live grid, positions, counters, enemies and flags. */
  datatype LevelState = LevelState(
    grid: map<Coord, Cell>,
    playerPosition: Coord,
    playerStart: Coord,
    exitPosition: Coord,
    keys: nat,
    keyCount: nat,
    collectibles: nat,
    collectibleCount: nat,
    collectiblesCollected: nat,
    deaths: nat,
    enemies: seq<Enemy>,
    isGameActive: bool,
    isTimerRunning: bool)

  /** The result of a step: the new state and whether the level-complete screen was raised. */
  datatype Outcome = Outcome(state: LevelState, won: bool)

  /**
   * Positions lie on the board, live cells lie on the board, an open exit can
   * only be the recorded exit, and every enemy stands on its path.
   */
  predicate LevelValid(s: LevelState) {
    BoardValid(s.grid, s.playerPosition, s.playerStart, s.exitPosition, s.enemies)
  }

  /** LevelValid on the parts of the state it is about. */
  predicate BoardValid(grid: map<Coord, Cell>, player: Coord, start: Coord, exit: Coord, enemies: seq<Enemy>) {
    && InBounds(player) && InBounds(start) && InBounds(exit)
    && (forall p :: p in grid ==> InBounds(p))
    && (forall p :: p in grid && grid[p] == ExitOpen ==> p == exit)
    && (forall e :: e in enemies ==> Wellformed(e))
  }

  /** Collected keys plus keys still on the board make the level's key count; likewise collectibles. */
  predicate Conserved(s: LevelState) {
    && s.keys + |KindCells(s.grid, Key)| == s.keyCount
    && s.collectibles + |KindCells(s.grid, Collectible)| == s.collectibleCount
  }

  /** The level is won: all keys collected and the player on the exit. */
  predicate LevelWon(s: LevelState) {
    s.keys == s.keyCount && s.playerPosition == s.exitPosition
  }

  /** The exit cell turns into an open exit; nothing else on the board changes. */
  function OpenExit(g: map<Coord, Cell>, exit: Coord): (r: map<Coord, Cell>)
    ensures r.Keys == g.Keys
    ensures exit in g ==> r[exit] != Exit
    ensures forall p :: p in g && p != exit ==> r[p] == g[p]
    ensures forall p :: p in g && g[p] != Exit ==> r[p] == g[p]
    ensures KindCells(r, Key) == KindCells(g, Key)
    ensures KindCells(r, Collectible) == KindCells(g, Collectible)
  {
    if exit in g && g[exit] == Exit then g[exit := ExitOpen] else g
  }

  /** The trap: back to the start, one more death; the board and the counters stay. */
  function Trapped(s: LevelState): (r: LevelState)
    ensures r.playerPosition == s.playerStart && r.deaths == s.deaths + 1
    ensures r.(playerPosition := s.playerPosition, deaths := s.deaths) == s
  {
    s.(playerPosition := s.playerStart, deaths := s.deaths + 1)
  }

  /**
   * The win check: with every key collected the exit opens; the level is won
   * when, in addition, the player stands on the exit, which stops the timer.
   */
  function WinCheck(s: LevelState): (o: Outcome)
    ensures o.won <==> LevelWon(s)
    ensures o.state.grid == if s.keys == s.keyCount then OpenExit(s.grid, s.exitPosition) else s.grid
    ensures o.state.isTimerRunning == (s.isTimerRunning && !o.won)
    ensures o.state.(grid := s.grid, isTimerRunning := s.isTimerRunning) == s
  {
    var allCollected := s.keys == s.keyCount;
    var won := allCollected && s.playerPosition == s.exitPosition;
    Outcome(
      s.(grid := if allCollected then OpenExit(s.grid, s.exitPosition) else s.grid,
         isTimerRunning := s.isTimerRunning && !won),
      won)
  }

  /** Picking up a collectible: the cell empties, both collectible counters rise, then the win check. */
  function CollectedCollectible(s: LevelState, t: Coord): Outcome
    requires t in s.grid
  {
    WinCheck(s.(grid := s.grid[t := Empty],
                collectibles := s.collectibles + 1,
                collectiblesCollected := s.collectiblesCollected + 1))
  }

  /** Picking up a key: the cell empties, the key counter rises, then the win check. */
  function CollectedKey(s: LevelState, t: Coord): Outcome
    requires t in s.grid
  {
    WinCheck(s.(grid := s.grid[t := Empty], keys := s.keys + 1))
  }

  /**
   * What a step may change: the contents of the live cells (never which cells
   * exist), the player, the pick-up counters, deaths and the timer. The start,
   * the exit, both level totals, the enemies and the active flag stay.
   */
  predicate StepFrame(s: LevelState, r: LevelState) {
    && r.grid.Keys == s.grid.Keys && r.deaths >= s.deaths
    && r.playerStart == s.playerStart && r.exitPosition == s.exitPosition
    && r.keyCount == s.keyCount && r.collectibleCount == s.collectibleCount
    && r.enemies == s.enemies && r.isGameActive == s.isGameActive
  }

  /** Every enemy on the player's current cell, in list order, traps the player. */
  function EnemyContact(s: LevelState): (r: LevelState)
    ensures r.(playerPosition := s.playerPosition, deaths := s.deaths) == s
  {
    var c := Sweep(Positions(s.enemies), s.playerPosition, s.playerStart);
    s.(playerPosition := c.player, deaths := s.deaths + c.traps)
  }

  /**
   * Entering live cell t (not a locked exit): an open exit is checked first;
   * the player then moves onto t unless t is a wall.
   */
  function Enter(s: LevelState, t: Coord): (o: Outcome)
    requires t in s.grid
    ensures StepFrame(s, o.state)
  {
    var c := s.grid[t];
    var o := if c == ExitOpen then WinCheck(s) else Outcome(s, false);
    if c != Wall then Outcome(o.state.(playerPosition := t), o.won) else o
  }

  /** Picking up what lies on t, given that t held c: a collectible, then a key. */
  function PickUp(s: LevelState, t: Coord, c: Cell): (o: Outcome)
    requires t in s.grid
    ensures StepFrame(s, o.state)
  {
    var o3 := if c == Collectible then CollectedCollectible(s, t) else Outcome(s, false);
    var o4 := if c == Key then CollectedKey(o3.state, t) else Outcome(o3.state, false);
    Outcome(o4.state, o3.won || o4.won)
  }

  /** The hazards, given that the target held c: a trap cell, then enemy contact. */
  function Hazards(s: LevelState, c: Cell): (r: LevelState)
    ensures StepFrame(s, r)
    ensures r.(playerPosition := s.playerPosition, deaths := s.deaths) == s
  {
    EnemyContact(if c == Trap then Trapped(s) else s)
  }

  /**
   * The effects of stepping towards live cell t, in the source's order: a
   * locked exit stops everything; otherwise enter (a wall keeps the player in
   * place), pick up, then trap cell and enemy contact.
   */
  function Interacted(s: LevelState, t: Coord): (o: Outcome)
    requires t in s.grid
    ensures StepFrame(s, o.state)
  {
    var c := s.grid[t];
    if c == Exit && s.keys != s.keyCount then Outcome(s, false)
    else
      var e := Enter(s, t);
      var p := PickUp(e.state, t, c);
      Outcome(Hazards(p.state, c), e.won || p.won)
  }

  /** The cell a step by (dx, dy) aims at. */
  function Target(s: LevelState, dx: int, dy: int): Coord {
    Coord(s.playerPosition.x + dx, s.playerPosition.y + dy)
  }

  /**
   * A step that changes nothing: off the board, onto a cell that was never
   * built (a missing maze row), or onto a locked exit.
   */
  predicate Blocked(s: LevelState, dx: int, dy: int) {
    var t := Target(s, dx, dy);
    !InBounds(t) || t !in s.grid || (s.grid[t] == Exit && s.keys != s.keyCount)
  }

  /** The player's step: bounds check, the interactions, then a final win check. */
  function Moved(s: LevelState, dx: int, dy: int): (o: Outcome)
    ensures StepFrame(s, o.state)
  {
    var t := Target(s, dx, dy);
    if InBounds(t) && t in s.grid then
      var o := Interacted(s, t);
      var w := WinCheck(o.state);
      Outcome(w.state, o.won || w.won)
    else
      Outcome(s, false)
  }

  /** Each enemy advanced by one tick. */
  function AdvancedAll(es: seq<Enemy>): (r: seq<Enemy>)
    requires forall e :: e in es ==> Wellformed(e)
    ensures |r| == |es|
    ensures forall i :: 0 <= i < |es| ==> r[i] == Advance(es[i])
    ensures forall i :: 0 <= i < |es| ==> r[i].path == es[i].path
    ensures forall e :: e in r ==> Wellformed(e)
  {
    seq(|es|, i requires 0 <= i < |es| => Advance(es[i]))
  }

  /**
   * The enemy tick: nothing while the game is inactive; otherwise every enemy
   * advances and, in list order, one landing on the player traps the player.
   */
  function Ticked(s: LevelState): (r: LevelState)
    requires forall e :: e in s.enemies ==> Wellformed(e)
    ensures r.(enemies := s.enemies, playerPosition := s.playerPosition, deaths := s.deaths) == s
    ensures |r.enemies| == |s.enemies| && r.deaths >= s.deaths
  {
    if !s.isGameActive then s
    else
      var es := AdvancedAll(s.enemies);
      var c := Sweep(Positions(es), s.playerPosition, s.playerStart);
      s.(enemies := es, playerPosition := c.player, deaths := s.deaths + c.traps)
  }

  // ----- Properties of a step -----

  /** A blocked step changes nothing and wins nothing. */
  lemma MoveBlockedIsNoOp(s: LevelState, dx: int, dy: int)
    requires Blocked(s, dx, dy)
    ensures Moved(s, dx, dy) == Outcome(s, false)
  {
  }

  /** An enemy contact sweep keeps the board, counters and enemies, and leaves the player at start after any trap. */
  lemma ContactProperties(s: LevelState)
    requires LevelValid(s)
    ensures var r := EnemyContact(s);
      LevelValid(r) && r.(playerPosition := s.playerPosition, deaths := s.deaths) == s
      && s.deaths <= r.deaths <= s.deaths + |s.enemies|
      && (r.deaths == s.deaths ==> r.playerPosition == s.playerPosition)
      && (r.deaths > s.deaths ==> r.playerPosition == s.playerStart)
      && (r.deaths > s.deaths <==> s.playerPosition in Positions(s.enemies))
  {
    SweepOutcome(Positions(s.enemies), s.playerPosition, s.playerStart);
  }

  /** A win check keeps the state valid and the counts conserved; open exits stay open. */
  lemma WinCheckProperties(s: LevelState)
    requires LevelValid(s)
    ensures LevelValid(WinCheck(s).state)
    ensures Conserved(s) ==> Conserved(WinCheck(s).state)
    ensures forall p :: p in s.grid && s.grid[p] == ExitOpen ==> WinCheck(s).state.grid[p] == ExitOpen
  {
  }

  /** Entering a cell changes only the player's position (and the timer on a win): an open exit is already open. */
  lemma EnterProperties(s: LevelState, t: Coord)
    requires LevelValid(s) && t in s.grid
    ensures var r := Enter(s, t).state;
      && LevelValid(r)
      && r.(playerPosition := s.playerPosition, isTimerRunning := s.isTimerRunning) == s
      && r.playerPosition == (if s.grid[t] == Wall then s.playerPosition else t)
  {
    if s.grid[t] == ExitOpen {
      assert t == s.exitPosition;
      assert OpenExit(s.grid, s.exitPosition) == s.grid;
    }
  }

  /** Facts shared by both pick-ups, about the state before the win check. */
  ghost predicate PickedUp(s: LevelState, t: Coord, r: LevelState) {
    && LevelValid(r)
    && r.grid.Keys == s.grid.Keys && t in r.grid && r.grid[t] == Empty
    && (forall p :: p in s.grid && p != t && s.grid[p] != Exit ==> r.grid[p] == s.grid[p])
    && (forall p :: p in s.grid && s.grid[p] == ExitOpen ==> r.grid[p] == ExitOpen)
    && r.playerPosition == s.playerPosition && r.playerStart == s.playerStart
    && r.exitPosition == s.exitPosition && r.keyCount == s.keyCount
    && r.collectibleCount == s.collectibleCount
    && r.deaths == s.deaths && r.enemies == s.enemies && r.isGameActive == s.isGameActive
  }

  /**
   * Emptying live cell t (neither exit) and then running the win check, with
   * only the pick-up counters otherwise changed, gives the shared pick-up facts.
   */
  lemma EmptiedThenChecked(s: LevelState, t: Coord, s1: LevelState)
    requires LevelValid(s) && t in s.grid && s.grid[t] != Exit && s.grid[t] != ExitOpen
    requires s1 == s.(grid := s.grid[t := Empty], keys := s1.keys, collectibles := s1.collectibles,
                      collectiblesCollected := s1.collectiblesCollected)
    ensures PickedUp(s, t, WinCheck(s1).state)
  {
    WinCheckProperties(s1);
  }

  /** Picking up a collectible moves it off the board into both collectible counters. */
  lemma CollectibleProperties(s: LevelState, t: Coord)
    requires LevelValid(s) && t in s.grid && s.grid[t] == Collectible
    ensures var r := CollectedCollectible(s, t).state;
      && PickedUp(s, t, r)
      && (Conserved(s) ==> Conserved(r))
      && r.keys == s.keys && r.collectibles == s.collectibles + 1
      && r.collectiblesCollected == s.collectiblesCollected + 1
  {
    KindCellsUpdate(s.grid, t, Empty, Key);
    KindCellsUpdate(s.grid, t, Empty, Collectible);
    var s1 := s.(grid := s.grid[t := Empty], collectibles := s.collectibles + 1,
                 collectiblesCollected := s.collectiblesCollected + 1);
    EmptiedThenChecked(s, t, s1);
  }

  /** Picking up a key moves it off the board into the key counter. */
  lemma KeyProperties(s: LevelState, t: Coord)
    requires LevelValid(s) && t in s.grid && s.grid[t] == Key
    ensures var r := CollectedKey(s, t).state;
      && PickedUp(s, t, r)
      && (Conserved(s) ==> Conserved(r))
      && r.keys == s.keys + 1 && r.collectibles == s.collectibles
      && r.collectiblesCollected == s.collectiblesCollected
  {
    KindCellsUpdate(s.grid, t, Empty, Key);
    KindCellsUpdate(s.grid, t, Empty, Collectible);
    var s1 := s.(grid := s.grid[t := Empty], keys := s.keys + 1);
    EmptiedThenChecked(s, t, s1);
  }

  /**
   * Picking up moves a collectible or key off the board into its counter,
   * exactly one, and keeps the state valid and conserved; on any other cell it
   * does nothing.
   */
  lemma PickUpProperties(s: LevelState, t: Coord, c: Cell)
    requires LevelValid(s) && t in s.grid && s.grid[t] == c
    ensures var r := PickUp(s, t, c).state;
      && LevelValid(r)
      && (Conserved(s) ==> Conserved(r))
      && r.keys == s.keys + (if c == Key then 1 else 0)
      && r.collectibles == s.collectibles + (if c == Collectible then 1 else 0)
      && r.collectiblesCollected == s.collectiblesCollected + (if c == Collectible then 1 else 0)
      && (c == Key || c == Collectible ==> PickedUp(s, t, r))
      && (c != Key && c != Collectible ==> r == s)
  {
    if c == Collectible {
      CollectibleProperties(s, t);
    } else if c == Key {
      KeyProperties(s, t);
    }
  }

  /** The hazards keep the board and counters; after any trap the player is on the start cell. */
  lemma HazardProperties(s: LevelState, c: Cell)
    requires LevelValid(s)
    ensures var r := Hazards(s, c);
      && LevelValid(r)
      && r.(playerPosition := s.playerPosition, deaths := s.deaths) == s
      && s.deaths <= r.deaths <= s.deaths + 1 + |s.enemies|
      && (r.deaths > s.deaths ==> r.playerPosition == s.playerStart)
      && (r.deaths == s.deaths ==> r.playerPosition == s.playerPosition)
      && (c == Trap ==> r.deaths > s.deaths)
      && (c != Trap ==> (r.deaths > s.deaths <==> s.playerPosition in Positions(s.enemies)))
      && (c == Trap ==> (r.deaths > s.deaths + 1 <==> s.playerStart in Positions(s.enemies)))
      && (s.playerPosition in Positions(s.enemies) ==> r.deaths > s.deaths)
  {
    ContactProperties(if c == Trap then Trapped(s) else s);
  }

  /** A step onto a live cell of the board is the interactions followed by the final win check. */
  lemma MovedOnGrid(s: LevelState, dx: int, dy: int)
    requires InBounds(Target(s, dx, dy)) && Target(s, dx, dy) in s.grid
    ensures var o := Interacted(s, Target(s, dx, dy)); var w := WinCheck(o.state);
      Moved(s, dx, dy) == Outcome(w.state, o.won || w.won)
  {
  }

  /** A step off the board, or onto a cell that was never built, changes nothing. */
  lemma MovedOffGrid(s: LevelState, dx: int, dy: int)
    requires !InBounds(Target(s, dx, dy)) || Target(s, dx, dy) !in s.grid
    ensures Moved(s, dx, dy) == Outcome(s, false)
  {
  }

  /** A step that is not blocked is its stages in order: enter, pick up, hazards, then the final win check. */
  lemma MoveStages(s: LevelState, dx: int, dy: int)
    requires !Blocked(s, dx, dy)
    ensures var t := Target(s, dx, dy); var c := s.grid[t];
      var e := Enter(s, t); var p := PickUp(e.state, t, c); var w := WinCheck(Hazards(p.state, c));
      Moved(s, dx, dy) == Outcome(w.state, e.won || p.won || w.won)
  {
  }

  /**
   * A step keeps the state valid and conserves keys and collectibles: a key
   * or collectible picked up leaves the board as its counter rises by one.
   */
  lemma MoveConserves(s: LevelState, dx: int, dy: int)
    requires LevelValid(s)
    ensures LevelValid(Moved(s, dx, dy).state)
    ensures Conserved(s) ==> Conserved(Moved(s, dx, dy).state)
  {
    if Blocked(s, dx, dy) {
      MoveBlockedIsNoOp(s, dx, dy);
    } else {
      var t := Target(s, dx, dy);
      var c := s.grid[t];
      MoveStages(s, dx, dy);
      var e := Enter(s, t).state;
      EnterProperties(s, t);
      assert LevelValid(e) && (Conserved(s) ==> Conserved(e)) by {
        assert e.grid == s.grid && e.keys == s.keys && e.keyCount == s.keyCount;
        assert e.collectibles == s.collectibles && e.collectibleCount == s.collectibleCount;
      }
      var p := PickUp(e, t, c).state;
      PickUpProperties(e, t, c);
      var h := Hazards(p, c);
      HazardProperties(p, c);
      assert LevelValid(h) && (Conserved(p) ==> Conserved(h)) by {
        assert h.grid == p.grid && h.keys == p.keys && h.keyCount == p.keyCount;
        assert h.collectibles == p.collectibles && h.collectibleCount == p.collectibleCount;
      }
      WinCheckProperties(h);
      assert Moved(s, dx, dy).state == WinCheck(h).state;
    }
  }

  /**
   * Whatever traps the player during a step (the trap cell or an enemy), the
   * step ends with the player on the start cell; a step raises deaths by at
   * most one plus the number of enemies, and stepping onto a trap always kills.
   */
  lemma MoveTrapEndsAtStart(s: LevelState, dx: int, dy: int)
    requires LevelValid(s)
    ensures var r := Moved(s, dx, dy).state;
      && s.deaths <= r.deaths <= s.deaths + 1 + |s.enemies|
      && (r.deaths > s.deaths ==> r.playerPosition == s.playerStart)
      && (!Blocked(s, dx, dy) && s.grid[Target(s, dx, dy)] == Trap ==> r.deaths > s.deaths)
      && ((!Blocked(s, dx, dy) && s.grid[Target(s, dx, dy)] != Wall
           && Target(s, dx, dy) in Positions(s.enemies)) ==> r.deaths > s.deaths)
      && ((!Blocked(s, dx, dy) && s.grid[Target(s, dx, dy)] == Wall
           && s.playerPosition in Positions(s.enemies)) ==> r.deaths > s.deaths)
  {
    var t := Target(s, dx, dy);
    if InBounds(t) && t in s.grid && !(s.grid[t] == Exit && s.keys != s.keyCount) {
      var c := s.grid[t];
      MoveStages(s, dx, dy);
      var e := Enter(s, t);
      EnterProperties(s, t);
      var p := PickUp(e.state, t, c);
      PickUpProperties(e.state, t, c);
      HazardProperties(p.state, c);
    }
  }

  /**
   * What a step that is not blocked does to the target cell and the counters:
   * a collectible or key becomes empty and raises its counter by exactly one;
   * any other cell leaves both counters as they were.
   */
  lemma MoveCollects(s: LevelState, dx: int, dy: int)
    requires LevelValid(s) && !Blocked(s, dx, dy)
    ensures var t := Target(s, dx, dy); var c := s.grid[t]; var r := Moved(s, dx, dy).state;
      && r.keys == s.keys + (if c == Key then 1 else 0)
      && r.collectibles == s.collectibles + (if c == Collectible then 1 else 0)
      && r.collectiblesCollected == s.collectiblesCollected + (if c == Collectible then 1 else 0)
      && (c == Key || c == Collectible ==> r.grid[t] == Empty)
      && (forall p :: p in s.grid && p != t && s.grid[p] != Exit ==> r.grid[p] == s.grid[p])
  {
    var t := Target(s, dx, dy);
    var c := s.grid[t];
    MoveStages(s, dx, dy);
    var e := Enter(s, t);
    EnterProperties(s, t);
    var p := PickUp(e.state, t, c);
    PickUpProperties(e.state, t, c);
    HazardProperties(p.state, c);
  }

  /**
   * A step into a wall leaves the player where they stood unless an enemy
   * there traps them back to start, and collects nothing.
   */
  lemma MoveIntoWall(s: LevelState, dx: int, dy: int)
    requires LevelValid(s) && !Blocked(s, dx, dy) && s.grid[Target(s, dx, dy)] == Wall
    ensures var r := Moved(s, dx, dy).state;
      && (r.playerPosition == s.playerPosition || r.playerPosition == s.playerStart)
      && r.keys == s.keys && r.collectibles == s.collectibles
      && r.collectiblesCollected == s.collectiblesCollected
      && r.grid == (if s.keys == s.keyCount then OpenExit(s.grid, s.exitPosition) else s.grid)
  {
    MoveStages(s, dx, dy);
    HazardProperties(s, Wall);
  }

  /**
   * After a step that is not blocked, a level with every key collected has an
   * open exit, and an exit that was open stays open.
   */
  lemma MoveOpensExit(s: LevelState, dx: int, dy: int)
    requires LevelValid(s) && !Blocked(s, dx, dy)
    ensures var r := Moved(s, dx, dy).state;
      && (r.keys == r.keyCount && r.exitPosition in r.grid ==> r.grid[r.exitPosition] != Exit)
      && (forall p :: p in s.grid && s.grid[p] == ExitOpen ==> p in r.grid && r.grid[p] == ExitOpen)
  {
    var t := Target(s, dx, dy);
    var c := s.grid[t];
    MoveStages(s, dx, dy);
    var e := Enter(s, t);
    EnterProperties(s, t);
    var p := PickUp(e.state, t, c);
    PickUpProperties(e.state, t, c);
    HazardProperties(p.state, c);
  }

  /** The win check before entering an open exit wins only with every key in and the target the exit. */
  lemma EnterWon(s: LevelState, t: Coord)
    requires LevelValid(s) && t in s.grid && Enter(s, t).won
    ensures s.keys == s.keyCount && t == s.exitPosition
  {
  }

  /** A pick-up wins only with every key in and the player on the exit. */
  lemma PickUpWon(s: LevelState, t: Coord, c: Cell)
    requires t in s.grid && PickUp(s, t, c).won
    ensures var r := PickUp(s, t, c).state; r.keys == r.keyCount && r.playerPosition == r.exitPosition
  {
  }

  /**
   * When a step raises the level-complete screen, every key has been collected
   * (none is left on the board) and the player reached the exit during the step.
   */
  lemma MoveWinMeansAllKeys(s: LevelState, dx: int, dy: int)
    requires LevelValid(s) && Conserved(s) && Moved(s, dx, dy).won
    ensures var r := Moved(s, dx, dy).state;
      r.keys == r.keyCount && KindCells(r.grid, Key) == {}
      && (r.playerPosition == r.exitPosition || Target(s, dx, dy) == r.exitPosition)
  {
    MoveConserves(s, dx, dy);
    var t := Target(s, dx, dy);
    var c := s.grid[t];
    MoveStages(s, dx, dy);
    var e := Enter(s, t);
    EnterProperties(s, t);
    var p := PickUp(e.state, t, c);
    PickUpProperties(e.state, t, c);
    var h := Hazards(p.state, c);
    var r := Moved(s, dx, dy).state;
    assert r == WinCheck(h).state;
    // Keys only grow during a step, and conservation caps them at the level's total.
    assert s.keys <= e.state.keys <= p.state.keys == h.keys == r.keys <= r.keyCount == s.keyCount;
    if e.won {
      EnterWon(s, t);
    } else if p.won {
      PickUpWon(e.state, t, c);
      assert p.state.playerPosition == e.state.playerPosition == t;
    } else {
      assert LevelWon(h);
    }
    assert |KindCells(r.grid, Key)| == 0;
  }

  // ----- Properties of the enemy tick -----

  /** A tick while the game is inactive changes nothing. */
  lemma TickInactiveIsNoOp(s: LevelState)
    requires LevelValid(s) && !s.isGameActive
    ensures Ticked(s) == s
  {
  }

  /**
   * A tick keeps every enemy on its path (index in range, standing on
   * path[index]), leaves the board and counters alone, and after any trap
   * leaves the player on the start cell.
   */
  lemma TickProperties(s: LevelState)
    requires LevelValid(s)
    ensures var r := Ticked(s);
      && LevelValid(r)
      && (Conserved(s) ==> Conserved(r))
      && r.grid == s.grid && r.keys == s.keys && r.collectibles == s.collectibles
      && |r.enemies| == |s.enemies|
      && r.deaths >= s.deaths
      && (r.deaths > s.deaths ==> r.playerPosition == s.playerStart)
      && (r.deaths == s.deaths ==> r.playerPosition == s.playerPosition)
      && (s.isGameActive ==> (r.deaths > s.deaths <==> s.playerPosition in Positions(AdvancedAll(s.enemies))))
  {
    if s.isGameActive {
      var es := AdvancedAll(s.enemies);
      SweepOutcome(Positions(es), s.playerPosition, s.playerStart);
      assert forall e :: e in es ==> Wellformed(e);
    }
  }
}
