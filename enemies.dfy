/**
 * Patrolling enemies: their authored paths, the per-tick index update and the
 * collision sweep that sends the player back to the start.
 */
module Enemies {
  import opened Grid

  /** An authored enemy: the cells it walks back and forth along. */
  datatype EnemyDef = EnemyDef(path: seq<Coord>)

  /** A live enemy: where it stands, its index on the path and its direction. */
  datatype Enemy = Enemy(path: seq<Coord>, position: Coord, index: int, movingForward: bool)

  /** The index stays on the path and the enemy stands on the path cell it names. */
  predicate Wellformed(e: Enemy) {
    0 <= e.index < |e.path| && e.position == e.path[e.index]
  }

  /** Level setup places an enemy on the first cell of its path, heading forward. */
  function Spawn(d: EnemyDef): (e: Enemy)
    requires |d.path| > 0
    ensures Wellformed(e) && e.path == d.path
    ensures e.index == 0 && e.movingForward
  {
    Enemy(d.path, d.path[0], 0, true)
  }

  /** Level setup places every authored enemy, in order, on the first cell of its path. */
  function SpawnAll(ds: seq<EnemyDef>): (es: seq<Enemy>)
    requires forall d :: d in ds ==> |d.path| > 0
    ensures |es| == |ds|
    ensures forall i :: 0 <= i < |ds| ==>
      es[i].path == ds[i].path && es[i].position == ds[i].path[0]
      && es[i].index == 0 && es[i].movingForward
    ensures forall e :: e in es ==> Wellformed(e)
  {
    seq(|ds|, i requires 0 <= i < |ds| => Spawn(ds[i]))
  }

  /**
   * One tick: the index moves one step in the current direction and is then
   * clamped to the path, turning the enemy round when the clamp applies.
   */
  function Advance(e: Enemy): (r: Enemy)
    requires Wellformed(e)
    ensures Wellformed(r) && r.path == e.path
    ensures -1 <= r.index - e.index <= 1
  {
    var n := |e.path|;
    var (index, forward) :=
      if e.movingForward then
        (if e.index + 1 >= n then (n - 1, false) else (e.index + 1, true))
      else
        (if e.index - 1 < 0 then (0, true) else (e.index - 1, false));
    Enemy(e.path, e.path[index], index, forward)
  }

  /** Advance applied n times. */
  function AdvanceN(e: Enemy, n: nat): (r: Enemy)
    requires Wellformed(e)
    ensures Wellformed(r) && r.path == e.path
    decreases n
  {
    if n == 0 then e else AdvanceN(Advance(e), n - 1)
  }

  /**
   * The clamp keeps an enemy on an endpoint for a second tick: a forward move
   * from the last index and a backward move from index 0 stay put and turn round;
   * any other move changes the index by exactly one.
   */
  lemma EndpointDwell(e: Enemy)
    requires Wellformed(e)
    ensures e.movingForward && e.index == |e.path| - 1 ==>
      Advance(e).index == e.index && !Advance(e).movingForward
    ensures !e.movingForward && e.index == 0 ==>
      Advance(e).index == 0 && Advance(e).movingForward
    ensures e.movingForward && e.index < |e.path| - 1 ==>
      Advance(e).index == e.index + 1 && Advance(e).movingForward
    ensures !e.movingForward && e.index > 0 ==>
      Advance(e).index == e.index - 1 && !Advance(e).movingForward
  {
  }

  /** A path of three cells from a fresh spawn visits indices 1, 2, 2, 1, 0, 0, 1. */
  lemma ThreeCellPatrol(a: Coord, b: Coord, c: Coord)
    ensures var e0 := Spawn(EnemyDef([a, b, c]));
      var e1 := Advance(e0); var e2 := Advance(e1); var e3 := Advance(e2);
      var e4 := Advance(e3); var e5 := Advance(e4); var e6 := Advance(e5);
      var e7 := Advance(e6);
      [e1.index, e2.index, e3.index, e4.index, e5.index, e6.index, e7.index] == [1, 2, 2, 1, 0, 0, 1]
  {
  }

  /** The cells the enemies stand on, in list order. */
  function Positions(es: seq<Enemy>): seq<Coord> {
    seq(|es|, i requires 0 <= i < |es| => es[i].position)
  }

  /** Where the player ends up after a contact sweep, and how many traps it fired. */
  datatype Contact = Contact(player: Coord, traps: nat)

  /**
   * The enemies are checked in list order against the player's current
   * position; a hit sends the player to start, and later enemies are checked
   * against start.
   */
  function Sweep(ps: seq<Coord>, player: Coord, start: Coord): (r: Contact)
    ensures r.player == player || r.player == start
    decreases |ps|
  {
    if ps == [] then Contact(player, 0)
    else
      var r := Sweep(ps[..|ps| - 1], player, start);
      if ps[|ps| - 1] == r.player then Contact(start, r.traps + 1) else r
  }

  /**
   * A sweep traps the player exactly when some enemy stands on the player's
   * cell; without a trap the player stays, after one the player is at start.
   */
  lemma {:induction false} SweepOutcome(ps: seq<Coord>, player: Coord, start: Coord)
    ensures var r := Sweep(ps, player, start);
      (r.traps == 0 <==> player !in ps) &&
      (r.traps == 0 ==> r.player == player) &&
      (r.traps > 0 ==> r.player == start) &&
      r.traps <= |ps|
    decreases |ps|
  {
    if ps != [] {
      var q := ps[..|ps| - 1];
      SweepOutcome(q, player, start);
      assert ps == q + [ps[|ps| - 1]];
    }
  }
}
