/** Keyboard and click input mapped to unit grid steps. */
module Input {
  import opened Wrappers
  import opened Grid

  datatype Step = Step(dx: int, dy: int)

  function Abs(n: int): nat {
    if n < 0 then -n else n
  }

  /** A single-cell orthogonal step. */
  predicate IsUnit(s: Step) {
    Abs(s.dx) + Abs(s.dy) == 1
  }

  function Apply(p: Coord, s: Step): Coord {
    Coord(p.x + s.dx, p.y + s.dy)
  }

  /** The keys the game reacts to: the arrow keys and w, a, s, d. */
  predicate IsMoveKey(key: string) {
    key in {"ArrowUp", "w", "ArrowDown", "s", "ArrowLeft", "a", "ArrowRight", "d"}
  }

  /** The step a key press asks for; y grows downwards, so up is dy = -1. */
  function KeyStep(key: string): (r: Option<Step>)
    ensures r.Some? <==> IsMoveKey(key)
    ensures r.Some? ==> IsUnit(r.value)
    ensures r.Some? ==> (r.value.dy == -1 <==> key in {"ArrowUp", "w"})
    ensures r.Some? ==> (r.value.dy == 1 <==> key in {"ArrowDown", "s"})
    ensures r.Some? ==> (r.value.dx == -1 <==> key in {"ArrowLeft", "a"})
    ensures r.Some? ==> (r.value.dx == 1 <==> key in {"ArrowRight", "d"})
  {
    if key == "ArrowUp" || key == "w" then Some(Step(0, -1))
    else if key == "ArrowDown" || key == "s" then Some(Step(0, 1))
    else if key == "ArrowLeft" || key == "a" then Some(Step(-1, 0))
    else if key == "ArrowRight" || key == "d" then Some(Step(1, 0))
    else None
  }

  /** A click asks for the step to the clicked cell, when that cell is a neighbour. */
  function ClickStep(player: Coord, target: Coord): (r: Option<Step>)
    ensures r.Some? <==> Abs(target.x - player.x) + Abs(target.y - player.y) == 1
    ensures r.Some? ==> IsUnit(r.value) && Apply(player, r.value) == target
  {
    var dx, dy := target.x - player.x, target.y - player.y;
    if Abs(dx) + Abs(dy) == 1 then Some(Step(dx, dy)) else None
  }

  /** Clicking the neighbour a key would move to asks for the same step as the key. */
  lemma ClickAgreesWithKey(player: Coord, key: string)
    requires IsMoveKey(key)
    ensures ClickStep(player, Apply(player, KeyStep(key).value)) == KeyStep(key)
  {
  }
}

/** Minutes and seconds shown for an elapsed time in integer milliseconds. */
module Clock {
  import opened Wrappers

  const MsPerMinute: int := 60000

  /** JavaScript's `elapsed % 60000`: the remainder takes the sign of the dividend. */
  function JsRemMinute(elapsed: int): (r: int)
    ensures elapsed >= 0 ==> 0 <= r < MsPerMinute
    ensures elapsed < 0 ==> -MsPerMinute < r <= 0
    ensures (elapsed - r) % MsPerMinute == 0
  {
    if elapsed >= 0 then elapsed % MsPerMinute else -((-elapsed) % MsPerMinute)
  }

  /** Math.floor(elapsed / 60000). */
  function Minutes(elapsed: int): (m: int)
    ensures m * 60000 <= elapsed < (m + 1) * 60000
  {
    elapsed / 60000
  }

  /** Math.floor((elapsed % 60000) / 1000). */
  function Seconds(elapsed: int): (s: int)
    ensures elapsed >= 0 ==> 0 <= s < 60
    ensures elapsed < 0 ==> -60 <= s <= 0
    ensures s * 1000 <= JsRemMinute(elapsed) < (s + 1) * 1000
  {
    JsRemMinute(elapsed) / 1000
  }

  /** For a non-negative elapsed time, minutes and seconds give it back to the millisecond. */
  lemma ClockRoundTrip(elapsed: int)
    requires elapsed >= 0
    ensures Minutes(elapsed) * 60000 + Seconds(elapsed) * 1000 + elapsed % 1000 == elapsed
  {
    var r := elapsed % 60000;
    assert elapsed == (elapsed / 60000) * 60000 + r;
    assert r == (r / 1000) * 1000 + r % 1000;
    assert r % 1000 == elapsed % 1000 by {
      assert elapsed == (elapsed / 60000) * 60 * 1000 + (r / 1000) * 1000 + r % 1000;
    }
  }

  /** Time since the start mark; a start time never set counts as 0, as `Date.now() - null` does. */
  function Elapsed(now: int, startTime: Option<int>): int {
    now - (if startTime.Some? then startTime.value else 0)
  }

  /**
   * The running clock's reading: nothing while there is no start mark (a
   * start time of 0 counts as none) or the timer is stopped.
   */
  function TimerReading(now: int, startTime: Option<int>, running: bool): (r: Option<(int, int)>)
    ensures r.Some? <==> startTime.Some? && startTime.value != 0 && running
    ensures r.Some? ==> r.value.0 * 60000 <= now - startTime.value < (r.value.0 + 1) * 60000
    ensures r.Some? ==> r.value.1 == Seconds(now - startTime.value)
  {
    if startTime.None? || startTime.value == 0 || !running then None
    else
      var e := Elapsed(now, startTime);
      Some((Minutes(e), Seconds(e)))
  }
}
