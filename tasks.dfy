/**
 * Tasks (authored levels) and the selection of the next one: the filter of
 * playable, not yet completed tasks and the in-place Fisher–Yates shuffle.
 */
module Tasks {
  import opened Wrappers
  import opened Grid
  import opened Enemies

  /**
   * An authored level. `maze` is None when the task's maze is not an array;
   * an empty `id` is the source's falsy id. Help text and difficulty only
   * feed the screen and are not kept.
   */
  datatype Task = Task(id: string, maze: Option<seq<Row>>, enemies: seq<EnemyDef>)

  /** Every authored enemy of the task has a non-empty path. */
  predicate EnemiesDefined(t: Task) {
    forall d :: d in t.enemies ==> |d.path| > 0
  }

  /**
   * A task list entry can be picked: it is not null, has an id and a
   * non-empty maze array, and its id has not been completed.
   */
  predicate Selectable(t: Option<Task>, completed: set<string>) {
    t.Some? && t.value.id != "" && t.value.maze.Some? && |t.value.maze.value| > 0
    && t.value.id !in completed
  }

  /** Level setup goes ahead only for a task that exists and whose maze is an array (possibly empty). */
  predicate HasMaze(t: Option<Task>) {
    t.Some? && t.value.maze.Some?
  }

  /** The task list filtered down to the selectable tasks, in list order. */
  function Available(tasks: seq<Option<Task>>, completed: set<string>): (r: seq<Task>)
    ensures forall t :: t in r <==> Some(t) in tasks && Selectable(Some(t), completed)
    ensures |r| <= |tasks|
  {
    if tasks == [] then []
    else
      var rest := Available(tasks[1..], completed);
      assert forall t :: Some(t) in tasks <==> Some(t) == tasks[0] || Some(t) in tasks[1..];
      if Selectable(tasks[0], completed) then [tasks[0].value] + rest else rest
  }

  /** Exchange the entries at i and j. */
  function Swap<T>(s: seq<T>, i: nat, j: nat): seq<T>
    requires i < |s| && j < |s|
  {
    s[i := s[j]][j := s[i]]
  }

  /** The random source's answers: for each i, an index j with 0 <= j <= i. */
  ghost predicate ValidChoice(choose: nat -> nat) {
    forall i: nat :: choose(i) <= i
  }

  /** The swaps at i, i - 1, ..., 1 of the Fisher–Yates loop, with j = choose(i). */
  function Swept<T>(s: seq<T>, i: nat, choose: nat -> nat): (r: seq<T>)
    requires i < |s| && ValidChoice(choose)
    ensures |r| == |s|
    decreases i
  {
    if i == 0 then s else Swept(Swap(s, i, choose(i)), i - 1, choose)
  }

  /** The whole shuffle of s. */
  function Shuffled<T>(s: seq<T>, choose: nat -> nat): (r: seq<T>)
    requires ValidChoice(choose)
    ensures |r| == |s|
    ensures multiset(r) == multiset(s)
  {
    if |s| == 0 then s
    else
      SweptPermutes(s, |s| - 1, choose);
      Swept(s, |s| - 1, choose)
  }

  /** A swap only reorders. */
  lemma SwapPermutes<T>(s: seq<T>, i: nat, j: nat)
    requires i < |s| && j < |s|
    ensures multiset(Swap(s, i, j)) == multiset(s)
  {
    if i != j {
      assert multiset(s[i := s[j]]) == multiset(s) - multiset{s[i]} + multiset{s[j]};
    }
  }

  /** The swap loop only reorders: the shuffle is a permutation of its input. */
  lemma {:induction false} SweptPermutes<T>(s: seq<T>, i: nat, choose: nat -> nat)
    requires i < |s| && ValidChoice(choose)
    ensures multiset(Swept(s, i, choose)) == multiset(s)
    decreases i
  {
    if i > 0 {
      SwapPermutes(s, i, choose(i));
      SweptPermutes(Swap(s, i, choose(i)), i - 1, choose);
    }
  }

  /** Fisher–Yates in place: for i from the last index down to 1, swap a[i] with a[choose(i)]. */
  method Shuffle<T>(a: array<T>, choose: nat -> nat)
    requires ValidChoice(choose)
    modifies a
    ensures a[..] == Shuffled(old(a[..]), choose)
    ensures multiset(a[..]) == multiset(old(a[..]))
  {
    if a.Length == 0 {
      return;
    }
    var i := a.Length - 1;
    while i > 0
      invariant 0 <= i < a.Length
      invariant Swept(a[..], i, choose) == Shuffled(old(a[..]), choose)
      decreases i
    {
      var j := choose(i);
      ghost var before := a[..];
      a[i], a[j] := a[j], a[i];
      assert a[..] == Swap(before, i, j);
      i := i - 1;
    }
    SweptPermutes(old(a[..]), a.Length - 1, choose);
  }

  /** The ids that can still be picked. */
  function PoolIds(tasks: seq<Option<Task>>, completed: set<string>): set<string> {
    set i | 0 <= i < |tasks| && Selectable(tasks[i], completed) :: tasks[i].value.id
  }

  /**
   * Completing the id of a selectable task removes exactly that id from the
   * pool, so the pool shrinks by one with every pick and no id is picked
   * twice before the completed set is cleared.
   */
  lemma PickShrinksPool(tasks: seq<Option<Task>>, completed: set<string>, t: Task)
    requires Some(t) in tasks && Selectable(Some(t), completed)
    ensures PoolIds(tasks, completed + {t.id}) == PoolIds(tasks, completed) - {t.id}
    ensures |PoolIds(tasks, completed + {t.id})| == |PoolIds(tasks, completed)| - 1
  {
    var before, after := PoolIds(tasks, completed), PoolIds(tasks, completed + {t.id});
    var k :| 0 <= k < |tasks| && tasks[k] == Some(t);
    assert t.id in before;
    assert after == before - {t.id};
  }

  /** The pool is empty exactly when no task is available. */
  lemma PoolEmptyIffNoneAvailable(tasks: seq<Option<Task>>, completed: set<string>)
    ensures PoolIds(tasks, completed) == {} <==> Available(tasks, completed) == []
  {
    var r := Available(tasks, completed);
    if r != [] {
      var k :| 0 <= k < |tasks| && tasks[k] == Some(r[0]);
      assert r[0].id in PoolIds(tasks, completed);
    }
  }
}
