/** Optional values, for the source's `null` results. */
module Wrappers {
  datatype Option<+T> = None | Some(value: T)
}

/**
 * The 10×10 maze: coordinates, the authored tiles of a task's maze, and the
 * live cells the game keeps while a level is played.
 */
module Grid {
  import opened Wrappers

  const MazeSize: int := 10

  datatype Coord = Coord(x: int, y: int)

  predicate InBounds(p: Coord) {
    0 <= p.x < MazeSize && 0 <= p.y < MazeSize
  }

  /** What a live cell holds (the content class the source keeps on the cell). */
  datatype Cell = Empty | Wall | Collectible | Key | Trap | Exit | ExitOpen

  /** One authored entry of a maze row ("wall", "player", ...; anything else is OtherTile). */
  datatype Tile = WallTile | PlayerTile | CollectibleTile | KeyTile | TrapTile | ExitTile | EnemyTile | OtherTile

  /** An authored row; Missing stands for a row that is null, undefined or absent. */
  datatype Row = Missing | Present(tiles: seq<Tile>)

  predicate RowPresent(maze: seq<Row>, y: int) {
    0 <= y < |maze| && maze[y].Present?
  }

  /** The authored entry at p; an entry past the end of a row reads as OtherTile. */
  function TileAt(maze: seq<Row>, p: Coord): Tile {
    if RowPresent(maze, p.y) && 0 <= p.x < |maze[p.y].tiles| then maze[p.y].tiles[p.x] else OtherTile
  }

  /** The live content a tile produces; the player start and enemy markers leave an empty cell. */
  function CellOf(t: Tile): (c: Cell)
    ensures c != ExitOpen
    ensures c == Key <==> t == KeyTile
    ensures c == Collectible <==> t == CollectibleTile
    ensures c == Exit <==> t == ExitTile
  {
    match t
    case WallTile => Wall
    case PlayerTile => Empty
    case CollectibleTile => Collectible
    case KeyTile => Key
    case TrapTile => Trap
    case ExitTile => Exit
    case EnemyTile => Empty
    case OtherTile => Empty
  }

  /** A tile yields a wall or a trap cell exactly when it is that tile. */
  lemma CellOfWallTrap(t: Tile)
    ensures CellOf(t) == Wall <==> t == WallTile
    ensures CellOf(t) == Trap <==> t == TrapTile
  {
  }

  /** The live cells holding kind k. */
  function KindCells(g: map<Coord, Cell>, k: Cell): set<Coord> {
    set p | p in g && g[p] == k
  }

  /** Writing v at p changes the number of k-cells by what leaves and what arrives. */
  lemma KindCellsUpdate(g: map<Coord, Cell>, p: Coord, v: Cell, k: Cell)
    ensures |KindCells(g[p := v], k)|
      == |KindCells(g, k)| - (if p in g && g[p] == k then 1 else 0) + (if v == k then 1 else 0)
  {
    var before, after := KindCells(g, k), KindCells(g[p := v], k);
    var rest := before - {p};
    assert after == if v == k then rest + {p} else rest;
    if p in g && g[p] == k {
      assert before == rest + {p};
    } else {
      assert before == rest;
    }
  }

  /** p lies before (r, c) in row-major order. */
  predicate Before(p: Coord, r: int, c: int) {
    p.y < r || (p.y == r && p.x < c)
  }

  /** Tile t is authored at p, in a row that is present. */
  predicate HasTile(maze: seq<Row>, t: Tile, p: Coord) {
    InBounds(p) && RowPresent(maze, p.y) && TileAt(maze, p) == t
  }

  /** The row-major last cell before (r, c) authored with t: a reference definition by recursion. */
  function LastTile(maze: seq<Row>, t: Tile, r: nat, c: nat): Option<Coord>
    requires c <= MazeSize
    decreases r, c
  {
    if c == 0 then (if r == 0 then None else LastTile(maze, t, r - 1, MazeSize))
    else if RowPresent(maze, r) && TileAt(maze, Coord(c - 1, r)) == t then Some(Coord(c - 1, r))
    else LastTile(maze, t, r, c - 1)
  }

  /** q is the last cell authored with t, in row-major order. */
  ghost predicate IsLastTile(maze: seq<Row>, t: Tile, q: Coord) {
    HasTile(maze, t, q) && forall p :: HasTile(maze, t, p) ==> p == q || Before(p, q.y, q.x)
  }

  /** LastTile finds the last authored t before (r, c), and nothing when there is none. */
  lemma {:induction false} LastTileIsLast(maze: seq<Row>, t: Tile, r: nat, c: nat)
    requires c <= MazeSize && (r < MazeSize || (r == MazeSize && c == 0))
    ensures LastTile(maze, t, r, c).None? <==> forall p :: HasTile(maze, t, p) ==> !Before(p, r, c)
    ensures LastTile(maze, t, r, c).Some? ==>
      var q := LastTile(maze, t, r, c).value;
      HasTile(maze, t, q) && Before(q, r, c) &&
      forall p :: HasTile(maze, t, p) && Before(p, r, c) ==> p == q || Before(p, q.y, q.x)
    decreases r, c
  {
    if c == 0 {
      if r > 0 {
        LastTileIsLast(maze, t, r - 1, MazeSize);
      }
    } else if RowPresent(maze, r) && TileAt(maze, Coord(c - 1, r)) == t {
      assert HasTile(maze, t, Coord(c - 1, r));
    } else {
      LastTileIsLast(maze, t, r, c - 1);
      assert forall p :: HasTile(maze, t, p) && Before(p, r, c) ==> Before(p, r, c - 1);
    }
  }

  /** A missing row contributes nothing to the search. */
  lemma {:induction false} LastTileSkipsMissingRow(maze: seq<Row>, t: Tile, r: nat, c: nat)
    requires c <= MazeSize && !RowPresent(maze, r)
    ensures LastTile(maze, t, r, c) == LastTile(maze, t, r, 0)
  {
    if c > 0 {
      LastTileSkipsMissingRow(maze, t, r, c - 1);
    }
  }
}
