/**
 * The board the canvas draws: a row-major snapshot of tile codes, the cells of
 * that snapshot, and what it means to walk from one cell to another.
 */
module Grid {
  /** One tile-state code of the snapshot (`tiles: string[][]`). */
  type Tile = string

  /** The blocking code: a cell holding it has no node in the search. */
  const Flag: Tile := "F"

  /** Grid coordinates: `x` is the column, `y` the row; "down" is y + 1. */
  datatype Cell = Cell(x: int, y: int)

  predicate InBounds(tiles: seq<seq<Tile>>, c: Cell) {
    0 <= c.y < |tiles| && 0 <= c.x < |tiles[c.y]|
  }

  /** A cell the pathfinder may step on: inside the snapshot and not flagged. */
  predicate Passable(tiles: seq<seq<Tile>>, c: Cell) {
    InBounds(tiles, c) && tiles[c.y][c.x] != Flag
  }

  /** The eight-neighbourhood: a different cell at most one column and one row away. */
  predicate Adjacent(a: Cell, b: Cell) {
    a != b && -1 <= b.x - a.x <= 1 && -1 <= b.y - a.y <= 1
  }

  /** A walk that starts at `s`, moves between adjacent cells, and steps only on passable cells. */
  ghost predicate IsWalk(tiles: seq<seq<Tile>>, w: seq<Cell>, s: Cell) {
    |w| > 0 && w[0] == s &&
    (forall i :: 1 <= i < |w| ==> Passable(tiles, w[i])) &&
    (forall i :: 0 <= i < |w| - 1 ==> Adjacent(w[i], w[i + 1]))
  }

  /** A walk from `s` that ends at `t`: what the pathfinder returns when it finds one. */
  ghost predicate IsRoute(tiles: seq<seq<Tile>>, w: seq<Cell>, s: Cell, t: Cell) {
    IsWalk(tiles, w, s) && w[|w| - 1] == t
  }

  function Distance1(a: int, b: int): nat {
    if a < b then b - a else a - b
  }

  /** The number of king moves between two cells: the larger of the column and row distances. */
  function KingDistance(a: Cell, b: Cell): nat {
    var dx := Distance1(a.x, b.x);
    var dy := Distance1(a.y, b.y);
    if dx < dy then dy else dx
  }

  /** A walk takes at least as many steps as the king distance it covers. */
  lemma {:induction false} WalkCoversDistance(tiles: seq<seq<Tile>>, w: seq<Cell>, s: Cell)
    requires IsWalk(tiles, w, s)
    ensures |w| - 1 >= KingDistance(s, w[|w| - 1])
    decreases |w|
  {
    if |w| > 1 {
      var init := w[..|w| - 1];
      assert IsWalk(tiles, init, s);
      WalkCoversDistance(tiles, init, s);
      assert Adjacent(init[|init| - 1], w[|w| - 1]);
    }
  }

  /** Number of cells of the snapshot (rows × columns for a rectangular board). */
  function CellCount(tiles: seq<seq<Tile>>): nat {
    if tiles == [] then 0 else CellCount(tiles[..|tiles| - 1]) + |tiles[|tiles| - 1]|
  }
}
