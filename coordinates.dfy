/**
 * The click transform of `handleClick`: pixel position to grid indices
 * (floor), grid indices to world coordinates (round), and the bounds-checked
 * lookup of the clicked tile. Exact reals stand for the source's doubles.
 */
module Coordinates {
  import opened Grid

  /** The content reported for a click outside the snapshot. */
  const OutOfBounds: Tile := "Out of bounds"

  /**
   * `tilePaddingWidth` / `tilePaddingHeight`: the view lags the cursor by
   * (paddingTiles − 1) / paddingTiles of its distance from the anchor.
   */
  function ViewOffset(paddingTiles: real, cursor: int, anchor: int): real
    requires paddingTiles != 0.0
  {
    ((paddingTiles - 1.0) * (cursor - anchor) as real) / paddingTiles
  }

  /**
   * With at least one padding tile, the offset points from the anchor
   * towards the cursor and stops short of it by 1 / paddingTiles of the
   * distance; it is zero when the cursor sits on the anchor.
   */
  lemma ViewOffsetLags(paddingTiles: real, cursor: int, anchor: int)
    requires paddingTiles >= 1.0
    ensures var d := (cursor - anchor) as real;
            var offset := ViewOffset(paddingTiles, cursor, anchor);
            offset == d - d / paddingTiles &&
            (d >= 0.0 ==> 0.0 <= offset <= d) && (d <= 0.0 ==> d <= offset <= 0.0)
  {
  }

  /** `Math.floor(click / tileSize + offset)`: the grid index of the clicked tile. */
  function TileIndex(click: real, tileSize: real, offset: real): (i: int)
    requires tileSize > 0.0
    ensures i as real <= click / tileSize + offset < i as real + 1.0
  {
    (click / tileSize + offset).Floor
  }

  /** `Math.round`: the nearest integer, halves rounded up. */
  function Round(v: real): (n: int)
    ensures n as real - 0.5 <= v < n as real + 0.5
  {
    (v + 0.5).Floor
  }

  /** `Math.round(tileArray + anchor)`: the world coordinate of a grid index. */
  function WorldIndex(tileArray: int, anchor: int): (w: int)
    ensures w == tileArray + anchor
  {
    Round((tileArray + anchor) as real)
  }

  /** A click anywhere inside tile column `k` of the canvas, with a whole offset, selects index k + offset. */
  lemma ClickInsideTile(click: real, tileSize: real, offset: int, k: int)
    requires tileSize > 0.0
    requires k as real * tileSize <= click < (k + 1) as real * tileSize
    ensures TileIndex(click, tileSize, offset as real) == k + offset
  {
    DivideMonotone(k as real * tileSize, click, tileSize);
    DivideStrictlyMonotone(click, (k + 1) as real * tileSize, tileSize);
    assert k as real * tileSize / tileSize == k as real;
    assert (k + 1) as real * tileSize / tileSize == (k + 1) as real;
    var i := TileIndex(click, tileSize, offset as real);
    assert (k + offset) as real <= click / tileSize + offset as real < (k + offset + 1) as real;
  }

  lemma DivideMonotone(a: real, b: real, t: real)
    requires t > 0.0 && a <= b
    ensures a / t <= b / t
  {
  }

  lemma DivideStrictlyMonotone(a: real, b: real, t: real)
    requires t > 0.0 && a < b
    ensures a / t < b / t
  {
  }

  /** `tiles[y]?.[x] ?? 'Out of bounds'`. */
  function ClickedContent(tiles: seq<seq<Tile>>, x: int, y: int): Tile {
    if 0 <= y < |tiles| && 0 <= x < |tiles[y]| then tiles[y][x] else OutOfBounds
  }

  /**
   * The reported content tells the pathfinder's view of the clicked cell:
   * outside the snapshot it is the sentinel, inside it is the tile, and the
   * cell is passable exactly when that tile is not the blocking code.
   */
  lemma ClickedContentMatchesGrid(tiles: seq<seq<Tile>>, x: int, y: int)
    ensures !InBounds(tiles, Cell(x, y)) ==> ClickedContent(tiles, x, y) == OutOfBounds && !Passable(tiles, Cell(x, y))
    ensures InBounds(tiles, Cell(x, y)) ==> ClickedContent(tiles, x, y) == tiles[y][x]
    ensures InBounds(tiles, Cell(x, y)) ==> (Passable(tiles, Cell(x, y)) <==> ClickedContent(tiles, x, y) != Flag)
  {
  }
}
