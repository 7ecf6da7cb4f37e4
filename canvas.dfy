/**
 * The state `CanvasRenderer` keeps between events: the `movementInterval`
 * ref, the closure variables of the running interval (`paths`, `index`,
 * `currentPath`), and what the component hands to its stores. An interval
 * tick, which the runtime fires every 500 ms, is one call of Tick; the
 * cursor store's `goup`/`godown`/`goleft`/`goright` act on a ghost cursor.
 */
module Canvas {
  import opened Wrappers
  import opened Grid
  import opened Moves
  import Pathfinder
  import Coordinates

  /** What `setPosition` received: the world coordinates of the click and the clicked content. */
  datatype ClickRecord = ClickRecord(x: int, y: int, content: Tile)

  function Min(a: int, b: int): int {
    if a < b then a else b
  }

  /** The grid cell a click selects: `tileArrayX` and `tileArrayY` of `handleClick`. */
  function ClickedCell(clickX: real, clickY: real, tileSize: real, paddingTiles: real,
                       cursorX: int, cursorY: int, startPoint: Cell): Cell
    requires tileSize > 0.0 && paddingTiles != 0.0
  {
    Cell(Coordinates.TileIndex(clickX, tileSize, Coordinates.ViewOffset(paddingTiles, cursorX, startPoint.x)),
         Coordinates.TileIndex(clickY, tileSize, Coordinates.ViewOffset(paddingTiles, cursorY, startPoint.y)))
  }

  /**
   * The interval plays `paths` back: `currentPath` is the last element it
   * reached, it has issued the moves of the steps up to there, and the cursor
   * has followed them from `origin`. An armed interval over two or more
   * elements has not yet reached the end.
   */
  ghost predicate Playing(paths: seq<Cell>, index: int, currentPath: Option<Cell>, armed: bool,
                          issued: seq<Move>, cursor: Cell, origin: Cell) {
    (armed ==> |paths| > 0) &&
    1 <= index &&
    (|paths| > 0 ==> currentPath == Some(paths[Min(index, |paths|) - 1])) &&
    (armed && |paths| >= 2 ==> index < |paths|) &&
    issued == Playback(paths, Min(index, |paths|)) &&
    cursor == Apply(origin, issued)
  }

  /** One tick that finds a next element keeps the playback consistent. */
  lemma PlayingStep(paths: seq<Cell>, i: int, currentPath: Option<Cell>, issued: seq<Move>, cursor: Cell, origin: Cell)
    requires Playing(paths, i, currentPath, true, issued, cursor, origin) && i < |paths|
    ensures var moves := Decode(currentPath.value, paths[i]);
            Playing(paths, i + 1, Some(paths[i]), i + 1 < |paths|, issued + moves, Apply(cursor, moves), origin)
  {
    ApplyConcat(origin, issued, Decode(currentPath.value, paths[i]));
  }

  /**
   * Once the index has passed the last element, every step has been played:
   * the cursor has moved by the displacement from the first cell of the
   * route to its last.
   */
  lemma PlaybackFinished(paths: seq<Cell>, index: int, currentPath: Option<Cell>, armed: bool,
                         issued: seq<Move>, cursor: Cell, origin: Cell)
    requires Playing(paths, index, currentPath, armed, issued, cursor, origin)
    requires |paths| > 0 && index >= |paths| && Stepwise(paths)
    ensures issued == Playback(paths, |paths|) && currentPath == Some(paths[|paths| - 1])
    ensures cursor == Shift(origin, paths[0], paths[|paths| - 1])
  {
    PlaybackDisplacement(origin, paths, |paths|);
  }

  class Controller {
    /** `movementInterval.current`: the handle of the running interval, if any. */
    var movementInterval: Option<nat>
    /** The handle the next `setInterval` returns. */
    var nextHandle: nat
    /** The intervals armed and not yet cleared. */
    ghost var live: set<nat>

    /** The variables the running interval's closure captured. */
    var paths: seq<Cell>
    var index: int
    var currentPath: Option<Cell>

    /** The last values handed to `setMovecost` and `setPosition`. */
    var moveCost: int
    var clicked: Option<ClickRecord>

    /** The cursor store's position, where the moves of the current route started, and those moves. */
    ghost var cursor: Cell
    ghost var routeOrigin: Cell
    ghost var issued: seq<Move>

    /** The ref holds the only live interval, if there is one. */
    ghost predicate TimerValid()
      reads this
    {
      live == (if movementInterval.Some? then {movementInterval.value} else {}) &&
      (movementInterval.Some? ==> movementInterval.value < nextHandle)
    }

    /** The timer bookkeeping holds and the closure variables describe a consistent playback. */
    ghost predicate Valid()
      reads this
    {
      TimerValid() &&
      Playing(paths, index, currentPath, movementInterval.Some?, issued, cursor, routeOrigin)
    }

    constructor (ghost position: Cell)
      ensures Valid()
      ensures movementInterval == None && live == {} && cursor == position
    {
      movementInterval := None;
      nextHandle := 0;
      live := {};
      paths := [];
      index := 1;
      currentPath := None;
      moveCost := 0;
      clicked := None;
      cursor := position;
      routeOrigin := position;
      issued := [];
    }

    /**
     * `cancelCurrentMovement`: clear the running interval, if any. A second
     * call finds nothing to clear and changes nothing.
     */
    method Cancel()
      requires TimerValid()
      modifies this`movementInterval, this`live
      ensures TimerValid()
      ensures movementInterval == None && live == {}
      ensures old(movementInterval) == None ==> live == old(live)
    {
      if movementInterval.Some? {
        live := live - {movementInterval.value};  // clearInterval
        movementInterval := None;
      }
    }

    /** The cleanup of the mount effect, `return () => cancelCurrentMovement()`: no interval outlives the component. */
    method Unmount()
      requires Valid()
      modifies this`movementInterval, this`live
      ensures Valid() && movementInterval == None && live == {}
    {
      Cancel();
    }

    /**
     * The tail of `handleClick` after `cancelCurrentMovement`: `setMovecost`,
     * the `paths`, `index` and `currentPath` the interval captures, and the
     * `setInterval` call for a non-empty route.
     */
    method StartRoute(route: seq<Cell>)
      requires Valid() && movementInterval == None
      modifies this`moveCost, this`paths, this`index, this`currentPath,
               this`movementInterval, this`nextHandle, this`live, this`routeOrigin, this`issued
      ensures Valid()
      ensures moveCost == |route| - 1
      ensures paths == route && index == 1 && issued == [] && routeOrigin == cursor
      ensures movementInterval.Some? <==> route != []
      ensures live == if route != [] then {old(nextHandle)} else {}
      ensures nextHandle >= old(nextHandle)
    {
      moveCost := |route| - 1;
      paths := route;
      currentPath := if |route| > 0 then Some(route[0]) else None;
      index := 1;
      routeOrigin, issued := cursor, [];
      if currentPath == None {
        return;
      }
      movementInterval := Some(nextHandle);  // setInterval
      live := live + {nextHandle};
      nextHandle := nextHandle + 1;
    }

    /**
     * One firing of the `setInterval` callback of `handleClick`: take the next path element,
     * issue the moves from the previous one to it, and clear the interval
     * after the last element. Past the end of the path it only advances
     * `index`; a cleared interval does not fire.
     */
    method Tick()
      requires Valid()
      modifies this`index, this`currentPath, this`movementInterval, this`live, this`cursor, this`issued
      ensures Valid()
      ensures old(movementInterval) == None ==>
                index == old(index) && movementInterval == None && currentPath == old(currentPath) &&
                cursor == old(cursor) && issued == old(issued)
      ensures old(movementInterval).Some? ==> index == old(index) + 1
      ensures old(movementInterval).Some? && old(index) < |paths| ==>
                currentPath == Some(paths[old(index)]) &&
                issued == old(issued) + Decode(old(currentPath).value, paths[old(index)]) &&
                cursor == Apply(old(cursor), Decode(old(currentPath).value, paths[old(index)])) &&
                (movementInterval == None <==> index >= |paths|) &&
                (movementInterval.Some? ==> movementInterval == old(movementInterval))
      ensures old(movementInterval).Some? && old(index) >= |paths| ==>
                movementInterval == old(movementInterval) && currentPath == old(currentPath) &&
                cursor == old(cursor) && issued == old(issued)
    {
      if movementInterval == None {
        return;
      }
      var i := index;
      index := index + 1;
      if i >= |paths| {
        return;  // `if (!path) return;`
      }
      Advance(i);
    }

    /** The rest of a firing after `if (!path) return;` found element `i`: the branch chain, `currentPath = path` and the end check. */
    method Advance(i: nat)
      requires TimerValid() && movementInterval.Some? && index == i + 1 && i < |paths|
      requires Playing(paths, i, currentPath, true, issued, cursor, routeOrigin)
      modifies this`currentPath, this`movementInterval, this`live, this`cursor, this`issued
      ensures Valid()
      ensures currentPath == Some(paths[i])
      ensures issued == old(issued) + Decode(old(currentPath).value, paths[i])
      ensures cursor == Apply(old(cursor), Decode(old(currentPath).value, paths[i]))
      ensures movementInterval == None <==> index >= |paths|
      ensures movementInterval.Some? ==> movementInterval == old(movementInterval)
    {
      var path := paths[i];
      var moves := Decode(currentPath.value, path);
      PlayingStep(paths, i, currentPath, issued, cursor, routeOrigin);
      cursor := Apply(cursor, moves);
      issued := issued + moves;
      currentPath := Some(path);
      if index >= |paths| {
        ghost var before := (paths, index, currentPath, issued, cursor, routeOrigin);
        Cancel();
        assert (paths, index, currentPath, issued, cursor, routeOrigin) == before;
      }
    }

    /**
     * `handleClick`: record the clicked tile, cancel the running movement,
     * plan a route from the cursor's grid cell to the clicked cell, and
     * start playing it back.
     */
    method HandleClick(tiles: seq<seq<Tile>>, tileSize: real, paddingTiles: real,
                       cursorX: int, cursorY: int, startPoint: Cell, clickX: real, clickY: real)
      requires Valid() && tileSize > 0.0 && paddingTiles != 0.0
      modifies this
      ensures Valid()
      ensures var target := ClickedCell(clickX, clickY, tileSize, paddingTiles, cursorX, cursorY, startPoint);
              clicked == Some(ClickRecord(Coordinates.WorldIndex(target.x, startPoint.x),
                                          Coordinates.WorldIndex(target.y, startPoint.y),
                                          Coordinates.ClickedContent(tiles, target.x, target.y)))
      ensures var start := Cell(cursorX - startPoint.x, cursorY - startPoint.y);
              var target := ClickedCell(clickX, clickY, tileSize, paddingTiles, cursorX, cursorY, startPoint);
              (paths != [] ==> IsRoute(tiles, paths, start, target)) &&
              (paths == [] ==> forall w :: !IsRoute(tiles, w, start, target))
      ensures moveCost == |paths| - 1 && index == 1 && issued == []
      ensures paths != [] ==>
                moveCost >= KingDistance(Cell(cursorX - startPoint.x, cursorY - startPoint.y),
                                         ClickedCell(clickX, clickY, tileSize, paddingTiles, cursorX, cursorY, startPoint))
      ensures movementInterval.Some? <==> paths != []
      ensures old(movementInterval).Some? ==> old(movementInterval).value !in live
      ensures cursor == old(cursor) && routeOrigin == old(cursor)
      ensures var start := Cell(cursorX - startPoint.x, cursorY - startPoint.y);
              var target := ClickedCell(clickX, clickY, tileSize, paddingTiles, cursorX, cursorY, startPoint);
              (start == target ==> paths == [start] && moveCost == 0) &&
              (start != target && !Passable(tiles, target) ==> paths == [])
    {
      var tileArrayX := Coordinates.TileIndex(clickX, tileSize, Coordinates.ViewOffset(paddingTiles, cursorX, startPoint.x));
      var tileArrayY := Coordinates.TileIndex(clickY, tileSize, Coordinates.ViewOffset(paddingTiles, cursorY, startPoint.y));
      var tileX := Coordinates.WorldIndex(tileArrayX, startPoint.x);
      var tileY := Coordinates.WorldIndex(tileArrayY, startPoint.y);
      clicked := Some(ClickRecord(tileX, tileY, Coordinates.ClickedContent(tiles, tileArrayX, tileArrayY)));
      Cancel();
      var route, _ := Pathfinder.FindPath(tiles, Cell(cursorX - startPoint.x, cursorY - startPoint.y), Cell(tileArrayX, tileArrayY));
      if route != [] {
        WalkCoversDistance(tiles, route, Cell(cursorX - startPoint.x, cursorY - startPoint.y));
      }
      StartRoute(route);
    }
  }
}
