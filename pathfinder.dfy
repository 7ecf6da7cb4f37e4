/**
 * `findPathUsingAStar` and `getNeighbors`: A* over the eight-connected grid
 * of the tile snapshot, with unit step cost and the source's heuristic.
 *
 * The nodes of one call live in an arena keyed by NodeRef: the fresh start
 * node, and one node per unflagged cell. A TileNode's x and y are the
 * coordinates of its key; its g, h, f and parent are the arena's value,
 * which the search replaces where the source assigns the node's fields.
 */
module Pathfinder {
  import opened Wrappers
  import opened Grid
  import opened Scores

  datatype NodeRef = StartNode | GridNode(x: int, y: int)

  datatype TileNode = TileNode(g: Steps, h: Cost, f: Cost, parent: Option<NodeRef>)

  type Arena = map<NodeRef, TileNode>

  /** A node as `new TileNode(x, y)` leaves it. */
  const FreshNode := TileNode(Infinity, Finite(0, false), Infinity, None)

  /** The coordinates of a node: the start node sits at the requested start cell. */
  function Position(r: NodeRef, start: Cell): Cell {
    if r.StartNode? then start else Cell(r.x, r.y)
  }

  predicate Distinct<T(==)>(s: seq<T>) {
    forall i, j :: 0 <= i < j < |s| ==> s[i] != s[j]
  }

  /** The neighbour offsets, in the order `getNeighbors` tries them. */
  const Directions: seq<(int, int)> :=
    [(-1, 0), (0, -1), (0, 1), (1, 0), (-1, -1), (-1, 1), (1, -1), (1, 1)]

  /** Where an offset sits in Directions (8 when it is not one of them). */
  function DirectionIndex(dx: int, dy: int): (k: nat)
    ensures k < |Directions| ==> Directions[k] == (dx, dy)
  {
    if (dx, dy) == (-1, 0) then 0
    else if (dx, dy) == (0, -1) then 1
    else if (dx, dy) == (0, 1) then 2
    else if (dx, dy) == (1, 0) then 3
    else if (dx, dy) == (-1, -1) then 4
    else if (dx, dy) == (-1, 1) then 5
    else if (dx, dy) == (1, -1) then 6
    else if (dx, dy) == (1, 1) then 7
    else 8
  }

  /** Directions lists exactly the eight offsets of Adjacent, each once. */
  lemma DirectionsAreTheNeighbourhood(dx: int, dy: int)
    ensures DirectionIndex(dx, dy) < |Directions| <==> Adjacent(Cell(0, 0), Cell(dx, dy))
    ensures forall k :: 0 <= k < |Directions| && Directions[k] == (dx, dy) ==> k == DirectionIndex(dx, dy)
  {
  }

  /** `h = (dx == dy ? √2 : 0) + dx + dy` with dx, dy the distances to the target. */
  function Heuristic(c: Cell, target: Cell): Cost {
    var dx := if c.x < target.x then target.x - c.x else c.x - target.x;
    var dy := if c.y < target.y then target.y - c.y else c.y - target.y;
    Finite(dx + dy, dx == dy)
  }

  /**
   * The heuristic is not admissible: next to the target on a diagonal it
   * estimates 2 + √2 although one step reaches the target.
   */
  lemma HeuristicOverestimates(c: Cell, target: Cell)
    requires Adjacent(c, target) && c.x != target.x && c.y != target.y
    ensures Less(Finite(1, false), Heuristic(c, target))
  {
  }

  /** The arena of a call: the start node plus one node per unflagged cell. */
  ghost predicate ArenaShape(tiles: seq<seq<Tile>>, arena: Arena) {
    StartNode in arena &&
    forall r :: r in arena <==> r == StartNode || (r.GridNode? && Passable(tiles, Cell(r.x, r.y)))
  }

  lemma CellCountOfPrefix(tiles: seq<seq<Tile>>, i: nat)
    requires i < |tiles|
    ensures CellCount(tiles[..i + 1]) == CellCount(tiles[..i]) + |tiles[i]|
  {
    assert tiles[..i + 1][..i] == tiles[..i];
  }

  /** The `grid` of `findPathUsingAStar` and its nested loops: unflagged cells get a fresh node. */
  method BuildGrid(tiles: seq<seq<Tile>>) returns (grid: Arena)
    ensures forall r :: r in grid <==> r.GridNode? && Passable(tiles, Cell(r.x, r.y))
    ensures forall r :: r in grid ==> grid[r] == FreshNode
    ensures |grid| <= CellCount(tiles)
  {
    grid := map[];
    var i := 0;
    while i < |tiles|
      invariant 0 <= i <= |tiles|
      invariant forall r :: r in grid <==> r.GridNode? && Passable(tiles, Cell(r.x, r.y)) && r.y < i
      invariant forall r :: r in grid ==> grid[r] == FreshNode
      invariant |grid| <= CellCount(tiles[..i])
    {
      grid := BuildRow(tiles, i, grid);
      CellCountOfPrefix(tiles, i);
      i := i + 1;
    }
    assert tiles[..|tiles|] == tiles;
  }

  /** One pass of the inner `j` loop that fills `grid`: the nodes of row `i`. */
  method BuildRow(tiles: seq<seq<Tile>>, i: nat, grid: Arena) returns (grid': Arena)
    requires i < |tiles|
    requires forall r :: r in grid ==> r.GridNode? && r.y < i
    ensures forall r :: r in grid' <==> r in grid || (r.GridNode? && r.y == i && Passable(tiles, Cell(r.x, r.y)))
    ensures forall r :: r in grid' ==> grid'[r] == if r in grid then grid[r] else FreshNode
    ensures |grid'| <= |grid| + |tiles[i]|
  {
    grid' := grid;
    var j := 0;
    while j < |tiles[i]|
      invariant 0 <= j <= |tiles[i]|
      invariant forall r :: r in grid' <==>
                  r in grid || (r.GridNode? && r.y == i && 0 <= r.x < j && tiles[i][r.x] != Flag)
      invariant forall r :: r in grid' ==> grid'[r] == if r in grid then grid[r] else FreshNode
      invariant |grid'| <= |grid| + j
    {
      if tiles[i][j] != Flag {
        grid' := grid'[GridNode(j, i) := FreshNode];
      } else {
        // the cell stays without a node (`grid[i][j] = null`)
      }
      j := j + 1;
    }
  }

  /** The grid nodes of `s` come in the order of their offsets from `c` in Directions. */
  ghost predicate InDirectionOrder(c: Cell, s: seq<NodeRef>) {
    (forall r :: r in s ==> r.GridNode?) &&
    forall i, j :: 0 <= i < j < |s| && s[i].GridNode? && s[j].GridNode? ==>
      DirectionIndex(s[i].x - c.x, s[i].y - c.y) < DirectionIndex(s[j].x - c.x, s[j].y - c.y)
  }

  lemma AppendInDirectionOrder(c: Cell, s: seq<NodeRef>, r: NodeRef)
    requires InDirectionOrder(c, s) && r.GridNode?
    requires forall q :: q in s ==> q.GridNode? && DirectionIndex(q.x - c.x, q.y - c.y) < DirectionIndex(r.x - c.x, r.y - c.y)
    ensures InDirectionOrder(c, s + [r])
  {
    forall i, j | 0 <= i < j < |s + [r]|
      ensures DirectionIndex((s + [r])[i].x - c.x, (s + [r])[i].y - c.y) < DirectionIndex((s + [r])[j].x - c.x, (s + [r])[j].y - c.y)
    {
      if j == |s| {
        assert (s + [r])[i] == s[i] && s[i] in s;
      }
    }
  }

  /** `getNeighbors`: the nodes of the unflagged cells adjacent to `c`, each once. */
  method GetNeighbors(tiles: seq<seq<Tile>>, grid: Arena, c: Cell) returns (neighbors: seq<NodeRef>)
    requires ArenaShape(tiles, grid)
    ensures forall r :: r in neighbors <==>
              r.GridNode? && Passable(tiles, Cell(r.x, r.y)) && Adjacent(c, Cell(r.x, r.y))
    ensures Distinct(neighbors)
    ensures InDirectionOrder(c, neighbors)
  {
    neighbors := [];
    for k := 0 to |Directions|
      invariant forall r :: r in neighbors <==>
                  r.GridNode? && Passable(tiles, Cell(r.x, r.y)) &&
                  DirectionIndex(r.x - c.x, r.y - c.y) < k
      invariant Distinct(neighbors)
      invariant InDirectionOrder(c, neighbors)
    {
      var (dx, dy) := Directions[k];
      var x := c.x + dx;
      var y := c.y + dy;
      if 0 <= y < |tiles| && 0 <= x < |tiles[y]| && GridNode(x, y) in grid {
        assert DirectionIndex(x - c.x, y - c.y) == k;
        AppendInDirectionOrder(c, neighbors, GridNode(x, y));
        neighbors := neighbors + [GridNode(x, y)];
      }
    }
    forall r: NodeRef | r.GridNode?
      ensures DirectionIndex(r.x - c.x, r.y - c.y) < |Directions| <==> Adjacent(c, Cell(r.x, r.y))
    {
      DirectionsAreTheNeighbourhood(r.x - c.x, r.y - c.y);
    }
  }

  /**
   * `openList.reduce((a, b) => (a.f < b.f ? a : b))`: the index of the last
   * open node whose f is minimal.
   */
  method SelectMin(open: seq<NodeRef>, arena: Arena) returns (best: nat)
    requires |open| > 0
    requires forall r :: r in open ==> r in arena
    ensures best < |open|
    ensures forall j :: 0 <= j < |open| ==> AtMost(arena[open[best]].f, arena[open[j]].f)
    ensures forall j :: best < j < |open| ==> Less(arena[open[best]].f, arena[open[j]].f)
  {
    best := 0;
    for k := 1 to |open|
      invariant best < k
      invariant forall j :: 0 <= j < k ==> AtMost(arena[open[best]].f, arena[open[j]].f)
      invariant forall j :: best < j < k ==> Less(arena[open[best]].f, arena[open[j]].f)
    {
      if !Less(arena[open[best]].f, arena[open[k]].f) {
        forall j | 0 <= j < k
          ensures AtMost(arena[open[k]].f, arena[open[j]].f)
        {
          AtMostIsTransitive(arena[open[k]].f, arena[open[best]].f, arena[open[j]].f);
        }
        best := k;
      } else {
        LessIsAsymmetric(arena[open[best]].f, arena[open[k]].f);
      }
    }
  }

  /** `openList.filter(node => node !== x)`. */
  function Remove(s: seq<NodeRef>, x: NodeRef): (r: seq<NodeRef>)
    ensures forall y :: y in r <==> y in s && y != x
    ensures Distinct(s) ==> Distinct(r)
  {
    if s == [] then []
    else
      assert Distinct(s) ==> Distinct(s[1..]) && s[0] !in s[1..];
      (if s[0] == x then [] else [s[0]]) + Remove(s[1..], x)
  }

  /** The g a neighbour of `current` is offered: `current.g + 1`. */
  function TentativeG(arena: Arena, current: NodeRef): Steps
    requires current in arena
  {
    AddSteps(arena[current].g, 1)
  }

  /** Whether the expansion of `current` rewrites the node `r` (the `closedList.includes`, `openList.includes` and `tempG >= neighbor.g` tests). */
  predicate Improves(arena: Arena, open: seq<NodeRef>, closed: seq<NodeRef>,
                     current: NodeRef, neighbors: seq<NodeRef>, r: NodeRef)
    requires current in arena && r in arena
  {
    r in neighbors && r !in closed && (r !in open || Less(TentativeG(arena, current), arena[r].g))
  }

  /** The node `r` after `current` became its parent (the assignments to `parent`, `g`, `h` and `f`). */
  function Improved(arena: Arena, start: Cell, target: Cell, current: NodeRef, r: NodeRef): TileNode
    requires current in arena
  {
    var g := TentativeG(arena, current);
    var h := Heuristic(Position(r, start), target);
    TileNode(g, h, Add(g, h), Some(current))
  }

  /** The neighbours in neither list, in neighbour order: what the loop below pushes onto `openList`. */
  function Opened(neighbors: seq<NodeRef>, open: seq<NodeRef>, closed: seq<NodeRef>): (r: seq<NodeRef>)
    ensures forall x :: x in r <==> x in neighbors && x !in open && x !in closed
  {
    if neighbors == [] then []
    else
      var last := neighbors[|neighbors| - 1];
      Opened(neighbors[..|neighbors| - 1], open, closed) + (if last in open || last in closed then [] else [last])
  }

  lemma AppendTwice(a: seq<NodeRef>, b: seq<NodeRef>, x: NodeRef)
    ensures a + b + [x] == a + (b + [x])
  {
  }

  lemma OpenedStep(neighbors: seq<NodeRef>, k: nat, open: seq<NodeRef>, closed: seq<NodeRef>)
    requires k < |neighbors|
    ensures neighbors[..k + 1] == neighbors[..k] + [neighbors[k]]
    ensures Opened(neighbors[..k + 1], open, closed) ==
            Opened(neighbors[..k], open, closed) +
            (if neighbors[k] in open || neighbors[k] in closed then [] else [neighbors[k]])
  {
    assert neighbors[..k + 1][..k] == neighbors[..k];
  }

  /** After the first `k` passes of the neighbour loop: exactly the improved nodes among `neighbors[..k]` are rewritten. */
  ghost predicate AdoptedUpTo(start: Cell, target: Cell, arena: Arena, open: seq<NodeRef>, closed: seq<NodeRef>,
                              current: NodeRef, neighbors: seq<NodeRef>, k: nat, arena': Arena)
    requires current in arena && k <= |neighbors|
  {
    arena'.Keys == arena.Keys &&
    forall r :: r in arena ==>
      arena'[r] == if r in neighbors[..k] && Improves(arena, open, closed, current, neighbors, r)
                   then Improved(arena, start, target, current, r) else arena[r]
  }

  /** After the first `k` passes of the neighbour loop: the new nodes among `neighbors[..k]` are pushed in order. */
  ghost predicate PushedUpTo(open: seq<NodeRef>, closed: seq<NodeRef>, neighbors: seq<NodeRef>, k: nat, open': seq<NodeRef>)
    requires k <= |neighbors|
  {
    open' == open + Opened(neighbors[..k], open, closed) &&
    (Distinct(open) ==> Distinct(open'))
  }

  lemma AdoptStep(start: Cell, target: Cell, arena: Arena, open: seq<NodeRef>, closed: seq<NodeRef>,
                  current: NodeRef, neighbors: seq<NodeRef>, k: nat, arena0: Arena, arena1: Arena)
    requires current in arena && k < |neighbors| && neighbors[k] in arena
    requires AdoptedUpTo(start, target, arena, open, closed, current, neighbors, k, arena0)
    requires neighbors[k] !in neighbors[..k]
    requires arena1 == if Improves(arena, open, closed, current, neighbors, neighbors[k])
                       then arena0[neighbors[k] := Improved(arena, start, target, current, neighbors[k])]
                       else arena0
    ensures AdoptedUpTo(start, target, arena, open, closed, current, neighbors, k + 1, arena1)
  {
    assert neighbors[..k + 1] == neighbors[..k] + [neighbors[k]];
  }

  lemma PushStep(open: seq<NodeRef>, closed: seq<NodeRef>, neighbors: seq<NodeRef>, k: nat,
                 open0: seq<NodeRef>, open1: seq<NodeRef>)
    requires k < |neighbors| && neighbors[k] !in neighbors[..k]
    requires PushedUpTo(open, closed, neighbors, k, open0)
    requires open1 == if neighbors[k] in open || neighbors[k] in closed then open0 else open0 + [neighbors[k]]
    ensures PushedUpTo(open, closed, neighbors, k + 1, open1)
  {
    OpenedStep(neighbors, k, open, closed);
    if neighbors[k] !in open && neighbors[k] !in closed {
      AppendTwice(open, Opened(neighbors[..k], open, closed), neighbors[k]);
    }
  }

  /**
   * The `for (const neighbor of neighbors)` loop of `findPathUsingAStar`. A closed
   * neighbour is skipped; a new one is opened and adopted; an open one is
   * adopted only when `current.g + 1` is strictly below its g.
   */
  method Relax(start: Cell, target: Cell, arena: Arena, open: seq<NodeRef>, closed: seq<NodeRef>,
               current: NodeRef, neighbors: seq<NodeRef>)
    returns (arena': Arena, open': seq<NodeRef>)
    requires current in arena && current in closed
    requires forall r :: r in neighbors ==> r in arena
    requires Distinct(neighbors)
    ensures arena'.Keys == arena.Keys
    ensures forall r :: r in arena ==>
              arena'[r] == if Improves(arena, open, closed, current, neighbors, r)
                           then Improved(arena, start, target, current, r) else arena[r]
    ensures forall r :: r in open' <==> r in open || (r in neighbors && r !in closed)
    ensures open' == open + Opened(neighbors, open, closed)
    ensures Distinct(open) ==> Distinct(open')
  {
    arena', open' := arena, open;
    assert neighbors[..0] == [];
    for k := 0 to |neighbors|
      invariant AdoptedUpTo(start, target, arena, open, closed, current, neighbors, k, arena')
      invariant PushedUpTo(open, closed, neighbors, k, open')
    {
      arena', open' := VisitNeighbor(start, target, arena, open, closed, current, neighbors, k, arena', open');
    }
    assert neighbors[..|neighbors|] == neighbors;
  }

  /**
   * One pass of the neighbour loop: `closedList.includes` skips, a node not
   * yet open is pushed, an open one is kept unless `tempG < neighbor.g`, and
   * an adopted node gets `parent`, `g`, `h` and `f`.
   */
  method VisitNeighbor(start: Cell, target: Cell, arena: Arena, open: seq<NodeRef>, closed: seq<NodeRef>,
                       current: NodeRef, neighbors: seq<NodeRef>, k: nat, arena0: Arena, open0: seq<NodeRef>)
    returns (arena1: Arena, open1: seq<NodeRef>)
    requires current in arena && current in closed
    requires forall r :: r in neighbors ==> r in arena
    requires Distinct(neighbors) && k < |neighbors|
    requires AdoptedUpTo(start, target, arena, open, closed, current, neighbors, k, arena0)
    requires PushedUpTo(open, closed, neighbors, k, open0)
    ensures AdoptedUpTo(start, target, arena, open, closed, current, neighbors, k + 1, arena1)
    ensures PushedUpTo(open, closed, neighbors, k + 1, open1)
  {
    arena1, open1 := arena0, open0;
    var neighbor := neighbors[k];
    assert neighbor !in neighbors[..k];
    assert neighbor in open0 <==> neighbor in open || neighbor in Opened(neighbors[..k], open, closed);
    if neighbor in closed {
      AdoptStep(start, target, arena, open, closed, current, neighbors, k, arena0, arena1);
      PushStep(open, closed, neighbors, k, open0, open1);
      return;
    }
    var tempG := AddSteps(arena1[current].g, 1);
    assert tempG == TentativeG(arena, current) && arena1[neighbor] == arena[neighbor];
    if neighbor !in open1 {
      open1 := open1 + [neighbor];
    } else if !Less(tempG, arena1[neighbor].g) {
      AdoptStep(start, target, arena, open, closed, current, neighbors, k, arena0, arena1);
      PushStep(open, closed, neighbors, k, open0, open1);
      return;
    }
    PushStep(open, closed, neighbors, k, open0, open1);
    var h := Heuristic(Position(neighbor, start), target);
    arena1 := arena1[neighbor := TileNode(tempG, h, Add(tempG, h), Some(current))];
    AdoptStep(start, target, arena, open, closed, current, neighbors, k, arena0, arena1);
  }

  /** Open and closed hold arena nodes, each once, and no node is in both. */
  ghost predicate Lists(arena: Arena, open: seq<NodeRef>, closed: seq<NodeRef>) {
    (forall r :: r in open ==> r in arena) &&
    (forall r :: r in closed ==> r in arena) &&
    Distinct(open) && Distinct(closed) &&
    (forall r :: r in open ==> r !in closed)
  }

  /** Every parent is a closed node adjacent to its child. */
  ghost predicate ParentLinks(start: Cell, arena: Arena, closed: seq<NodeRef>) {
    forall r :: r in arena && arena[r].parent.Some? ==>
      arena[r].parent.value in closed &&
      Adjacent(Position(arena[r].parent.value, start), Position(r, start))
  }

  /** A closed node's parent was closed before it. */
  ghost predicate ParentsClosedEarlier(arena: Arena, closed: seq<NodeRef>)
    requires forall r :: r in closed ==> r in arena
  {
    forall i, j :: 0 <= i < |closed| && 0 <= j < |closed| && arena[closed[j]].parent == Some(closed[i]) ==> i < j
  }

  /** The start node is the only listed node without a parent. */
  ghost predicate Rooted(arena: Arena, open: seq<NodeRef>, closed: seq<NodeRef>)
    requires StartNode in arena
    requires forall r :: r in open ==> r in arena
    requires forall r :: r in closed ==> r in arena
  {
    arena[StartNode].parent == None &&
    (StartNode in open || StartNode in closed) &&
    (forall r :: (r in open || r in closed) && arena[r].parent.None? ==> r == StartNode) &&
    (forall r :: r in arena && arena[r].parent.Some? ==> r in open || r in closed)
  }

  /** Every unflagged cell next to a closed node has a node in the open or closed list. */
  ghost predicate Frontier(tiles: seq<seq<Tile>>, start: Cell, open: seq<NodeRef>, closed: seq<NodeRef>) {
    forall c, n :: c in closed && Adjacent(Position(c, start), n) && Passable(tiles, n) ==>
      GridNode(n.x, n.y) in open || GridNode(n.x, n.y) in closed
  }

  /** What holds each time the main loop of `findPathUsingAStar` tests `openList.length > 0`. */
  ghost predicate SearchInv(tiles: seq<seq<Tile>>, start: Cell, target: Cell,
                            arena: Arena, open: seq<NodeRef>, closed: seq<NodeRef>) {
    ArenaShape(tiles, arena) &&
    Lists(arena, open, closed) &&
    Rooted(arena, open, closed) &&
    ParentLinks(start, arena, closed) &&
    ParentsClosedEarlier(arena, closed) &&
    Frontier(tiles, start, open, closed) &&
    (forall c :: c in closed ==> Position(c, start) != target) &&
    (start == target ==> open == [StartNode] && closed == [])
  }

  /** Closing the selected node and relaxing its neighbours keeps the search invariant. */
  lemma ExpansionKeepsInv(tiles: seq<seq<Tile>>, start: Cell, target: Cell,
                          arena: Arena, open: seq<NodeRef>, closed: seq<NodeRef>, current: NodeRef,
                          neighbors: seq<NodeRef>, arena': Arena, open': seq<NodeRef>)
    requires SearchInv(tiles, start, target, arena, open, closed)
    requires current in open && Position(current, start) != target
    requires forall r :: r in neighbors <==>
               r.GridNode? && Passable(tiles, Cell(r.x, r.y)) && Adjacent(Position(current, start), Cell(r.x, r.y))
    requires arena'.Keys == arena.Keys
    requires forall r :: r in arena ==>
               arena'[r] == if Improves(arena, Remove(open, current), closed + [current], current, neighbors, r)
                            then Improved(arena, start, target, current, r) else arena[r]
    requires forall r :: r in open' <==> r in Remove(open, current) || (r in neighbors && r !in closed + [current])
    requires Distinct(open')
    ensures SearchInv(tiles, start, target, arena', open', closed + [current])
  {
    assert ArenaShape(tiles, arena');
    ClosingKeepsLists(arena, open, closed, current, neighbors, arena', open');
    ExpansionKeepsFrontier(tiles, start, open, closed, current, neighbors, open');
    AdoptionKeepsLinks(start, target, arena, open, closed, current, neighbors, arena', open');
    ClosingKeepsOrder(arena, closed, current, arena');
  }

  /** Moving `current` from open to closed and opening new neighbours keeps the lists disjoint and duplicate-free. */
  lemma ClosingKeepsLists(arena: Arena, open: seq<NodeRef>, closed: seq<NodeRef>, current: NodeRef,
                          neighbors: seq<NodeRef>, arena': Arena, open': seq<NodeRef>)
    requires Lists(arena, open, closed) && current in open
    requires forall r :: r in neighbors ==> r in arena
    requires arena'.Keys == arena.Keys
    requires forall r :: r in open' <==> r in Remove(open, current) || (r in neighbors && r !in closed + [current])
    requires Distinct(open')
    ensures Lists(arena', open', closed + [current])
  {
  }

  /** Once `current` is closed, its unflagged neighbours are all open or closed. */
  lemma ExpansionKeepsFrontier(tiles: seq<seq<Tile>>, start: Cell, open: seq<NodeRef>, closed: seq<NodeRef>,
                               current: NodeRef, neighbors: seq<NodeRef>, open': seq<NodeRef>)
    requires Frontier(tiles, start, open, closed)
    requires forall r :: r in neighbors <==>
               r.GridNode? && Passable(tiles, Cell(r.x, r.y)) && Adjacent(Position(current, start), Cell(r.x, r.y))
    requires forall r :: r in open' <==> r in Remove(open, current) || (r in neighbors && r !in closed + [current])
    ensures Frontier(tiles, start, open', closed + [current])
  {
  }

  /**
   * Adopting neighbours keeps the parent links sound: every parent is a
   * closed node next to its child, only listed nodes have one, and the start
   * node stays the only listed node without one.
   */
  lemma AdoptionKeepsLinks(start: Cell, target: Cell, arena: Arena, open: seq<NodeRef>, closed: seq<NodeRef>,
                           current: NodeRef, neighbors: seq<NodeRef>, arena': Arena, open': seq<NodeRef>)
    requires StartNode in arena && Lists(arena, open, closed)
    requires Rooted(arena, open, closed) && ParentLinks(start, arena, closed)
    requires current in open
    requires forall r :: r in neighbors ==> r.GridNode? && Adjacent(Position(current, start), Cell(r.x, r.y))
    requires arena'.Keys == arena.Keys
    requires forall r :: r in arena ==>
               arena'[r] == if Improves(arena, Remove(open, current), closed + [current], current, neighbors, r)
                            then Improved(arena, start, target, current, r) else arena[r]
    requires forall r :: r in open' <==> r in Remove(open, current) || (r in neighbors && r !in closed + [current])
    requires forall r :: r in open' ==> r in arena
    ensures ParentLinks(start, arena', closed + [current])
    ensures Rooted(arena', open', closed + [current])
  {
    var open1, closed1 := Remove(open, current), closed + [current];
    forall r | r in arena' && arena'[r].parent.Some?
      ensures arena'[r].parent.value in closed1
      ensures Adjacent(Position(arena'[r].parent.value, start), Position(r, start))
      ensures r in open' || r in closed1
    {
      if !Improves(arena, open1, closed1, current, neighbors, r) {
        assert arena'[r] == arena[r];
      }
    }
    assert arena'[StartNode] == arena[StartNode];
    forall r | (r in open' || r in closed1) && arena'[r].parent.None?
      ensures r == StartNode
    {
      assert !Improves(arena, open1, closed1, current, neighbors, r);
    }
  }

  /**
   * Closing `current` keeps parents closed before their children: closed
   * nodes keep their links, and the parent of `current` was closed already.
   */
  lemma ClosingKeepsOrder(arena: Arena, closed: seq<NodeRef>, current: NodeRef, arena': Arena)
    requires forall r :: r in closed ==> r in arena
    requires current in arena && current !in closed && arena'.Keys == arena.Keys
    requires ParentsClosedEarlier(arena, closed)
    requires forall r :: (r in closed || r == current) && arena[r].parent.Some? ==> arena[r].parent.value in closed
    requires forall r :: r in closed || r == current ==> arena'[r] == arena[r]
    ensures ParentsClosedEarlier(arena', closed + [current])
  {
  }

  /** Along a walk from the start, every cell after the first has a closed node once the search is exhausted. */
  lemma {:induction false} WalkStaysClosed(tiles: seq<seq<Tile>>, start: Cell,
                                           closed: seq<NodeRef>, w: seq<Cell>, i: nat)
    requires IsWalk(tiles, w, start) && i < |w|
    requires StartNode in closed
    requires Frontier(tiles, start, [], closed)
    ensures i == 0 || GridNode(w[i].x, w[i].y) in closed
  {
    if i > 0 {
      WalkStaysClosed(tiles, start, closed, w, i - 1);
      var c := if i - 1 == 0 then StartNode else GridNode(w[i - 1].x, w[i - 1].y);
      assert c in closed && Position(c, start) == w[i - 1];
      assert Adjacent(Position(c, start), w[i]) && Passable(tiles, w[i]);
    }
  }

  /** A distinct list of arena nodes is no longer than the arena. */
  lemma {:induction false} DistinctWithin(s: seq<NodeRef>, keys: set<NodeRef>)
    requires Distinct(s) && forall r :: r in s ==> r in keys
    ensures |s| <= |keys|
  {
    if s != [] {
      assert forall r :: r in s[1..] ==> r in keys - {s[0]};
      DistinctWithin(s[1..], keys - {s[0]});
    }
  }

  /**
   * The `while (temp)` loop with `path.unshift(temp)`: follow the parent links from the node that reached the
   * target back to the start node, putting each in front of the path.
   */
  method Reconstruct(tiles: seq<seq<Tile>>, start: Cell, target: Cell,
                     arena: Arena, closed: seq<NodeRef>, current: NodeRef)
    returns (path: seq<Cell>)
    requires ArenaShape(tiles, arena) && forall r :: r in closed ==> r in arena
    requires arena[StartNode].parent == None
    requires ParentLinks(start, arena, closed) && ParentsClosedEarlier(arena, closed)
    requires current in arena && current !in closed && Position(current, start) == target
    requires forall r :: (r in closed || r == current) && arena[r].parent.None? ==> r == StartNode
    ensures IsRoute(tiles, path, start, target)
    ensures current == StartNode ==> path == [start]
  {
    path := [];
    var temp: Option<NodeRef> := Some(current);
    ghost var rank := |closed|;
    ghost var last := current;
    while temp.Some?
      invariant temp.Some? ==> temp.value in arena
      invariant temp.Some? ==> (temp.value == current && rank == |closed|) ||
                               (0 <= rank < |closed| && closed[rank] == temp.value)
      invariant path == [] ==> temp == Some(current)
      invariant path != [] ==> path[0] == Position(last, start) && last in arena &&
                               arena[last].parent == temp && (last == current || last in closed) &&
                               path[|path| - 1] == target
      invariant forall i :: 1 <= i < |path| ==> Passable(tiles, path[i])
      invariant forall i :: 0 <= i < |path| - 1 ==> Adjacent(path[i], path[i + 1])
      invariant current == StartNode ==> (path == [] && temp == Some(StartNode)) || (path == [start] && temp == None)
      decreases if temp.Some? then rank + 1 else 0
    {
      var t := temp.value;
      if path != [] {
        assert arena[last].parent == Some(t);
        assert last != StartNode && Passable(tiles, Cell(last.x, last.y));
      }
      path := [Position(t, start)] + path;
      temp := arena[t].parent;
      if temp.Some? {
        assert temp.value in closed;
        rank :| 0 <= rank < |closed| && closed[rank] == temp.value;
      }
      last := t;
    }
  }

  /** Once the open list is empty, no route leads from start to target (the final `return []`). */
  lemma ExhaustedSearchFindsNoRoute(tiles: seq<seq<Tile>>, start: Cell, target: Cell,
                                    arena: Arena, closed: seq<NodeRef>)
    requires SearchInv(tiles, start, target, arena, [], closed)
    ensures forall w :: !IsRoute(tiles, w, start, target)
  {
    forall w | IsRoute(tiles, w, start, target)
      ensures false
    {
      WalkStaysClosed(tiles, start, closed, w, |w| - 1);
    }
  }

  /**
   * `findPathUsingAStar`. A non-empty result is a route from start to target
   * over unflagged cells; an empty one means that no such route exists.
   * `iterations` counts the passes of the main loop.
   */
  method FindPath(tiles: seq<seq<Tile>>, start: Cell, target: Cell)
    returns (path: seq<Cell>, ghost iterations: nat)
    ensures path != [] ==> IsRoute(tiles, path, start, target)
    ensures path == [] ==> forall w :: !IsRoute(tiles, w, start, target)
    ensures start == target ==> path == [start]
    ensures start != target && !Passable(tiles, target) ==> path == []
    ensures iterations <= CellCount(tiles) + 1
  {
    var grid := BuildGrid(tiles);
    var arena := grid[StartNode := FreshNode];
    arena := arena[StartNode := arena[StartNode].(g := Finite(0, false))];
    arena := arena[StartNode := arena[StartNode].(f := Add(arena[StartNode].g, arena[StartNode].h))];
    var open := [StartNode];
    var closed: seq<NodeRef> := [];
    iterations := 0;
    assert |arena| <= CellCount(tiles) + 1;

    while |open| > 0
      invariant SearchInv(tiles, start, target, arena, open, closed)
      invariant |arena| <= CellCount(tiles) + 1
      invariant iterations == |closed|
      decreases |arena| - |closed|
    {
      iterations := iterations + 1;
      DistinctWithin(closed + [open[0]], arena.Keys);
      var best := SelectMin(open, arena);
      var current := open[best];
      if Position(current, start) == target {
        path := Reconstruct(tiles, start, target, arena, closed, current);
        return;
      }
      var open1 := Remove(open, current);
      var closed1 := closed + [current];
      var neighbors := GetNeighbors(tiles, arena, Position(current, start));
      var arena', open' := Relax(start, target, arena, open1, closed1, current, neighbors);
      ExpansionKeepsInv(tiles, start, target, arena, open, closed, current, neighbors, arena', open');
      assert |arena'| == |arena| by { assert arena'.Keys == arena.Keys; }
      arena, open, closed := arena', open', closed1;
    }
    path := [];
    DistinctWithin(closed, arena.Keys);
    ExhaustedSearchFindsNoRoute(tiles, start, target, arena, closed);
  }
}
