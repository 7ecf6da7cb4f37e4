# Route planning and move sequencing of the minesweeper canvas

This project is a Dafny model of the engine inside `CanvasRenderer`
(`src/components/canvas/index.tsx`), the canvas component of the minesweeper
client. A click on the board selects a grid cell. An A* search then plans a
route from the cursor's cell to the clicked cell, stepping around flagged
tiles over the eight-connected grid. A repeating interval plays the route
back as cardinal cursor moves, and each diagonal step becomes two moves.

The model is split into modules:

- `Grid`: the tile snapshot, cells, the eight-neighbourhood, and walks and routes over unflagged cells.
- `Scores`: the g, h and f values of the search. A value is a whole number plus possibly one √2, or Infinity. Values are compared exactly, with integer rules only, where the source compares doubles (see `Pathfinder.SelectMin` under "## Left out").
- `Pathfinder`: `findPathUsingAStar`, `getNeighbors` and `TileNode`.
  - The nodes of one search live in a map from node references to node values. The start node is a node of its own, as `new TileNode(startX, startY)` is in the source.
  - The grid, neighbour, selection and relaxation loops are methods with loop invariants.
  - The main loop keeps a search invariant. It covers the open and closed lists, the parent links, and closure: every unflagged neighbour of a closed node has been listed.
- `Moves`: the four cursor moves, the branch chain that turns one path step into moves, and the playback of a path.
- `Coordinates`: the pixel-to-grid transform of `handleClick` (floor), the grid-to-world transform (round), and the bounds-checked lookup of the clicked tile.
- `Canvas`: the component's state between events, modelled as a class. Its fields are:
  - the `movementInterval` ref;
  - the variables the interval's closure captures (`paths`, `index`, `currentPath`);
  - the values handed to `setMovecost` and `setPosition`;
  - a ghost cursor that the cursor store's `goup`/`godown`/`goleft`/`goright` move;
  - a ghost set of live interval handles.

  One interval firing is one call of `Tick`.

Where the documented behaviour of the engine and the code differ, the model follows the code:

- Routes are not claimed to be shortest. The heuristic `(dx == dy ? √2 : 0) + dx + dy` is not admissible; `HeuristicOverestimates` exhibits it overestimating. A case by hand:
  - tiles `["OFOFOO", "OOOOOO", "OOOOOO"]`, start (4, 1), target (2, 0);
  - the search expands (4, 1), (4, 0), (5, 0), (3, 2), (2, 1) and (2, 2);
  - (2, 0) and (3, 1) are then both open at f = 3 + √2, and the last-minimum rule of `reduce` picks (2, 0);
  - the result `[(4, 1), (3, 2), (2, 1), (2, 0)]` takes three steps, while (4, 1) → (3, 1) → (2, 0) takes two.

  The tie rule decides the outcome here. That is why `SelectMin` states it exactly, and why `GetNeighbors` and `Relax` state the order in which neighbours are listed and pushed onto the open list.
- A node's parent is not set only once. An open node whose g improves is adopted again by the current node (`Relax`).
- The start node is separate from the grid node at the start cell. So a start outside the snapshot, or on a flagged tile, can still lead to a route. A click whose cell equals the start cell yields `[start]` even outside the snapshot.
- A one-element route, from a click on the cursor's own cell, arms an interval that never clears itself. Every firing of it, the first included, finds no element and only advances `index`, until the next click or teardown cancels it (`Tick`).

## Model

| member | source | states |
|---|---|---|
| Scores.Less | src/components/canvas/index.tsx:225 | the source's `a.f < b.f` (and, negated, `tempG >= neighbor.g` at line 248) on costs, by integer rules; `LessIsExact` states that they agree with real arithmetic, and `LessIsAsymmetric` and `AtMostIsTransitive` give the order facts `SelectMin` uses |
| Scores.LessIsExact | src/components/canvas/index.tsx:225 | the integer rules used for `<` on costs (m + √2 < n iff n − m ≥ 2, m < n + √2 iff m − n ≤ 1) decide exactly the comparisons of the real numbers m + p·√2 and n + q·√2 |
| Pathfinder.DirectionIndex | src/components/canvas/index.tsx:165-174 | an offset that gets an index below eight is the entry of the direction table at that index |
| Pathfinder.DirectionsAreTheNeighbourhood | src/components/canvas/index.tsx:165-174 | the direction table holds exactly the eight offsets of the eight-neighbourhood, each at a single position |
| Pathfinder.Heuristic | src/components/canvas/index.tsx:254-257 | `h` as the source computes it: √2 exactly when the two distances are equal, plus both distances; `HeuristicOverestimates` states that it is not admissible |
| Pathfinder.HeuristicOverestimates | src/components/canvas/index.tsx:254-257 | for a cell diagonally next to the target, h is above the single step that reaches it, so the heuristic is not admissible |
| Pathfinder.BuildGrid | src/components/canvas/index.tsx:207-216 | exactly the unflagged cells inside the snapshot get a node; every node is fresh (g and f infinite, h 0, no parent); there are at most as many nodes as cells |
| Pathfinder.BuildRow | src/components/canvas/index.tsx:209-215 | one pass over row i adds a fresh node for each unflagged cell of that row and leaves the nodes of earlier rows unchanged |
| Pathfinder.GetNeighbors | src/components/canvas/index.tsx:163-186 | the result holds a node exactly for each unflagged cell adjacent to the given cell, holds none twice, and lists them in the order of their offsets in the direction table (`InDirectionOrder`) |
| Pathfinder.SelectMin | src/components/canvas/index.tsx:225 | the selected open node has an f no greater than any other, and every later node has a strictly greater f (ties go to the last minimum, as `reduce` with `a.f < b.f ? a : b` does) |
| Pathfinder.Remove | src/components/canvas/index.tsx:235 | the filtered list holds exactly the elements other than the removed node, and stays free of duplicates |
| Pathfinder.Relax | src/components/canvas/index.tsx:240-259 | a node is rewritten (g = current.g + 1, h, f = g + h, parent = current) exactly when it is a neighbour, not closed, and either new to the open list or strictly improved in g; all other nodes are unchanged; the new open list is the old one followed by the neighbours in neither list, in neighbour order (`Opened`), so it gains exactly the unclosed neighbours and stays free of duplicates |
| Pathfinder.Opened | src/components/canvas/index.tsx:246-247 | the nodes `openList.push` appends during one expansion: exactly the neighbours in neither list, kept in neighbour order |
| Pathfinder.VisitNeighbor | src/components/canvas/index.tsx:241-258 | one pass of the neighbour loop extends what the loop has done by one neighbour: that node is rewritten exactly when it improves, and pushed exactly when it is in neither list |
| Pathfinder.ExpansionKeepsInv | src/components/canvas/index.tsx:235-259 | closing the selected node and relaxing its neighbours keeps the search invariant: disjoint duplicate-free lists, parents closed and adjacent, a single parentless root, and every unflagged neighbour of a closed node listed |
| Pathfinder.ClosingKeepsLists | src/components/canvas/index.tsx:235-247 | after moving the selected node from open to closed and opening new neighbours, both lists hold only nodes of the search, without duplicates, and no node is in both |
| Pathfinder.ExpansionKeepsFrontier | src/components/canvas/index.tsx:239-247 | after closing the selected node, each of its unflagged neighbours is open or closed |
| Pathfinder.AdoptionKeepsLinks | src/components/canvas/index.tsx:252 | after adopting neighbours, every parent is a closed node adjacent to its child, only listed nodes have a parent, and the start node stays the only listed node without one |
| Pathfinder.ClosingKeepsOrder | src/components/canvas/index.tsx:236 | after closing a node, every closed node's parent was still closed before it, so the parent links cannot form a cycle |
| Pathfinder.Reconstruct | src/components/canvas/index.tsx:226-233 | following parents from the node at the target back to the start node yields a route from start to target over adjacent unflagged cells; it is `[start]` when the node at the target is the start node |
| Pathfinder.WalkStaysClosed | src/components/canvas/index.tsx:224 | once the open list is empty, every cell after the first of any walk from the start has a closed node |
| Pathfinder.ExhaustedSearchFindsNoRoute | src/components/canvas/index.tsx:261 | when the search ends with an empty open list, no route from start to target exists |
| Pathfinder.FindPath | src/components/canvas/index.tsx:203-262 | a non-empty result is a route from start to target over adjacent unflagged cells; an empty result means no route exists; start = target gives `[start]`; any other flagged or outside target gives `[]`; the main loop runs at most one more time than the snapshot has cells |
| Grid.WalkCoversDistance | src/components/canvas/index.tsx:116 | a route has at least as many steps as the king distance it covers, so the reported move cost is at least the distance to the clicked cell |
| Moves.Decode | src/components/canvas/index.tsx:125-153 | the branch chain from the previous to the next cell, each branch's moves in the source's order; `DecodeFollowsStep`, `DecodeCount` and `DiagonalOrder` state what it issues |
| Moves.DecodeFollowsStep | src/components/canvas/index.tsx:125-153 | the moves issued for a step to the same or an adjacent cell carry the cursor by exactly that step |
| Moves.DecodeCount | src/components/canvas/index.tsx:125-153 | a step issues one move per axis it changes: none, one (cardinal) or two (diagonal) |
| Moves.DiagonalOrder | src/components/canvas/index.tsx:125-148 | a diagonal going up issues `goup` first and the horizontal move second; a diagonal going down issues the horizontal move first and `godown` second |
| Moves.PlaybackDisplacement | src/components/canvas/index.tsx:122-157 | playing back the first n cells of a path of adjacent-or-equal steps moves the cursor by the displacement from its first to its n-th cell |
| Moves.RouteIsStepwise | src/components/canvas/index.tsx:226-233 | every step of a route goes to an adjacent cell, so playback applies to it |
| Coordinates.ViewOffset | src/components/canvas/index.tsx:50-51 | `tilePaddingWidth` / `tilePaddingHeight`; `ViewOffsetLags` states where it puts the view |
| Coordinates.ViewOffsetLags | src/components/canvas/index.tsx:50-51 | with at least one padding tile, the view offset equals d − d / paddingTiles for the cursor's distance d from the anchor, and lies between 0 and d |
| Coordinates.TileIndex | src/components/canvas/index.tsx:87-88 | the grid index is the largest integer not above `click / tileSize + offset` |
| Coordinates.Round | src/components/canvas/index.tsx:91-92 | `Math.round` gives the integer within one half of the value, halves rounding up |
| Coordinates.WorldIndex | src/components/canvas/index.tsx:91-92 | rounding the sum of a grid index and a whole anchor leaves it unchanged |
| Coordinates.ClickInsideTile | src/components/canvas/index.tsx:87-88 | a click anywhere inside the k-th tile column, with a whole offset, selects index k + offset |
| Coordinates.ClickedContent | src/components/canvas/index.tsx:106 | `tiles[y]?.[x] ?? 'Out of bounds'`; `ClickedContentMatchesGrid` states it on both sides of the bounds test |
| Coordinates.ClickedContentMatchesGrid | src/components/canvas/index.tsx:106 | the reported content is the sentinel exactly outside the snapshot and the tile inside it; inside, the cell is passable exactly when the content is not the flag |
| Canvas.ClickedCell | src/components/canvas/index.tsx:87-88 | `tileArrayX` and `tileArrayY`: the floor of each click coordinate over the tile size plus the view offset; `TileIndex` and `ClickInsideTile` state which cell that is |
| Canvas.PlayingStep | src/components/canvas/index.tsx:123-154 | a firing that finds a next element keeps the playback consistent: the issued moves are those of the steps played so far and the cursor has followed them |
| Canvas.PlaybackFinished | src/components/canvas/index.tsx:155-157 | once the index has passed the last element, all steps have been played and the cursor has moved by the displacement from the route's first cell to its last |
| Canvas.Controller.constructor | src/components/canvas/index.tsx:62 | the component mounts with no interval armed and no live interval |
| Canvas.Controller.Cancel | src/components/canvas/index.tsx:67-72 | the ref is cleared and no interval stays live; with nothing armed, nothing changes, so a second call is a no-op |
| Canvas.Controller.Unmount | src/components/canvas/index.tsx:74-76 | after teardown no interval is armed or live |
| Canvas.Controller.StartRoute | src/components/canvas/index.tsx:116-122 | the move cost is the route length minus one; a non-empty route arms exactly one new interval that plays it from index 1, and an empty route arms none |
| Canvas.Controller.Tick | src/components/canvas/index.tsx:122-158 | a firing advances the index; when it finds an element it issues exactly the decoded moves of the step from the previous element, moves `currentPath` on, and clears the interval exactly when the index reaches the end, otherwise keeping the same handle; past the end it changes nothing else; a cleared interval does not fire |
| Canvas.Controller.Advance | src/components/canvas/index.tsx:125-157 | once a firing has found element i, it issues exactly the decoded moves of the step from the previous element, sets `currentPath` to element i, and clears the interval exactly when the index has reached the end |
| Canvas.Controller.HandleClick | src/components/canvas/index.tsx:78-160 | records the clicked world cell and content, cancels the previous interval (its handle is no longer live), and arms playback of a route from the cursor's cell to the clicked cell exactly when one exists, starting from the cursor's cell, which the click itself does not move; a click on the cursor's own cell gives the one-element route with move cost 0, and a click on any other flagged or outside cell gives no route; the move cost is at least the king distance |

## Left out

- Drawing (the effect that paints tiles, borders and the cursor), the WebSocket message effect, and the colour and screen-size stores: they compute nothing the engine uses.
- The DOM: the early return when the canvas ref is empty, and `getBoundingClientRect`. The click position relative to the canvas is a parameter of `HandleClick`.
- Timing. The 500 ms period is not modelled; one firing is one call of `Tick`.
- Canvas.Controller.Tick: issues both halves of a diagonal within the firing. The source issues the second half after a 1 ms `setTimeout`. So the model does not capture that a half-move already scheduled when `cancelCurrentMovement` runs still reaches the cursor store.
- Floating point. Exact reals stand for the source's doubles, and the model requires `tileSize > 0` and `paddingTiles ≠ 0`. With `tileSize = 0` or `paddingTiles = 0` the source divides by zero and gets Infinity or NaN, which the model does not represent. A negative tile size is excluded as meaningless for a canvas.
- Canvas.Controller.HandleClick: takes `cursorX`, `cursorY` and the start point as integers (tile coordinates), not arbitrary numbers.
- Handle values. The truthiness test on `movementInterval.current` is modelled as the presence of a handle, since interval handles are never falsy.
- Object identity. `TileNode` objects mutated in place are map entries replaced by the search. `openList.includes` / `closedList.includes` on objects are membership tests on node references.
- Pathfinder.SelectMin: compares costs exactly, while the source compares doubles. `f` is computed as `g + ((√2 + dx) + dy)`, and once the whole part reaches 2047 two costs that are exactly equal can round to different doubles: 2047 + √2 gives 2048.414213562373, while 1919 + ((√2 + 64) + 64) gives 2048.4142135623733. On such a tie the source picks the smaller double wherever it sits in the list, and the model picks the last one. This needs routes of about two thousand steps.
- Pathfinder.FindPath: does not claim the route is shortest. With this heuristic the search is not admissible, and a shortest route is not what the code guarantees.
- The cursor store is not part of this model. Its moves are taken to change the cursor cell by one in the named direction, with up decreasing y.
