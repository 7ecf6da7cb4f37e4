/**
 * The cardinal moves the cursor store offers (`goup`, `godown`, `goleft`,
 * `goright`), the decoding of one path step into them, and the playback of
 * a whole path.
 */
module Moves {
  import opened Grid

  datatype Move = Up | Down | Left | Right

  /** The cell the cursor reaches by one move: up is y − 1, down is y + 1. */
  function Step(c: Cell, m: Move): Cell {
    match m
    case Up => Cell(c.x, c.y - 1)
    case Down => Cell(c.x, c.y + 1)
    case Left => Cell(c.x - 1, c.y)
    case Right => Cell(c.x + 1, c.y)
  }

  /** The cell the cursor reaches by a sequence of moves, issued in order. */
  function Apply(c: Cell, ms: seq<Move>): Cell
    decreases |ms|
  {
    if ms == [] then c else Apply(Step(c, ms[0]), ms[1..])
  }

  /** `c` shifted by the displacement from `from` to `to`. */
  function Shift(c: Cell, from: Cell, to: Cell): Cell {
    Cell(c.x + (to.x - from.x), c.y + (to.y - from.y))
  }

  /**
   * The branch chain of the interval tick: the moves issued for the step
   * from `prev` to `next`. A diagonal is two moves, in the order the source
   * issues them (the second one after a 1 ms delay).
   */
  function Decode(prev: Cell, next: Cell): seq<Move> {
    if prev.x < next.x && prev.y < next.y then [Right, Down]
    else if prev.x < next.x && prev.y > next.y then [Up, Right]
    else if prev.x < next.x && prev.y == next.y then [Right]
    else if prev.x > next.x && prev.y < next.y then [Left, Down]
    else if prev.x > next.x && prev.y > next.y then [Up, Left]
    else if prev.x > next.x && prev.y == next.y then [Left]
    else if prev.x == next.x && prev.y < next.y then [Down]
    else if prev.x == next.x && prev.y > next.y then [Up]
    else []
  }

  /** A step within the eight-neighbourhood, or no step at all. */
  predicate WithinOneCell(prev: Cell, next: Cell) {
    prev == next || Adjacent(prev, next)
  }

  lemma {:induction false} ApplyConcat(c: Cell, a: seq<Move>, b: seq<Move>)
    ensures Apply(c, a + b) == Apply(Apply(c, a), b)
    decreases |a|
  {
    if a == [] {
      assert a + b == b;
    } else {
      assert (a + b)[1..] == a[1..] + b;
      ApplyConcat(Step(c, a[0]), a[1..], b);
    }
  }

  /** The moves of one step carry the cursor by exactly that step. */
  lemma DecodeFollowsStep(c: Cell, prev: Cell, next: Cell)
    requires WithinOneCell(prev, next)
    ensures Apply(c, Decode(prev, next)) == Shift(c, prev, next)
  {
    var ms := Decode(prev, next);
    if |ms| == 1 {
      assert ms[1..] == [];
    } else if |ms| == 2 {
      var mid := Step(c, ms[0]);
      assert ms[1..] == [ms[1]] && ms[1..][1..] == [];
      assert Apply(mid, ms[1..]) == Apply(Step(mid, ms[1]), []);
      assert Apply(c, ms) == Step(mid, ms[1]);
    }
  }

  /**
   * One move per axis the step changes: nothing for no step, one move for a
   * cardinal step, two for a diagonal.
   */
  lemma DecodeCount(prev: Cell, next: Cell)
    ensures |Decode(prev, next)| == (if prev.x != next.x then 1 else 0) + (if prev.y != next.y then 1 else 0)
  {
  }

  /**
   * The order of a diagonal's two moves: a diagonal going up issues Up
   * first; a diagonal going down issues the horizontal move first and Down
   * second.
   */
  lemma DiagonalOrder(prev: Cell, next: Cell)
    requires prev.x != next.x && prev.y != next.y
    ensures |Decode(prev, next)| == 2
    ensures next.y < prev.y ==> Decode(prev, next)[0] == Up && Decode(prev, next)[1] in {Left, Right}
    ensures next.y > prev.y ==> Decode(prev, next)[0] in {Left, Right} && Decode(prev, next)[1] == Down
  {
  }

  /** Every path step is within one cell. */
  ghost predicate Stepwise(path: seq<Cell>) {
    forall i :: 0 <= i < |path| - 1 ==> WithinOneCell(path[i], path[i + 1])
  }

  /** The moves a playback of the first `n` cells of `path` issues, step after step. */
  function Playback(path: seq<Cell>, n: nat): seq<Move>
    requires n <= |path|
    decreases n
  {
    if n <= 1 then [] else Playback(path, n - 1) + Decode(path[n - 2], path[n - 1])
  }

  /** Playing the first `n` cells of a path moves the cursor by the displacement from its first to its n-th cell. */
  lemma {:induction false} PlaybackDisplacement(c: Cell, path: seq<Cell>, n: nat)
    requires 1 <= n <= |path| && Stepwise(path)
    ensures Apply(c, Playback(path, n)) == Shift(c, path[0], path[n - 1])
    decreases n
  {
    if n > 1 {
      PlaybackDisplacement(c, path, n - 1);
      ApplyConcat(c, Playback(path, n - 1), Decode(path[n - 2], path[n - 1]));
      DecodeFollowsStep(Apply(c, Playback(path, n - 1)), path[n - 2], path[n - 1]);
    }
  }

  /** A route the pathfinder returns can be played back. */
  lemma RouteIsStepwise(tiles: seq<seq<Tile>>, path: seq<Cell>, s: Cell, t: Cell)
    requires IsRoute(tiles, path, s, t)
    ensures Stepwise(path)
  {
  }
}
