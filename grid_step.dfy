/**
 * The movement resolver (src/helpers/getNewPosition.ts): decomposes a flat
 * cell index into a column and a row, takes one unit step in a direction and,
 * only for an existing segment on a board without walls, wraps the result
 * around the opposite edge.
 */
module GridStep {
  import opened Constants
  import opened Direction

  /** The `[index, x, y]` triple getNewPosition returns. */
  datatype Resolved = Resolved(index: int, x: int, y: int)

  /** JavaScript's `%`: the remainder takes the sign of the dividend. */
  function JsRem(a: int, n: int): (r: int)
    requires n > 0
    ensures a >= 0 ==> 0 <= r < n
    ensures a < 0 ==> -n < r <= 0
    ensures a == (if a >= 0 then a / n else -((-a) / n)) * n + r
  {
    if a >= 0 then a % n else -((-a) % n)
  }

  /** `currentPos % CELLS`. */
  function Column(pos: int): int
  {
    JsRem(pos, CELLS)
  }

  /** `Math.floor(currentPos / CELLS)`; for a positive divisor Dafny's `/` rounds down too. */
  function Row(pos: int): int
  {
    pos / CELLS
  }

  /** Horizontal part of the unit step; directions other than 0, 1 and 2 act as East. */
  function StepX(direction: int, newSegment: bool): int
  {
    if direction == 0 || direction == 2 then 0
    else if direction == 1 then (if newSegment then 1 else -1)
    else (if newSegment then -1 else 1)
  }

  /** Vertical part of the unit step (rows grow southwards). */
  function StepY(direction: int, newSegment: bool): int
  {
    if direction == 0 then (if newSegment then -1 else 1)
    else if direction == 2 then (if newSegment then 1 else -1)
    else 0
  }

  /** The two wrap tests, for one coordinate: past the last cell goes to 0, before 0 goes to the last cell. */
  function Wrap(v: int): int
  {
    if v > CELLS - 1 then 0 else if v < 0 then CELLS - 1 else v
  }

  /** getNewPosition(direction, currentPos, collideWalls, newSegment). */
  function NewPosition(direction: int, currentPos: int, collideWalls: bool, newSegment: bool): Resolved
  {
    var rawX := Column(currentPos) + StepX(direction, newSegment);
    var rawY := Row(currentPos) + StepY(direction, newSegment);
    var wraps := !newSegment && !collideWalls;
    var x := if wraps then Wrap(rawX) else rawX;
    var y := if wraps then Wrap(rawY) else rawY;
    Resolved(y * CELLS + x, x, y)
  }

  /** True when the returned coordinates lie off the board (the caller's wall test). */
  predicate OffBoard(r: Resolved)
  {
    r.x > CELLS - 1 || r.x < 0 || r.y > CELLS - 1 || r.y < 0
  }

  /** A cell given by in-range coordinates decomposes back into them. */
  lemma CellCoordinates(x: int, y: int)
    requires 0 <= x < CELLS && 0 <= y
    ensures Column(y * CELLS + x) == x && Row(y * CELLS + x) == y
  {
  }

  /** A cell index on or past the first row is its row times CELLS plus its column. */
  lemma CellDecomposes(pos: int)
    requires 0 <= pos
    ensures pos == Row(pos) * CELLS + Column(pos) && 0 <= Column(pos) < CELLS
  {
  }

  /** The returned index is always the row-major encoding of the returned coordinates. */
  lemma IndexEncodesCoordinates(direction: int, pos: int, collideWalls: bool, newSegment: bool)
    ensures var r := NewPosition(direction, pos, collideWalls, newSegment);
      r.index == r.y * CELLS + r.x
  {
  }

  /** In wrap mode an existing segment on the board stays on the board. */
  lemma WrapStaysOnBoard(direction: int, pos: int)
    requires 0 <= pos < CELL_COUNT
    ensures var r := NewPosition(direction, pos, false, false);
      0 <= r.x < CELLS && 0 <= r.y < CELLS && 0 <= r.index < CELL_COUNT
  {
  }

  /** A step that is not fatal leaves the head on the board, whichever wall mode is on. */
  lemma MoveStaysOnBoard(direction: int, pos: int, collideWalls: bool)
    requires 0 <= pos < CELL_COUNT
    requires var r := NewPosition(direction, pos, collideWalls, false);
      !(collideWalls && OffBoard(r))
    ensures 0 <= NewPosition(direction, pos, collideWalls, false).index < CELL_COUNT
  {
    if !collideWalls {
      WrapStaysOnBoard(direction, pos);
    }
  }

  /**
   * Before wrapping exactly one coordinate moves, by exactly one: directions
   * 0 and 2 move the row, 1 and every other value the column.
   */
  lemma UnitStep(direction: int, newSegment: bool)
    ensures direction == 0 || direction == 2 ==>
      StepX(direction, newSegment) == 0 && (StepY(direction, newSegment) == 1 || StepY(direction, newSegment) == -1)
    ensures direction != 0 && direction != 2 ==>
      StepY(direction, newSegment) == 0 && (StepX(direction, newSegment) == 1 || StepX(direction, newSegment) == -1)
  {
  }

  /** The new-segment step is the existing-segment step negated. */
  lemma NewSegmentStepIsNegated(direction: int)
    ensures StepX(direction, true) == -StepX(direction, false)
    ensures StepY(direction, true) == -StepY(direction, false)
  {
  }

  /**
   * With walls on, or for a new segment, nothing is wrapped: the raw
   * coordinates come back, possibly -1 or CELLS.
   */
  lemma NoWrapWithWallsOrNewSegment(direction: int, pos: int, collideWalls: bool, newSegment: bool)
    requires collideWalls || newSegment
    ensures var r := NewPosition(direction, pos, collideWalls, newSegment);
      r.x == Column(pos) + StepX(direction, newSegment) && r.y == Row(pos) + StepY(direction, newSegment)
  {
  }

  /** Leaving the board westwards from the top-left cell with walls on gives x = -1. */
  lemma WallStepLeavesBoard()
    ensures NewPosition(1, 0, true, false) == Resolved(-1, -1, 0)
    ensures OffBoard(NewPosition(1, 0, true, false))
  {
  }

  /** The four wrap edges of a board without walls; the other coordinate is kept. */
  lemma WrapEdges(direction: int, pos: int)
    requires 0 <= pos < CELL_COUNT
    ensures var r := NewPosition(direction, pos, false, false);
      (direction == 1 && Column(pos) == 0 ==> r.x == CELLS - 1 && r.y == Row(pos))
      && (direction != 0 && direction != 1 && direction != 2 && Column(pos) == CELLS - 1 ==> r.x == 0 && r.y == Row(pos))
      && (direction == 0 && Row(pos) == CELLS - 1 ==> r.y == 0 && r.x == Column(pos))
      && (direction == 2 && Row(pos) == 0 ==> r.y == CELLS - 1 && r.x == Column(pos))
  {
  }

  /**
   * A forward step whose unwrapped target is on the board is undone by a new-segment step
   * in the same direction from the cell it reached: growth places the new
   * tail where the old tail came from.
   */
  lemma NewSegmentUndoesStep(direction: int, pos: int, collideWalls: bool)
    requires 0 <= pos < CELL_COUNT
    requires 0 <= Column(pos) + StepX(direction, false) < CELLS
    requires 0 <= Row(pos) + StepY(direction, false) < CELLS
    ensures NewPosition(direction, NewPosition(direction, pos, collideWalls, false).index, collideWalls, true).index == pos
  {
    var r := NewPosition(direction, pos, collideWalls, false);
    CellDecomposes(pos);
    assert r.x == Column(pos) + StepX(direction, false) && r.y == Row(pos) + StepY(direction, false);
    CellCoordinates(r.x, r.y);
    var back := NewPosition(direction, r.index, collideWalls, true);
    NewSegmentStepIsNegated(direction);
    assert back.x == Column(pos) && back.y == Row(pos);
  }

  /** In wrap mode a step followed by a step in the opposite direction returns to the start. */
  lemma OppositeStepRoundTrip(direction: int, pos: int)
    requires 0 <= direction <= 3
    requires 0 <= pos < CELL_COUNT
    ensures NewPosition(Reverse(direction), NewPosition(direction, pos, false, false).index, false, false).index == pos
  {
    var r := NewPosition(direction, pos, false, false);
    WrapStaysOnBoard(direction, pos);
    CellCoordinates(r.x, r.y);
    CellCoordinates(Column(pos), Row(pos));
  }
}
