/**
 * Directions and keyboard input (src/helpers/getNewDirection.ts). A direction
 * is an ordinal: 0 South, 1 West, 2 North, 3 East.
 */
module Direction {

  const SOUTH: int := 0
  const WEST: int := 1
  const NORTH: int := 2
  const EAST: int := 3

  /** The key codes getNewDirection recognises. */
  const DIRECTION_KEYS: set<string> :=
    {"KeyS", "ArrowDown", "KeyA", "ArrowLeft", "KeyW", "ArrowUp", "KeyD", "ArrowRight"}

  predicate IsDirection(d: int)
  {
    0 <= d <= 3
  }

  /**
   * getNewDirection(keyCode, currentDirection): the direction a key asks for,
   * or the current direction for any key that is not a direction key.
   */
  function NewDirection(keyCode: string, currentDirection: int): (r: int)
    ensures keyCode in DIRECTION_KEYS ==> IsDirection(r)
    ensures keyCode !in DIRECTION_KEYS ==> r == currentDirection
  {
    if keyCode == "KeyS" || keyCode == "ArrowDown" then SOUTH
    else if keyCode == "KeyA" || keyCode == "ArrowLeft" then WEST
    else if keyCode == "KeyW" || keyCode == "ArrowUp" then NORTH
    else if keyCode == "KeyD" || keyCode == "ArrowRight" then EAST
    else currentDirection
  }

  function Abs(v: int): int
  {
    if v < 0 then -v else v
  }

  /** The ordinal of the opposite direction. */
  function Reverse(direction: int): int
  {
    (direction + 2) % 4
  }

  /** The key handler's reversal test: two ordinals 2 apart. */
  predicate Opposite(a: int, b: int)
  {
    Abs(a - b) == 2
  }

  /** The key table, whatever the current direction. */
  lemma KeyTable(currentDirection: int)
    ensures NewDirection("KeyS", currentDirection) == SOUTH && NewDirection("ArrowDown", currentDirection) == SOUTH
    ensures NewDirection("KeyA", currentDirection) == WEST && NewDirection("ArrowLeft", currentDirection) == WEST
    ensures NewDirection("KeyW", currentDirection) == NORTH && NewDirection("ArrowUp", currentDirection) == NORTH
    ensures NewDirection("KeyD", currentDirection) == EAST && NewDirection("ArrowRight", currentDirection) == EAST
  {
  }

  /** A direction in, a direction out. */
  lemma NewDirectionInRange(keyCode: string, currentDirection: int)
    requires IsDirection(currentDirection)
    ensures IsDirection(NewDirection(keyCode, currentDirection))
  {
  }

  /** Pressing the same key again changes nothing more. */
  lemma NewDirectionIdempotent(keyCode: string, currentDirection: int)
    ensures NewDirection(keyCode, NewDirection(keyCode, currentDirection)) == NewDirection(keyCode, currentDirection)
  {
  }

  /** On directions, the absolute-difference test means exactly "the reverse ordinal". */
  lemma OppositeIsReverse(a: int, b: int)
    requires IsDirection(a) && IsDirection(b)
    ensures Opposite(a, b) <==> b == Reverse(a)
  {
  }
}
