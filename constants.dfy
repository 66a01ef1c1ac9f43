/** Configuration values of the game (src/constants/index.tsx). */
module Constants {

  /** Square stage sizes in pixels the layout may choose from, largest first. */
  const VALID_DIMENSIONS: seq<int> := [1600, 800, 400, 200]

  /** Cells per edge of the square board. */
  const CELLS: int := 25

  /** Number of cells on the board. */
  const CELL_COUNT: int := CELLS * CELLS

  /** Frames between two moves of the snake at the start of a game. */
  const GAME_TICKS: int := 5

  /** How much the frames-per-move cadence drops at each speed-up. */
  const GAME_SPEED_INCREASE: int := 1
}

/** The usual optional value, used where the source may produce nothing. */
module Wrappers {

  datatype Option<+T> = None | Some(value: T)
}
