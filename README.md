# Grid snake game: simulation engine in Dafny

This project models the simulation engine of a browser snake game played on a
25 × 25 board. The parts modelled are:

- the movement resolver `getNewPosition`. It splits a flat cell index into a
  column and a row and takes one unit step. The step is negated for a new tail
  segment. It wraps around the edges only for an existing segment when walls
  are off.
- the key table `getNewDirection`, and the Snake component's reversal guard.
- fruit placement `getRandomCoords`. A loop lists the free cells, then one of
  them is picked.
- the stage-size choice `getScreenDimensions`.
- the speed progression and the speed label held by App.
- the game state shared by App, Snake and Fruit, as one class,
  `Game.SnakeGame`. Its fields are `snakePos`, `directions`, `score`,
  `gameTicks`, `count`, `fruitPos`, `paused` and `collideWalls`. Its methods
  are the key handlers, the Snake tick, the Fruit tick, the score effect and
  `endGame`.

A frame is modelled in a fixed order:

1. The Snake tick runs.
2. If the Snake tick lost the game, the frame ends, and its Fruit tick is
   reported as `NotChecked`. The reason is under "## Left out"; see the line on
   React scheduling.
3. Otherwise the Fruit tick runs.
4. If the score changed, the score effect runs.

A paused game runs no frame.

Files and the modules they hold:

- `constants.dfy`: `Constants` holds the configuration values. `Wrappers` holds `Option`.
- `grid_step.dfy`: `GridStep` models `getNewPosition`.
- `direction.dfy`: `Direction` models `getNewDirection` and the opposite test.
- `fruit_placement.dfy`: `FruitPlacement` models `getRandomCoords`.
- `screen.dfy`: `Screen` models `getScreenDimensions`.
- `speed.dfy`: `Speed` models the cadence change in App's score effect and `getSpeedDescription`.
- `game.dfy`: `Game` holds the game state class and the facts about one move.

Modelling choices:

- JavaScript's `%` truncates toward zero. `GridStep.Column` models it
  explicitly with `JsRem`, so a negative index decomposes as in the source.
  `Math.floor(p / 25)` is Dafny's `/`, because the divisor is positive.
- The random pick is an injected `choice: nat`. It selects the free cell at
  position `choice % |free|`. Every free cell is reachable by some choice.
- A full board yields `None`. The Fruit tick then reports `NoSpaceAvailable`
  and changes nothing.
- The window size is the parameter `minDim` of `Screen.ScreenDimension`.
- The JavaScript arrays `snakePos` and `directions.current` grow with `push`.
  They are `seq` fields that the methods reassign.

The fruit is not guaranteed to lie off the snake in two cases:

- After a reset. `endGame` keeps the new fruit off cell 312
  (`Math.floor(CELLS*CELLS/2)`), but the reset snake sits on 337
  (`Math.floor(CELLS*(CELLS/2+1))`). So the reset fruit may land under the head
  (`Game.ResetFruitMayCoverSnake`).
- After growth. The Fruit tick picks the new fruit before the score effect
  appends the new tail, so the appended tail may land on the new fruit
  (`Game.GrowthTailMayCoverFruit`).

The Fruit tick's own contract promises only that the fruit it picks is off the
snake as the snake stands at that moment.

The cadence has no floor of its own. It stops falling after score 60, which
leaves 2 (`Speed.CadencePositive`).

## Model

| member | source | states |
|---|---|---|
| GridStep.JsRem | src/helpers/getNewPosition.ts:16 | The remainder has the dividend's sign, has magnitude below n, and recombines with the truncated quotient into the dividend. |
| GridStep.CellDecomposes | src/helpers/getNewPosition.ts:16-17 | A non-negative index is its row times CELLS plus its column, and the column is in [0, CELLS). |
| GridStep.CellCoordinates | src/helpers/getNewPosition.ts:16-17 | Recombining in-range coordinates and decomposing again gives the same column and row. |
| GridStep.IndexEncodesCoordinates | src/helpers/getNewPosition.ts:41 | The returned index is always y*CELLS + x of the returned x and y. |
| GridStep.WrapStaysOnBoard | src/helpers/getNewPosition.ts:34-41 | With walls off, an existing segment on the board gets x and y in [0, CELLS) and an index in [0, CELLS²). |
| GridStep.MoveStaysOnBoard | src/helpers/getNewPosition.ts:34-41 | A head step that is not a wall hit, in either wall mode, lands on a cell in [0, CELLS²). |
| GridStep.UnitStep | src/helpers/getNewPosition.ts:18-31 | Before wrapping, exactly one coordinate moves, by exactly 1. Directions 0 and 2 move y. Direction 1 and every other value move x. |
| GridStep.NewSegmentStepIsNegated | src/helpers/getNewPosition.ts:19-30 | For the same direction, the new-segment step is the existing-segment step negated. |
| GridStep.NoWrapWithWallsOrNewSegment | src/helpers/getNewPosition.ts:34-39 | With walls on or for a new segment, the raw stepped coordinates are returned unwrapped. |
| GridStep.WallStepLeavesBoard | src/helpers/getNewPosition.ts:18-41 | With walls on, going West from cell 0 returns index -1, x = -1, y = 0, which is off the board. |
| GridStep.WrapEdges | src/helpers/getNewPosition.ts:34-39 | With walls off, the four edges wrap. West from x=0 gives x=CELLS-1. East from x=CELLS-1 gives x=0. South from the last row gives y=0. North from row 0 gives the last row. The other coordinate is kept each time. |
| GridStep.NewSegmentUndoesStep | src/helpers/getNewPosition.ts:18-41 | If a forward step's unwrapped target is on the board, a new-segment step in the same direction from that target returns the original cell. |
| GridStep.OppositeStepRoundTrip | src/helpers/getNewPosition.ts:18-41 | With walls off, for d in 0..3, a step in d followed by a step in the reverse ordinal returns to the starting cell. |
| Direction.NewDirection | src/helpers/getNewDirection.ts:10-31 | A direction key yields a direction in 0..3. Any other key returns the current direction unchanged. |
| Direction.KeyTable | src/helpers/getNewDirection.ts:12-28 | Whatever the current direction: KeyS/ArrowDown give 0, KeyA/ArrowLeft give 1, KeyW/ArrowUp give 2, KeyD/ArrowRight give 3. |
| Direction.NewDirectionInRange | src/helpers/getNewDirection.ts:11-30 | A current direction in 0..3 gives a result in 0..3. |
| Direction.NewDirectionIdempotent | src/helpers/getNewDirection.ts:10-31 | Applying the same key twice gives the same result as applying it once. |
| Direction.OppositeIsReverse | src/entities/Snake.tsx:41 | On directions, an absolute difference of 2 holds exactly when one is the reverse ordinal (d+2) mod 4 of the other. |
| FruitPlacement.Pick | src/helpers/getRandomCoords.ts:19 | The pick is None exactly when the list is empty. Otherwise it is an element of the list. |
| FruitPlacement.FreeBelowMembers | src/helpers/getRandomCoords.ts:14-16 | A cell is a candidate exactly when it is in [0, n) and not in snakePos. |
| FruitPlacement.FreeBelowIncreasing | src/helpers/getRandomCoords.ts:13-17 | The candidates lie in [0, n) and are strictly increasing, so there are no duplicates. |
| FruitPlacement.FreeBelowCount | src/helpers/getRandomCoords.ts:14-17 | The candidate count is n minus the number of distinct values of snakePos in [0, n). |
| FruitPlacement.RandomCoords | src/helpers/getRandomCoords.ts:12-20 | The loop's list is the candidate list, and the result is its pick. A returned cell is in [0, CELLS²) and not in snakePos. There is no cell exactly when the snake covers the board. |
| FruitPlacement.PickReaches | src/helpers/getRandomCoords.ts:19 | Every element of a list is the pick of some choice. |
| FruitPlacement.EveryFreeCellReachable | src/helpers/getRandomCoords.ts:13-19 | Every board cell off the snake is the fruit for some choice. |
| FruitPlacement.SingleFreeCell | src/helpers/getRandomCoords.ts:13-19 | With exactly one free cell, every choice returns that cell. |
| Screen.FirstSmaller | src/helpers/getScreenDimensions.ts:13-15 | A found dimension is in the list and below minDim. Nothing is found exactly when every dimension is at least minDim. On a descending list, the found dimension is the largest one below minDim. |
| Screen.ScreenDimension | src/helpers/getScreenDimensions.ts:11-19 | The result is always an element of VALID_DIMENSIONS. |
| Screen.LargestValidBelow | src/helpers/getScreenDimensions.ts:13-14 | For minDim > 200, the result is the largest valid dimension strictly below minDim. |
| Screen.SmallestWhenNarrow | src/helpers/getScreenDimensions.ts:17-18 | For minDim ≤ 200, the result is 200. |
| Screen.ScreenDimensionMonotone | src/helpers/getScreenDimensions.ts:11-19 | The result is non-decreasing in minDim. |
| Speed.CadenceClosedForm | src/App.tsx:89 | After the score effect has run for scores 1..s, gameTicks is GAME_TICKS minus GAME_SPEED_INCREASE per threshold 20, 40 or 60 reached. |
| Speed.CadencePositive | src/App.tsx:89 | gameTicks never drops below 5 − 3 = 2, so the modulo at src/entities/Snake.tsx:66 is always defined. |
| Speed.CadenceNonIncreasing | src/App.tsx:89 | A higher score never has a larger cadence. |
| Speed.CadenceExamples | src/App.tsx:89 | The cadence is 5 at scores 0 and 19, 4 at 20, 3 at 40, 2 at 60 and still 2 at 80. |
| Speed.LabelFollowsCadence | src/App.tsx:109-114 | Each speed label is shown exactly while the matching cadence is in force. |
| Speed.SpeedLabelPartition | src/App.tsx:109-114 | [0,20) is Normal, [20,40) is Fast, [40,60) is Super-Sonic and ≥ 60 is BARRY ALLEN. A negative score gets no label. |
| Game.Follow | src/entities/Snake.tsx:97-108 | The shifted body has the same length and the new first entry. Every later entry takes its predecessor's old value. |
| Game.CollidesWithBody | src/entities/Snake.tsx:87-92 | The loop reports a hit exactly when the new head cell equals a pre-move position at index ≥ 3. |
| Game.ShortSnakeNeverSelfCollides | src/entities/Snake.tsx:87 | A snake of length ≤ 3 never self-collides. |
| Game.MoveOutcome | src/entities/Snake.tsx:78-92 | A qualifying tick always decides on a move or a collision, never on waiting. |
| Game.StepOntoSegmentThreeLoses | src/entities/Snake.tsx:81-91 | On a snake of 4 or more segments, a head stepping onto segment 3 never moves. Unless it hits a wall, it is a self-collision. |
| Game.AcceptedTurnIsNoReversal | src/entities/Snake.tsx:41-47 | At every length, an accepted turn is never the reverse of the head's direction. On a snake longer than one segment, it is also never the reverse of the second segment's direction. |
| Game.ResetFruitMayCoverSnake | src/App.tsx:102-103 | Some pick puts endGame's new fruit on 337, the reset snake's only cell, because only 312 is excluded. |
| Game.GrowthTailMayCoverFruit | src/App.tsx:84-85 | For some pick, the fruit placed when a one-segment snake eats at 362 facing South is 337. The tail appended there by the score effect is also 337. |
| Game.GrowthExample | src/App.tsx:84-86 | From the start cell: moving South reaches 362. Eating there and appending the new tail gives the body [362, 337]. |
| Game.SnakeGame.constructor | src/App.tsx:24-40 | Initial state: directions [0], snakePos [337], score 0, gameTicks GAME_TICKS, paused, walls on, count 0. The fruit is a pick from the cells other than 337. |
| Game.SnakeGame.TogglePause | src/App.tsx:64-65 | Space flips paused. |
| Game.SnakeGame.ToggleCollideWalls | src/App.tsx:130 | The checkbox flips collideWalls. |
| Game.SnakeGame.HandleKey | src/entities/Snake.tsx:35-48 | While paused nothing changes. Otherwise only directions[0] changes, to the key's direction. A reversal of directions[0], or of directions[1] when the snake is longer than 1, is rejected. |
| Game.SnakeGame.KeyDown | src/entities/Snake.tsx:35-48 | One key press runs the Snake handler on the pre-press pause state, then Space toggles paused. |
| Game.SnakeGame.EndGame | src/App.tsx:98-107 | The reset gives directions [0], gameTicks GAME_TICKS, score 0, snakePos [337] and paused. The fruit is a pick from the cells other than 312. The invariant is restored. |
| Game.SnakeGame.LoseGame | src/entities/Snake.tsx:59-62 | count becomes 0 and the state is the endGame reset. |
| Game.SnakeGame.SnakeTick | src/entities/Snake.tsx:65-112 | Off-cadence: count+1 and nothing else changes. On cadence, a wall hit, checked on the raw x/y, or a hit of a pre-move segment ≥ 3 resets the game with count 0 and no increment. Otherwise pos[0] is the new head, pos[i] and dir[i] take the old pos[i-1] and dir[i-1], dir[0] and the lengths are kept, and count+1. The length of snakePos stays score + 1. |
| Game.SnakeGame.FruitTick | src/entities/Fruit.tsx:25-30 | The snake is only read. Head off the fruit: nothing changes. Head on it: the fruit moves to the chosen free cell, which is off the snake, and the score rises by exactly 1. A full board is reported as NoSpaceAvailable and changes nothing. |
| Game.SnakeGame.OnScoreChanged | src/App.tsx:82-90 | At score s > 0, one segment is appended at getNewPosition(directions[s-1], snakePos[s-1], collideWalls, true), where s-1 is the tail, with direction directions[s-1]. gameTicks drops by GAME_SPEED_INCREASE exactly at 20, 40 and 60. snakePos and directions both have length score + 1 again. |
| Game.SnakeGame.Frame | src/entities/Snake.tsx:65-112 | Composes the Snake tick with the Fruit tick (src/entities/Fruit.tsx:25-30) and the score effect (src/App.tsx:82-90). A paused game changes nothing, and exactly a paused game reports Stopped. The Fruit tick is reported NotChecked exactly when the Snake tick lost. A frame keeps the invariant. Eating adds exactly one point and one segment. |

## Left out

- Rendering is not modelled: sprites, the stage, text, pixel coordinates, rotations and the image and text sizes are presentation and floating point.
- Event wiring is not modelled: `addEventListener`/`removeEventListener`, the resize listener, and the `setTimeout` that starts and stops the application. They are host I/O and scheduling. Pausing is the boolean `paused`, and a paused game runs no frame.
- React scheduling is not modelled. State setters run asynchronously, effects are scheduled, and `useTick` callbacks are ordered by the framework. The fixed frame order above replaces all three. A frame that loses the game runs no Fruit tick. The losing Snake tick writes nothing before `lostGame`, so a Fruit tick in the same frame would see the head and fruit from before the frame, which the previous frame already checked. Running the Fruit tick on the reset state instead could wrongly eat a reset fruit at 337.
- The random-js library is not modelled. Its `pick` is replaced by the injected `choice`. Its behaviour on an empty list is not part of this model; it is replaced by the explicit `NoSpaceAvailable` outcome, which keeps the old fruit and score.
- The window size is not read. `Math.min(window.innerWidth, innerHeight)` is the parameter `minDim`.
- JavaScript numbers are doubles; the model uses unbounded integers, which agree with them for every value the game can reach.
- The high score does not appear in the modelled files, so it is not modelled.
- Game.SnakeGame.Frame: states the invariant, the paused case and the growth by one segment. The exact new state is stated by the three tick methods it calls, not by Frame itself.
- Game.MoveOutcome: its own contract only rules out waiting. The decision it computes is what `SnakeTick`'s contract relates to the new state.
