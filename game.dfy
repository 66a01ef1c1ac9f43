/**
 * The per-frame game state machine: the state App holds (src/App.tsx), the
 * Snake component's key handler and move tick (src/entities/Snake.tsx) and
 * the Fruit component's eat tick (src/entities/Fruit.tsx), as one object.
 * A frame runs the Snake tick, then the Fruit tick, then the score effect
 * when the score changed.
 */
module Game {
  import opened Constants
  import opened Wrappers
  import opened GridStep
  import opened Direction
  import opened FruitPlacement
  import opened Speed

  /** `Math.floor(CELLS * ((CELLS / 2) + 1))`: the cell a new snake starts on, 337. */
  const START_CELL: int := CELLS * (CELLS + 2) / 2

  /** `Math.floor(CELLS * CELLS / 2)`: the only cell endGame keeps the new fruit off, 312. */
  const RESET_FRUIT_EXCLUDED: int := CELL_COUNT / 2

  /** The first body index the new head is compared against. */
  const SELF_COLLISION_FROM: int := 3

  /** What one Snake tick did. */
  datatype SnakeOutcome = Waited | Moved | WallCollision | SelfCollision

  /** What one Fruit tick did; NoSpaceAvailable is a full board, NotChecked a frame whose Fruit tick did not run. */
  datatype FruitOutcome = NotEaten | Eaten | NoSpaceAvailable | NotChecked

  /** What one frame did: nothing while the game is stopped. */
  datatype FrameOutcome = Stopped | Ran(move: SnakeOutcome, meal: FruitOutcome)

  /** The body shift: the first entry is replaced and every other takes its predecessor's old value. */
  function Follow(s: seq<int>, first: int): (r: seq<int>)
    requires |s| >= 1
    ensures |r| == |s| && r[0] == first
    ensures forall i :: 1 <= i < |s| ==> r[i] == s[i - 1]
  {
    [first] + s[..|s| - 1]
  }

  /** The new head cell matches a pre-move position at index 3 or later. */
  predicate HitsBody(cell: int, snakePos: seq<int>)
  {
    exists j :: SELF_COLLISION_FROM <= j < |snakePos| && snakePos[j] == cell
  }

  /** The self-collision loop of the Snake tick. */
  method CollidesWithBody(cell: int, snakePos: seq<int>) returns (hit: bool)
    ensures hit == HitsBody(cell, snakePos)
  {
    var j := SELF_COLLISION_FROM;
    while j < |snakePos|
      invariant SELF_COLLISION_FROM <= j
      invariant forall k :: SELF_COLLISION_FROM <= k < j && k < |snakePos| ==> snakePos[k] != cell
    {
      if snakePos[j] == cell {
        return true;
      }
      j := j + 1;
    }
    return false;
  }

  /** A snake of three segments or fewer can never run into itself. */
  lemma ShortSnakeNeverSelfCollides(cell: int, snakePos: seq<int>)
    requires |snakePos| <= SELF_COLLISION_FROM
    ensures !HitsBody(cell, snakePos)
  {
  }

  /** What a qualifying tick does, decided on the state before any write. */
  function MoveOutcome(snakePos: seq<int>, directions: seq<int>, collideWalls: bool): (r: SnakeOutcome)
    requires |snakePos| >= 1 && |directions| >= 1
    ensures r != Waited
  {
    var target := NewPosition(directions[0], snakePos[0], collideWalls, false);
    if collideWalls && OffBoard(target) then WallCollision
    else if HitsBody(target.index, snakePos) then SelfCollision
    else Moved
  }

  /** A snake of four or more segments whose head steps onto segment 3 loses, on a wall or on itself. */
  lemma StepOntoSegmentThreeLoses(snakePos: seq<int>, directions: seq<int>, collideWalls: bool)
    requires |snakePos| > SELF_COLLISION_FROM && |directions| >= 1
    requires NewPosition(directions[0], snakePos[0], collideWalls, false).index == snakePos[SELF_COLLISION_FROM]
    ensures MoveOutcome(snakePos, directions, collideWalls) != Moved
    ensures !(collideWalls && OffBoard(NewPosition(directions[0], snakePos[0], collideWalls, false))) ==>
      MoveOutcome(snakePos, directions, collideWalls) == SelfCollision
  {
    assert snakePos[SELF_COLLISION_FROM] == NewPosition(directions[0], snakePos[0], collideWalls, false).index;
  }

  /** The key handler's guard: the turn reverses the head, or the segment behind it. */
  predicate RejectsTurn(directions: seq<int>, newDirection: int)
    requires |directions| >= 1
  {
    Opposite(directions[0], newDirection) || (|directions| > 1 && Opposite(directions[1], newDirection))
  }

  /** An accepted turn never reverses the head, nor, on a longer snake, the segment behind it. */
  lemma AcceptedTurnIsNoReversal(directions: seq<int>, newDirection: int)
    requires |directions| >= 1 && (forall i :: 0 <= i < |directions| ==> IsDirection(directions[i]))
    requires IsDirection(newDirection)
    requires !RejectsTurn(directions, newDirection)
    ensures newDirection != Reverse(directions[0])
    ensures |directions| > 1 ==> newDirection != Reverse(directions[1])
  {
    OppositeIsReverse(directions[0], newDirection);
    if |directions| > 1 {
      OppositeIsReverse(directions[1], newDirection);
    }
  }

  /** endGame's new fruit may land under the reset snake's head: only cell 312 is kept free. */
  lemma ResetFruitMayCoverSnake()
    ensures exists choice: nat :: Pick(FreeCells([RESET_FRUIT_EXCLUDED]), choice) == Some(START_CELL)
  {
    EveryFreeCellReachable([RESET_FRUIT_EXCLUDED], START_CELL);
  }

  /**
   * Growth from the start cell, in either wall mode: moving South to 362,
   * eating the fruit there and appending the new tail gives the body [362, 337].
   */
  lemma GrowthExample(collideWalls: bool)
    ensures NewPosition(SOUTH, START_CELL, collideWalls, false).index == 362
    ensures Follow([START_CELL], 362) + [NewPosition(SOUTH, 362, collideWalls, true).index] == [362, START_CELL]
  {
  }

  /**
   * The fruit placed when a fruit is eaten is picked before the score effect
   * appends the new tail, so the new tail may land on it: a one-segment snake
   * eating at 362 while facing South may get its new fruit at 337, exactly
   * where the appended tail goes.
   */
  lemma GrowthTailMayCoverFruit(collideWalls: bool)
    ensures NewPosition(SOUTH, 362, collideWalls, true).index == START_CELL
    ensures exists choice: nat :: Pick(FreeCells([362]), choice) == Some(START_CELL)
  {
    EveryFreeCellReachable([362], START_CELL);
  }

  class SnakeGame {
    /** Cell of each segment, head first. */
    var snakePos: seq<int>
    /** Direction each segment last moved in, head first; only the head's is set by keys. */
    var directions: seq<int>
    var score: nat
    /** Frames per move. */
    var gameTicks: int
    /** The Snake component's frame counter. */
    var count: nat
    var fruitPos: int
    var paused: bool
    var collideWalls: bool

    /** What holds between any two operations. */
    ghost predicate Inv()
      reads this
    {
      && |snakePos| >= 1 && |directions| == |snakePos|
      && 0 <= snakePos[0] < CELL_COUNT
      && (forall i :: 0 <= i < |directions| ==> IsDirection(directions[i]))
      && 0 <= fruitPos < CELL_COUNT
      && gameTicks > 0
    }

    /** Between frames: one segment per fruit eaten plus the head, and the cadence of the score. */
    ghost predicate Valid()
      reads this
    {
      Inv() && |snakePos| == score + 1 && gameTicks == Cadence(score)
    }

    /** Just after a fruit is eaten, before the score effect appends the new segment. */
    ghost predicate GrowthDue()
      reads this
    {
      Inv() && score >= 1 && |snakePos| == score && gameTicks == Cadence(score - 1)
    }

    /** The state endGame leaves, its fruit picked by `choice`. */
    ghost predicate IsReset(choice: nat)
      reads this
    {
      && directions == [SOUTH] && gameTicks == GAME_TICKS && score == 0
      && snakePos == [START_CELL] && paused
      && Pick(FreeCells([RESET_FRUIT_EXCLUDED]), choice) == Some(fruitPos)
    }

    /** App's initial state; the first fruit is picked off the start cell by `choice`. */
    constructor (choice: nat)
      ensures Valid()
      ensures directions == [SOUTH] && snakePos == [START_CELL] && score == 0 && gameTicks == GAME_TICKS
      ensures paused && collideWalls && count == 0
      ensures Pick(FreeCells([START_CELL]), choice) == Some(fruitPos) && fruitPos != START_CELL
    {
      var fruit := RandomCoords([START_CELL], choice);
      assert 0 !in [START_CELL];
      gameTicks := GAME_TICKS;
      paused := true;
      collideWalls := true;
      directions := [SOUTH];
      score := 0;
      snakePos := [START_CELL];
      fruitPos := fruit.value;
      count := 0;
    }

    /** The Space key: start or pause. */
    method TogglePause()
      requires Valid()
      modifies this`paused
      ensures Valid()
      ensures paused == !old(paused)
    {
      paused := !paused;
    }

    /** The "Collide with walls" checkbox. */
    method ToggleCollideWalls()
      requires Valid()
      modifies this`collideWalls
      ensures Valid()
      ensures collideWalls == !old(collideWalls)
    {
      collideWalls := !collideWalls;
    }

    /**
     * The Snake component's key handler: while running, turn the head unless the
     * turn reverses the head or, on a longer snake, the segment behind it.
     */
    method HandleKey(keyCode: string)
      requires Valid()
      modifies this`directions
      ensures Valid()
      ensures var turn := NewDirection(keyCode, old(directions)[0]);
        directions == if !paused && !RejectsTurn(old(directions), turn) then old(directions)[0 := turn] else old(directions)
    {
      if !paused {
        var newDirection := NewDirection(keyCode, directions[0]);
        if Abs(directions[0] - newDirection) == 2 {
          return;
        }
        if |directions| > 1 && Abs(directions[1] - newDirection) == 2 {
          return;
        }
        NewDirectionInRange(keyCode, directions[0]);
        directions := directions[0 := newDirection];
      }
    }

    /**
     * One key press reaches both listeners, each with the paused flag as it was
     * before the press: the Snake handler, then App's pause toggle.
     */
    method KeyDown(keyCode: string)
      requires Valid()
      modifies this`directions, this`paused
      ensures Valid()
      ensures var turn := NewDirection(keyCode, old(directions)[0]);
        directions == if !old(paused) && !RejectsTurn(old(directions), turn) then old(directions)[0 := turn] else old(directions)
      ensures paused == if keyCode == "Space" then !old(paused) else old(paused)
    {
      HandleKey(keyCode);
      if keyCode == "Space" {
        TogglePause();
      }
    }

    /** endGame: reset the snake, score and speed, place a new fruit and pause. */
    method EndGame(choice: nat)
      modifies this`directions, this`gameTicks, this`score, this`snakePos, this`fruitPos, this`paused
      ensures Valid() && IsReset(choice)
    {
      directions := [SOUTH];
      gameTicks := GAME_TICKS;
      score := 0;
      snakePos := [START_CELL];
      var fruit := RandomCoords([RESET_FRUIT_EXCLUDED], choice);
      assert 0 !in [RESET_FRUIT_EXCLUDED];
      fruitPos := fruit.value;
      paused := true;
    }

    /** lostGame: clear the frame counter, then endGame. */
    method LoseGame(choice: nat)
      modifies this`count, this`directions, this`gameTicks, this`score, this`snakePos, this`fruitPos, this`paused
      ensures Valid() && IsReset(choice) && count == 0
    {
      count := 0;
      EndGame(choice);
    }

    /**
     * The Snake component's tick. On every gameTicks-th frame the head steps in
     * its direction; a wall or body hit loses the game before anything is
     * written, otherwise the body follows. A lost game skips the counter increment.
     */
    method SnakeTick(choice: nat) returns (outcome: SnakeOutcome)
      requires Valid()
      modifies this`count, this`directions, this`gameTicks, this`score, this`snakePos, this`fruitPos, this`paused
      ensures Valid()
      ensures old(count) % old(gameTicks) != 0 ==>
        && outcome == Waited && count == old(count) + 1
        && snakePos == old(snakePos) && directions == old(directions)
        && score == old(score) && gameTicks == old(gameTicks) && fruitPos == old(fruitPos) && paused == old(paused)
      ensures old(count) % old(gameTicks) == 0 ==> outcome == MoveOutcome(old(snakePos), old(directions), collideWalls)
      ensures outcome == Moved ==>
        && snakePos == Follow(old(snakePos), NewPosition(old(directions)[0], old(snakePos)[0], collideWalls, false).index)
        && directions == Follow(old(directions), old(directions)[0])
        && count == old(count) + 1
        && score == old(score) && gameTicks == old(gameTicks) && fruitPos == old(fruitPos) && paused == old(paused)
      ensures outcome == WallCollision || outcome == SelfCollision ==> IsReset(choice) && count == 0
    {
      if count % gameTicks == 0 {
        ghost var oldPos, oldDirs := snakePos, directions;
        var lastPos := snakePos[0];
        var lastDirec := directions[0];
        var target := NewPosition(directions[0], snakePos[0], collideWalls, false);
        if collideWalls && (target.x > CELLS - 1 || target.x < 0 || target.y > CELLS - 1 || target.y < 0) {
          LoseGame(choice);
          return WallCollision;
        }
        var hit := CollidesWithBody(target.index, snakePos);
        if hit {
          LoseGame(choice);
          return SelfCollision;
        }
        MoveStaysOnBoard(oldDirs[0], oldPos[0], collideWalls);
        snakePos := snakePos[0 := target.index];
        var index := 1;
        while index < |snakePos|
          invariant 1 <= index <= |snakePos|
          invariant |snakePos| == |oldPos| && |directions| == |oldDirs|
          invariant snakePos[0] == target.index && directions[0] == oldDirs[0]
          invariant forall i :: 1 <= i < index ==> snakePos[i] == oldPos[i - 1] && directions[i] == oldDirs[i - 1]
          invariant forall i :: index <= i < |snakePos| ==> snakePos[i] == oldPos[i] && directions[i] == oldDirs[i]
          invariant lastPos == oldPos[index - 1] && lastDirec == oldDirs[index - 1]
          invariant score == old(score) && gameTicks == old(gameTicks) && fruitPos == old(fruitPos)
          invariant paused == old(paused) && count == old(count)
        {
          var newPos := lastPos;
          var newDirec := lastDirec;
          lastPos := snakePos[index];
          lastDirec := directions[index];
          snakePos := snakePos[index := newPos];
          directions := directions[index := newDirec];
          index := index + 1;
        }
        assert snakePos == Follow(oldPos, target.index);
        assert directions == Follow(oldDirs, oldDirs[0]);
        outcome := Moved;
      } else {
        outcome := Waited;
      }
      count := count + 1;
    }

    /**
     * The Fruit component's tick, run on every frame: a head on the fruit
     * moves the fruit to a free cell picked by `choice` and adds one point.
     */
    method FruitTick(choice: nat) returns (outcome: FruitOutcome)
      requires Valid()
      modifies this`fruitPos, this`score
      ensures old(snakePos[0]) != old(fruitPos) ==> outcome == NotEaten && fruitPos == old(fruitPos) && score == old(score)
      ensures old(snakePos[0]) == old(fruitPos) ==>
        match Pick(FreeCells(snakePos), choice)
        case None => outcome == NoSpaceAvailable && fruitPos == old(fruitPos) && score == old(score)
        case Some(c) => outcome == Eaten && fruitPos == c && score == old(score) + 1
      ensures outcome == Eaten ==> GrowthDue() && fruitPos !in snakePos
      ensures outcome != Eaten ==> Valid()
      ensures outcome != NotChecked
    {
      outcome := NotEaten;
      if snakePos[0] == fruitPos {
        var fruit := RandomCoords(snakePos, choice);
        if fruit.None? {
          return NoSpaceAvailable;
        }
        fruitPos := fruit.value;
        score := score + 1;
        outcome := Eaten;
      }
    }

    /**
     * App's score effect: on a positive score, append a segment behind the
     * tail (a new-segment step from it in its own direction), and at scores
     * 20, 40 and 60 lower the cadence.
     */
    method OnScoreChanged()
      requires GrowthDue() || (Valid() && score == 0)
      modifies this`snakePos, this`directions, this`gameTicks
      ensures Valid()
      ensures old(score) == 0 ==> snakePos == old(snakePos) && directions == old(directions) && gameTicks == old(gameTicks)
      ensures old(score) > 0 ==>
        && snakePos == old(snakePos) + [NewPosition(old(directions)[score - 1], old(snakePos)[score - 1], collideWalls, true).index]
        && directions == old(directions) + [old(directions)[score - 1]]
        && gameTicks == old(gameTicks) - (if SpeedsUpAt(score) then GAME_SPEED_INCREASE else 0)
    {
      if score > 0 {
        var grown := NewPosition(directions[score - 1], snakePos[score - 1], collideWalls, true);
        snakePos := snakePos + [grown.index];
        directions := directions + [directions[score - 1]];
      }
      if score > 0 && score <= LAST_SPEED_UP && score % SPEED_UP_EVERY == 0 {
        gameTicks := gameTicks - GAME_SPEED_INCREASE;
      }
      CadencePositive(score);
    }

    /**
     * One frame of the running game: the Snake tick, then (unless the game was
     * just lost, which stops the application) the Fruit tick, then the score
     * effect if the score changed. A paused game runs no frame.
     */
    method Frame(choice: nat) returns (outcome: FrameOutcome)
      requires Valid()
      modifies this`count, this`directions, this`gameTicks, this`score, this`snakePos, this`fruitPos, this`paused
      ensures Valid()
      ensures old(paused) <==> outcome == Stopped
      ensures old(paused) ==> unchanged(this)
      ensures outcome.Ran? ==> (outcome.meal == NotChecked <==> outcome.move == WallCollision || outcome.move == SelfCollision)
      ensures outcome.Ran? && outcome.meal == Eaten ==> score == old(score) + 1 && |snakePos| == old(|snakePos|) + 1
      ensures outcome.Ran? && outcome.meal != Eaten ==> |snakePos| == old(|snakePos|) || snakePos == [START_CELL]
    {
      if paused {
        return Stopped;
      }
      var move := SnakeTick(choice);
      if move == WallCollision || move == SelfCollision {
        return Ran(move, NotChecked);
      }
      var before := score;
      var meal := FruitTick(choice);
      if score != before {
        OnScoreChanged();
      }
      return Ran(move, meal);
    }
  }
}
