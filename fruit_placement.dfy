/**
 * Fruit placement (src/helpers/getRandomCoords.ts): list every board cell the
 * snake does not occupy, in increasing order, then pick one of them. The
 * random pick is an injected `choice`: any free cell is reachable by some
 * choice, and a full board yields no cell instead of an undefined pick.
 */
module FruitPlacement {
  import opened Constants
  import opened Wrappers

  /** The cells of [0, n) not in snakePos, in the order the loop pushes them. */
  function FreeBelow(snakePos: seq<int>, n: nat): seq<int>
  {
    if n == 0 then []
    else FreeBelow(snakePos, n - 1) + (if n - 1 in snakePos then [] else [n - 1])
  }

  /** The candidate list of the whole board. */
  function FreeCells(snakePos: seq<int>): seq<int>
  {
    FreeBelow(snakePos, CELL_COUNT)
  }

  /** The pick from a candidate list; None when the list is empty. */
  function Pick(cells: seq<int>, choice: nat): (r: Option<int>)
    ensures r.None? <==> cells == []
    ensures r.Some? ==> r.value in cells
  {
    if |cells| == 0 then None else Some(cells[choice % |cells|])
  }

  /** The occupied cells of [0, n): the distinct in-range values of snakePos. */
  function OccupiedBelow(snakePos: seq<int>, n: nat): set<int>
  {
    set c | c in snakePos && 0 <= c < n
  }

  /** A cell is a candidate exactly when it is on [0, n) and not under the snake. */
  lemma {:induction false} FreeBelowMembers(snakePos: seq<int>, n: nat, c: int)
    ensures c in FreeBelow(snakePos, n) <==> 0 <= c < n && c !in snakePos
  {
    if n > 0 {
      FreeBelowMembers(snakePos, n - 1, c);
    }
  }

  /** The candidates lie in [0, n) and are strictly increasing, so there are no duplicates. */
  lemma {:induction false} FreeBelowIncreasing(snakePos: seq<int>, n: nat)
    ensures forall i :: 0 <= i < |FreeBelow(snakePos, n)| ==> 0 <= FreeBelow(snakePos, n)[i] < n
    ensures forall i, j :: 0 <= i < j < |FreeBelow(snakePos, n)| ==> FreeBelow(snakePos, n)[i] < FreeBelow(snakePos, n)[j]
  {
    if n > 0 {
      FreeBelowIncreasing(snakePos, n - 1);
    }
  }

  /** The candidate count is n minus the number of distinct occupied cells below n. */
  lemma {:induction false} FreeBelowCount(snakePos: seq<int>, n: nat)
    ensures |FreeBelow(snakePos, n)| == n - |OccupiedBelow(snakePos, n)|
  {
    if n > 0 {
      FreeBelowCount(snakePos, n - 1);
      if n - 1 in snakePos {
        assert OccupiedBelow(snakePos, n) == OccupiedBelow(snakePos, n - 1) + {n - 1};
      } else {
        assert OccupiedBelow(snakePos, n) == OccupiedBelow(snakePos, n - 1);
      }
    }
  }

  /**
   * getRandomCoords(snakePos), with the random pick as `choice`: the loop
   * builds the candidate list, then one of its cells is chosen.
   */
  method RandomCoords(snakePos: seq<int>, choice: nat) returns (cell: Option<int>)
    ensures cell == Pick(FreeCells(snakePos), choice)
    ensures cell.Some? ==> 0 <= cell.value < CELL_COUNT && cell.value !in snakePos
    ensures cell.None? <==> forall c :: 0 <= c < CELL_COUNT ==> c in snakePos
  {
    var validCells: seq<int> := [];
    var i := 0;
    while i < CELL_COUNT
      invariant 0 <= i <= CELL_COUNT
      invariant validCells == FreeBelow(snakePos, i)
    {
      if i !in snakePos {
        validCells := validCells + [i];
      }
      i := i + 1;
    }
    cell := Pick(validCells, choice);
    if cell.None? {
      forall c | 0 <= c < CELL_COUNT
        ensures c in snakePos
      {
        FreeBelowMembers(snakePos, CELL_COUNT, c);
      }
    } else {
      FreeBelowMembers(snakePos, CELL_COUNT, cell.value);
    }
  }

  /** Every cell of a candidate list is the pick of some choice. */
  lemma PickReaches(cells: seq<int>, c: int)
    requires c in cells
    ensures exists choice: nat :: Pick(cells, choice) == Some(c)
  {
    var k :| 0 <= k < |cells| && cells[k] == c;
    assert k % |cells| == k;
    assert Pick(cells, k) == Some(c);
  }

  /** Every free cell is the pick of some choice. */
  lemma EveryFreeCellReachable(snakePos: seq<int>, c: int)
    requires 0 <= c < CELL_COUNT && c !in snakePos
    ensures exists choice: nat :: Pick(FreeCells(snakePos), choice) == Some(c)
  {
    FreeBelowMembers(snakePos, CELL_COUNT, c);
    PickReaches(FreeCells(snakePos), c);
  }

  /** With exactly one free cell, every choice picks that cell. */
  lemma SingleFreeCell(snakePos: seq<int>, c: int, choice: nat)
    requires 0 <= c < CELL_COUNT && c !in snakePos
    requires forall d :: 0 <= d < CELL_COUNT && d != c ==> d in snakePos
    ensures Pick(FreeCells(snakePos), choice) == Some(c)
  {
    var cells := FreeCells(snakePos);
    FreeBelowMembers(snakePos, CELL_COUNT, c);
    FreeBelowIncreasing(snakePos, CELL_COUNT);
    forall i | 0 <= i < |cells|
      ensures cells[i] == c
    {
      FreeBelowMembers(snakePos, CELL_COUNT, cells[i]);
    }
  }
}
