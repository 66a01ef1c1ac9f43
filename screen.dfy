/**
 * Stage size selection (src/helpers/getScreenDimensions.ts): the first, and
 * so the largest, valid dimension strictly below the smaller side of the
 * window, or the smallest valid dimension when none is. The window's smaller
 * side is a parameter.
 */
module Screen {
  import opened Constants
  import opened Wrappers

  predicate Descending(dims: seq<int>)
  {
    forall i, j :: 0 <= i < j < |dims| ==> dims[i] > dims[j]
  }

  /** The `for…of` search with its early return. */
  function FirstSmaller(dims: seq<int>, minDim: int): (r: Option<int>)
    ensures r.Some? ==> r.value in dims && r.value < minDim
    ensures r.None? <==> forall i :: 0 <= i < |dims| ==> minDim <= dims[i]
    ensures r.Some? && Descending(dims) ==> forall i :: 0 <= i < |dims| && dims[i] < minDim ==> dims[i] <= r.value
  {
    if |dims| == 0 then None
    else if minDim > dims[0] then Some(dims[0])
    else FirstSmaller(dims[1..], minDim)
  }

  /** getScreenDimensions, given min(innerWidth, innerHeight). */
  function ScreenDimension(minDim: int): (r: int)
    ensures r in VALID_DIMENSIONS
  {
    match FirstSmaller(VALID_DIMENSIONS, minDim)
    case Some(d) => d
    case None => VALID_DIMENSIONS[|VALID_DIMENSIONS| - 1]
  }

  /** Above the smallest size, the result is the largest valid size strictly below minDim. */
  lemma LargestValidBelow(minDim: int)
    requires minDim > 200
    ensures ScreenDimension(minDim) < minDim
    ensures forall d :: d in VALID_DIMENSIONS && d < minDim ==> d <= ScreenDimension(minDim)
  {
    assert Descending(VALID_DIMENSIONS);
    assert FirstSmaller(VALID_DIMENSIONS, minDim).Some? by {
      assert VALID_DIMENSIONS[3] == 200;
    }
  }

  /** A window of 200 pixels or less gets the smallest size, 200. */
  lemma SmallestWhenNarrow(minDim: int)
    requires minDim <= 200
    ensures ScreenDimension(minDim) == 200
  {
  }

  /** A larger window never gets a smaller stage. */
  lemma ScreenDimensionMonotone(a: int, b: int)
    requires a <= b
    ensures ScreenDimension(a) <= ScreenDimension(b)
  {
    if a > 200 {
      LargestValidBelow(a);
      LargestValidBelow(b);
    } else {
      SmallestWhenNarrow(a);
    }
  }
}
