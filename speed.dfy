/**
 * Speed progression (src/App.tsx): the score effect lowers the frames-per-move
 * cadence at scores 20, 40 and 60, and the header shows a label for the
 * score's speed tier.
 */
module Speed {
  import opened Constants
  import opened Wrappers

  /** Score interval between two speed-ups. */
  const SPEED_UP_EVERY: int := 20

  /** The last score at which the game speeds up. */
  const LAST_SPEED_UP: int := 60

  const NORMAL_LABEL: string := "Normal Speed"
  const FAST_LABEL: string := "Fast Speed"
  const SUPERSONIC_LABEL: string := "Super-Sonic Speed"
  const TOP_LABEL: string := "BARRY ALLEN"

  /** The score effect's condition for speeding up. */
  predicate SpeedsUpAt(score: int)
  {
    score > 0 && score <= LAST_SPEED_UP && score % SPEED_UP_EVERY == 0
  }

  /** gameTicks once the score effect has run for each score 1..score in turn. */
  function Cadence(score: nat): int
  {
    if score == 0 then GAME_TICKS
    else Cadence(score - 1) - (if SpeedsUpAt(score) then GAME_SPEED_INCREASE else 0)
  }

  /** Number of speed-ups reached at a score. */
  function SpeedUps(score: nat): nat
  {
    (if score < LAST_SPEED_UP then score else LAST_SPEED_UP) / SPEED_UP_EVERY
  }

  /** The cadence drops once per threshold 20, 40, 60 reached, and no further. */
  lemma {:induction false} CadenceClosedForm(score: nat)
    ensures Cadence(score) == GAME_TICKS - GAME_SPEED_INCREASE * SpeedUps(score)
  {
    if score > 0 {
      CadenceClosedForm(score - 1);
      if score <= LAST_SPEED_UP {
        assert SpeedUps(score) == score / SPEED_UP_EVERY;
        assert SpeedUps(score - 1) == (score - 1) / SPEED_UP_EVERY;
        if score % SPEED_UP_EVERY == 0 {
          assert (score - 1) / SPEED_UP_EVERY == score / SPEED_UP_EVERY - 1;
        } else {
          assert (score - 1) / SPEED_UP_EVERY == score / SPEED_UP_EVERY;
        }
      }
    }
  }

  /** The cadence never falls below 5 - 3 = 2, so `count % gameTicks` is always defined. */
  lemma CadencePositive(score: nat)
    ensures Cadence(score) >= GAME_TICKS - 3 * GAME_SPEED_INCREASE
    ensures Cadence(score) > 0
  {
    CadenceClosedForm(score);
  }

  /** The game never slows down as the score grows. */
  lemma CadenceNonIncreasing(a: nat, b: nat)
    requires a <= b
    ensures Cadence(b) <= Cadence(a)
  {
    CadenceClosedForm(a);
    CadenceClosedForm(b);
  }

  /** Cadence at the tier boundaries and past the cap. */
  lemma CadenceExamples()
    ensures Cadence(0) == 5 && Cadence(19) == 5 && Cadence(20) == 4 && Cadence(40) == 3
    ensures Cadence(60) == 2 && Cadence(80) == 2
  {
    CadenceClosedForm(19);
    CadenceClosedForm(20);
    CadenceClosedForm(40);
    CadenceClosedForm(60);
    CadenceClosedForm(80);
  }

  /** getSpeedDescription: `undefined` (None) for a negative score, which never occurs. */
  function SpeedDescription(score: int): Option<string>
  {
    if score >= 0 && score < 20 then Some(NORMAL_LABEL)
    else if score >= 20 && score < 40 then Some(FAST_LABEL)
    else if score >= 40 && score < 60 then Some(SUPERSONIC_LABEL)
    else if score >= 60 then Some(TOP_LABEL)
    else None
  }

  /** Every reachable score has exactly one label, and the label names the speed tier in force. */
  lemma LabelFollowsCadence(score: nat)
    ensures SpeedDescription(score) == Some(NORMAL_LABEL) <==> Cadence(score) == GAME_TICKS
    ensures SpeedDescription(score) == Some(FAST_LABEL) <==> Cadence(score) == GAME_TICKS - GAME_SPEED_INCREASE
    ensures SpeedDescription(score) == Some(SUPERSONIC_LABEL) <==> Cadence(score) == GAME_TICKS - 2 * GAME_SPEED_INCREASE
    ensures SpeedDescription(score) == Some(TOP_LABEL) <==> Cadence(score) == GAME_TICKS - 3 * GAME_SPEED_INCREASE
  {
    CadenceClosedForm(score);
  }

  /** The labels split the non-negative scores at 20, 40 and 60. */
  lemma SpeedLabelPartition(score: int)
    ensures 0 <= score < 20 <==> SpeedDescription(score) == Some(NORMAL_LABEL)
    ensures 20 <= score < 40 <==> SpeedDescription(score) == Some(FAST_LABEL)
    ensures 40 <= score < 60 <==> SpeedDescription(score) == Some(SUPERSONIC_LABEL)
    ensures 60 <= score <==> SpeedDescription(score) == Some(TOP_LABEL)
    ensures score < 0 <==> SpeedDescription(score) == None
  {
  }
}
