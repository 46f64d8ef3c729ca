/** The score table, the level rule and the gravity interval. */
module Scoring {

  /** Base points for clearing 1, 2, 3 or 4 rows with one placement. */
  const SCORE_VALUES: seq<int> := [40, 100, 300, 1200]

  /** Seconds between automatic one-row falls at level 1. */
  const BASE_FALL_SPEED: real := 1.0

  /** The level reached after `lines` cleared rows: one more per ten rows. */
  function LevelFor(lines: int): int
  {
    lines / 10 + 1
  }

  /** Points awarded for clearing k rows at once at `level`; nothing when k = 0. */
  function LinePoints(k: int, level: int): (r: int)
    requires 0 <= k <= 4
    ensures level >= 1 ==> (r == 0 <==> k == 0)
    ensures level >= 1 && 0 < k ==> r >= 40 * level
  {
    if k == 0 then 0 else SCORE_VALUES[k - 1] * level
  }

  /** The gravity interval at `level`. The program computes it in binary64 arithmetic;
      here the same formula is evaluated exactly. */
  function FallSpeedFor(level: int): (r: real)
    requires level >= 1
    ensures 0.0 < r <= BASE_FALL_SPEED
  {
    var d := 1.0 + (level - 1) as real * 0.1;
    assert d >= 1.0;
    BASE_FALL_SPEED / d
  }

  /** At level 1 the interval is the base interval. */
  lemma FallSpeedAtLevelOne()
    ensures FallSpeedFor(1) == BASE_FALL_SPEED
  {
    assert 1.0 + (1 - 1) as real * 0.1 == 1.0;
  }

  /** The score deltas for one to four rows at one level: 40, 100, 300 and 1200 times it. */
  lemma ScoreTable(level: int)
    ensures LinePoints(1, level) == 40 * level && LinePoints(2, level) == 100 * level
    ensures LinePoints(3, level) == 300 * level && LinePoints(4, level) == 1200 * level
  {
  }

  /** More cleared rows never lower the level the rule gives. */
  lemma LevelMonotone(lines: int, k: int)
    requires lines >= 0 && k >= 0
    ensures LevelFor(lines) <= LevelFor(lines + k)
  {
  }

  /** The interval strictly shrinks with every level gained. */
  lemma FallSpeedShrinks(l1: int, l2: int)
    requires 1 <= l1 < l2
    ensures FallSpeedFor(l2) < FallSpeedFor(l1)
  {
    var d1 := 1.0 + (l1 - 1) as real * 0.1;
    var d2 := 1.0 + (l2 - 1) as real * 0.1;
    assert 1.0 <= d1 < d2;
    var q1, q2 := BASE_FALL_SPEED / d1, BASE_FALL_SPEED / d2;
    assert q1 * d1 == 1.0 && q2 * d2 == 1.0;
    var a := q2 * d1;
    assert a < 1.0 by { assert q2 * d1 < q2 * d2; }
    var e := (q1 - q2) * d1;
    assert e == 1.0 - a by { assert e == q1 * d1 - q2 * d1; }
    assert e > 0.0;
    assert q2 < q1;
    assert FallSpeedFor(l1) == q1 && FallSpeedFor(l2) == q2;
  }
}
