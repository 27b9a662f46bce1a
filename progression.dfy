/**
 * The progression rules: the reward per clear, the level reached after a
 * number of cleared lines and the gravity interval of a level.
 */
module Progression {

  /** Points for clearing 0, 1, 2, 3 or 4 lines at once, before scaling by level. */
  const Rewards: seq<nat> := [0, 100, 300, 500, 800]

  /** Points for clearing `lines` lines at `level`. */
  function Points(lines: nat, level: nat): (pts: nat)
    requires lines < |Rewards|
    ensures (pts == 0) == (lines == 0 || level == 0)
    ensures lines == 1 ==> pts == 100 * level
    ensures lines == 4 ==> pts == 800 * level
    ensures pts >= 100 * lines * level
  {
    Rewards[lines] * level
  }

  /** The level after `linesCleared` lines: one more every ten lines. */
  function LevelFor(linesCleared: nat): (level: nat)
    ensures level >= 1 && 10 * (level - 1) <= linesCleared < 10 * level
  {
    linesCleared / 10 + 1
  }

  /** The gravity interval of a level, in milliseconds: 100 ms faster per level, never under 100 ms. */
  function IntervalFor(level: nat): (ms: int)
    requires level >= 1
    ensures 100 <= ms <= 1000
    ensures ms == 100 <==> level >= 10
  {
    if 1000 - (level - 1) * 100 > 100 then 1000 - (level - 1) * 100 else 100
  }

  /** Clearing more lines never lowers the level, and a higher level never has a longer interval. */
  lemma LevelMonotone(a: nat, b: nat)
    requires a <= b
    ensures LevelFor(a) <= LevelFor(b)
    ensures IntervalFor(LevelFor(b)) <= IntervalFor(LevelFor(a))
  {
  }

  /**
   * The level update applied after a clear (raise the level only when the
   * formula gives a higher one) keeps the level equal to the formula.
   */
  lemma LevelUpdateKeepsFormula(level: nat, linesCleared: nat, lines: nat)
    requires level == LevelFor(linesCleared)
    ensures (if LevelFor(linesCleared + lines) > level then LevelFor(linesCleared + lines) else level)
      == LevelFor(linesCleared + lines)
  {
    LevelMonotone(linesCleared, linesCleared + lines);
  }
}
