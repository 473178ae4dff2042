/** Gravity interval and level, both in milliseconds of play. */
module Timing {

  const MinInterval: nat := 100
  const MillisPerLevel: nat := 60 * 1000

  /**
   * The gravity interval in milliseconds: 1000 at level 1, 100 less per
   * level, never below 100.
   */
  function FallingSpeed(level: int): (ms: int)
    ensures ms >= MinInterval
    ensures level == 1 ==> ms == 1000
    ensures level >= 1 ==> ms <= 1000
    ensures level >= 10 ==> ms == MinInterval
  {
    var linear := 1000 - (level - 1) * 100;
    if linear >= MinInterval then linear else MinInterval
  }

  /** A higher level never waits longer between gravity steps. */
  lemma FallingSpeedNonIncreasing(a: int, b: int)
    requires a <= b
    ensures FallingSpeed(b) <= FallingSpeed(a)
  {
  }

  /** The level after `elapsed` milliseconds: one more for every full minute. */
  function Level(elapsed: nat): (level: int)
    ensures level >= 1
    ensures (level - 1) * MillisPerLevel <= elapsed < level * MillisPerLevel
  {
    elapsed / MillisPerLevel + 1
  }

  /** The level never drops as time passes. */
  lemma LevelNonDecreasing(a: nat, b: nat)
    requires a <= b
    ensures Level(a) <= Level(b)
  {
  }
}
