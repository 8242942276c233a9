/**
 * Shares of a whole as Python's true division computes them, over exact
 * reals: the two facts about them that the accuracy figures rely on.
 */
module Ratio {

  /** A part of a positive whole is a share between 0 and 1. */
  lemma ShareBounds(part: real, whole: real)
    requires whole > 0.0 && 0.0 <= part <= whole
    ensures 0.0 <= part / whole <= 1.0
  {
    assert part / whole * whole == part;
  }

  /** Two shares of a positive whole that make up the whole add up to 1, and the first is 1 only when the second is 0. */
  lemma ShareSplit(part: real, rest: real, whole: real)
    requires whole > 0.0 && part >= 0.0 && rest >= 0.0 && part + rest == whole
    ensures part / whole == 1.0 - rest / whole
    ensures part / whole == 1.0 <==> rest == 0.0
  {
    assert part / whole + rest / whole == whole / whole;
  }
}
