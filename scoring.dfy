/** The points awarded for a hit (rhythm_game.py, `keyPressEvent`). */
module Scoring {

  /** Points for a hit scored while the combo, before the hit, is `combo`:
      10 per hit, plus 10 more for every full ten of consecutive hits. */
  function Points(combo: nat): (p: nat)
    ensures p >= 10 && p % 10 == 0
    ensures combo < 10 ==> p == 10
  {
    10 * (1 + combo / 10)
  }

  /** Every combo in the tier [10k, 10k + 9] earns 10 * (k + 1) points. */
  lemma PointsTier(combo: nat, k: nat)
    requires 10 * k <= combo < 10 * k + 10
    ensures Points(combo) == 10 * (k + 1)
  {
    assert combo / 10 == k;
  }

  /** A longer combo never earns fewer points, and ten more consecutive hits
      raise the points per hit by exactly 10 (the bonus is not capped). */
  lemma PointsMonotone(c1: nat, c2: nat)
    requires c1 <= c2
    ensures Points(c1) <= Points(c2)
    ensures Points(c1 + 10) == Points(c1) + 10
  {
    assert c1 / 10 <= c2 / 10;
    assert (c1 + 10) / 10 == c1 / 10 + 1;
  }
}
