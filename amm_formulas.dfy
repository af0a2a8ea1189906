/**
 * The second factoring of the trinomial probabilities, used by the adaptive
 * mesh utilities: the arguments are (h, k, r, sigma) and the drift is derived
 * internally from r and sigma. Compared with the Hull-style factoring in
 * module Formulas, only the variance term is halved: the squared-drift term
 * and the drift term enter in full.
 */
module AmmFormulas {
  import Formulas

  /** Risk-neutral log drift, recomputed from r and sigma as this factoring does. */
  function Trend(r: real, sigma: real): (alpha: real)
    ensures alpha == Formulas.Trend(r, sigma)
    ensures alpha <= r
  {
    r - (sigma * sigma) / 2.0
  }

  /** Half the variance term: (sigma^2 k / h^2) / 2. */
  function HalfDiffusion(h: real, k: real, sigma: real): real
    requires h != 0.0
  {
    (sigma * sigma * (k / (h * h))) / 2.0
  }

  /** The squared-drift term trend^2 k^2 / h^2. */
  function DriftSquared(h: real, k: real, r: real, sigma: real): real
    requires h != 0.0
  {
    Trend(r, sigma) * Trend(r, sigma) * ((k * k) / (h * h))
  }

  /** The drift term trend k / h. */
  function Drift(h: real, k: real, r: real, sigma: real): real
    requires h != 0.0
  {
    Trend(r, sigma) * k / h
  }

  lemma HalfDiffusionNonNegative(h: real, k: real, sigma: real)
    requires h != 0.0
    ensures k >= 0.0 ==> HalfDiffusion(h, k, sigma) >= 0.0
  {
    Formulas.DiffusionNonNegative(h, k, sigma);
  }

  /** The squared-drift term is the square of the drift term. */
  lemma SquaredDrift(h: real, k: real, r: real, sigma: real)
    requires h != 0.0
    ensures DriftSquared(h, k, r, sigma) == Drift(h, k, r, sigma) * Drift(h, k, r, sigma)
  {
    var t := Trend(r, sigma);
    Formulas.SquarePositive(h);
    Formulas.SquareOfQuotient(t * k, h);
    Formulas.ScaleQuotient(t * t, k * k, Formulas.Square(h));
    assert (t * t) * (k * k) == (t * k) * (t * k);
  }

  /**
   * Probability of the up move: non-negative for a non-negative time step
   * when the drift term trend k/h is not strictly between -1 and 0.
   */
  function PUp(h: real, k: real, r: real, sigma: real): (p: real)
    requires h != 0.0
    ensures k >= 0.0 && (Trend(r, sigma) * k / h >= 0.0 || Trend(r, sigma) * k / h <= -1.0) ==> p >= 0.0
  {
    HalfDiffusionNonNegative(h, k, sigma);
    SquaredDrift(h, k, r, sigma);
    Formulas.DriftPlusSquareNonNegative(Drift(h, k, r, sigma));
    HalfDiffusion(h, k, sigma) + DriftSquared(h, k, r, sigma) + Drift(h, k, r, sigma)
  }

  /**
   * Probability of the down move: non-negative under the mirror condition,
   * a drift term trend k/h not strictly between 0 and 1.
   */
  function PDown(h: real, k: real, r: real, sigma: real): (p: real)
    requires h != 0.0
    ensures k >= 0.0 && (Trend(r, sigma) * k / h <= 0.0 || Trend(r, sigma) * k / h >= 1.0) ==> p >= 0.0
  {
    HalfDiffusionNonNegative(h, k, sigma);
    SquaredDrift(h, k, r, sigma);
    Formulas.DriftPlusSquareNonNegative(-Drift(h, k, r, sigma));
    HalfDiffusion(h, k, sigma) + DriftSquared(h, k, r, sigma) - Drift(h, k, r, sigma)
  }

  /** Probability of the middle move: the remainder after the other two. */
  function PMid(h: real, k: real, r: real, sigma: real): (pm: real)
    requires h != 0.0
    ensures PUp(h, k, r, sigma) + pm + PDown(h, k, r, sigma) == 1.0
  {
    1.0 - PUp(h, k, r, sigma) - PDown(h, k, r, sigma)
  }

  /** Up minus down is twice the drift term: twice the Hull-style difference. */
  lemma UpMinusDown(h: real, k: real, r: real, sigma: real)
    requires h != 0.0
    ensures PUp(h, k, r, sigma) - PDown(h, k, r, sigma) == 2.0 * (Trend(r, sigma) * k / h)
    ensures PUp(h, k, r, sigma) - PDown(h, k, r, sigma)
         == 2.0 * (Formulas.PUp(h, k, sigma, Trend(r, sigma)) - Formulas.PDown(h, k, sigma, Trend(r, sigma)))
  {
    var alpha := Trend(r, sigma);
    Formulas.UpMinusDown(h, k, sigma, alpha);
    assert alpha * k / h == alpha * (k / h);
  }

  /** Up plus down is the full variance term plus twice the squared-drift term. */
  lemma UpPlusDown(h: real, k: real, r: real, sigma: real)
    requires h != 0.0
    ensures PUp(h, k, r, sigma) + PDown(h, k, r, sigma)
         == sigma * sigma * (k / (h * h)) + 2.0 * (Trend(r, sigma) * Trend(r, sigma) * ((k * k) / (h * h)))
  {
    assert 2.0 * HalfDiffusion(h, k, sigma) == sigma * sigma * (k / (h * h));
    assert DriftSquared(h, k, r, sigma) == Trend(r, sigma) * Trend(r, sigma) * ((k * k) / (h * h));
  }

  /**
   * The two factorings differ exactly by the squared-drift and drift terms
   * the Hull-style one halves: this up probability exceeds the Hull-style one
   * by trend^2 k^2/h^2 - (trend k/h)^2 / 2 + (trend k/h) / 2.
   */
  lemma DifferenceFromHull(h: real, k: real, r: real, sigma: real)
    requires h != 0.0
    ensures var alpha := Trend(r, sigma);
      PUp(h, k, r, sigma) - Formulas.PUp(h, k, sigma, alpha)
        == alpha * alpha * ((k * k) / (h * h)) - (alpha * (k / h)) * (alpha * (k / h)) / 2.0 + alpha * (k / h) / 2.0
    ensures var alpha := Trend(r, sigma);
      PDown(h, k, r, sigma) - Formulas.PDown(h, k, sigma, alpha)
        == alpha * alpha * ((k * k) / (h * h)) - (alpha * (k / h)) * (alpha * (k / h)) / 2.0 - alpha * (k / h) / 2.0
  {
    var alpha := Trend(r, sigma);
    assert Drift(h, k, r, sigma) == Formulas.Drift(h, k, alpha);
    assert HalfDiffusion(h, k, sigma) == Formulas.Diffusion(h, k, sigma) / 2.0;
    assert DriftSquared(h, k, r, sigma) == alpha * alpha * ((k * k) / (h * h));
    assert Formulas.Drift(h, k, alpha) == alpha * (k / h);
  }

  /** When r = sigma^2/2 the drift vanishes and both factorings give sigma^2 k / (2 h^2). */
  lemma AgreeWithoutDrift(h: real, k: real, r: real, sigma: real)
    requires h != 0.0 && r == sigma * sigma / 2.0
    ensures PUp(h, k, r, sigma) == PDown(h, k, r, sigma) == sigma * sigma * (k / (h * h)) / 2.0
    ensures PUp(h, k, r, sigma) == Formulas.PUp(h, k, sigma, Trend(r, sigma))
    ensures PDown(h, k, r, sigma) == Formulas.PDown(h, k, sigma, Trend(r, sigma))
    ensures PMid(h, k, r, sigma) == Formulas.PMid(h, k, sigma, Trend(r, sigma))
  {
    assert Trend(r, sigma) == 0.0;
    Formulas.ZeroDriftSymmetric(h, k, sigma);
  }
}
