/**
 * Trinomial transition probabilities in the Hull-style factoring: the drift
 * alpha is an argument, and each probability is half of
 * sigma^2 k/h^2 + (alpha k/h)^2 +/- alpha k/h.
 * The middle probability is defined as what is left of 1.
 */
module Formulas {

  /** Risk-neutral log drift alpha = r - sigma^2/2: never above the rate r. */
  function Trend(r: real, sigma: real): (alpha: real)
    ensures alpha <= r
    ensures sigma == 0.0 ==> alpha == r
  {
    r - (sigma * sigma) / 2.0
  }

  /** The variance term sigma^2 k / h^2 shared by both outer probabilities. */
  function Diffusion(h: real, k: real, sigma: real): real
    requires h != 0.0
  {
    sigma * sigma * (k / (h * h))
  }

  // Real-arithmetic facts the probability bounds rest on.

  function Square(x: real): real
  {
    x * x
  }

  lemma SquarePositive(h: real)
    requires h != 0.0
    ensures Square(h) > 0.0
  {
    if h > 0.0 {
      assert h * h >= 0.0;
      assert h * h != 0.0 by { assert (h * h) / h == h; }
    } else {
      assert (-h) * (-h) == h * h;
      assert (-h) * (-h) >= 0.0;
      assert h * h != 0.0 by { assert (h * h) / h == h; }
    }
  }

  lemma QuotientTimes(a: real, c: real)
    requires c != 0.0
    ensures (a / c) * c == a
  {
  }

  lemma Cancel(a: real, b: real, c: real)
    requires c != 0.0 && a * c == b * c
    ensures a == b
  {
    assert (a - b) * c == 0.0;
  }

  lemma ScaleQuotient(a: real, b: real, c: real)
    requires c != 0.0
    ensures a * (b / c) == (a * b) / c
  {
  }

  lemma SquareOfQuotient(u: real, h: real)
    requires h != 0.0
    ensures (u / h) * (u / h) == (u * u) / (h * h)
  {
    SquarePositive(h);
    var x := u / h;
    QuotientTimes(u, h);
    assert (x * x) * Square(h) == (x * h) * (x * h);
    QuotientTimes(u * u, Square(h));
    Cancel(x * x, (u * u) / Square(h), Square(h));
  }

  lemma ScaledQuotientNonNegative(s: real, k: real, c: real)
    requires c > 0.0 && k >= 0.0
    ensures s * s * (k / c) >= 0.0
  {
    var q := k / c;
    assert q * c == k;
    if s < 0.0 {
      assert (-s) * (-s) == s * s;
    }
  }

  lemma DiffusionNonNegative(h: real, k: real, sigma: real)
    requires h != 0.0
    ensures k >= 0.0 ==> Diffusion(h, k, sigma) >= 0.0
  {
    if k >= 0.0 {
      SquarePositive(h);
      ScaledQuotientNonNegative(sigma, k, Square(h));
    }
  }

  /** c^2 + c = c (c + 1) is non-negative unless -1 < c < 0. */
  lemma DriftPlusSquareNonNegative(c: real)
    ensures c >= 0.0 || c <= -1.0 ==> c * c + c >= 0.0
  {
    assert c * c + c == c * (c + 1.0);
  }

  /** The drift term alpha k / h. */
  function Drift(h: real, k: real, alpha: real): real
    requires h != 0.0
  {
    alpha * (k / h)
  }

  /**
   * Probability of the up move. It is a probability whenever the time step
   * is non-negative and the drift term alpha k/h is not strictly between -1
   * and 0 (there the squared-drift term can be smaller than the drift term's
   * magnitude).
   */
  function PUp(h: real, k: real, sigma: real, alpha: real): (p: real)
    requires h != 0.0
    ensures k >= 0.0 && (alpha * (k / h) >= 0.0 || alpha * (k / h) <= -1.0) ==> p >= 0.0
  {
    DiffusionNonNegative(h, k, sigma);
    DriftPlusSquareNonNegative(Drift(h, k, alpha));
    var a := Diffusion(h, k, sigma);
    var b := Drift(h, k, alpha) * Drift(h, k, alpha);
    var c := Drift(h, k, alpha);
    (a + b + c) / 2.0
  }

  /**
   * Probability of the down move: non-negative under the mirror condition,
   * a drift term alpha k/h not strictly between 0 and 1.
   */
  function PDown(h: real, k: real, sigma: real, alpha: real): (p: real)
    requires h != 0.0
    ensures k >= 0.0 && (alpha * (k / h) <= 0.0 || alpha * (k / h) >= 1.0) ==> p >= 0.0
  {
    DiffusionNonNegative(h, k, sigma);
    DriftPlusSquareNonNegative(-Drift(h, k, alpha));
    var a := Diffusion(h, k, sigma);
    var b := Drift(h, k, alpha) * Drift(h, k, alpha);
    var c := Drift(h, k, alpha);
    (a + b - c) / 2.0
  }

  /** Probability of the middle move: the remainder after the other two. */
  function PMid(h: real, k: real, sigma: real, alpha: real): (pm: real)
    requires h != 0.0
    ensures PUp(h, k, sigma, alpha) + pm + PDown(h, k, sigma, alpha) == 1.0
  {
    1.0 - PUp(h, k, sigma, alpha) - PDown(h, k, sigma, alpha)
  }

  /** The up and down probabilities differ by exactly the drift term alpha k/h. */
  lemma UpMinusDown(h: real, k: real, sigma: real, alpha: real)
    requires h != 0.0
    ensures PUp(h, k, sigma, alpha) - PDown(h, k, sigma, alpha) == alpha * (k / h)
  {
  }

  /** The up and down probabilities add up to sigma^2 k/h^2 + (alpha k/h)^2. */
  lemma UpPlusDown(h: real, k: real, sigma: real, alpha: real)
    requires h != 0.0
    ensures PUp(h, k, sigma, alpha) + PDown(h, k, sigma, alpha)
         == sigma * sigma * (k / (h * h)) + (alpha * (k / h)) * (alpha * (k / h))
  {
  }

  /** Negating the drift exchanges the up and down probabilities and keeps the middle one. */
  lemma NegatedDriftSwaps(h: real, k: real, sigma: real, alpha: real)
    requires h != 0.0
    ensures PUp(h, k, sigma, alpha) == PDown(h, k, sigma, -alpha)
    ensures PDown(h, k, sigma, alpha) == PUp(h, k, sigma, -alpha)
    ensures PMid(h, k, sigma, alpha) == PMid(h, k, sigma, -alpha)
  {
    assert Drift(h, k, -alpha) == -Drift(h, k, alpha);
  }

  /** Without drift the outer probabilities coincide and each is sigma^2 k / (2 h^2). */
  lemma ZeroDriftSymmetric(h: real, k: real, sigma: real)
    requires h != 0.0
    ensures PUp(h, k, sigma, 0.0) == PDown(h, k, sigma, 0.0) == sigma * sigma * (k / (h * h)) / 2.0
  {
  }

  /** A non-negative drift with k/h > 0 never makes the down move likelier than the up move. */
  lemma NonNegativeDriftFavoursUp(h: real, k: real, sigma: real, alpha: real)
    requires h != 0.0 && alpha >= 0.0 && k / h > 0.0
    ensures PUp(h, k, sigma, alpha) >= PDown(h, k, sigma, alpha)
  {
    assert Drift(h, k, alpha) >= 0.0;
  }
}
