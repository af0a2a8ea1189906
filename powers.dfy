/** Natural powers and the divisibility facts the strided lattice indexing needs. */
module Powers {

  function Pow(b: nat, e: nat): (p: nat)
    ensures b > 0 ==> p > 0
  {
    if e == 0 then 1 else b * Pow(b, e - 1)
  }

  lemma PowAdd(b: nat, e1: nat, e2: nat)
    ensures Pow(b, e1 + e2) == Pow(b, e1) * Pow(b, e2)
    decreases e2
  {
    if e2 > 0 {
      PowAdd(b, e1, e2 - 1);
      assert Pow(b, e1 + e2) == b * Pow(b, e1 + e2 - 1);
      calc {
        Pow(b, e1) * Pow(b, e2);
        Pow(b, e1) * (b * Pow(b, e2 - 1));
        b * (Pow(b, e1) * Pow(b, e2 - 1));
      }
    }
  }

  /** A smaller power of b divides a larger one. */
  lemma PowDivides(b: nat, small: nat, large: nat)
    requires b > 0 && small <= large
    ensures Pow(b, large) % Pow(b, small) == 0
  {
    var x, y := Pow(b, large - small), Pow(b, small);
    PowAdd(b, small, large - small);
    assert small + (large - small) == large;
    assert Pow(b, large) == x * y;
    assert y > 0;
    MultipleMod(x, y);
  }

  lemma MultipleMod(q: nat, d: nat)
    requires d > 0
    ensures (q * d) % d == 0
  {
    DivModUnique(q * d, d, q, 0);
  }

  /** Quotient and remainder are the unique pair with a == q * d + r and 0 <= r < d. */
  lemma DivModUnique(a: int, d: int, q: int, r: int)
    requires d > 0 && 0 <= r < d && a == q * d + r
    ensures a / d == q && a % d == r
  {
    var q', r' := a / d, a % d;
    assert a == q' * d + r';
    if q > q' {
      MulMono(q' + 1, q, d);
    } else if q < q' {
      MulMono(q + 1, q', d);
    }
  }

  /** Powers of two grow no faster than powers of three: 3^e > 2^e once e >= 1. */
  lemma Pow2BelowPow3(e: nat)
    ensures Pow(2, e) <= Pow(3, e)
    ensures e >= 1 ==> Pow(2, e) < Pow(3, e)
  {
    if e > 0 {
      Pow2BelowPow3(e - 1);
    }
  }

  /**
   * If a and m are both multiples of d and a < m, then a + d <= m: the next
   * multiple after a is still at most m.
   */
  lemma NextMultipleAtMost(a: nat, d: nat, m: nat)
    requires d > 0 && a % d == 0 && m % d == 0 && a < m
    ensures a + d <= m
  {
    var qa, qm := a / d, m / d;
    assert a == qa * d;
    assert m == qm * d;
    if qa >= qm {
      MulMono(qm, qa, d);
      assert false;
    }
    MulMono(qa + 1, qm, d);
    assert (qa + 1) * d == qa * d + d;
  }

  lemma MulMono(x: int, y: int, d: nat)
    requires x <= y
    ensures x * d <= y * d
  {
    assert y * d - x * d == (y - x) * d;
  }

  /** Twice a multiple of d is a multiple of 2d. */
  lemma DoubleMultiple(a: nat, d: nat)
    requires d > 0 && a % d == 0
    ensures (2 * a) % (2 * d) == 0
  {
    var q := a / d;
    assert a == q * d;
    assert 2 * a == q * (2 * d);
    MultipleMod(q, 2 * d);
  }
}
