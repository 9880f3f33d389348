/** Facts about multiplication and Euclidean division on naturals, proved step by step. */
module Arith {

  lemma MulLe(a: int, b: int, c: nat)
    requires a <= b
    ensures a * c <= b * c
  {
  }

  /** The quotient and remainder of natural division bracket the dividend. */
  lemma DivBounds(a: nat, d: nat)
    requires d > 0
    ensures (a / d) * d <= a < (a / d + 1) * d
  {
  }

  /** A quotient is determined by the interval its multiples bracket. */
  lemma DivUnique(a: nat, d: nat, q: nat)
    requires d > 0 && q * d <= a < (q + 1) * d
    ensures a / d == q
  {
    var p := a / d;
    DivBounds(a, d);
    if p < q {
      MulLe(p + 1, q, d);
    } else if p > q {
      MulLe(q + 1, p, d);
    }
  }

  lemma DivMonotone(a: nat, b: nat, d: nat)
    requires a <= b && d > 0
    ensures a / d <= b / d
  {
    DivBounds(a, d);
    DivBounds(b, d);
    if a / d > b / d {
      MulLe(b / d + 1, a / d, d);
    }
  }

  lemma DivLe(a: nat, d: nat)
    requires d > 0
    ensures a / d <= a
  {
    var q := a / d;
    DivBounds(a, d);
    assert q * d <= a;
    MulLe(1, d, q);
    assert q <= d * q;
  }

  lemma MulLtCancel(x: nat, y: nat, f: nat)
    requires f > 0 && x * f < y * f
    ensures x < y
  {
    if x >= y {
      MulLe(y, x, f);
    }
  }

  /** Products of naturals are monotone in both factors. */
  lemma MulBoth(x1: nat, x2: nat, y1: nat, y2: nat)
    requires x1 <= x2 && y1 <= y2
    ensures x1 * y1 <= x2 * y2
  {
    MulLe(x1, x2, y1);
    MulLe(y1, y2, x2);
  }

  /** Regrouping `(a·f)·(b·f)` as `(a·b·f)·f`. */
  lemma Regroup(a: nat, b: nat, f: nat)
    ensures (a * f) * (b * f) == (a * b * f) * f
    ensures 1 * (a * b) == a * b && f * (a * b) == a * b * f
  {
  }
}
