/**
 * Squares and absolute values of reals, and the few facts about them that
 * the geometry needs.
 * Every square is written Sq(x), and each nonlinear fact is proved once, here,
 * in a lemma of its own, so that the proofs elsewhere stay linear.
 */
module RealArith {

  function Sq(x: real): real { x * x }

  /** std::abs on doubles. */
  function Abs(x: real): (r: real)
    ensures 0.0 <= r && (r == x || r == -x)
  {
    if x < 0.0 then -x else x
  }

  lemma SqNonnegative(a: real)
    ensures 0.0 <= Sq(a)
  {
  }

  lemma SqZero()
    ensures Sq(0.0) == 0.0
  {
  }

  lemma SqNegate(a: real)
    ensures Sq(-a) == Sq(a)
  {
  }

  lemma DifferenceOfSquares(a: real, b: real)
    ensures Sq(a) - Sq(b) == (a - b) * (a + b)
  {
  }

  lemma ProductPositive(a: real, b: real)
    requires 0.0 < a && 0.0 < b
    ensures 0.0 < a * b
  {
  }

  lemma ProductNonnegative(a: real, b: real)
    requires 0.0 <= a && 0.0 <= b
    ensures 0.0 <= a * b
  {
  }

  lemma ProductNonpositive(a: real, b: real)
    requires 0.0 <= a && b <= 0.0
    ensures a * b <= 0.0
  {
  }

  /** For non-negative reals, comparing squares compares the reals. */
  lemma SqMonotone(a: real, b: real)
    requires 0.0 <= a && 0.0 <= b
    ensures a <= b <==> Sq(a) <= Sq(b)
  {
    if a <= b {
      DifferenceOfSquares(b, a);
      ProductNonnegative(b - a, b + a);
    } else {
      DifferenceOfSquares(a, b);
      ProductPositive(a - b, a + b);
    }
  }

  /** Non-negative reals with equal squares are equal. */
  lemma SqInjective(a: real, b: real)
    requires 0.0 <= a && 0.0 <= b
    ensures Sq(a) == Sq(b) <==> a == b
  {
    SqMonotone(a, b);
    SqMonotone(b, a);
  }

  lemma SqPositive(a: real)
    requires a != 0.0
    ensures 0.0 < Sq(a)
  {
    SqZero();
    if 0.0 < a {
      SqMonotone(a, 0.0);
    } else {
      SqMonotone(-a, 0.0);
      SqNegate(a);
    }
  }

  /** A sum of two squares is not negative, and vanishes only when both terms do. */
  lemma SumOfSquaresZero(a: real, b: real)
    ensures 0.0 <= Sq(a) + Sq(b)
    ensures Sq(a) + Sq(b) == 0.0 <==> a == 0.0 && b == 0.0
  {
    SqNonnegative(a);
    SqNonnegative(b);
    SqZero();
    if a != 0.0 {
      SqPositive(a);
    } else if b != 0.0 {
      SqPositive(b);
    }
  }

  lemma SqQuotient(a: real, d: real)
    requires d != 0.0
    ensures Sq(a / d) * Sq(d) == Sq(a)
  {
    var q := a / d;
    assert q * d == a;
  }

  /** A quotient times its non-zero divisor is the dividend. */
  lemma QuotientTimesDivisor(n: real, d: real)
    requires d != 0.0
    ensures (n / d) * d == n
  {
  }

  lemma SqProduct(a: real, b: real)
    ensures Sq(a * b) == Sq(a) * Sq(b)
  {
  }

  /** If u * s and v * s are the two parts of a non-zero s, then u and v add up to one. */
  lemma UnitFactor(u: real, v: real, s: real, a: real, b: real)
    requires s != 0.0 && u * s == a && v * s == b && s == a + b
    ensures u + v == 1.0
  {
    assert (u + v - 1.0) * s == 0.0;
  }

  /** Moving x by r times a value of [-1, 1], for a non-negative r, stays within [x - r, x + r]. */
  lemma OffsetWithin(x: real, r: real, c: real)
    requires 0.0 <= r && -1.0 <= c <= 1.0
    ensures x - r <= x + r * c <= x + r
  {
    ProductNonnegative(r, 1.0 - c);
    ProductNonnegative(r, c + 1.0);
    assert r * (1.0 - c) == r - r * c;
    assert r * (c + 1.0) == r * c + r;
  }

  /** Expanding the square of a - b * t. */
  lemma SqOfDifference(a: real, b: real, t: real)
    ensures Sq(a - b * t) == Sq(a) - 2.0 * t * (a * b) + Sq(t) * Sq(b)
  {
  }

  /** A quotient by a positive d, multiplied back, gives the dividend; its sign is the dividend's. */
  lemma QuotientByPositive(k: real, d: real)
    requires 0.0 < d
    ensures (k / d) * d == k
    ensures k / d < 0.0 <==> k < 0.0
    ensures 1.0 < k / d <==> d < k
  {
    var q := k / d;
    assert q * d == k;
    if q < 0.0 {
      ProductPositive(-q, d);
    } else {
      ProductNonnegative(q, d);
    }
    if 1.0 < q {
      ProductPositive(q - 1.0, d);
    } else {
      ProductNonnegative(1.0 - q, d);
    }
  }

  /** Expanding the square of a + b * t. */
  lemma SqOfSum(a: real, b: real, t: real)
    ensures Sq(a + b * t) == Sq(a) + 2.0 * t * (a * b) + Sq(t) * Sq(b)
  {
  }

  /** A product with a non-zero factor is zero only when the other factor is. */
  lemma ZeroProduct(a: real, b: real)
    requires b != 0.0 && a * b == 0.0
    ensures a == 0.0
  {
  }
}

