/** Exact integer powers over the reals.

    The calculator raises `1 + r` to the number of payments.  Here that
    power is computed exactly by repeated multiplication, and the facts the
    annuity formula relies on are proved about it: when the power equals one
    (so that `(1 + r)^n - 1` may be divided by), the geometric-series
    identity, and strict monotonicity in the base. */
module Power {

  /** `x` raised to the `n`-th power. */
  function Pow(x: real, n: nat): real
  {
    if n == 0 then 1.0 else x * Pow(x, n - 1)
  }

  /** `x^(a+b) == x^a * x^b`. */
  lemma {:induction false} PowAdd(x: real, a: nat, b: nat)
    ensures Pow(x, a + b) == Pow(x, a) * Pow(x, b)
  {
    if a > 0 {
      PowAdd(x, a - 1, b);
      calc {
        Pow(x, a + b);
        x * Pow(x, (a - 1) + b);
        x * (Pow(x, a - 1) * Pow(x, b));
        (x * Pow(x, a - 1)) * Pow(x, b);
        Pow(x, a) * Pow(x, b);
      }
    }
  }

  /** A positive base has a positive power. */
  lemma {:induction false} PowPositive(x: real, n: nat)
    requires x > 0.0
    ensures Pow(x, n) > 0.0
  {
    if n > 0 {
      PowPositive(x, n - 1);
    }
  }

  /** A base above one has a power above one once the exponent is positive:
      this is what keeps the annuity denominators `(1 + r)^n - 1` away from
      zero for a positive rate. */
  lemma {:induction false} PowGreaterThanOne(x: real, n: nat)
    requires x > 1.0 && n >= 1
    ensures Pow(x, n) > 1.0
  {
    if n > 1 {
      PowGreaterThanOne(x, n - 1);
      assert x * Pow(x, n - 1) > x * 1.0;
    }
  }

  /** A base in [0, 1) has a power below one once the exponent is positive. */
  lemma {:induction false} PowLessThanOne(x: real, n: nat)
    requires 0.0 <= x < 1.0 && n >= 1
    ensures 0.0 <= Pow(x, n) < 1.0
  {
    if n > 1 {
      PowLessThanOne(x, n - 1);
      assert x * Pow(x, n - 1) <= x * 1.0;
    }
  }

  /** Every power of one is one. */
  lemma {:induction false} PowOfOne(n: nat)
    ensures Pow(1.0, n) == 1.0
  {
    if n > 0 {
      PowOfOne(n - 1);
    }
  }

  /** Negating the base negates an odd power and leaves an even one. */
  lemma {:induction false} PowOfNegated(x: real, n: nat)
    ensures Pow(-x, n) == if n % 2 == 0 then Pow(x, n) else -Pow(x, n)
  {
    if n > 0 {
      PowOfNegated(x, n - 1);
    }
  }

  /** For a non-negative base and a positive exponent, the power is one
      exactly when the base is one. */
  lemma PowOfNonNegativeIsOne(x: real, n: nat)
    requires x >= 0.0 && n >= 1
    ensures Pow(x, n) == 1.0 <==> x == 1.0
  {
    if x > 1.0 {
      PowGreaterThanOne(x, n);
    } else if x < 1.0 {
      PowLessThanOne(x, n);
    } else {
      PowOfOne(n);
    }
  }

  /** For a positive exponent, `x^n == 1` holds exactly when `x` is one, or
      `x` is minus one and `n` is even. */
  lemma PowIsOne(x: real, n: nat)
    requires n >= 1
    ensures Pow(x, n) == 1.0 <==> x == 1.0 || (x == -1.0 && n % 2 == 0)
  {
    if x >= 0.0 {
      PowOfNonNegativeIsOne(x, n);
    } else {
      PowOfNegated(-x, n);
      assert Pow(x, n) == if n % 2 == 0 then Pow(-x, n) else -Pow(-x, n);
      PowOfNonNegativeIsOne(-x, n);
      PowPositive(-x, n);
    }
  }

  /** A non-negative base has a non-negative power. */
  lemma {:induction false} PowNonNegative(x: real, n: nat)
    requires x >= 0.0
    ensures Pow(x, n) >= 0.0
  {
    if n > 0 {
      PowNonNegative(x, n - 1);
      ProductNonNegative(x, Pow(x, n - 1));
    }
  }

  /** For `0 <= x < y` and a positive exponent, `x^n < y^n`. */
  lemma {:induction false} PowStrictlyIncreasing(x: real, y: real, n: nat)
    requires 0.0 <= x < y && n >= 1
    ensures Pow(x, n) < Pow(y, n)
  {
    if n > 1 {
      PowStrictlyIncreasing(x, y, n - 1);
      PowNonNegative(x, n - 1);
      ProductStrictlyIncreasing(x, y, Pow(x, n - 1), Pow(y, n - 1));
    }
  }

  /** `1 + x + ... + x^(n-1)`, the geometric series of `n` terms. */
  function GeomSum(x: real, n: nat): real
  {
    if n == 0 then 0.0 else GeomSum(x, n - 1) + Pow(x, n - 1)
  }

  /** `x^n - 1 == (x - 1) * (1 + x + ... + x^(n-1))`. */
  lemma {:induction false} GeomSumIdentity(x: real, n: nat)
    ensures Pow(x, n) - 1.0 == (x - 1.0) * GeomSum(x, n)
  {
    if n > 0 {
      GeomSumIdentity(x, n - 1);
      calc {
        (x - 1.0) * GeomSum(x, n);
        (x - 1.0) * GeomSum(x, n - 1) + (x - 1.0) * Pow(x, n - 1);
        Pow(x, n - 1) - 1.0 + x * Pow(x, n - 1) - Pow(x, n - 1);
        Pow(x, n) - 1.0;
      }
    }
  }

  /** A geometric series of positive ratio and at least one term is positive. */
  lemma {:induction false} GeomSumPositive(x: real, n: nat)
    requires x > 0.0 && n >= 1
    ensures GeomSum(x, n) > 0.0
  {
    PowPositive(x, n - 1);
    if n > 1 {
      GeomSumPositive(x, n - 1);
    }
  }

  /** `x^n == x^(n-k) * x^k` for `k <= n`. */
  lemma PowSplit(x: real, n: nat, k: nat)
    requires k <= n
    ensures Pow(x, n) == Pow(x, n - k) * Pow(x, k)
  {
    PowAdd(x, n - k, k);
  }

  /** For `0 < x < y` and `k < n`, `x^n * y^k < y^n * x^k`. */
  lemma CrossTermLess(x: real, y: real, n: nat, k: nat)
    requires 0.0 < x < y && k < n
    ensures Pow(x, n) * Pow(y, k) < Pow(y, n) * Pow(x, k)
  {
    PowSplit(x, n, k);
    PowSplit(y, n, k);
    PowStrictlyIncreasing(x, y, n - k);
    PowPositive(x, k);
    PowPositive(y, k);
    CrossProductLess(Pow(x, n), Pow(y, n), Pow(x, n - k), Pow(y, n - k), Pow(x, k), Pow(y, k));
  }

  /** The arithmetic step of `CrossTermLess`, on plain reals. */
  lemma CrossProductLess(xn: real, yn: real, xd: real, yd: real, xk: real, yk: real)
    requires xn == xd * xk && yn == yd * yk
    requires xd < yd && xk > 0.0 && yk > 0.0
    ensures xn * yk < yn * xk
  {
    var c := xk * yk;
    assert xd * c < yd * c;
    assert xn * yk == xd * c;
    assert yn * xk == yd * c;
  }

  /** The product of two non-negative reals is non-negative. */
  lemma ProductNonNegative(a: real, b: real)
    requires a >= 0.0 && b >= 0.0
    ensures a * b >= 0.0
  {
  }

  /** For `0 <= a < b` and `0 <= c < d`, `a * c < b * d`. */
  lemma ProductStrictlyIncreasing(a: real, b: real, c: real, d: real)
    requires 0.0 <= a < b && 0.0 <= c < d
    ensures a * c < b * d
  {
    assert a * c <= b * c;
    assert b * c < b * d;
  }

  /** For `0 < x < y` and `1 <= m <= n`,
      `x^n * (1 + ... + y^(m-1)) < y^n * (1 + ... + x^(m-1))`. */
  lemma {:induction false} CrossSumLess(x: real, y: real, n: nat, m: nat)
    requires 0.0 < x < y && 1 <= m <= n
    ensures Pow(x, n) * GeomSum(y, m) < Pow(y, n) * GeomSum(x, m)
  {
    CrossTermLess(x, y, n, m - 1);
    if m > 1 {
      CrossSumLess(x, y, n, m - 1);
    }
    assert Pow(x, n) * GeomSum(y, m)
        == Pow(x, n) * GeomSum(y, m - 1) + Pow(x, n) * Pow(y, m - 1);
    assert Pow(y, n) * GeomSum(x, m)
        == Pow(y, n) * GeomSum(x, m - 1) + Pow(y, n) * Pow(x, m - 1);
  }
}
