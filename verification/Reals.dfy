/** Products, quotients and powers of real numbers. */
module Reals {

  /** base to the power n. */
  function Power(base: real, n: nat): (p: real)
    ensures base >= 1.0 ==> p >= 1.0
  {
    if n == 0 then 1.0 else base * Power(base, n - 1)
  }

  lemma ProductMonotone(a: real, b: real, c: real)
    requires a <= b && c >= 0.0
    ensures a * c <= b * c && c * a <= c * b
  {
  }

  lemma ProductStrict(a: real, b: real, c: real)
    requires a < b && c > 0.0
    ensures a * c < b * c && c * a < c * b
  {
  }

  /** Comparing a quotient with a number is comparing products. */
  lemma QuotientAbove(a: real, b: real, c: real)
    requires b > 0.0 && a > c * b
    ensures a / b > c
  {
    var q := a / b;
    assert q * b == a;
    if q <= c {
      ProductMonotone(q, c, b);
      assert false;
    }
  }

  lemma QuotientBelow(a: real, b: real, c: real)
    requires b > 0.0 && a < c * b
    ensures a / b < c
  {
    var q := a / b;
    assert q * b == a;
    if c <= q {
      ProductMonotone(c, q, b);
      assert false;
    }
  }

  lemma QuotientAtMost(a: real, b: real, c: real)
    requires b > 0.0 && a <= c * b
    ensures a / b <= c
  {
    var q := a / b;
    assert q * b == a;
    if c < q {
      ProductStrict(c, q, b);
      assert false;
    }
  }

  lemma QuotientAtLeast(a: real, b: real, c: real)
    requires b > 0.0 && a >= c * b
    ensures a / b >= c
  {
    var q := a / b;
    assert q * b == a;
    if q < c {
      ProductStrict(q, c, b);
      assert false;
    }
  }

  lemma CancelFactor(x: real, y: real, p: real)
    requires p > 0.0 && x * p <= y * p
    ensures x <= y
  {
    if y < x {
      ProductStrict(y, x, p);
      assert false;
    }
  }

  lemma CancelStrict(x: real, y: real, p: real)
    requires p > 0.0 && x * p < y * p
    ensures x < y
  {
    if y <= x {
      ProductMonotone(y, x, p);
      assert false;
    }
  }

  /** Up to here every integer is a float. */
  const MaxExact: int := 0x20_0000_0000_0000

  /** Rounding a real number to a float: monotone, and exact on the integers that are floats. */
  ghost predicate IsRounding(round: real -> real) {
    && (forall x: real, y: real :: x <= y ==> round(x) <= round(y))
    && (forall n: int {:trigger KeepsInt(round, n)} :: -MaxExact <= n <= MaxExact ==> KeepsInt(round, n))
  }

  predicate KeepsInt(round: real -> real, n: int) {
    round(n as real) == n as real
  }

  lemma RoundAtMost(round: real -> real, x: real, n: nat)
    requires IsRounding(round) && n <= MaxExact && 0.0 <= x <= n as real
    ensures 0.0 <= round(x) <= n as real
  {
    assert KeepsInt(round, 0) && KeepsInt(round, n);
  }

  lemma RoundAtLeast(round: real -> real, x: real, n: nat)
    requires IsRounding(round) && n <= MaxExact && n as real <= x
    ensures n as real <= round(x)
  {
    assert KeepsInt(round, n);
  }

  /** Powers multiply: the first is the base, and exponents add. */
  lemma {:induction false} PowerAdds(base: real, a: nat, b: nat)
    ensures Power(base, 0) == 1.0 && Power(base, 1) == base
    ensures Power(base, a + b) == Power(base, a) * Power(base, b)
  {
    assert Power(base, 1) == base * Power(base, 0);
    if a > 0 {
      PowerAdds(base, a - 1, b);
      assert Power(base, a + b) == base * Power(base, a - 1 + b);
      assert base * (Power(base, a - 1) * Power(base, b)) == (base * Power(base, a - 1)) * Power(base, b);
    }
  }
}
