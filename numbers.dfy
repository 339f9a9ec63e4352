/** Mathematical definitions behind the calculator's operations: the factorial
    that the service's loop accumulates, natural powers, the square-root
    relation, and the truncating remainder that JavaScript's `%` computes on
    integers (Dafny's own `%` is Euclidean). */
module Numbers {

  function Abs(x: int): (r: nat)
    ensures r == x || r == -x
  {
    if x < 0 then -x else x
  }

  // ---------------------------------------------------------------- factorial

  /** n! by its recurrence; every factorial is at least 1. */
  function Fact(n: nat): (r: nat)
    ensures r >= 1
  {
    if n == 0 then 1 else n * Fact(n - 1)
  }

  // ---------------------------------------------------------------- powers

  /** x raised to a natural exponent. */
  function Pow(x: real, n: nat): real
  {
    if n == 0 then 1.0 else x * Pow(x, n - 1)
  }

  /** Exponents of a common base add. */
  lemma {:induction false} PowAdd(x: real, m: nat, n: nat)
    ensures Pow(x, m + n) == Pow(x, m) * Pow(x, n)
  {
    if m > 0 {
      PowAdd(x, m - 1, n);
      assert Pow(x, m + n) == x * Pow(x, (m - 1) + n);
    }
  }

  // ---------------------------------------------------------------- square roots

  /** r is the non-negative square root of a. */
  predicate IsSqrt(r: real, a: real)
  {
    r >= 0.0 && r * r == a
  }

  /** A number has at most one non-negative square root. */
  lemma SqrtUnique(r1: real, r2: real, a: real)
    requires IsSqrt(r1, a) && IsSqrt(r2, a)
    ensures r1 == r2
  {
    if r1 < r2 {
      SquareStrictlyIncreasing(r1, r2);
    } else if r2 < r1 {
      SquareStrictlyIncreasing(r2, r1);
    }
  }

  lemma SquareStrictlyIncreasing(x: real, y: real)
    requires 0.0 <= x < y
    ensures x * x < y * y
  {
    var xy := x * y;
    assert x * x <= xy;
    assert xy < y * y;
  }

  // ---------------------------------------------------------------- truncating division

  /** The quotient of a by b rounded toward zero, as JavaScript truncates it. */
  function TruncQuot(a: int, b: int): int
    requires b != 0
  {
    var q := Abs(a) / Abs(b);
    if (a >= 0) == (b > 0) then q else -q
  }

  /** The remainder JavaScript's `%` gives on integers: it has the sign of the
      dividend a and a magnitude below that of the divisor b. */
  function TruncRem(a: int, b: int): (r: int)
    requires b != 0
    ensures Abs(r) < Abs(b)
    ensures a >= 0 ==> r >= 0
    ensures a < 0 ==> r <= 0
  {
    if a >= 0 then a % Abs(b) else -((-a) % Abs(b))
  }

  /** The remainder is what is left of the dividend once the truncated
      quotient times the divisor is taken away. */
  lemma TruncDivision(a: int, b: int)
    requires b != 0
    ensures a == b * TruncQuot(a, b) + TruncRem(a, b)
  {
    var m: int, n: int := Abs(a), Abs(b);
    var q: int, r: int := m / n, m % n;
    assert m == n * q + r;
    if a >= 0 && b > 0 {
      assert TruncQuot(a, b) == q && TruncRem(a, b) == r;
    } else if a >= 0 {
      assert TruncQuot(a, b) == -q && TruncRem(a, b) == r;
      NegatedProduct(n, q);
    } else if b > 0 {
      assert TruncQuot(a, b) == -q && TruncRem(a, b) == -r;
      NegatedProduct(n, q);
    } else {
      assert TruncQuot(a, b) == q && TruncRem(a, b) == -r;
      NegatedProduct(n, q);
    }
  }

  lemma NegatedProduct(x: int, y: int)
    ensures (-x) * y == -(x * y) == x * (-y)
    ensures (-x) * (-y) == x * y
  {
  }

  /** A non-zero multiple of b is at least as large as b. */
  lemma MultipleBound(b: int, k: int)
    requires k != 0
    ensures Abs(b * k) >= Abs(b)
  {
    if b >= 0 && k > 0 {
      NaturalMultipleBound(b, k);
    } else if b >= 0 {
      assert b * k == -(b * -k);
      NaturalMultipleBound(b, -k);
    } else if k > 0 {
      assert b * k == -(-b * k);
      NaturalMultipleBound(-b, k);
    } else {
      assert b * k == -b * -k;
      NaturalMultipleBound(-b, -k);
    }
  }

  lemma NaturalMultipleBound(n: int, j: int)
    requires n >= 0 && j >= 1
    ensures n * j >= n
  {
    assert n * j == n * (j - 1) + n;
    assert n * (j - 1) >= 0;
  }

  /** The truncating remainder is the only remainder that has the sign of the
      dividend and a magnitude below the divisor's: whatever (q, r) satisfy
      those conditions, r is TruncRem(a, b) and q is TruncQuot(a, b). */
  lemma TruncRemUnique(a: int, b: int, q: int, r: int)
    requires b != 0
    requires a == b * q + r
    requires Abs(r) < Abs(b)
    requires a >= 0 ==> r >= 0
    requires a < 0 ==> r <= 0
    ensures r == TruncRem(a, b) && q == TruncQuot(a, b)
  {
    var q0, r0 := TruncQuot(a, b), TruncRem(a, b);
    TruncDivision(a, b);
    assert b * (q0 - q) == b * q0 - b * q;
    if q0 != q {
      MultipleBound(b, q0 - q);
      assert false;
    }
  }

  /** On a non-negative dividend and a positive divisor the truncating and the
      Euclidean remainders agree. */
  lemma TruncRemNonNegative(a: int, b: int)
    requires a >= 0 && b > 0
    ensures TruncRem(a, b) == a % b
  {
  }

  /** Negating the dividend negates the remainder. */
  lemma TruncRemNegateDividend(a: int, b: int)
    requires b != 0
    ensures TruncRem(-a, b) == -TruncRem(a, b)
  {
    var n := Abs(b);
    if a > 0 {
      assert TruncRem(-a, b) == -(a % n) && TruncRem(a, b) == a % n;
    } else if a < 0 {
      assert TruncRem(-a, b) == (-a) % n && TruncRem(a, b) == -((-a) % n);
    }
  }

  /** The sign of the divisor does not matter. */
  lemma TruncRemNegateDivisor(a: int, b: int)
    requires b != 0
    ensures TruncRem(a, -b) == TruncRem(a, b)
  {
    assert Abs(-b) == Abs(b);
  }
}
