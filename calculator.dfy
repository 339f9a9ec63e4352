/** The ten arithmetic functions of the calculator service
    (backend/index.js, lines 28-64). JavaScript numbers are modelled as
    mathematical reals, except where an operation only makes sense on
    integers: the remainder and the factorial take `int`, the exponent of
    `power` is a `nat`. */
module Calculator {
  import opened Numbers

  /** What a function that may throw does: it returns a number or throws an
      Error carrying a message. */
  datatype Outcome = Returned(value: real) | Threw(message: string)

  /** A JSON value that can stand in a `result` field: a number, or the
      string that `mod` returns when the divisor is zero. */
  datatype Value = Number(n: real) | Text(s: string)

  const DivideByZero := "Divide by zero"
  const SqrtOfNegative := "Cannot compute square root of negative number"
  const FactorialOfNegative := "Cannot compute factorial of negative number"
  /** The sentinel `mod` gives for a zero divisor: a three-character string, not an error. */
  const NaNText := "NaN"

  function Add(a: real, b: real): real
  {
    a + b
  }

  function Subtract(a: real, b: real): real
  {
    a - b
  }

  function Multiply(a: real, b: real): real
  {
    a * b
  }

  /** Division throws on a zero divisor; otherwise its result times the
      divisor gives back the dividend. */
  function Divide(a: real, b: real): (o: Outcome)
    ensures o.Threw? <==> b == 0.0
    ensures o.Threw? ==> o.message == DivideByZero
    ensures o.Returned? ==> o.value * b == a
  {
    if b == 0.0 then Threw(DivideByZero) else Returned(a / b)
  }

  /** The remainder never throws: a zero divisor gives the string "NaN", any
      other divisor a whole number with the sign of the dividend and a
      magnitude below the divisor's. */
  function Mod(a: int, b: int): (v: Value)
    ensures v == Text(NaNText) <==> b == 0
    ensures b != 0 ==> v.Number? && v.n.Floor as real == v.n && Abs(v.n.Floor) < Abs(b)
    ensures b != 0 && a >= 0 ==> v.n >= 0.0
    ensures b != 0 && a < 0 ==> v.n <= 0.0
  {
    if b == 0 then Text(NaNText) else Number(TruncRem(a, b) as real)
  }

  /** `Math.pow` on a natural exponent. */
  function Power(a: real, b: nat): real
  {
    Pow(a, b)
  }

  /** Square root throws on a negative argument. `root` is the value the
      runtime's square-root routine gives for `a`; of it the model assumes
      only that, for a non-negative `a`, it is the non-negative square root. */
  function Sqrt(a: real, root: real): (o: Outcome)
    requires a >= 0.0 ==> IsSqrt(root, a)
    ensures o.Threw? <==> a < 0.0
    ensures o.Threw? ==> o.message == SqrtOfNegative
    ensures o.Returned? ==> o.value >= 0.0 && o.value * o.value == a
  {
    if a < 0.0 then Threw(SqrtOfNegative) else Returned(root)
  }

  /** `Math.abs`: the non-negative one of a and -a. */
  function Absolute(a: real): (r: real)
    ensures r >= 0.0 && (r == a || r == -a)
  {
    if a < 0.0 then -a else a
  }

  /** What the factorial function gives for an integer argument: it throws on
      a negative one, and returns a! otherwise. */
  function FactorialOf(a: int): Outcome
  {
    if a < 0 then Threw(FactorialOfNegative) else Returned(Fact(a) as real)
  }

  /** The factorial function as the service runs it: a guard, an early return
      for zero, and otherwise the accumulating loop. */
  method Factorial(a: int) returns (o: Outcome)
    ensures o == FactorialOf(a)
  {
    if a < 0 {
      return Threw(FactorialOfNegative);
    }
    if a == 0 {
      return Returned(1.0);
    }
    var result := Product(a);
    return Returned(result as real);
  }

  /** The factorial's loop: an accumulator that starts at 1 and is multiplied
      by 1, 2, ..., n. With n == 0 the loop runs no iteration and gives 1, the
      value of the early return in Factorial, so that return changes nothing. */
  method Product(n: nat) returns (result: nat)
    ensures result == Fact(n)
    ensures n == 0 ==> result == 1
  {
    result := 1;
    for i := 1 to n + 1
      invariant result == Fact(i - 1)
    {
      result := result * i;
    }
  }

  function Square(a: real): (r: real)
    ensures r >= 0.0
  {
    a * a
  }

  // ---------------------------------------------------------------- properties

  /** Subtraction undoes addition, and addition does not depend on the order
      of its arguments. */
  lemma AddSubtractInverse(a: real, b: real)
    ensures Subtract(Add(a, b), b) == a
    ensures Add(a, b) == Add(b, a)
  {
  }

  /** Division by a non-zero divisor undoes multiplication. */
  lemma DivideUndoesMultiply(a: real, b: real)
    requires b != 0.0
    ensures Divide(Multiply(a, b), b) == Returned(a)
  {
  }

  /** The remainder is JavaScript's: the dividend minus the divisor times the
      quotient truncated toward zero. */
  lemma ModIsTruncatedRemainder(a: int, b: int)
    requires b != 0
    ensures Mod(a, b) == Number((a - b * TruncQuot(a, b)) as real)
  {
    TruncDivision(a, b);
  }

  /** The same holds of any quotient and remainder that meet JavaScript's
      conditions on `%`, so the remainder `mod` returns is the only one. */
  lemma ModCharacterised(a: int, b: int, q: int, r: int)
    requires b != 0 && a == b * q + r && Abs(r) < Abs(b)
    requires a >= 0 ==> r >= 0
    requires a < 0 ==> r <= 0
    ensures Mod(a, b) == Number(r as real)
  {
    TruncRemUnique(a, b, q, r);
  }

  /** The power of a base to a sum of exponents is the product of the powers;
      the zeroth power is 1 whatever the base. */
  lemma PowerLaws(a: real, m: nat, n: nat)
    ensures Power(a, 0) == 1.0
    ensures Power(a, m + n) == Power(a, m) * Power(a, n)
  {
    PowAdd(a, m, n);
  }

  /** Squaring is the second power, is even, and is the square of the
      absolute value. */
  lemma SquareProperties(a: real)
    ensures Square(a) == Power(a, 2)
    ensures Square(-a) == Square(a)
    ensures Square(a) == Absolute(a) * Absolute(a)
  {
    assert Pow(a, 2) == a * Pow(a, 1) && Pow(a, 1) == a;
  }

  /** The square root of a square is the absolute value. */
  lemma SqrtOfSquare(a: real, root: real)
    requires IsSqrt(root, Square(a))
    ensures Sqrt(Square(a), root) == Returned(Absolute(a))
  {
    SqrtUnique(root, Absolute(a), Square(a));
  }

  /** The absolute value does not see the sign, and it is idempotent. */
  lemma AbsoluteProperties(a: real)
    ensures Absolute(-a) == Absolute(a)
    ensures Absolute(Absolute(a)) == Absolute(a)
  {
  }

  /** Every factorial after the first is n times the previous one. */
  lemma FactorialRecurrence(n: int)
    requires n > 0
    ensures FactorialOf(n).Returned? && FactorialOf(n - 1).Returned?
    ensures FactorialOf(n).value == n as real * FactorialOf(n - 1).value
  {
  }

  /** Factorial throws exactly on negative arguments, the factorial of zero is
      1, and a returned factorial is a positive whole number. */
  lemma FactorialDomain(a: int)
    ensures FactorialOf(0) == Returned(1.0)
    ensures FactorialOf(a).Threw? <==> a < 0
    ensures FactorialOf(a).Threw? ==> FactorialOf(a).message == FactorialOfNegative
    ensures FactorialOf(a).Returned? ==> FactorialOf(a).value >= 1.0
  {
  }
}
