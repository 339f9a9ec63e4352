# Calculator service arithmetic, modelled in Dafny

This project models the arithmetic layer of a small web calculator service
(`backend/index.js`). The service has ten POST endpoints, `/api/add` through
`/api/square`. Each endpoint reads `a`, and `b` for the binary operations, from
a JSON body and calls one arithmetic function. It answers `{result}` with
status 200, or `{error: message}` with status 400 when a guarded function
throws.

- `numbers.dfy`, module `Numbers`: the mathematics behind the operations.
  It defines the factorial, natural powers, the square-root relation, and the
  truncating quotient and remainder that JavaScript's `%` computes. Dafny's own
  `%` is Euclidean, so it cannot be used directly.
- `calculator.dfy`, module `Calculator`: the ten functions `add`, `subtract`,
  `multiply`, `divide`, `mod`, `power`, `sqrt`, `absolute`, `factorial` and
  `square`. A function that can throw returns an `Outcome`, which is either
  `Returned(v)` or `Threw(message)`. `mod` returns a JSON `Value`, which is
  either a number or the string `"NaN"` that it gives for a zero divisor.
  `factorial` is a method with the source's guard and early return for 0. Its
  loop, which accumulates the product 1·2·…·a, is the method `Product`, proved
  equal to the recursive `Fact`.
- `api.dfy`, module `Api`: the endpoints. `Respond(req, root)` gives the
  `(status, body)` pair that each handler writes. A handler without try/catch
  answers `res.json({result})`, which has status 200. The divide, sqrt and
  factorial handlers catch errors and answer 400 with the thrown message.

Numbers are mathematical: `real` for add, subtract, multiply, divide, absolute,
square and the power's base; `int` for mod and for the factorial's argument;
`nat` for the power's exponent.

The square root of a real number is not something the verifier can construct.
So `Sqrt` and `Respond` take `root`, the value that `Math.sqrt` gives for `a`,
as a parameter. The only assumption on it is that, for `a >= 0`, it is the
non-negative square root. `SqrtUnique` shows that this pins the value down.

`Math.pow(0, 0)` is 1 in JavaScript, so `PowerLaws` states that the zeroth
power is 1 for every base, zero included.

## Model

| member | source | states |
|---|---|---|
| `Numbers.Fact` | backend/index.js:58-62 | the product that the factorial loop accumulates is at least 1 for every natural n |
| `Numbers.PowAdd` | backend/index.js:43 | x^(m+n) == x^m · x^n for natural exponents |
| `Numbers.SqrtUnique` | backend/index.js:48 | a number has at most one non-negative square root, so the sqrt result is determined by its input |
| `Numbers.TruncRem` | backend/index.js:41 | JavaScript's integer remainder has the sign of the dividend and a magnitude below the divisor's |
| `Numbers.TruncDivision` | backend/index.js:41 | dividend == divisor · truncated quotient + remainder |
| `Numbers.TruncRemUnique` | backend/index.js:41 | any quotient and remainder meeting those sign and size conditions are the truncated ones |
| `Numbers.TruncRemNonNegative` | backend/index.js:41 | for a non-negative dividend and a positive divisor the remainder is the Euclidean one |
| `Numbers.TruncRemNegateDividend` | backend/index.js:41 | negating the dividend negates the remainder |
| `Numbers.TruncRemNegateDivisor` | backend/index.js:41 | the divisor's sign does not change the remainder |
| `Calculator.Divide` | backend/index.js:31-36 | throws exactly when b == 0, with the message "Divide by zero"; otherwise its result times b gives back a |
| `Calculator.Mod` | backend/index.js:37-42 | gives the string "NaN" exactly when b == 0 and never throws; otherwise gives a whole number with the dividend's sign and magnitude below the divisor's |
| `Calculator.Sqrt` | backend/index.js:44-49 | throws exactly when a < 0, with the fixed message; otherwise returns r >= 0 with r·r == a |
| `Calculator.Absolute` | backend/index.js:50 | the result is non-negative and equals a or -a |
| `Calculator.Factorial` | backend/index.js:51-63 | throws its message on a negative argument; otherwise the early return for 0 and the loop give a! |
| `Calculator.Product` | backend/index.js:58-62 | the loop (invariant: accumulator == (i-1)!) gives n!, and with no iteration (n == 0) gives 1, the value of the early return |
| `Calculator.Square` | backend/index.js:64 | the square is never negative |
| `Calculator.AddSubtractInverse` | backend/index.js:28-29 | subtracting b undoes adding b; addition is commutative |
| `Calculator.DivideUndoesMultiply` | backend/index.js:30-36 | for b != 0, dividing a·b by b returns a |
| `Calculator.ModIsTruncatedRemainder` | backend/index.js:37-42 | for b != 0, mod gives a - b·trunc(a/b), JavaScript's definition of `%` |
| `Calculator.ModCharacterised` | backend/index.js:41 | every remainder with the dividend's sign and magnitude below the divisor's is the one mod gives |
| `Calculator.PowerLaws` | backend/index.js:43 | power(a, 0) == 1 for every a, and power(a, m+n) == power(a, m) · power(a, n) |
| `Calculator.SquareProperties` | backend/index.js:64 | square(a) == power(a, 2) == absolute(a)·absolute(a), and square(-a) == square(a) |
| `Calculator.SqrtOfSquare` | backend/index.js:44-50 | sqrt(square(a)) == absolute(a) |
| `Calculator.AbsoluteProperties` | backend/index.js:50 | absolute(-a) == absolute(a), and absolute is idempotent |
| `Calculator.FactorialRecurrence` | backend/index.js:51-63 | factorial(n) == n · factorial(n-1) for n > 0 |
| `Calculator.FactorialDomain` | backend/index.js:51-63 | factorial throws exactly on negative input, with its fixed message; factorial(0) == 1; otherwise it returns at least 1 |
| `Api.Respond` | backend/index.js:67-137 | every endpoint answers 200 or 400, and 200 exactly when the body is a result; its helpers `Json` (`res.json({result})`, status 200) and `Caught` (the try/catch handlers: a thrown error becomes 400 with the message) mirror the two handler shapes |
| `Api.BadRequestExactlyWhenRejected` | backend/index.js:67-137 | the status is 400 if and only if the request hits a guard (divide by 0, sqrt or factorial of a negative), and the error body is exactly that guard's message |
| `Api.OnlyGuardedEndpointsFail` | backend/index.js:67-137 | add, subtract, multiply, mod, power, absolute and square always answer 200 |
| `Api.DivideEndpoint` | backend/index.js:85-93 | /api/divide answers 400 "Divide by zero" for b == 0 and 200 with a / b otherwise |
| `Api.ModEndpoint` | backend/index.js:95-99 | /api/mod passes mod's value through: 200 with "NaN" for b == 0, 200 with the truncating remainder otherwise |
| `Api.SqrtEndpoint` | backend/index.js:107-115 | /api/sqrt answers 400 with its message for a < 0, and 200 with the non-negative root otherwise |
| `Api.FactorialEndpoint` | backend/index.js:123-131 | /api/factorial answers 400 with its message for n < 0, 200 with 1 for 0, and n times the answer for n-1 when n > 0 |
| `Api.ApiScenarios` | backend/test/calculator.test.js:5-199 | the answers that the API tests expect for every endpoint except sqrt of 9 and 0, e.g. factorial(5) == 120 and mod(5, 0) == "NaN" |
| `Api.SqrtScenarios` | backend/test/calculator.test.js:114-128 | sqrt(9) answers 3 and sqrt(0) answers 0, whatever non-negative root the runtime gives |

## Left out

- Express setup, CORS, JSON body parsing, static-file serving and the catch-all route for the client (backend/index.js:8-14, 139-143). These are framework plumbing.
- The choice of `__dirname` and the conditional `app.listen` (backend/index.js:16-25, 146-151). These are process start-up and I/O.
- Floating point: JavaScript numbers are modelled as exact reals and integers. Rounding, overflow to `Infinity` (factorial beyond 170), `-0` and `NaN` results are not modelled.
- Missing or non-numeric fields: their propagation as `undefined` or `NaN` through the arithmetic is not modelled. A request carries well-typed numbers.
- Sqrt: `Math.sqrt` is not computed. Its value is the parameter `root`, and the model assumes only that it is the exact non-negative square root. The correctly rounded double is not modelled.
- Respond: takes the same `root` parameter for the sqrt endpoint, for the same reason.
- Mod: modelled on integers only. JavaScript's `%` on fractional operands is not modelled.
- Power: modelled for natural exponents only. Negative and fractional exponents of `Math.pow` are not modelled.
- Factorial: modelled for integer arguments only. With a fractional argument the loop bound is unspecified behaviour.
- frontend/src/App.js is not part of this model. It is a form plus a network client, and its only logic is display glue.
