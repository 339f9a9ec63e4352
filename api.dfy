/** The HTTP endpoints of the calculator service (backend/index.js, lines
    67-137): each one reads `a` (and `b`) from the JSON body, calls one
    arithmetic function and answers `{result}` with status 200, or, for the
    three endpoints that catch an error, `{error: message}` with status 400. */
module Api {
  import opened Numbers
  import opened Calculator

  /** The body of a POST to /api/<operation>, one constructor per endpoint;
      the fields stand for the JSON fields `a` and `b`. */
  datatype Request =
    | AddRequest(a: real, b: real)
    | SubtractRequest(a: real, b: real)
    | MultiplyRequest(a: real, b: real)
    | DivideRequest(a: real, b: real)
    | ModRequest(dividend: int, divisor: int)
    | PowerRequest(a: real, exponent: nat)
    | SqrtRequest(a: real)
    | AbsoluteRequest(a: real)
    | FactorialRequest(n: int)
    | SquareRequest(a: real)

  datatype Body = ResultBody(result: Value) | ErrorBody(error: string)

  datatype Response = Response(status: int, body: Body)

  const OK := 200
  const BadRequest := 400

  /** `res.json({ result })`: the status stays at its default, 200. */
  function Json(result: Value): (resp: Response)
  {
    Response(OK, ResultBody(result))
  }

  /** A handler that wraps the call in try/catch: a returned number becomes
      `{result}`, a thrown error `{error: error.message}` with status 400. */
  function Caught(o: Outcome): (resp: Response)
  {
    match o
    case Returned(v) => Json(Number(v))
    case Threw(m) => Response(BadRequest, ErrorBody(m))
  }

  /** The request's guards: the inputs on which an endpoint's function throws. */
  predicate Rejected(req: Request)
  {
    match req
    case DivideRequest(_, b) => b == 0.0
    case SqrtRequest(a) => a < 0.0
    case FactorialRequest(a) => a < 0
    case _ => false
  }

  /** The fixed message the function of a rejected request throws. */
  function RejectionMessage(req: Request): string
    requires Rejected(req)
  {
    if req.DivideRequest? then DivideByZero
    else if req.SqrtRequest? then SqrtOfNegative
    else FactorialOfNegative
  }

  /** The service's answer to a request. `root` is what the runtime's
      square-root routine gives for the `a` of a sqrt request (and is not
      used by any other endpoint). */
  function Respond(req: Request, root: real): (resp: Response)
    requires req.SqrtRequest? && req.a >= 0.0 ==> IsSqrt(root, req.a)
    ensures resp.status == OK || resp.status == BadRequest
    ensures resp.status == OK <==> resp.body.ResultBody?
  {
    match req
    case AddRequest(a, b) => Json(Number(Add(a, b)))
    case SubtractRequest(a, b) => Json(Number(Subtract(a, b)))
    case MultiplyRequest(a, b) => Json(Number(Multiply(a, b)))
    case DivideRequest(a, b) => Caught(Divide(a, b))
    case ModRequest(a, b) =>
      var result := Mod(a, b);
      Json(if result == Text(NaNText) then Text(NaNText) else result)
    case PowerRequest(a, b) => Json(Number(Power(a, b)))
    case SqrtRequest(a) => Caught(Sqrt(a, root))
    case AbsoluteRequest(a) => Json(Number(Absolute(a)))
    case FactorialRequest(a) => Caught(FactorialOf(a))
    case SquareRequest(a) => Json(Number(Square(a)))
  }

  // ---------------------------------------------------------------- properties

  /** The service answers 400 exactly on the rejected requests, and then the
      body is exactly the message the guard throws; every other request gets
      a 200 and a result. */
  lemma BadRequestExactlyWhenRejected(req: Request, root: real)
    requires req.SqrtRequest? && req.a >= 0.0 ==> IsSqrt(root, req.a)
    ensures Respond(req, root).status == BadRequest <==> Rejected(req)
    ensures Rejected(req) ==> Respond(req, root).body == ErrorBody(RejectionMessage(req))
    ensures !Rejected(req) ==> Respond(req, root).status == OK && Respond(req, root).body.ResultBody?
  {
  }

  /** Only divide, sqrt and factorial can answer 400. */
  lemma OnlyGuardedEndpointsFail(req: Request, root: real)
    requires req.SqrtRequest? && req.a >= 0.0 ==> IsSqrt(root, req.a)
    requires !(req.DivideRequest? || req.SqrtRequest? || req.FactorialRequest?)
    ensures Respond(req, root).status == OK
  {
  }

  /** Division: 400 with "Divide by zero" for a zero divisor, otherwise 200
      with the quotient. */
  lemma DivideEndpoint(a: real, b: real)
    ensures b == 0.0 ==> Respond(DivideRequest(a, b), 0.0) == Response(BadRequest, ErrorBody(DivideByZero))
    ensures b != 0.0 ==> Respond(DivideRequest(a, b), 0.0) == Json(Number(a / b))
  {
  }

  /** Remainder: a zero divisor is not an error but a 200 whose result is the
      string "NaN"; any other divisor gives the truncating remainder. The
      handler's `result === "NaN" ? "NaN" : result` passes the result through. */
  lemma ModEndpoint(a: int, b: int)
    ensures Respond(ModRequest(a, b), 0.0) == Json(Mod(a, b))
    ensures b == 0 ==> Respond(ModRequest(a, b), 0.0) == Json(Text(NaNText))
    ensures b != 0 ==> Respond(ModRequest(a, b), 0.0) == Json(Number(TruncRem(a, b) as real))
  {
  }

  /** Square root: 400 with its message on a negative argument, otherwise 200
      with the non-negative root. */
  lemma SqrtEndpoint(a: real, root: real)
    requires a >= 0.0 ==> IsSqrt(root, a)
    ensures a < 0.0 ==> Respond(SqrtRequest(a), root) == Response(BadRequest, ErrorBody(SqrtOfNegative))
    ensures a >= 0.0 ==> Respond(SqrtRequest(a), root).status == OK
    ensures a >= 0.0 ==> IsSqrt(Respond(SqrtRequest(a), root).body.result.n, a)
  {
  }

  /** Factorial: 400 with its message on a negative argument; 1 for zero; and
      for n > 0 the answer is n times the answer for n - 1. */
  lemma FactorialEndpoint(n: int)
    ensures n < 0 ==> Respond(FactorialRequest(n), 0.0) == Response(BadRequest, ErrorBody(FactorialOfNegative))
    ensures n == 0 ==> Respond(FactorialRequest(n), 0.0) == Json(Number(1.0))
    ensures n > 0 ==> Respond(FactorialRequest(n), 0.0).body.result.n
                        == n as real * Respond(FactorialRequest(n - 1), 0.0).body.result.n
  {
    if n > 0 {
      FactorialRecurrence(n);
    }
  }

  /** The scenarios of the service's API tests that do not involve a square root. */
  lemma ApiScenarios()
    ensures Respond(AddRequest(5.0, 3.0), 0.0) == Json(Number(8.0))
    ensures Respond(AddRequest(-5.0, 3.0), 0.0) == Json(Number(-2.0))
    ensures Respond(SubtractRequest(5.0, 3.0), 0.0) == Json(Number(2.0))
    ensures Respond(SubtractRequest(5.0, -3.0), 0.0) == Json(Number(8.0))
    ensures Respond(MultiplyRequest(5.0, 3.0), 0.0) == Json(Number(15.0))
    ensures Respond(MultiplyRequest(5.0, 0.0), 0.0) == Json(Number(0.0))
    ensures Respond(DivideRequest(6.0, 3.0), 0.0) == Json(Number(2.0))
    ensures Respond(DivideRequest(6.0, 0.0), 0.0) == Response(400, ErrorBody("Divide by zero"))
    ensures Respond(ModRequest(5, 3), 0.0) == Json(Number(2.0))
    ensures Respond(ModRequest(5, 0), 0.0) == Json(Text("NaN"))
    ensures Respond(PowerRequest(2.0, 3), 0.0) == Json(Number(8.0))
    ensures Respond(PowerRequest(2.0, 0), 0.0) == Json(Number(1.0))
    ensures Respond(SqrtRequest(-9.0), 0.0) == Response(400, ErrorBody("Cannot compute square root of negative number"))
    ensures Respond(AbsoluteRequest(-5.0), 0.0) == Json(Number(5.0))
    ensures Respond(AbsoluteRequest(5.0), 0.0) == Json(Number(5.0))
    ensures Respond(FactorialRequest(5), 0.0) == Json(Number(120.0))
    ensures Respond(FactorialRequest(0), 0.0) == Json(Number(1.0))
    ensures Respond(FactorialRequest(-1), 0.0) == Response(400, ErrorBody("Cannot compute factorial of negative number"))
    ensures Respond(SquareRequest(4.0), 0.0) == Json(Number(16.0))
    ensures Respond(SquareRequest(-4.0), 0.0) == Json(Number(16.0))
  {
    assert TruncRem(5, 3) == 2;
    assert Pow(2.0, 3) == 8.0 by {
      assert Pow(2.0, 1) == 2.0;
      assert Pow(2.0, 2) == 4.0;
    }
    assert Fact(5) == 120 by {
      assert Fact(2) == 2;
      assert Fact(3) == 6;
      assert Fact(4) == 24;
    }
  }

  /** The square-root scenarios: whatever value the runtime's routine gives
      for 9 and for 0, as long as it is the non-negative root, the answers
      are 3 and 0. */
  lemma SqrtScenarios(rootOf9: real, rootOf0: real)
    requires IsSqrt(rootOf9, 9.0) && IsSqrt(rootOf0, 0.0)
    ensures Respond(SqrtRequest(9.0), rootOf9) == Json(Number(3.0))
    ensures Respond(SqrtRequest(0.0), rootOf0) == Json(Number(0.0))
  {
    SqrtUnique(rootOf9, 3.0, 9.0);
    SqrtUnique(rootOf0, 0.0, 0.0);
  }
}
