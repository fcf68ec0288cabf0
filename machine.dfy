// The stack operations: the check builders and `resultWrapper`
// (evaluation.ts:181-200), `operationResult`, `intrinsicResult` and
// `functionResult` (evaluation.ts:202-474), and the `factorial` and `root`
// helpers (evaluation.ts:57-69). Every handler works on a copy of the stack,
// so each is a function from the old stack to a new one.

module Machine {
  import opened Syntax

  /** What the model takes from the JavaScript runtime: the `Math`
      functions, the non-finite results that reals cannot represent, and the
      number-to-string conversion. */
  datatype Host = Host(
    sqrt: real -> real,
    sin: real -> real,
    cos: real -> real,
    tan: real -> real,
    asin: real -> real,
    acos: real -> real,
    ln: real -> real,             // Math.log
    pow: (real, real) -> real,    // Math.pow
    divideByZero: real -> real,   // x / 0: an infinity or NaN
    powInfinity: real -> real,    // Math.pow(x, 1 / 0)
    show: real -> string)         // Number.prototype.toString

  /** An operation's outcome: the new stack or the first failing check's
      message. */
  datatype Result = Ok(stack: seq<real>) | Error(message: string)

  predicate IsInteger(x: real) {
    x.Floor as real == x
  }

  /** `r % 2 !== 0 && Math.floor(r) === r` */
  predicate IsOddInteger(x: real) {
    IsInteger(x) && x.Floor % 2 == 1
  }

  /** The checks the handlers are built from. */
  datatype Check =
    | Enough(count: nat)        // isEnoughCheck
    | LastAtLeast(bound: int)   // isLastGreaterCheck
    | LastAtMost(bound: int)    // isLastLesserCheck
    | TopNonZero(reason: string)
    | LogBase
    | TopPositive
    | TopInteger
    | PowDomain
    | RootDomain

  /** The condition of the `root` check: `1 / r` non-integer rejects a
      negative base, and an odd integer degree readmits it. With `r == 0`,
      `1 / r` is an infinity, which `Math.floor` leaves unchanged. */
  predicate RootAllowed(base: real, r: real) {
    var reciprocalIsInteger := r == 0.0 || IsInteger(1.0 / r);
    !(!reciprocalIsInteger && base < 0.0) || (base < 0.0 && IsOddInteger(r))
  }

  /** Whether a check passes on stack `s`. A read below the bottom of the
      stack gives JavaScript's `undefined`: ordered comparisons with it are
      false, `!==` a number is true, and `Math.floor` of it is NaN. */
  predicate CheckHolds(c: Check, s: seq<real>) {
    var n := |s|;
    match c
    case Enough(k) => n >= k
    case LastAtLeast(b) => n >= 1 && s[n - 1] >= b as real
    case LastAtMost(b) => n >= 1 && s[n - 1] <= b as real
    case TopNonZero(_) => n < 1 || s[n - 1] != 0.0
    case LogBase => n >= 2 && s[n - 2] > 0.0 && s[n - 2] != 1.0
    case TopPositive => n >= 1 && s[n - 1] > 0.0
    case TopInteger => n >= 1 && IsInteger(s[n - 1])
    case PowDomain => n < 2 || !(!IsInteger(s[n - 1]) && s[n - 2] < 0.0)
    case RootDomain => n < 2 || RootAllowed(s[n - 2], s[n - 1])
  }

  function EnoughMessage(k: nat): string {
    "Expected at least " + NatToDecimal(k) + " items on the stack"
  }

  function CheckMessage(c: Check): string {
    match c
    case Enough(k) => EnoughMessage(k)
    case LastAtLeast(b) => "Expected number that is greater or equal " + IntToDecimal(b)
    case LastAtMost(b) => "Expected number that is lesser or equal " + IntToDecimal(b)
    case TopNonZero(reason) => reason
    case LogBase => "log base should be greater than 0 and not equal to 1"
    case TopPositive => "number from which you take log should be greater than 0"
    case TopInteger => "factorial can only accept integers"
    case PowDomain => "negative numbers can have only integer powers"
    case RootDomain => "even and not integer roots of negative numbers are undefined"
  }

  /** The check part of `resultWrapper`: every check is run on the stack and
      the message of the first one that fails, in listed order, is
      reported. */
  function FirstFailure(checks: seq<Check>, s: seq<real>): (r: Option<string>)
    ensures r.None? <==> AllHold(checks, s)
    decreases |checks|
  {
    if checks == [] then None
    else if !CheckHolds(checks[0], s) then Some(CheckMessage(checks[0]))
    else FirstFailure(checks[1..], s)
  }

  /** A reported message belongs to a failing check, and every check listed
      before that one passed. */
  lemma {:induction false} FirstFailureReportsFirst(checks: seq<Check>, s: seq<real>)
    requires FirstFailure(checks, s).Some?
    ensures exists i :: 0 <= i < |checks| && FailsFirst(checks, s, i)
                        && FirstFailure(checks, s).value == CheckMessage(checks[i])
    decreases |checks|
  {
    if CheckHolds(checks[0], s) {
      var tail := checks[1..];
      assert FirstFailure(checks, s) == FirstFailure(tail, s);
      FirstFailureReportsFirst(tail, s);
      var i :| 0 <= i < |tail| && FailsFirst(tail, s, i)
               && FirstFailure(tail, s).value == CheckMessage(tail[i]);
      FailsFirstAfterPass(checks, s, i);
    } else {
      assert FailsFirst(checks, s, 0);
    }
  }

  lemma FailsFirstAfterPass(checks: seq<Check>, s: seq<real>, i: nat)
    requires checks != [] && CheckHolds(checks[0], s)
    requires i < |checks| - 1 && FailsFirst(checks[1..], s, i)
    ensures FailsFirst(checks, s, i + 1) && checks[i + 1] == checks[1..][i]
  {
    forall j | 0 < j < i + 1
      ensures CheckHolds(checks[j], s)
    {
      assert checks[j] == checks[1..][j - 1];
    }
  }

  /** Check `i` is the first of `checks` to fail on `s`. */
  predicate FailsFirst(checks: seq<Check>, s: seq<real>, i: nat)
    requires i < |checks|
  {
    !CheckHolds(checks[i], s) && forall j :: 0 <= j < i ==> CheckHolds(checks[j], s)
  }

  /** Every check in the list passes. */
  predicate AllHold(checks: seq<Check>, s: seq<real>)
    decreases |checks|
  {
    checks == [] || (CheckHolds(checks[0], s) && AllHold(checks[1..], s))
  }

  // ---------------------------------------------------------------------
  // Arithmetic helpers
  // ---------------------------------------------------------------------

  /** JavaScript division, whose zero divisor the host answers. */
  function JsDivide(h: Host, a: real, b: real): real {
    if b != 0.0 then a / b else h.divideByZero(a)
  }

  /** Rounding toward zero. */
  function Trunc(x: real): int {
    if x >= 0.0 then x.Floor else -((-x).Floor)
  }

  /** JavaScript's `%`: the remainder of the quotient truncated toward zero. */
  function JsRemainder(a: real, b: real): real
    requires b != 0.0
  {
    a - b * Trunc(a / b) as real
  }

  lemma TruncBounds(x: real)
    ensures x >= 0.0 ==> 0.0 <= x - Trunc(x) as real < 1.0
    ensures x < 0.0 ==> -1.0 < x - Trunc(x) as real <= 0.0
  {
  }

  lemma ScaleBelow(b: real, u: real, v: real)
    requires b > 0.0 && u <= v
    ensures b * u <= b * v
  {
  }

  lemma ScaleStrictlyBelow(b: real, u: real, v: real)
    requires b > 0.0 && u < v
    ensures b * u < b * v
  {
  }

  /** The remainder for a non-negative dividend and a positive divisor. */
  lemma RemainderNonNegative(a: real, b: real)
    requires a >= 0.0 && b > 0.0
    ensures 0.0 <= JsRemainder(a, b) < b
  {
    var x := a / b;
    assert b * x == a;
    assert x >= 0.0;
    var t := Trunc(x) as real;
    assert t <= x < t + 1.0;
    var u := t + 1.0;
    ScaleBelow(b, t, x);
    ScaleStrictlyBelow(b, x, u);
    assert b * u == b * t + b;
    assert JsRemainder(a, b) == a - b * t;
    assert b * x < b * u;
    assert a < b * u;
    assert a - b * t < b;
    assert JsRemainder(a, b) < b;
    assert 0.0 <= JsRemainder(a, b);
  }

  /** Negating the dividend negates the remainder. */
  lemma RemainderOddInDividend(a: real, b: real)
    requires b != 0.0
    ensures JsRemainder(-a, b) == -JsRemainder(a, b)
  {
    NegateQuotient(a, b);
    TruncOdd(a / b);
  }

  /** Negating the divisor leaves the remainder unchanged. */
  lemma RemainderEvenInDivisor(a: real, b: real)
    requires b != 0.0
    ensures JsRemainder(a, -b) == JsRemainder(a, b)
  {
    NegateQuotient(a, b);
    TruncOdd(a / b);
    var q := -Trunc(a / b) as real;
    assert JsRemainder(a, -b) == a - (-b) * q;
  }

  lemma NegateQuotient(a: real, b: real)
    requires b != 0.0
    ensures -a / b == -(a / b)
    ensures a / -b == -(a / b)
  {
    var q := a / b;
    assert q * b == a;
    assert (-q) * b == -a;
    assert q * (-b) == -a;
  }

  lemma TruncOdd(x: real)
    ensures Trunc(-x) == -Trunc(x)
  {
    if x < 0.0 {
      assert -x > 0.0;
    }
  }

  /** The remainder differs from `a` by a whole multiple of `b`, is smaller
      than `b` in magnitude, and takes the sign of the dividend. */
  lemma RemainderProperties(a: real, b: real)
    requires b != 0.0
    ensures IsInteger((a - JsRemainder(a, b)) / b)
    ensures -JsAbs(b) < JsRemainder(a, b) < JsAbs(b)
    ensures a >= 0.0 ==> JsRemainder(a, b) >= 0.0
    ensures a <= 0.0 ==> JsRemainder(a, b) <= 0.0
  {
    var t := Trunc(a / b) as real;
    assert (a - JsRemainder(a, b)) / b == t;
    var pa := JsAbs(a);
    var pb := JsAbs(b);
    RemainderNonNegative(pa, pb);
    if a < 0.0 {
      RemainderOddInDividend(pa, pb);
      assert -pa == a;
    }
    if b < 0.0 {
      RemainderEvenInDivisor(a, pb);
      assert -pb == b;
    }
  }

  function JsAbs(x: real): real {
    if x < 0.0 then -x else x
  }

  /** The `root` helper: the real odd root of a negative radicand, otherwise
      `Math.pow(n, 1 / r)`. */
  function RootValue(h: Host, n: real, r: real): real {
    if n < 0.0 && IsOddInteger(r) then -h.pow(-n, 1.0 / r)
    else if r == 0.0 then h.powInfinity(n)
    else h.pow(n, 1.0 / r)
  }

  // ---------------------------------------------------------------------
  // Factorial
  // ---------------------------------------------------------------------

  function NatFactorial(n: nat): (r: int)
    ensures r >= 1
  {
    if n == 0 then 1 else n * NatFactorial(n - 1)
  }

  /** sign(n) * |n|!, with 0! = 1. */
  function SignedFactorial(n: int): int {
    if n < 0 then -NatFactorial(-n) else NatFactorial(n)
  }

  /** `factorial`: the accumulator loop `while (--n >= 1) acc *= (n + 1)`
      over the magnitude, then the sign. */
  method Factorial(n: int) returns (r: int)
    ensures r == SignedFactorial(n)
    ensures r != 0 && (r < 0 <==> n < 0)
  {
    var acc := 1;
    var isNeg := n < 0;
    var m := if n < 0 then -n else n;
    ghost var magnitude: nat := m;
    m := m - 1;
    while m >= 1
      invariant -1 <= m < magnitude || (m == -1 && magnitude == 0)
      invariant acc >= 1
      invariant acc * NatFactorial(m + 1) == NatFactorial(magnitude)
    {
      AccumulateFactor(acc, m);
      acc := acc * (m + 1);
      m := m - 1;
    }
    assert NatFactorial(m + 1) == 1;
    r := acc * (if isNeg then -1 else 1);
  }

  /** One turn of `factorial`'s loop moves the factor `k + 1` from the
      remaining product into the accumulator. */
  lemma AccumulateFactor(acc: int, k: nat)
    requires acc >= 1
    ensures acc * (k + 1) >= 1
    ensures acc * NatFactorial(k + 1) == (acc * (k + 1)) * NatFactorial(k)
  {
    var f := NatFactorial(k);
    assert NatFactorial(k + 1) == (k + 1) * f;
    assert acc * ((k + 1) * f) == (acc * (k + 1)) * f;
    assert acc * (k + 1) >= acc;
  }

  // ---------------------------------------------------------------------
  // The three handler families
  // ---------------------------------------------------------------------

  function OperatorChecks(o: Operator): seq<Check> {
    match o
    case Div => [Enough(2), TopNonZero("division by zero")]
    case Mod => [Enough(2), TopNonZero("modulo by zero")]
    case _ => [Enough(2)]
  }

  /** Pop `b` (the top) and `a`, push the result. */
  function OperatorEffect(h: Host, o: Operator, s: seq<real>): seq<real>
    requires |s| >= 2
    requires o == Div || o == Mod ==> s[|s| - 1] != 0.0
  {
    var a, b := s[|s| - 2], s[|s| - 1];
    s[..|s| - 2] + [
      match o
      case Plus => b + a
      case Minus => a - b
      case Mul => b * a
      case Div => a / b
      case FloorDiv => if b != 0.0 then (a / b).Floor as real else h.divideByZero(a)
      case Mod => JsRemainder(a, b)
    ]
  }

  /** `operationResult` */
  function OperationResult(h: Host, s: seq<real>, o: Operator): Result {
    var checks := OperatorChecks(o);
    match FirstFailure(checks, s)
    case Some(m) => Error(m)
    case None =>
      assert CheckHolds(checks[0], s);
      assert o == Div || o == Mod ==> CheckHolds(checks[1], s);
      Ok(OperatorEffect(h, o, s))
  }

  function IntrinsicArity(i: Intrinsic): nat {
    match i
    case Dup => 1
    case Drop => 1
    case Over => 2
    case Swap => 2
  }

  function IntrinsicEffect(i: Intrinsic, s: seq<real>): seq<real>
    requires |s| >= IntrinsicArity(i)
  {
    var n := |s|;
    match i
    case Dup => s + [s[n - 1]]
    case Drop => s[..n - 1]
    case Over => s + [s[n - 2]]
    case Swap => s[..n - 2] + [s[n - 1], s[n - 2]]
  }

  /** `intrinsicResult` */
  function IntrinsicResult(s: seq<real>, i: Intrinsic): Result {
    var checks := [Enough(IntrinsicArity(i))];
    match FirstFailure(checks, s)
    case Some(m) => Error(m)
    case None =>
      assert CheckHolds(checks[0], s);
      Ok(IntrinsicEffect(i, s))
  }

  function FunctionArity(f: MFunction): nat {
    match f
    case Log => 2
    case Pow => 2
    case Root => 2
    case _ => 1
  }

  function FunctionChecks(f: MFunction): seq<Check> {
    match f
    case Sqrt => [Enough(1), LastAtLeast(0)]
    case Asin => [Enough(1), LastAtMost(1), LastAtLeast(-1)]
    case Acos => [Enough(1), LastAtMost(1), LastAtLeast(-1)]
    case Log => [Enough(2), LogBase, TopPositive]
    case Ln => [Enough(1), TopPositive]
    case Fact => [Enough(1), TopInteger]
    case Pow => [Enough(2), PowDomain]
    case Root => [Enough(2), RootDomain]
    case _ => [Enough(1)]
  }

  /** Pop the operand(s) and push the result. `atan` pushes `Math.acos` of
      its operand, as the source does. */
  function FunctionEffect(h: Host, f: MFunction, s: seq<real>): seq<real>
    requires |s| >= FunctionArity(f)
    requires f == Fact ==> IsInteger(s[|s| - 1])
  {
    var n := |s|;
    var x := s[n - 1];
    match f
    case Sqrt => s[..n - 1] + [h.sqrt(x)]
    case Sin => s[..n - 1] + [h.sin(x)]
    case Cos => s[..n - 1] + [h.cos(x)]
    case Tan => s[..n - 1] + [h.tan(x)]
    case Ctan => s[..n - 1] + [JsDivide(h, 1.0, h.tan(x))]
    case Asin => s[..n - 1] + [h.asin(x)]
    case Acos => s[..n - 1] + [h.acos(x)]
    case Atan => s[..n - 1] + [h.acos(x)]
    case Log => s[..n - 2] + [JsDivide(h, h.ln(x), h.ln(s[n - 2]))]
    case Ln => s[..n - 1] + [h.ln(x)]
    case Fact => s[..n - 1] + [SignedFactorial(x.Floor) as real]
    case Pow => s[..n - 2] + [h.pow(s[n - 2], x)]
    case Root => s[..n - 2] + [RootValue(h, s[n - 2], x)]
  }

  /** `functionResult` */
  function FunctionResult(h: Host, s: seq<real>, f: MFunction): Result {
    var checks := FunctionChecks(f);
    match FirstFailure(checks, s)
    case Some(m) => Error(m)
    case None =>
      assert CheckHolds(checks[0], s);
      assert f == Fact ==> CheckHolds(checks[1], s);
      Ok(FunctionEffect(h, f, s))
  }

  /** One statement of `evaluate`'s loop: a number is pushed, anything else
      goes to its handler. */
  function Step(h: Host, s: seq<real>, ins: Instr): Result {
    match ins
    case Num(v) => Ok(s + [v])
    case Op(o) => OperationResult(h, s, o)
    case Intr(i) => IntrinsicResult(s, i)
    case Func(f) => FunctionResult(h, s, f)
  }

  // ---------------------------------------------------------------------
  // Properties of a single step
  // ---------------------------------------------------------------------

  /** How many items a statement needs on the stack. */
  function Arity(ins: Instr): nat {
    match ins
    case Num(_) => 0
    case Op(_) => 2
    case Intr(i) => IntrinsicArity(i)
    case Func(f) => FunctionArity(f)
  }

  /** How a successful statement changes the stack's height. */
  function Delta(ins: Instr): int {
    match ins
    case Num(_) => 1
    case Op(_) => -1
    case Intr(i) => (match i case Dup => 1 case Over => 1 case Swap => 0 case Drop => -1)
    case Func(f) => if FunctionArity(f) == 2 then -1 else 0
  }

  /** Too few items: the statement fails with the count check's message,
      whatever the other checks would say. */
  lemma StepUnderflow(h: Host, s: seq<real>, ins: Instr)
    requires |s| < Arity(ins)
    ensures Step(h, s, ins) == Error(EnoughMessage(Arity(ins)))
  {
    match ins {
      case Num(_) =>
      case Op(o) =>
        FirstCheckFails(OperatorChecks(o), s);
      case Intr(i) =>
        FirstCheckFails([Enough(IntrinsicArity(i))], s);
      case Func(f) =>
        FirstCheckFails(FunctionChecks(f), s);
    }
  }

  lemma FirstCheckFails(checks: seq<Check>, s: seq<real>)
    requires checks != [] && !CheckHolds(checks[0], s)
    ensures FirstFailure(checks, s) == Some(CheckMessage(checks[0]))
  {
  }

  /** A successful statement had enough items, changes the height by its
      delta, and leaves everything below its operands as it was. */
  lemma StepShape(h: Host, s: seq<real>, ins: Instr)
    requires Step(h, s, ins).Ok?
    ensures |s| >= Arity(ins)
    ensures |Step(h, s, ins).stack| == |s| + Delta(ins)
    ensures Step(h, s, ins).stack[..|s| - Arity(ins)] == s[..|s| - Arity(ins)]
  {
    match ins
    case Num(_) =>
      assert Step(h, s, ins).stack[..|s|] == s;
    case Op(o) => OperatorShape(h, s, o);
    case Intr(i) => IntrinsicShape(s, i);
    case Func(f) => FunctionShape(h, s, f);
  }

  lemma OperatorShape(h: Host, s: seq<real>, o: Operator)
    requires OperationResult(h, s, o).Ok?
    ensures |s| >= 2
    ensures |OperationResult(h, s, o).stack| == |s| - 1
    ensures OperationResult(h, s, o).stack[..|s| - 2] == s[..|s| - 2]
  {
    assert CheckHolds(OperatorChecks(o)[0], s);
    var r := OperationResult(h, s, o).stack;
    assert r[..|s| - 2] == s[..|s| - 2];
  }

  lemma IntrinsicShape(s: seq<real>, i: Intrinsic)
    requires IntrinsicResult(s, i).Ok?
    ensures |s| >= IntrinsicArity(i)
    ensures |IntrinsicResult(s, i).stack| == |s| + Delta(Intr(i))
    ensures IntrinsicResult(s, i).stack[..|s| - IntrinsicArity(i)] == s[..|s| - IntrinsicArity(i)]
  {
    assert CheckHolds([Enough(IntrinsicArity(i))][0], s);
    var r := IntrinsicResult(s, i).stack;
    var k := |s| - IntrinsicArity(i);
    assert r[..k] == s[..k];
  }

  lemma FunctionShape(h: Host, s: seq<real>, f: MFunction)
    requires FunctionResult(h, s, f).Ok?
    ensures |s| >= FunctionArity(f)
    ensures |FunctionResult(h, s, f).stack| == |s| + Delta(Func(f))
    ensures FunctionResult(h, s, f).stack[..|s| - FunctionArity(f)] == s[..|s| - FunctionArity(f)]
  {
    assert CheckHolds(FunctionChecks(f)[0], s);
    var r := FunctionResult(h, s, f).stack;
    var k := |s| - FunctionArity(f);
    assert r[..k] == s[..k];
  }

  /** The stack intrinsics, once they have enough items. */
  lemma IntrinsicEffects(h: Host, s: seq<real>)
    ensures |s| >= 1 ==> Step(h, s, Intr(Dup)) == Ok(s + [s[|s| - 1]])
    ensures |s| >= 1 ==> Step(h, s, Intr(Drop)) == Ok(s[..|s| - 1])
    ensures |s| >= 2 ==> Step(h, s, Intr(Over)) == Ok(s + [s[|s| - 2]])
    ensures |s| >= 2 ==> Step(h, s, Intr(Swap)) == Ok(s[..|s| - 2] + [s[|s| - 1], s[|s| - 2]])
  {
  }

  /** Dividing or taking the remainder by a zero top fails. */
  lemma ZeroDivisor(h: Host, s: seq<real>)
    requires |s| >= 2 && s[|s| - 1] == 0.0
    ensures Step(h, s, Op(Div)) == Error("division by zero")
    ensures Step(h, s, Op(Mod)) == Error("modulo by zero")
  {
    assert OperatorChecks(Div)[1..] == [TopNonZero("division by zero")];
    assert OperatorChecks(Mod)[1..] == [TopNonZero("modulo by zero")];
  }

  /** The binary operators with enough items and a usable divisor. */
  lemma OperatorEffects(h: Host, s: seq<real>, o: Operator)
    requires |s| >= 2
    requires o == Div || o == Mod ==> s[|s| - 1] != 0.0
    ensures Step(h, s, Op(o)) == Ok(OperatorEffect(h, o, s))
  {
    assert FirstFailure(OperatorChecks(o), s).None?;
  }

  /** The mathematical domain each function is checked against. */
  predicate InDomain(f: MFunction, s: seq<real>)
    requires |s| >= FunctionArity(f)
  {
    var x := s[|s| - 1];
    match f
    case Sqrt => x >= 0.0
    case Asin => -1.0 <= x <= 1.0
    case Acos => -1.0 <= x <= 1.0
    case Log => s[|s| - 2] > 0.0 && s[|s| - 2] != 1.0 && x > 0.0
    case Ln => x > 0.0
    case Fact => IsInteger(x)
    case Pow => s[|s| - 2] >= 0.0 || IsInteger(x)
    case Root =>
      s[|s| - 2] >= 0.0 || IsOddInteger(x) || x == 0.0 || IsInteger(1.0 / x)
    case _ => true
  }

  /** With enough items, a function succeeds exactly inside its domain, and
      then pushes its effect. */
  lemma FunctionDomain(h: Host, s: seq<real>, f: MFunction)
    requires |s| >= FunctionArity(f)
    ensures Step(h, s, Func(f)).Ok? <==> InDomain(f, s)
    ensures InDomain(f, s) ==> Step(h, s, Func(f)) == Ok(FunctionEffect(h, f, s))
  {
    ChecksMatchDomain(s, f);
  }

  lemma AllHoldTwo(c0: Check, c1: Check, s: seq<real>)
    ensures AllHold([c0, c1], s) <==> CheckHolds(c0, s) && CheckHolds(c1, s)
  {
    assert [c0, c1][1..] == [c1];
    assert [c1][1..] == [];
    assert AllHold([c1], s) <==> CheckHolds(c1, s);
  }

  lemma AllHoldThree(c0: Check, c1: Check, c2: Check, s: seq<real>)
    ensures AllHold([c0, c1, c2], s) <==>
      CheckHolds(c0, s) && CheckHolds(c1, s) && CheckHolds(c2, s)
  {
    assert [c0, c1, c2][1..] == [c1, c2];
    AllHoldTwo(c1, c2, s);
  }

  /** A function's checks all pass exactly inside its domain. */
  lemma ChecksMatchDomain(s: seq<real>, f: MFunction)
    requires |s| >= FunctionArity(f)
    ensures AllHold(FunctionChecks(f), s) <==> InDomain(f, s)
  {
    var c := FunctionChecks(f);
    if |c| == 1 {
      assert c[1..] == [];
    } else if |c| == 2 {
      AllHoldTwo(c[0], c[1], s);
      assert c == [c[0], c[1]];
    } else {
      AllHoldThree(c[0], c[1], c[2], s);
      assert c == [c[0], c[1], c[2]];
    }
  }

  /** `fact` on an integer pushes sign(n) * |n|!, and refuses any other
      number. */
  lemma FactorialStep(h: Host, s: seq<real>)
    requires |s| >= 1
    ensures IsInteger(s[|s| - 1]) ==>
      Step(h, s, Func(Fact)) == Ok(s[..|s| - 1] + [SignedFactorial(s[|s| - 1].Floor) as real])
    ensures !IsInteger(s[|s| - 1]) ==>
      Step(h, s, Func(Fact)) == Error("factorial can only accept integers")
  {
    assert FunctionChecks(Fact)[1..] == [TopInteger];
  }
}
