// The instruction set of the calculator: the closed operator, intrinsic and
// function enumerations, the resolved statement record, the reserved words
// and the renderer `readable` (evaluation.ts:2-38, 110-153).

module Syntax {

  datatype Option<T> = None | Some(value: T)

  datatype Operator = Plus | Minus | Mul | Div | FloorDiv | Mod

  datatype Intrinsic = Dup | Over | Drop | Swap

  datatype MFunction =
    | Sqrt | Sin | Cos | Tan | Ctan | Asin | Acos
    | Atan | Log | Ln | Fact | Pow | Root

  /** The `type`/`value` pair of a statement. The source's enum also has a
      `Macro` type, but the parser never produces a statement of that type,
      so it has no variant here. */
  datatype Instr =
    | Num(value: real)
    | Op(op: Operator)
    | Intr(intrinsic: Intrinsic)
    | Func(func: MFunction)

  /** A resolved statement; `from` is the index of the whitespace-separated
      token (of the bracket-stripped line) it is attributed to. */
  datatype Statement = Statement(instr: Instr, from: nat)

  /** The names that `addMacro` refuses, in the source's order. */
  const Reserved: seq<string> := [
    "sqrt", "sin", "cos", "tan", "ctan", "asin", "acos",
    "atan", "log", "ln", "fact", "pow", "root", "drop",
    "over", "dup", "swap", "+", "-", "*", "%", "//", "/"
  ]

  function OperatorText(o: Operator): string {
    match o
    case Plus => "+"
    case Minus => "-"
    case Div => "/"
    case FloorDiv => "//"
    case Mod => "%"
    case Mul => "*"
  }

  function FunctionText(f: MFunction): string {
    match f
    case Sqrt => "sqrt"
    case Sin => "sin"
    case Cos => "cos"
    case Tan => "tan"
    case Ctan => "ctan"
    case Asin => "asin"
    case Acos => "acos"
    case Atan => "atan"
    case Log => "log"
    case Ln => "ln"
    case Fact => "fact"
    case Pow => "pow"
    case Root => "root"
  }

  function IntrinsicText(i: Intrinsic): string {
    match i
    case Drop => "drop"
    case Over => "over"
    case Dup => "dup"
    case Swap => "swap"
  }

  /** `readable`: the canonical token of a statement. Numbers are rendered by
      the host's number-to-string conversion `show`; every other statement
      renders to a reserved word. */
  function Readable(st: Statement, show: real -> string): (r: string)
    ensures !st.instr.Num? ==> r in Reserved
    ensures st.instr.Num? ==> r == show(st.instr.value)
  {
    match st.instr
    case Num(v) => show(v)
    case Op(o) => OperatorText(o)
    case Func(f) => FunctionText(f)
    case Intr(i) => IntrinsicText(i)
  }

  function DigitChar(d: nat): char
    requires d < 10
  {
    ('0' as int + d) as char
  }

  /** Decimal rendering of a natural number (JavaScript's `${n}` for small
      integers). */
  function NatToDecimal(n: nat): (r: string)
    ensures |r| > 0
    ensures forall i :: 0 <= i < |r| ==> '0' <= r[i] <= '9'
    decreases n
  {
    if n < 10 then [DigitChar(n)] else NatToDecimal(n / 10) + [DigitChar(n % 10)]
  }

  function IntToDecimal(i: int): (r: string)
    ensures |r| > 0
  {
    if i < 0 then "-" + NatToDecimal(-i) else NatToDecimal(i)
  }

  function Max0(i: int): nat {
    if i < 0 then 0 else i
  }
}
