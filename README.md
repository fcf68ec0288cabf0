# A verified model of the RPN calculator core

This project models `evaluation.ts`, the core of a small Reverse-Polish-Notation
calculator. The calculator takes one line of text and does four things:

- It checks that the round brackets are balanced and then deletes them.
- It splits the line into whitespace-separated tokens. Each token becomes a
  resolved statement: a number, an operator, a stack intrinsic
  (`dup over drop swap`), a math function, or the expanded body of a
  user-defined macro. A `;` token ends the line.
- It runs the statements on a stack of numbers.
- It returns either the final stack or an error text. The error text repeats
  the line, puts a caret under the offending word and lists the stack.

Macros live in one process-wide dictionary that `addMacro` fills. A macro body
is parsed once, when it is defined, and stored as already-resolved statements.

The project has six modules, one file each:

| file | module | what it holds |
|---|---|---|
| `syntax.dfy` | `Syntax` | the instruction set, the reserved words, `readable` |
| `lexer.dfy` | `Lexer` | whitespace runs and words, the bracket gate and strip, `isNumeric`, the `is*`/`which*` token tests |
| `machine.dfy` | `Machine` | the checks and `resultWrapper`, the three handler families, `factorial`, `root`, JavaScript `%` |
| `parser.dfy` | `Parser` | the parse loop as a specification function over the token list |
| `evaluator.dfy` | `Evaluator` | `placeByWordIdx`, `repeat`, the error text, the run loop as a specification function, a halting reference machine |
| `calculator.dfy` | `Calculator` | the macro dictionary as a class with `Parse`, `AddMacro` and `Evaluate`, and the dictionary lemmas |

**How the pieces fit.** The source mutates state in these places:
`addMacro` writes to the global `macros` object, `parse` fills an array under
two flags, `evaluate` reassigns `stack` and `errorMessage` in a loop, and
`factorial`, `checkForBrackets`, `placeByWordIdx` and `repeat` use counters.
Each of these is a method. `Calculator.MacroTable.AddMacro` updates the
dictionary field without a loop, as `addMacro` does. The others have a loop:
`Calculator.MacroTable.Parse`, `Calculator.MacroTable.Evaluate`,
`Machine.Factorial`, `Lexer.CheckForBrackets`, `Evaluator.PlaceByWordIdx` and
`Evaluator.Repeat`. Each method is proved equal to a specification function:
`Parser.ParseSpec`, `Calculator.AddMacroSpec`, `Evaluator.EvaluateSpec`,
`Machine.SignedFactorial`, `Lexer.Balanced`, `Evaluator.CaretColumn` and
`Evaluator.Repeated`. The lemmas then state what the source promises about
those functions.

The stack handlers work on a copy of the stack in the source, so they are
functions from the old stack to a `Result`. The input stack is a `seq` value,
so "the input array is unchanged" holds by construction.

The JavaScript runtime enters as a `Machine.Host` value. It carries the `Math`
functions, the non-finite results of `x / 0` and `Math.pow(x, Infinity)`,
and number-to-string conversion. No property depends on what these functions
return.

**Behaviour of the code worth knowing.** The model follows the code as
written, including these points:

- **Operators.** The operator pattern at `evaluation.ts:73` is a
  one-character class. So `//` is not an operator: it is reported as
  `'//' is undefined`, and `FloorDiv` cannot be reached from text
  (`Lexer.FloorDivIsUndefined`). The rest of the file shows that `//` was
  meant to be one. `FloorDiv` is a member of the `Operator` enum
  (`evaluation.ts:15`), `whichOperator` maps `//` to it (`evaluation.ts:79`),
  `'//'` is in `reserved` (`evaluation.ts:113`), and `operationResult` has a
  `Math.floor` handler for it (`evaluation.ts:247`). The token `|` passes the
  pattern but makes `whichOperator` throw (`evaluation.ts:81`). The model gives
  that a separate crash outcome, and `|` is the only token that reaches it
  (`Lexer.ThrowsOnlyOnPipe`, `Parser.ParseCrashIff`).
- **Macro lookup comes first.** `isMacro` is tested at `evaluation.ts:524`,
  before the number, operator, intrinsic and function tests at
  `evaluation.ts:536-541`. A macro named `5` therefore shadows the number 5,
  and a macro named `|` turns the crash token into an ordinary word.
  Reserved words cannot be macro names (`evaluation.ts:167`), so operators,
  intrinsics and functions are never shadowed (`Calculator.ReservedWordsResolve`).
- **Self-reference.** `addMacro` parses the body (`evaluation.ts:170`) before
  it stores it (`evaluation.ts:172`). A body that mentions the macro being
  defined therefore expands to that macro's previous body
  (`Calculator.SelfReference`).
- **Evaluation does not stop at the first failure.** The statement loop at
  `evaluation.ts:609-630` calls `handleError` on a failure, keeps the stack
  and goes on. A later failure replaces the error text, so the text returned
  belongs to the last failing statement (`Evaluator.LastFailureReported`).
  The stack is still the one the halting reference machine computes
  whenever nothing fails (`Evaluator.ExecMatchesApply`).
- **Caret drift.** The caret is placed under the `from`-th word of the
  original line (`evaluation.ts:603`). But `from` counts words of the line
  after its brackets were removed (`evaluation.ts:511-513`), so a bracket
  that stands alone as a token shifts the caret
  (`Evaluator.BracketsShiftTheCaret`).
- **`atan`.** The `Atan` case pushes `Math.acos` of its operand
  (`evaluation.ts:371-375`), the same as the `Acos` case
  (`evaluation.ts:359-368`). The model does the same.

## Model

| member | source | states |
|---|---|---|
| Syntax.Readable | evaluation.ts:116-153 | a non-number statement renders to a reserved word; a number renders through the host's `toString` |
| Lexer.SpansAreRuns | evaluation.ts:513 | every span is a maximal non-empty run of non-whitespace; spans are strictly increasing and separated; the line ends inside a word exactly when the last span reaches its end |
| Lexer.SpansCover | evaluation.ts:513 | every non-whitespace character lies inside some span |
| Lexer.SpansCountStep | evaluation.ts:513 | appending a character adds a word exactly when it is non-whitespace and follows whitespace or the line start |
| Lexer.Words | evaluation.ts:513 | splitting on whitespace runs and dropping empty pieces yields one word per span, each the exact substring of its span |
| Lexer.SingleWord | evaluation.ts:513 | a non-empty token without whitespace splits into itself alone |
| Lexer.CheckForBrackets | evaluation.ts:476-490 | the counter loop returns true iff no prefix has more `)` than `(` and the counts end equal |
| Lexer.ClearAllBrackets | evaluation.ts:492 | the result holds no bracket and is no longer than the input |
| Lexer.ClearAllBracketsChar | evaluation.ts:492 | a single character is deleted exactly when it is a bracket |
| Lexer.ClearAllBracketsConcat | evaluation.ts:492 | stripping distributes over concatenation, so every other character is kept in order |
| Lexer.ClearAllBracketsKeepsPlainText | evaluation.ts:492 | a line without brackets is returned unchanged |
| Lexer.WordCountAfterClearing | evaluation.ts:511-513 | stripping brackets never adds words |
| Lexer.IsNumericCharacterization | evaluation.ts:71 | `isNumeric` holds iff, after an optional `-`, the token is non-empty digits and dots with at most one dot and a final digit |
| Lexer.NumericExamplesAccepted | evaluation.ts:71 | `.5`, `-5`, `3.14` and `-.5` are numerals |
| Lexer.NumericExamplesRejected | evaluation.ts:71 | `-`, `.`, `5.`, the empty string, `1.2.3` and `--1` are not numerals |
| Lexer.NotNumericByFirstChar | evaluation.ts:71 | a token starting with anything but a digit, `.` or `-` is not a numeral |
| Lexer.NumeralRoundTrip | evaluation.ts:71 | every integer's decimal rendering is a numeral that denotes that integer |
| Lexer.WhichOperator | evaluation.ts:74-81 | a found operator renders back to the token; `None` (the throw) happens exactly for text that renders no operator |
| Lexer.WhichIntrinsic | evaluation.ts:83-89 | the intrinsic found renders back to the token |
| Lexer.WhichFunction | evaluation.ts:91-108 | the function found renders back to the token |
| Lexer.ThrowsOnlyOnPipe | evaluation.ts:73-81 | classification throws exactly on the pipe token |
| Lexer.FloorDivIsUndefined | evaluation.ts:73-79 | `//` is classified as undefined |
| Lexer.OperatorRoundTrip | evaluation.ts:73-81 | every operator except `//` classifies back from its text |
| Lexer.IntrinsicRoundTrip | evaluation.ts:83-89 | every intrinsic classifies back from its text |
| Lexer.FunctionRoundTrip | evaluation.ts:91-108 | every function classifies back from its text |
| Lexer.ReadableRoundTrip | evaluation.ts:116-153 | `readable` of any non-number statement other than `//` re-classifies to the same instruction |
| Lexer.ReservedResolves | evaluation.ts:110-114 | every reserved word other than `//` resolves to a non-number instruction whose `readable` text is that word, and contains no whitespace or bracket |
| Lexer.IntegerTokenRoundTrip | evaluation.ts:536-537 | an integer's decimal text classifies to that number |
| Machine.FirstFailure | evaluation.ts:181-190 | no message iff every check in the list holds |
| Machine.FirstFailureReportsFirst | evaluation.ts:186-189 | a reported message is that of a failing check all of whose predecessors pass |
| Machine.FirstCheckFails | evaluation.ts:186-189 | when the first check fails its message is the one reported |
| Machine.Factorial | evaluation.ts:57-63 | the accumulator loop returns the sign of n times the factorial of its magnitude, with 0! = 1; the result is non-zero and negative iff n is |
| Machine.RemainderProperties | evaluation.ts:259 | JavaScript `%`: the dividend minus the remainder is an integer multiple of the divisor, the remainder is smaller than the divisor in magnitude and has the dividend's sign |
| Machine.RemainderNonNegative | evaluation.ts:259 | for a non-negative dividend and positive divisor, 0 ≤ a % b < b |
| Machine.RemainderOddInDividend | evaluation.ts:259 | (-a) % b == -(a % b) |
| Machine.RemainderEvenInDivisor | evaluation.ts:259 | a % (-b) == a % b |
| Machine.StepUnderflow | evaluation.ts:195-196 | with fewer items than an operation's arity it fails with `Expected at least <arity> items on the stack` |
| Machine.StepShape | evaluation.ts:202-474 | a successful statement had at least its arity, changes the height by its fixed delta and leaves everything below its operands unchanged |
| Machine.OperatorShape | evaluation.ts:202-266 | a successful binary operator needs 2 items, shrinks the stack by one and keeps all but the top two |
| Machine.IntrinsicShape | evaluation.ts:268-307 | a successful intrinsic grows by 1 (`dup`, `over`), keeps (`swap`) or shrinks by 1 (`drop`) and keeps what is below its operands |
| Machine.FunctionShape | evaluation.ts:309-474 | a successful function keeps the height (unary) or shrinks it by one (`log`, `pow`, `root`) and keeps what is below its operands |
| Machine.IntrinsicEffects | evaluation.ts:268-307 | `dup` appends the top, `drop` removes it, `over` appends the second item, `swap` exchanges the top two |
| Machine.ZeroDivisor | evaluation.ts:222-262 | `/` and `%` with a zero top fail with `division by zero` and `modulo by zero` |
| Machine.OperatorEffects | evaluation.ts:202-266 | with two items (and a non-zero divisor for `/`, `%`) an operator succeeds with its effect on the top two |
| Machine.FunctionDomain | evaluation.ts:309-474 | with enough items a function succeeds iff its operands are in its domain, and then pushes its effect |
| Machine.ChecksMatchDomain | evaluation.ts:309-474 | each function's check list holds iff the domain predicate does |
| Machine.FactorialStep | evaluation.ts:419-432 | `fact` replaces an integer top by its signed factorial and refuses a non-integer with `factorial can only accept integers` |
| Parser.Retag | evaluation.ts:526-533 | a spliced body keeps its length and instructions and every statement is attributed to the referencing token |
| Parser.UndefinedMessage | evaluation.ts:543 | the undefined-token message is never empty, so it always stops the loop |
| Parser.ScanPersists | evaluation.ts:521-522 | once the loop has stopped, failed or crashed, later tokens change nothing |
| Parser.CommentCutsParse | evaluation.ts:521-522 | a `;` at position j makes the parse equal to the parse of the tokens before it |
| Parser.ScanTagged | evaluation.ts:519-545 | while scanning, every statement's `from` is a token index below the count so far and the `from` values never decrease |
| Parser.ParseTagged | evaluation.ts:504-557 | a successful parse attributes every statement to a word of the stripped line, in non-decreasing order, and each statement is one of those that very word contributes (its macro body or its own resolved statement) |
| Parser.ParseContents | evaluation.ts:519-546 | a successful parse holds exactly the contributions of the tokens before the first `;`, in token order: each macro name its stored body tagged with the token's index, each other token its one resolved statement |
| Parser.ExpandAllOrigin | evaluation.ts:524-546 | every statement of the concatenated contributions names, in `from`, a token that contributed it |
| Parser.ResolvedWordParses | evaluation.ts:536-546 | a single word that is no macro name and resolves parses to exactly that one statement, tagged 0 |
| Parser.ScanSettles | evaluation.ts:519-546 | the scan is decided by the first token that is not plainly resolvable, and it is in its final state from then on |
| Parser.ParseOkIff | evaluation.ts:504-557 | the token loop succeeds iff every token before the first `;` is a macro name or resolves |
| Parser.ParseErrorIff | evaluation.ts:536-552 | the loop fails with m iff some token after only resolvable ones is an undefined non-macro word and m is `'<tok>' is undefined` |
| Parser.ParseCrashIff | evaluation.ts:524-541 | the loop crashes iff the pipe token is not a macro name and occurs after only resolvable tokens |
| Parser.PlainWordParse | evaluation.ts:504-513 | a bracket- and whitespace-free word passes the bracket gate and parses as the one-token list |
| Parser.BracketFreeBalanced | evaluation.ts:476-490 | a line without brackets is balanced |
| Parser.MacroReferenceExpands | evaluation.ts:524-535 | a macro name parses to the stored body attributed to token 0 |
| Parser.NumberParses | evaluation.ts:536-537 | a numeral that is no macro name parses to one number statement |
| Evaluator.PlaceByWordIdx | evaluation.ts:559-567 | the counting loop returns the start of the `wordidx`-th run, or -1 |
| Evaluator.CaretColumnMeaning | evaluation.ts:559-567 | the column is -1 iff there is no such word; otherwise the word sits at the column, after whitespace or the line start |
| Evaluator.Repeat | evaluation.ts:569-573 | the loop yields `s` repeated max(c, 0) times |
| Evaluator.RepeatedLength | evaluation.ts:569-573 | n repetitions of s are n times as long as s |
| Evaluator.RepeatedChar | evaluation.ts:569-573 | n repetitions of one character are n copies of it |
| Evaluator.ErrorText | evaluation.ts:602-607 | the error text is strictly longer than the line, so it is never empty |
| Evaluator.CaretUnderWord | evaluation.ts:602-607 | the text starts with the line and a newline, then spaces up to the column, then `^` |
| Evaluator.ApplyRetag | evaluation.ts:526-533 | attribution does not affect a run |
| Evaluator.ExecMatchesApply | evaluation.ts:609-645 | the run ends without error text iff the halting machine succeeds, and then both give the same stack |
| Evaluator.EvaluateOkIff | evaluation.ts:586-645 | evaluation returns Ok(s) iff parsing succeeds and applying every statement in order from the empty stack gives s |
| Evaluator.LastFailureReported | evaluation.ts:602-634 | a failed run's text is the error text of some failing statement after which every statement succeeds |
| Evaluator.ApplyHeight | evaluation.ts:609-634 | a successful run's height is the start height plus the sum of the statements' fixed deltas |
| Evaluator.CaretAlwaysFound | evaluation.ts:559-567 | every parsed statement's `from` names an existing word of the original line, so the caret column is never -1 |
| Evaluator.CaretUnderToken | evaluation.ts:602-605 | without brackets the caret sits at the start of word `from` of the line, and that word is the token that contributed the statement |
| Evaluator.BracketsShiftTheCaret | evaluation.ts:602-603 | for `( 1 0 / )`, `/` is stripped word 2, but word 2 of the original line is `0` at column 4 |
| Calculator.MacroTable.constructor | evaluation.ts:164 | the dictionary starts empty |
| Calculator.MacroTable.Parse | evaluation.ts:504-557 | the bracket gate and the flag-driven token loop return exactly the specified parse outcome |
| Calculator.MacroTable.ReservedWordsParse | evaluation.ts:166-168 | while the table keeps its invariant, a reserved word other than `//` parses to its own operator, intrinsic or function |
| Calculator.MacroTable.AddMacro | evaluation.ts:166-179 | the new dictionary and the answer are those of the specification, and no reserved name enters the dictionary |
| Calculator.MacroTable.Evaluate | evaluation.ts:586-646 | the statement loop returns exactly the specified outcome |
| Calculator.Splice | evaluation.ts:526-533 | pushing a macro body appends its retagged copy |
| Calculator.HandleError | evaluation.ts:602-607 | the caret text built from `placeByWordIdx` and `repeat` is the specified error text |
| Calculator.AddMacroOutcome | evaluation.ts:166-179 | success iff the name is free and the body parses; only then does the dictionary change, at `name` only, to the parsed body |
| Calculator.ReservedRefused | evaluation.ts:167-168 | a reserved name gets `<name> is already reserved` and is not stored |
| Calculator.AddMacroKeepsNamesFree | evaluation.ts:166-179 | no reserved word is ever a key of the dictionary |
| Calculator.ReservedWordsResolve | evaluation.ts:166-168 | in a dictionary with no reserved keys, every reserved word other than `//` parses to its own operator, intrinsic or function: no macro shadows it |
| Calculator.LastWriteWins | evaluation.ts:172 | defining a name twice leaves the second body, parsed against the dictionary the first left |
| Calculator.BodiesAreSnapshots | evaluation.ts:526-533 | redefining one macro leaves every other stored body unchanged |
| Calculator.SelfReference | evaluation.ts:524-535 | a macro defined as its own name takes its previous body |
| Calculator.MacroCallRunsBody | evaluation.ts:524-535 | evaluating a macro's name yields what running its parsed body gives |

## Left out

- Floating point: stack values are exact reals. The model leaves out
  rounding, `NaN`, infinities and the values of `Math.sqrt`, `sin`, `cos`,
  `tan`, `asin`, `acos`, `log` and `pow`, and of the `root` helper. These are
  host functions. Only the domain checks and the stack effects are modelled.
- Lexer.NumeralValue: `Number(e)` is the exact decimal value of the token,
  not the nearest double.
- Machine.Factorial: the accumulator is an unbounded integer. Overflow to
  `Infinity` for large arguments is not modelled.
- Machine.Factorial: an infinite top is not modelled. In the source it
  passes the integer check of `fact`, because `Math.floor(Infinity)` is
  `Infinity` (`evaluation.ts:424`). Then `while (--n >= 1)` never ends
  (`evaluation.ts:61`). Lines such as `0 ctan fact` or `10 1000 pow fact`
  reach this and hang. The model's stack values are finite reals, so it has
  no such input.
- Evaluator.CaretColumn: columns are counted in Unicode code points, the
  elements of a Dafny string. The source counts UTF-16 code units: the match
  offset of `replace` (`evaluation.ts:562`) and the `repeat(' ', place)` pad.
  The two differ when a character outside the Basic Multilingual Plane comes
  before the offending word. For example, with a macro `😀` holding `0`, the
  line `1 😀 /` gets its caret at column 5 in the source and at column 4 in
  the model. `Evaluator.PlaceByWordIdx`, `Evaluator.Repeat` and
  `Calculator.HandleError` inherit this.
- Syntax.Readable: number formatting (`toString`) is a host function.
- `Math.floor(undefined)` and comparisons with `undefined` on a short stack
  are modelled by their outcome (the check fails or passes as JavaScript
  decides), not as values.
- The `debug` flag: the model covers `evaluate` and `parse` with `debug`
  off only. With `debug` on, the tracing is not harmless. For a token that
  resolves to nothing, `statement` is `null` (`evaluation.ts:536-543`), and
  the trace at `evaluation.ts:544` calls `readable(null)`, which reads
  `statement.type` (`evaluation.ts:117`) and throws. So with `debug` on, a
  line holding an undefined token makes `parse` throw a `TypeError` instead of
  returning `'<token>' is undefined`. The other trace lines only print.
  `addMacro` always parses with `debug` off (`evaluation.ts:170`).
- The macro dictionary is a map from strings. Keys that a plain JavaScript
  object treats specially, such as `__proto__`, are not modelled.
- The `Macro` member of the statement type enum has no variant, because the
  parser never produces it.
- `cli.ts` and `index.ts` (the interactive loop, flag parsing, macro files
  and printing) are not part of this model.
