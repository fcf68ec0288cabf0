// `evaluate` (evaluation.ts:586-646) as a specification, with its helpers
// `placeByWordIdx` and `repeat` (evaluation.ts:559-573) and the error text
// built by `handleError`. The statements run one after another on a stack;
// a failing statement leaves the stack as it was and replaces the error
// text, and the run goes on. The imperative loop is
// `Calculator.MacroTable.Evaluate`.

module Evaluator {
  import opened Syntax
  import opened Lexer
  import opened Machine
  import opened Parser

  // ---------------------------------------------------------------------
  // The caret column
  // ---------------------------------------------------------------------

  /** The column where word number `idx` of `line` starts, or -1 when the
      line has no such word. */
  function CaretColumn(line: string, idx: nat): int {
    var spans := Spans(line);
    if idx < |spans| then spans[idx].start else -1
  }

  /** `placeByWordIdx`: the `/\S+/g` matches are counted as they come, and
      the offset of match number `wordidx` is kept. */
  method PlaceByWordIdx(s: string, wordidx: nat) returns (found: int)
    ensures found == CaretColumn(s, wordidx)
  {
    var matches := Spans(s);
    var count := 0;
    found := -1;
    var k := 0;
    while k < |matches|
      invariant 0 <= k <= |matches| && count == k
      invariant found == if wordidx < k then matches[wordidx].start else -1
    {
      if count == wordidx {
        found := matches[k].start;
      }
      count := count + 1;
      k := k + 1;
    }
  }

  /** The caret is -1 exactly when the line has too few words; otherwise it
      is the first column of that word, which starts the run of
      non-whitespace holding exactly the word. */
  lemma CaretColumnMeaning(line: string, idx: nat)
    ensures CaretColumn(line, idx) == -1 <==> idx >= |Words(line)|
    ensures idx < |Words(line)| ==>
      var c := CaretColumn(line, idx);
      var w := Words(line)[idx];
      0 <= c && c + |w| <= |line| && line[c..c + |w|] == w
      && !IsSpace(line[c]) && (c == 0 || IsSpace(line[c - 1]))
  {
    if idx < |Spans(line)| {
      SpansRuns(line);
      var sp := Spans(line)[idx];
      assert IsRun(line, sp);
      assert Words(line)[idx] == line[sp.start..sp.end];
    }
  }

  // ---------------------------------------------------------------------
  // `repeat`
  // ---------------------------------------------------------------------

  /** `n` copies of `s`, one after another. */
  function Repeated(s: string, n: nat): string
    decreases n
  {
    if n == 0 then "" else Repeated(s, n - 1) + s
  }

  /** `repeat(s, c)`: a negative count gives the empty string. */
  method Repeat(s: string, c: int) returns (res: string)
    ensures res == Repeated(s, Max0(c))
  {
    res := "";
    var i := 0;
    while i < c
      invariant 0 <= i <= Max0(c)
      invariant res == Repeated(s, i)
    {
      res := res + s;
      i := i + 1;
    }
  }

  lemma {:induction false} RepeatedLength(s: string, n: nat)
    ensures |Repeated(s, n)| == n * |s|
    decreases n
  {
    if n > 0 {
      RepeatedLength(s, n - 1);
      assert n * |s| == (n - 1) * |s| + |s|;
    }
  }

  /** Repeating a one-character string gives that character `n` times. */
  lemma {:induction false} RepeatedChar(c: char, n: nat)
    ensures |Repeated([c], n)| == n
    ensures forall i :: 0 <= i < n ==> Repeated([c], n)[i] == c
    decreases n
  {
    if n > 0 {
      RepeatedChar(c, n - 1);
    }
  }

  // ---------------------------------------------------------------------
  // The error text
  // ---------------------------------------------------------------------

  /** `stack.join(', ')` of the rendered numbers. */
  function Join(xs: seq<string>, sep: string): string
    decreases |xs|
  {
    if |xs| == 0 then ""
    else if |xs| == 1 then xs[0]
    else Join(xs[..|xs| - 1], sep) + sep + xs[|xs| - 1]
  }

  function ShowAll(h: Host, stack: seq<real>): seq<string> {
    seq(|stack|, i requires 0 <= i < |stack| => h.show(stack[i]))
  }

  /** The three-line text `handleError` stores: the line, a caret under the
      offending word followed by the message, and the stack before the
      failing statement. */
  function ErrorText(h: Host, original: string, message: string, wordidx: nat, stack: seq<real>): (r: string)
    ensures |r| > |original|
  {
    original + "\n" + Repeated(" ", Max0(CaretColumn(original, wordidx))) + "^ " + message
      + "\nstack: [" + Join(ShowAll(h, stack), ", ") + "]"
  }

  /** The error text repeats the line, and on the next line the caret sits
      at the word's column, after nothing but spaces. */
  lemma CaretUnderWord(h: Host, original: string, message: string, wordidx: nat, stack: seq<real>)
    ensures var e := ErrorText(h, original, message, wordidx, stack);
      var c := Max0(CaretColumn(original, wordidx));
      |original| + 1 + c < |e|
      && e[..|original|] == original && e[|original|] == '\n'
      && (forall i :: |original| < i < |original| + 1 + c ==> e[i] == ' ')
      && e[|original| + 1 + c] == '^'
  {
    var c := Max0(CaretColumn(original, wordidx));
    var pad := Repeated(" ", c);
    RepeatedChar(' ', c);
    assert " " == [' '];
    var e := ErrorText(h, original, message, wordidx, stack);
    var head := original + "\n" + pad + "^ ";
    assert e[..|head|] == head;
    assert forall i :: |original| < i < |original| + 1 + c ==> head[i] == pad[i - |original| - 1];
  }

  // ---------------------------------------------------------------------
  // Running the statements
  // ---------------------------------------------------------------------

  /** The stack and the error text after some statements. */
  datatype ExecState = ExecState(stack: seq<real>, errorMessage: string)

  /** The loop of `evaluate`: a failing statement keeps the stack and
      overwrites the error text; later statements still run. */
  function Exec(h: Host, original: string, eq: seq<Statement>): ExecState
    decreases |eq|
  {
    if eq == [] then ExecState([], "")
    else
      var st := Exec(h, original, eq[..|eq| - 1]);
      var last := eq[|eq| - 1];
      match Step(h, st.stack, last.instr)
      case Ok(s) => ExecState(s, st.errorMessage)
      case Error(m) => ExecState(st.stack, ErrorText(h, original, m, last.from, st.stack))
  }

  /** One more statement: it either succeeds on the current stack, or
      fails and its error text replaces the old one. */
  lemma ExecLast(h: Host, original: string, eq: seq<Statement>)
    requires eq != []
    ensures var st := Exec(h, original, eq[..|eq| - 1]);
      var last := eq[|eq| - 1];
      Exec(h, original, eq) ==
        if Step(h, st.stack, last.instr).Ok? then ExecState(Step(h, st.stack, last.instr).stack, st.errorMessage)
        else ExecState(st.stack, ErrorText(h, original, Step(h, st.stack, last.instr).message, last.from, st.stack))
  {
  }

  /** `ExecLast` on the prefixes of `eq`. */
  lemma ExecPrefix(h: Host, original: string, eq: seq<Statement>, k: nat)
    requires k < |eq|
    ensures var st := Exec(h, original, eq[..k]);
      Exec(h, original, eq[..k + 1]) ==
        if Step(h, st.stack, eq[k].instr).Ok? then ExecState(Step(h, st.stack, eq[k].instr).stack, st.errorMessage)
        else ExecState(st.stack, ErrorText(h, original, Step(h, st.stack, eq[k].instr).message, eq[k].from, st.stack))
  {
    assert eq[..k + 1][..k] == eq[..k];
    ExecLast(h, original, eq[..k + 1]);
  }

  datatype EvalOutcome = EvalOk(stack: seq<real>) | EvalError(message: string) | EvalCrash

  /** `evaluate(original)` against the macro table `t`. */
  function EvaluateSpec(h: Host, t: MacroMap, original: string): EvalOutcome {
    match ParseSpec(t, original)
    case ParseError(m) => EvalError(m)
    case ParseCrash => EvalCrash
    case ParseOk(eq) =>
      var st := Exec(h, original, eq);
      if |st.errorMessage| != 0 then EvalError(st.errorMessage) else EvalOk(st.stack)
  }

  /** A reference machine that halts at the first failing statement. */
  function Apply(h: Host, s: seq<real>, eq: seq<Statement>): Result
    decreases |eq|
  {
    if eq == [] then Ok(s)
    else
      match Step(h, s, eq[0].instr)
      case Ok(s') => Apply(h, s', eq[1..])
      case Error(m) => Error(m)
  }

  lemma {:induction false} ApplyConcat(h: Host, s: seq<real>, a: seq<Statement>, b: seq<Statement>)
    ensures Apply(h, s, a + b) ==
      match Apply(h, s, a)
      case Ok(s') => Apply(h, s', b)
      case Error(m) => Error(m)
    decreases |a|
  {
    if a != [] {
      assert (a + b)[0] == a[0];
      assert (a + b)[1..] == a[1..] + b;
      match Step(h, s, a[0].instr)
      case Ok(s') => ApplyConcat(h, s', a[1..], b);
      case Error(_) =>
    } else {
      assert a + b == b;
    }
  }

  lemma ApplySingle(h: Host, s: seq<real>, x: Statement)
    ensures Apply(h, s, [x]) == Step(h, s, x.instr)
  {
    assert [x][1..] == [];
  }

  /** Only the instructions matter to a run: a macro body runs the same
      whatever token it is attributed to. */
  lemma {:induction false} ApplyRetag(h: Host, s: seq<real>, body: seq<Statement>, idx: nat)
    ensures Apply(h, s, Retag(body, idx)) == Apply(h, s, body)
    decreases |body|
  {
    if body != [] {
      ApplyRetag(h, s, body[..|body| - 1], idx);
      RetagSnoc(body, idx);
      ApplySnoc(h, s, body);
      ApplySnoc(h, s, Retag(body, idx));
    }
  }

  lemma RetagSnoc(body: seq<Statement>, idx: nat)
    requires body != []
    ensures Retag(body, idx)[..|body| - 1] == Retag(body[..|body| - 1], idx)
  {
    var init := Retag(body[..|body| - 1], idx);
    assert (init + [body[|body| - 1].(from := idx)])[..|body| - 1] == init;
  }

  /** The run ends without an error text exactly when no statement fails,
      and then it leaves the stack the halting machine computes. */
  lemma {:induction false} ExecMatchesApply(h: Host, original: string, eq: seq<Statement>)
    ensures |Exec(h, original, eq).errorMessage| == 0 <==> Apply(h, [], eq).Ok?
    ensures Apply(h, [], eq).Ok? ==> Exec(h, original, eq).stack == Apply(h, [], eq).stack
    decreases |eq|
  {
    if eq != [] {
      ExecMatchesApply(h, original, eq[..|eq| - 1]);
      ExecAgreesStep(h, original, eq);
    }
  }

  /** `Exec` and `Apply` tell the same story about `eq`. */
  predicate ExecAgrees(h: Host, original: string, eq: seq<Statement>) {
    (|Exec(h, original, eq).errorMessage| == 0 <==> Apply(h, [], eq).Ok?)
    && (Apply(h, [], eq).Ok? ==> Exec(h, original, eq).stack == Apply(h, [], eq).stack)
  }

  lemma ExecAgreesStep(h: Host, original: string, eq: seq<Statement>)
    requires eq != [] && ExecAgrees(h, original, eq[..|eq| - 1])
    ensures ExecAgrees(h, original, eq)
  {
    ApplySnoc(h, [], eq);
    if Apply(h, [], eq[..|eq| - 1]).Ok? {
      AgreesAfterStep(h, original, eq, Apply(h, [], eq[..|eq| - 1]).stack);
    } else {
      ExecKeepsFailure(h, original, eq);
    }
  }

  /** `Apply` read from the back: the last statement runs on what the
      others left. */
  lemma ApplySnoc(h: Host, s: seq<real>, eq: seq<Statement>)
    requires eq != []
    ensures Apply(h, s, eq) ==
      match Apply(h, s, eq[..|eq| - 1])
      case Ok(s') => Step(h, s', eq[|eq| - 1].instr)
      case Error(m) => Error(m)
  {
    var init := eq[..|eq| - 1];
    var last := eq[|eq| - 1];
    assert init + [last] == eq;
    ApplyConcat(h, s, init, [last]);
    if Apply(h, s, init).Ok? {
      ApplySingle(h, Apply(h, s, init).stack, last);
    }
  }

  lemma AgreesAfterStep(h: Host, original: string, eq: seq<Statement>, s: seq<real>)
    requires eq != [] && ExecAgrees(h, original, eq[..|eq| - 1])
    requires Apply(h, [], eq[..|eq| - 1]) == Ok(s)
    requires Apply(h, [], eq) == Step(h, s, eq[|eq| - 1].instr)
    ensures ExecAgrees(h, original, eq)
  {
    if Step(h, s, eq[|eq| - 1].instr).Ok? {
      ExecOkStep(h, original, eq);
    } else {
      ExecErrorStep(h, original, eq);
    }
  }

  lemma ExecOkStep(h: Host, original: string, eq: seq<Statement>)
    requires eq != []
    requires Step(h, Exec(h, original, eq[..|eq| - 1]).stack, eq[|eq| - 1].instr).Ok?
    ensures Exec(h, original, eq) ==
      ExecState(Step(h, Exec(h, original, eq[..|eq| - 1]).stack, eq[|eq| - 1].instr).stack,
                Exec(h, original, eq[..|eq| - 1]).errorMessage)
  {
  }

  lemma ExecErrorStep(h: Host, original: string, eq: seq<Statement>)
    requires eq != []
    requires Step(h, Exec(h, original, eq[..|eq| - 1]).stack, eq[|eq| - 1].instr).Error?
    ensures |Exec(h, original, eq).errorMessage| != 0
  {
  }

  /** Once there is an error text, there always is one. */
  lemma ExecKeepsFailure(h: Host, original: string, eq: seq<Statement>)
    requires eq != [] && |Exec(h, original, eq[..|eq| - 1]).errorMessage| != 0
    ensures |Exec(h, original, eq).errorMessage| != 0
  {
  }

  /** An evaluation succeeds exactly when the line parses and no statement
      fails; its stack is then the halting machine's. */
  lemma EvaluateOkIff(h: Host, t: MacroMap, original: string, s: seq<real>)
    ensures EvaluateSpec(h, t, original) == EvalOk(s) <==>
      ParseSpec(t, original).ParseOk? && Apply(h, [], ParseSpec(t, original).statements) == Ok(s)
  {
    if ParseSpec(t, original).ParseOk? {
      ExecMatchesApply(h, original, ParseSpec(t, original).statements);
    }
  }

  /** The statement at `k` fails, and the run ends with its error text. */
  predicate FailsAt(h: Host, original: string, eq: seq<Statement>, k: nat)
    requires k < |eq|
  {
    var st := Exec(h, original, eq[..k]);
    var r := Step(h, st.stack, eq[k].instr);
    r.Error? && Exec(h, original, eq).errorMessage == ErrorText(h, original, r.message, eq[k].from, st.stack)
  }

  predicate SucceedsAt(h: Host, original: string, eq: seq<Statement>, j: nat)
    requires j < |eq|
  {
    Step(h, Exec(h, original, eq[..j]).stack, eq[j].instr).Ok?
  }

  /** A statement that succeeds after the last one keeps the error text,
      so a failure reported before it is still the one reported. */
  lemma FailsAtExtend(h: Host, original: string, eq: seq<Statement>, k: nat)
    requires eq != [] && k < |eq| - 1
    requires FailsAt(h, original, eq[..|eq| - 1], k)
    requires SucceedsAt(h, original, eq, |eq| - 1)
    ensures FailsAt(h, original, eq, k)
  {
    var init := eq[..|eq| - 1];
    assert init[..k] == eq[..k];
    assert init[k] == eq[k];
    assert eq[..|eq| - 1] == init;
    ExecLast(h, original, eq);
  }

  lemma SucceedsAtExtend(h: Host, original: string, eq: seq<Statement>, init: seq<Statement>, j: nat)
    requires eq != [] && init == eq[..|eq| - 1] && j < |init|
    requires SucceedsAt(h, original, init, j)
    ensures SucceedsAt(h, original, eq, j)
  {
    assert init[..j] == eq[..j];
    assert init[j] == eq[j];
  }

  lemma ExecKeepsMessage(h: Host, original: string, eq: seq<Statement>)
    requires eq != [] && SucceedsAt(h, original, eq, |eq| - 1)
    ensures Exec(h, original, eq).errorMessage == Exec(h, original, eq[..|eq| - 1]).errorMessage
  {
    ExecLast(h, original, eq);
  }

  lemma FailsAtLast(h: Host, original: string, eq: seq<Statement>)
    requires eq != [] && !SucceedsAt(h, original, eq, |eq| - 1)
    ensures FailsAt(h, original, eq, |eq| - 1)
  {
    ExecLast(h, original, eq);
  }

  /** The statement at `k` is the last one to fail, and its error text is
      the run's. */
  predicate LastFailureAt(h: Host, original: string, eq: seq<Statement>, k: nat)
    requires k < |eq|
  {
    FailsAt(h, original, eq, k) && forall j :: k < j < |eq| ==> SucceedsAt(h, original, eq, j)
  }

  /** A failed run reports the LAST failing statement: its message and
      word, over the stack it found; every later statement succeeded. */
  lemma {:induction false} LastFailureReported(h: Host, original: string, eq: seq<Statement>)
    requires |Exec(h, original, eq).errorMessage| != 0
    ensures exists k :: 0 <= k < |eq| && LastFailureAt(h, original, eq, k)
    decreases |eq|
  {
    assert eq != [];
    var n := |eq| - 1;
    var init := eq[..n];
    if !SucceedsAt(h, original, eq, n) {
      FailsAtLast(h, original, eq);
      assert LastFailureAt(h, original, eq, n);
    } else {
      ExecKeepsMessage(h, original, eq);
      LastFailureReported(h, original, init);
      var k :| 0 <= k < |init| && LastFailureAt(h, original, init, k);
      LastFailureExtend(h, original, eq, init, k);
    }
  }

  lemma LastFailureExtend(h: Host, original: string, eq: seq<Statement>, init: seq<Statement>, k: nat)
    requires eq != [] && init == eq[..|eq| - 1] && k < |init|
    requires LastFailureAt(h, original, init, k)
    requires SucceedsAt(h, original, eq, |eq| - 1)
    ensures LastFailureAt(h, original, eq, k)
  {
    FailsAtExtend(h, original, eq, k);
    SucceedsAfterExtend(h, original, eq, init, k);
  }

  lemma SucceedsAfterExtend(h: Host, original: string, eq: seq<Statement>, init: seq<Statement>, k: nat)
    requires eq != [] && init == eq[..|eq| - 1] && k < |init|
    requires forall j :: k < j < |init| ==> SucceedsAt(h, original, init, j)
    requires SucceedsAt(h, original, eq, |eq| - 1)
    ensures forall j :: k < j < |eq| ==> SucceedsAt(h, original, eq, j)
  {
    forall j | k < j < |eq|
      ensures SucceedsAt(h, original, eq, j)
    {
      if j < |init| {
        assert SucceedsAt(h, original, init, j);
        SucceedsAtExtend(h, original, eq, init, j);
      } else {
        assert j == |eq| - 1;
      }
    }
  }

  /** The net height change of statements that all succeed. */
  function SumDelta(eq: seq<Statement>): int
    decreases |eq|
  {
    if eq == [] then 0 else Delta(eq[0].instr) + SumDelta(eq[1..])
  }

  /** A run without failures changes the stack's height by the sum of its
      statements' deltas. */
  lemma {:induction false} ApplyHeight(h: Host, s: seq<real>, eq: seq<Statement>)
    requires Apply(h, s, eq).Ok?
    ensures |Apply(h, s, eq).stack| == |s| + SumDelta(eq)
    decreases |eq|
  {
    if eq != [] {
      StepShape(h, s, eq[0].instr);
      ApplyHeight(h, Step(h, s, eq[0].instr).stack, eq[1..]);
    }
  }

  // ---------------------------------------------------------------------
  // Where the caret lands
  // ---------------------------------------------------------------------

  /** Every statement of a parsed line finds a word of the original line:
      the caret is never -1 for a statement the parser produced. */
  lemma CaretAlwaysFound(t: MacroMap, original: string)
    requires ParseSpec(t, original).ParseOk?
    ensures forall st :: st in ParseSpec(t, original).statements ==> CaretColumn(original, st.from) >= 0
  {
    ParseTagged(t, original);
    WordCountAfterClearing(original);
  }

  /** Without brackets, the caret of a statement sits at the start of the
      very token it was parsed from: the word at that column contributes
      the statement. */
  lemma CaretUnderToken(t: MacroMap, original: string, k: nat)
    requires forall i :: 0 <= i < |original| ==> !IsBracket(original[i])
    requires ParseSpec(t, original).ParseOk? && k < |ParseSpec(t, original).statements|
    ensures var from := ParseSpec(t, original).statements[k].from;
      var c := CaretColumn(original, from);
      from < |Words(original)| && 0 <= c
      && original[c..c + |Words(original)[from]|] == Words(original)[from]
      && ParseSpec(t, original).statements[k] in Expand(t, Words(original)[from], from)
  {
    ParseTagged(t, original);
    ClearAllBracketsKeepsPlainText(original);
    CaretColumnMeaning(original, ParseSpec(t, original).statements[k].from);
  }

  lemma SpansOfBracketedLine()
    ensures Spans("( 1 0 / )") == [Span(0, 1), Span(2, 3), Span(4, 5), Span(6, 7), Span(8, 9)]
  {
    var s := "( 1 0 / )";
    SpansOfBracketedPrefix();
    assert s[..6][..5] == s[..5];
    assert Spans(s[..6]) == [Span(0, 1), Span(2, 3), Span(4, 5)];
    assert s[..7][..6] == s[..6];
    assert Spans(s[..7]) == [Span(0, 1), Span(2, 3), Span(4, 5), Span(6, 7)];
    assert s[..8][..7] == s[..7];
    assert Spans(s[..8]) == [Span(0, 1), Span(2, 3), Span(4, 5), Span(6, 7)];
    assert s[..9][..8] == s[..8];
    assert s[..9] == s;
  }

  lemma SpansOfBracketedPrefix()
    ensures Spans("( 1 0 / )"[..5]) == [Span(0, 1), Span(2, 3), Span(4, 5)]
  {
    var s := "( 1 0 / )";
    SpansOfBracketedFour();
    assert s[..5][..4] == s[..4];
  }

  lemma SpansOfBracketedFour()
    ensures Spans("( 1 0 / )"[..4]) == [Span(0, 1), Span(2, 3)]
  {
    var s := "( 1 0 / )";
    SpansOfBracketedStart();
    var t := s[..4];
    assert t[..3] == s[..3];
    assert IsSpace(t[3]);
  }

  lemma SpansOfBracketedStart()
    ensures Spans("( 1 0 / )"[..3]) == [Span(0, 1), Span(2, 3)]
  {
    var s := "( 1 0 / )";
    assert s[..1][..0] == [];
    assert Spans(s[..1]) == [Span(0, 1)];
    assert s[..2][..1] == s[..1];
    assert Spans(s[..2]) == [Span(0, 1)];
    assert s[..3][..2] == s[..2];
  }

  lemma ClearedBracketedLine()
    ensures ClearAllBrackets("( 1 0 / )") == " 1 0 / "
  {
    var s := "( 1 0 / )";
    assert ClearAllBrackets(s[..1]) == "" by { assert s[..1][..0] == []; }
    assert s[..2][..1] == s[..1];
    assert ClearAllBrackets(s[..2]) == " ";
    assert s[..3][..2] == s[..2];
    assert ClearAllBrackets(s[..3]) == " 1";
    assert s[..4][..3] == s[..3];
    assert ClearAllBrackets(s[..4]) == " 1 ";
    assert s[..5][..4] == s[..4];
    assert ClearAllBrackets(s[..5]) == " 1 0";
    assert s[..6][..5] == s[..5];
    assert ClearAllBrackets(s[..6]) == " 1 0 ";
    assert s[..7][..6] == s[..6];
    assert ClearAllBrackets(s[..7]) == " 1 0 /";
    assert s[..8][..7] == s[..7];
    assert ClearAllBrackets(s[..8]) == " 1 0 / ";
    assert s[..9][..8] == s[..8];
    assert s[..9] == s;
  }

  lemma SpansOfClearedLine()
    ensures Spans(" 1 0 / ") == [Span(1, 2), Span(3, 4), Span(5, 6)]
  {
    var c := " 1 0 / ";
    assert c[..1][..0] == [];
    assert Spans(c[..1]) == [];
    assert c[..2][..1] == c[..1];
    assert Spans(c[..2]) == [Span(1, 2)];
    assert c[..3][..2] == c[..2];
    assert Spans(c[..3]) == [Span(1, 2)];
    assert c[..4][..3] == c[..3];
    assert Spans(c[..4]) == [Span(1, 2), Span(3, 4)];
    assert c[..5][..4] == c[..4];
    assert Spans(c[..5]) == [Span(1, 2), Span(3, 4)];
    assert c[..6][..5] == c[..5];
    assert Spans(c[..6]) == [Span(1, 2), Span(3, 4), Span(5, 6)];
    assert c[..7][..6] == c[..6];
    assert c[..7] == c;
  }

  /** With brackets the two word counts disagree: statement `/` of
      `( 1 0 / )` is token 2 of the bracket-free line, and word 2 of the
      original line is `0`, so the caret lands under `0`. */
  lemma BracketsShiftTheCaret()
    ensures |Words(ClearAllBrackets("( 1 0 / )"))| == 3
    ensures Words(ClearAllBrackets("( 1 0 / )"))[2] == "/"
    ensures CaretColumn("( 1 0 / )", 2) == 4 && "( 1 0 / )"[4] == '0'
  {
    SpansOfBracketedLine();
    ClearedBracketedLine();
    SpansOfClearedLine();
  }
}
