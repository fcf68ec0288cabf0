// The global macro dictionary and the three operations that use it:
// `addMacro` (evaluation.ts:164-179), `parse` (evaluation.ts:504-557) and
// `evaluate` (evaluation.ts:586-646). The dictionary is the one piece of
// state the source mutates in place, so it is a field of a class; each
// method is proved against the specification function of its module.

module Calculator {
  import opened Syntax
  import opened Lexer
  import opened Machine
  import opened Parser
  import opened Evaluator

  datatype MacroOutcome = MacroOk | MacroError(message: string) | MacroCrash

  /** The dictionary after `addMacro` and the answer it gave. */
  datatype MacroUpdate = MacroUpdate(table: MacroMap, outcome: MacroOutcome)

  function ReservedMessage(name: string): string {
    name + " is already reserved"
  }

  /** `addMacro(name, eq)` on the dictionary `t`: a reserved name is
      refused, the definition is parsed against the current dictionary,
      and only a successful parse stores its statements under `name`. */
  function AddMacroSpec(t: MacroMap, name: string, eq: string): MacroUpdate {
    if name in Reserved then MacroUpdate(t, MacroError(ReservedMessage(name)))
    else
      match ParseSpec(t, eq)
      case ParseOk(st) => MacroUpdate(t[name := st], MacroOk)
      case ParseError(m) => MacroUpdate(t, MacroError(m))
      case ParseCrash => MacroUpdate(t, MacroCrash)
  }

  /** No reserved word is ever a macro name. */
  predicate NoReservedNames(t: MacroMap) {
    forall n :: n in t ==> n !in Reserved
  }

  class MacroTable {
    var macros: MacroMap

    predicate Valid()
      reads this
    {
      NoReservedNames(macros)
    }

    constructor()
      ensures macros == map[]
      ensures Valid()
    {
      macros := map[];
    }

    /** `parse`: the bracket check, the split of the bracket-free line, and
        one pass over the words with the `isBreak` and `errorMessage`
        flags. A `|` token makes `whichOperator` throw, which ends the
        parse at once. */
    method Parse(eq: string) returns (r: ParseOutcome)
      ensures r == ParseSpec(macros, eq)
    {
      var ok := CheckForBrackets(eq);
      if !ok {
        return ParseError("bracket placement is invalid");
      }
      var cleared := ClearAllBrackets(eq);
      var splitted := Words(cleared);
      var parsed: seq<Statement> := [];
      var errorMessage := "";
      var isBreak := false;
      var idx := 0;
      while idx < |splitted|
        invariant 0 <= idx <= |splitted|
        invariant Tracks(Scan(macros, splitted[..idx]), parsed, errorMessage, isBreak)
      {
        var e := splitted[idx];
        ScanPrefix(macros, splitted, idx);
        if e == ";" {
          isBreak := true;
        }
        if !isBreak && errorMessage == "" {
          if e in macros {
            parsed := Splice(parsed, macros[e], idx);
          } else {
            match Classify(e)
            case Resolved(ins) =>
              parsed := parsed + [Statement(ins, idx)];
            case Undefined =>
              errorMessage := UndefinedMessage(e);
            case Throws =>
              assert Scan(macros, splitted[..idx + 1]) == Crashed;
              ScanPersists(macros, splitted, idx + 1);
              return ParseCrash;
          }
        }
        idx := idx + 1;
      }
      assert splitted[..idx] == splitted;
      if errorMessage != "" {
        r := ParseError(errorMessage);
      } else {
        r := ParseOk(parsed);
      }
    }

    /** While the table is valid, `parse` of a reserved word other than
        `//` gives its own operator, intrinsic or function. */
    lemma ReservedWordsParse(w: string)
      requires Valid() && w in Reserved && w != "//"
      ensures ParseSpec(macros, w) == ParseOk([Statement(Classify(w).instr, 0)])
      ensures !Classify(w).instr.Num?
    {
      ReservedWordsResolve(macros, w);
    }

    /** `addMacro`. */
    method AddMacro(name: string, eq: string) returns (r: MacroOutcome)
      requires Valid()
      modifies this
      ensures MacroUpdate(macros, r) == AddMacroSpec(old(macros), name, eq)
      ensures Valid()
    {
      if name in Reserved {
        return MacroError(ReservedMessage(name));
      }
      var parseResult := Parse(eq);
      match parseResult
      case ParseOk(st) =>
        macros := macros[name := st];
        r := MacroOk;
      case ParseError(m) =>
        r := MacroError(m);
      case ParseCrash =>
        r := MacroCrash;
    }

    /** `evaluate`: parse the line, then run every statement; a failure
        leaves the stack alone and replaces the error text. */
    method Evaluate(h: Host, original: string) returns (r: EvalOutcome)
      ensures r == EvaluateSpec(h, macros, original)
    {
      var parseResult := Parse(original);
      if parseResult.ParseCrash? {
        return EvalCrash;
      }
      if parseResult.ParseError? {
        return EvalError(parseResult.message);
      }
      var eq := parseResult.statements;
      var stack: seq<real> := [];
      var errorMessage := "";
      var k := 0;
      while k < |eq|
        invariant 0 <= k <= |eq|
        invariant Exec(h, original, eq[..k]) == ExecState(stack, errorMessage)
      {
        var statement := eq[k];
        ExecPrefix(h, original, eq, k);
        var result: Result;
        match statement.instr {
          case Num(v) =>
            result := Ok(stack + [v]);
          case Op(o) =>
            result := OperationResult(h, stack, o);
          case Intr(i) =>
            result := IntrinsicResult(stack, i);
          case Func(f) =>
            result := FunctionResult(h, stack, f);
        }
        assert result == Step(h, stack, statement.instr);
        if result.Ok? {
          stack := result.stack;
        } else {
          errorMessage := HandleError(h, original, result.message, statement.from, stack);
        }
        k := k + 1;
      }
      assert eq[..k] == eq;
      if |errorMessage| != 0 {
        r := EvalError(errorMessage);
      } else {
        r := EvalOk(stack);
      }
    }
  }

  /** Pushes a macro's statements, each attributed to token `idx`. */
  method Splice(parsed: seq<Statement>, body: seq<Statement>, idx: nat) returns (r: seq<Statement>)
    ensures r == parsed + Retag(body, idx)
  {
    r := parsed;
    var j := 0;
    while j < |body|
      invariant 0 <= j <= |body|
      invariant r == parsed + Retag(body[..j], idx)
    {
      assert body[..j + 1][..j] == body[..j];
      r := r + [body[j].(from := idx)];
      j := j + 1;
    }
    assert body[..|body|] == body;
  }

  /** The parser loop's variables stand for the scan state. */
  predicate Tracks(st: ScanState, parsed: seq<Statement>, errorMessage: string, isBreak: bool) {
    match st
    case Going(p) => !isBreak && errorMessage == "" && parsed == p
    case Stopped(p) => isBreak && errorMessage == "" && parsed == p
    case Failed(m) => errorMessage == m && m != ""
    case Crashed => false
  }

  /** `handleError`: the caret line under the offending word. */
  method HandleError(h: Host, original: string, message: string, wordidx: nat, stack: seq<real>)
    returns (text: string)
    ensures text == ErrorText(h, original, message, wordidx, stack)
  {
    var place := PlaceByWordIdx(original, wordidx);
    var pad := Repeat(" ", place);
    text := original + "\n" + pad + "^ " + message + "\nstack: [" + Join(ShowAll(h, stack), ", ") + "]";
  }

  // ---------------------------------------------------------------------
  // Properties of the dictionary
  // ---------------------------------------------------------------------

  /** `addMacro` succeeds exactly when the name is free and the definition
      parses; only then does the dictionary change, and only at `name`. */
  lemma AddMacroOutcome(t: MacroMap, name: string, eq: string)
    ensures var u := AddMacroSpec(t, name, eq);
      (u.outcome == MacroOk <==> name !in Reserved && ParseSpec(t, eq).ParseOk?)
      && (u.outcome != MacroOk ==> u.table == t)
      && (u.outcome == MacroOk ==> name in u.table && u.table[name] == ParseSpec(t, eq).statements)
      && (forall n :: n != name ==> (n in u.table <==> n in t))
      && (forall n :: n != name && n in t ==> u.table[n] == t[n])
  {
  }

  /** A reserved name is refused with its message and never stored. */
  lemma ReservedRefused(t: MacroMap, name: string, eq: string)
    requires name in Reserved
    ensures AddMacroSpec(t, name, eq).outcome == MacroError(ReservedMessage(name))
    ensures name in AddMacroSpec(t, name, eq).table <==> name in t
  {
  }

  /** Adding macros never introduces a reserved name. */
  lemma AddMacroKeepsNamesFree(t: MacroMap, name: string, eq: string)
    requires NoReservedNames(t)
    ensures NoReservedNames(AddMacroSpec(t, name, eq).table)
  {
  }

  /** Reserved words can never be macro names, so in a dictionary that
      `addMacro` built every reserved word other than `//` still parses to
      its own operator, intrinsic or function: no macro shadows one. */
  lemma ReservedWordsResolve(t: MacroMap, w: string)
    requires NoReservedNames(t) && w in Reserved && w != "//"
    ensures Classify(w).Resolved? && !Classify(w).instr.Num?
    ensures ParseSpec(t, w) == ParseOk([Statement(Classify(w).instr, 0)])
  {
    ReservedResolves(w);
    assert w !in t;
    ResolvedWordParses(t, w);
  }

  /** Defining the same name twice: the second successful definition wins,
      parsed against the dictionary the first one left. */
  lemma LastWriteWins(t: MacroMap, name: string, eq1: string, eq2: string)
    requires AddMacroSpec(t, name, eq1).outcome == MacroOk
    requires AddMacroSpec(AddMacroSpec(t, name, eq1).table, name, eq2).outcome == MacroOk
    ensures var t1 := AddMacroSpec(t, name, eq1).table;
      AddMacroSpec(t1, name, eq2).table == t[name := ParseSpec(t1, eq2).statements]
  {
  }

  /** A body is expanded when it is defined: redefining a macro leaves
      every other stored body as it was. */
  lemma BodiesAreSnapshots(t: MacroMap, name: string, eq: string, other: string)
    requires other != name && other in t
    ensures other in AddMacroSpec(t, name, eq).table
    ensures AddMacroSpec(t, name, eq).table[other] == t[other]
  {
  }

  /** A macro defined in terms of itself takes its previous body. */
  lemma SelfReference(t: MacroMap, name: string)
    requires PlainWord(name) && name != ";" && name in t && name !in Reserved
    ensures AddMacroSpec(t, name, name).outcome == MacroOk
    ensures AddMacroSpec(t, name, name).table[name] == Retag(t[name], 0)
  {
    MacroReferenceExpands(t, name);
  }

  /** Evaluating a macro's name runs its body: the result is the body's
      result on an empty stack. */
  lemma MacroCallRunsBody(h: Host, t: MacroMap, name: string, eq: string, s: seq<real>)
    requires PlainWord(name) && name != ";"
    requires AddMacroSpec(t, name, eq).outcome == MacroOk
    ensures var t1 := AddMacroSpec(t, name, eq).table;
      EvaluateSpec(h, t1, name) == EvalOk(s) <==> Apply(h, [], ParseSpec(t, eq).statements) == Ok(s)
  {
    var t1 := AddMacroSpec(t, name, eq).table;
    MacroReferenceExpands(t1, name);
    EvaluateOkIff(h, t1, name, s);
    ApplyRetag(h, [], t1[name], 0);
  }
}
