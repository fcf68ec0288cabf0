// `parse` (evaluation.ts:504-557) as a specification: the bracket check,
// the bracket-stripped line split into words, and a left-to-right scan of
// the words that expands macros, resolves tokens, stops at `;` and gives up
// at the first undefined token. The imperative loop that computes it is
// `Calculator.MacroTable.Parse`.

module Parser {
  import opened Syntax
  import opened Lexer

  /** The macro dictionary: a name and the statements it was parsed to. */
  type MacroMap = map<string, seq<Statement>>

  /** A macro body spliced in at token `idx`: every statement keeps its
      instruction and is attributed to `idx`. */
  function Retag(body: seq<Statement>, idx: nat): (r: seq<Statement>)
    ensures |r| == |body|
    ensures forall i :: 0 <= i < |r| ==> r[i].instr == body[i].instr && r[i].from == idx
    decreases |body|
  {
    if body == [] then []
    else Retag(body[..|body| - 1], idx) + [body[|body| - 1].(from := idx)]
  }

  function UndefinedMessage(e: string): (m: string)
    ensures |m| > 0
  {
    "'" + e + "' is undefined"
  }

  /** Where the scan stands after some prefix of the tokens: still going,
      stopped by `;`, failed on an undefined token, or thrown out of by
      `whichOperator` (the token `|`). */
  datatype ScanState =
    | Going(parsed: seq<Statement>)
    | Stopped(parsed: seq<Statement>)
    | Failed(message: string)
    | Crashed

  /** The statements one token contributes while the scan is going. */
  function ScanStep(t: MacroMap, st: ScanState, e: string, idx: nat): ScanState {
    match st
    case Going(p) =>
      if e == ";" then Stopped(p)
      else if e in t then Going(p + Retag(t[e], idx))
      else (
        match Classify(e)
        case Resolved(ins) => Going(p + [Statement(ins, idx)])
        case Undefined => Failed(UndefinedMessage(e))
        case Throws => Crashed)
    case _ => st
  }

  /** The scan of a token list, token `i` being attributed index `i`. */
  function Scan(t: MacroMap, toks: seq<string>): ScanState
    decreases |toks|
  {
    if toks == [] then Going([])
    else ScanStep(t, Scan(t, toks[..|toks| - 1]), toks[|toks| - 1], |toks| - 1)
  }

  /** `Scan` on the prefixes of `toks`: token `k` is scanned in the state
      the tokens before it left. */
  lemma ScanPrefix(t: MacroMap, toks: seq<string>, k: nat)
    requires k < |toks|
    ensures Scan(t, toks[..k + 1]) == ScanStep(t, Scan(t, toks[..k]), toks[k], k)
  {
    assert toks[..k + 1][..k] == toks[..k];
  }

  datatype ParseOutcome =
    | ParseOk(statements: seq<Statement>)
    | ParseError(message: string)
    | ParseCrash

  function ParseTokens(t: MacroMap, toks: seq<string>): ParseOutcome {
    match Scan(t, toks)
    case Going(p) => ParseOk(p)
    case Stopped(p) => ParseOk(p)
    case Failed(m) => ParseError(m)
    case Crashed => ParseCrash
  }

  /** `parse(eq)` against the macro table `t`. */
  function ParseSpec(t: MacroMap, eq: string): ParseOutcome {
    if !Balanced(eq) then ParseError("bracket placement is invalid")
    else ParseTokens(t, Words(ClearAllBrackets(eq)))
  }

  // ---------------------------------------------------------------------
  // Halting: once stopped, failed or crashed, later tokens change nothing
  // ---------------------------------------------------------------------

  lemma {:induction false} ScanPersists(t: MacroMap, toks: seq<string>, k: nat)
    requires k <= |toks|
    requires !Scan(t, toks[..k]).Going?
    ensures Scan(t, toks) == Scan(t, toks[..k])
    decreases |toks|
  {
    if k < |toks| {
      var init := toks[..|toks| - 1];
      assert init[..k] == toks[..k];
      ScanPersists(t, init, k);
    } else {
      assert toks[..k] == toks;
    }
  }

  /** `;` is a comment marker: a parse equals the parse of the tokens
      before any `;`. */
  lemma CommentCutsParse(t: MacroMap, toks: seq<string>, j: nat)
    requires j < |toks| && toks[j] == ";"
    ensures ParseTokens(t, toks) == ParseTokens(t, toks[..j])
  {
    var pre := toks[..j + 1];
    assert pre[..|pre| - 1] == toks[..j];
    assert !Scan(t, pre).Going?;
    ScanPersists(t, toks, j + 1);
  }

  // ---------------------------------------------------------------------
  // `from` values
  // ---------------------------------------------------------------------

  /** Every statement is attributed to one of the `n` tokens, and the
      attributions never decrease along the list. */
  predicate Tagged(p: seq<Statement>, n: nat) {
    (forall i :: 0 <= i < |p| ==> p[i].from < n)
    && (forall i, j :: 0 <= i <= j < |p| ==> p[i].from <= p[j].from)
  }

  lemma TaggedExtend(p: seq<Statement>, q: seq<Statement>, n: nat)
    requires Tagged(p, n)
    requires forall i :: 0 <= i < |q| ==> q[i].from == n
    ensures Tagged(p + q, n + 1)
  {
    var r := p + q;
    forall i, j | 0 <= i <= j < |r|
      ensures r[i].from <= r[j].from
    {
      if j >= |p| {
        assert r[j] == q[j - |p|];
        if i >= |p| {
          assert r[i] == q[i - |p|];
        }
      }
    }
  }

  lemma {:induction false} ScanTagged(t: MacroMap, toks: seq<string>)
    ensures Scan(t, toks).Going? || Scan(t, toks).Stopped? ==>
      Tagged(Scan(t, toks).parsed, |toks|)
    decreases |toks|
  {
    if toks != [] {
      var n := |toks| - 1;
      var init := toks[..n];
      ScanTagged(t, init);
      var e := toks[n];
      match Scan(t, init)
      case Going(p) =>
        if e == ";" {
        } else if e in t {
          TaggedExtend(p, Retag(t[e], n), n);
        } else if Classify(e).Resolved? {
          TaggedExtend(p, [Statement(Classify(e).instr, n)], n);
        }
      case _ =>
    }
  }

  /** A successful parse attributes every statement to a token of the
      bracket-stripped line, in non-decreasing order, and each statement
      is one of those that very token contributes. */
  lemma ParseTagged(t: MacroMap, eq: string)
    requires ParseSpec(t, eq).ParseOk?
    ensures Tagged(ParseSpec(t, eq).statements, |Words(ClearAllBrackets(eq))|)
    ensures forall i :: 0 <= i < |ParseSpec(t, eq).statements| ==>
      ParseSpec(t, eq).statements[i].from < |Words(ClearAllBrackets(eq))|
      && ParseSpec(t, eq).statements[i] in
           Expand(t, Words(ClearAllBrackets(eq))[ParseSpec(t, eq).statements[i].from],
                  ParseSpec(t, eq).statements[i].from)
  {
    var toks := Words(ClearAllBrackets(eq));
    ScanTagged(t, toks);
    ParseContents(t, toks);
    var j := FirstUnclean(t, toks);
    ExpandAllOrigin(t, toks[..j]);
  }

  // ---------------------------------------------------------------------
  // What the statements are
  // ---------------------------------------------------------------------

  /** What token `e`, at index `k`, adds to the statements while the scan
      goes on: a macro's body attributed to `k`, or the one statement the
      token resolves to. A token that ends the scan adds nothing. */
  function Expand(t: MacroMap, e: string, k: nat): (r: seq<Statement>)
    ensures forall i :: 0 <= i < |r| ==> r[i].from == k
  {
    if !Clean(t, e) then []
    else if e in t then Retag(t[e], k)
    else [Statement(Classify(e).instr, k)]
  }

  /** The contributions of all the tokens, in token order. */
  function ExpandAll(t: MacroMap, toks: seq<string>): seq<Statement>
    decreases |toks|
  {
    if toks == [] then []
    else ExpandAll(t, toks[..|toks| - 1]) + Expand(t, toks[|toks| - 1], |toks| - 1)
  }

  /** While the scan goes on, the statements are exactly the tokens'
      contributions. */
  lemma {:induction false} ScanGoingContents(t: MacroMap, toks: seq<string>)
    requires Scan(t, toks).Going?
    ensures Scan(t, toks).parsed == ExpandAll(t, toks)
    decreases |toks|
  {
    if toks != [] {
      var n := |toks| - 1;
      var init := toks[..n];
      var st := Scan(t, init);
      assert Scan(t, toks) == ScanStep(t, st, toks[n], n);
      assert st.Going?;
      ScanGoingContents(t, init);
      GoingStep(t, st.parsed, toks[n], n);
      assert ExpandAll(t, toks) == ExpandAll(t, init) + Expand(t, toks[n], n);
    }
  }

  /** One token that keeps the scan going is clean and adds its
      contribution. */
  lemma GoingStep(t: MacroMap, p: seq<Statement>, e: string, k: nat)
    requires ScanStep(t, Going(p), e, k).Going?
    ensures Clean(t, e)
    ensures ScanStep(t, Going(p), e, k).parsed == p + Expand(t, e, k)
  {
    CleanStep(t, p, e, k);
  }

  /** A successful parse of a token list holds exactly the contributions of
      the tokens before the first `;`, in order. */
  lemma ParseContents(t: MacroMap, toks: seq<string>)
    requires ParseTokens(t, toks).ParseOk?
    ensures FirstUnclean(t, toks) < |toks| ==> toks[FirstUnclean(t, toks)] == ";"
    ensures ParseTokens(t, toks).statements == ExpandAll(t, toks[..FirstUnclean(t, toks)])
  {
    ScanSettles(t, toks);
    var j := FirstUnclean(t, toks);
    if j == |toks| {
      assert toks[..j] == toks;
      ScanGoingContents(t, toks);
    } else {
      ScanGoingContents(t, toks[..j]);
    }
  }

  /** Each statement of `ExpandAll` comes from the token its `from` names. */
  lemma {:induction false} ExpandAllOrigin(t: MacroMap, toks: seq<string>)
    ensures forall i :: 0 <= i < |ExpandAll(t, toks)| ==>
      ExpandAll(t, toks)[i].from < |toks|
      && ExpandAll(t, toks)[i] in Expand(t, toks[ExpandAll(t, toks)[i].from], ExpandAll(t, toks)[i].from)
    decreases |toks|
  {
    if toks != [] {
      var n := |toks| - 1;
      var init := toks[..n];
      ExpandAllOrigin(t, init);
      var a := ExpandAll(t, init);
      var x := Expand(t, toks[n], n);
      var all: seq<Statement> := a + x;
      assert ExpandAll(t, toks) == all;
      forall i | 0 <= i < |all|
        ensures all[i].from < |toks| && all[i] in Expand(t, toks[all[i].from], all[i].from)
      {
        if i < |a| {
          assert all[i] == a[i];
          assert toks[a[i].from] == init[a[i].from];
        } else {
          assert all[i] == x[i - |a|];
        }
      }
    }
  }

  // ---------------------------------------------------------------------
  // Which token decides the outcome
  // ---------------------------------------------------------------------

  /** A token that lets the scan go on: not `;`, and a macro name or a
      resolvable token. */
  predicate Clean(t: MacroMap, e: string) {
    e != ";" && (e in t || Classify(e).Resolved?)
  }

  predicate CleanBefore(t: MacroMap, toks: seq<string>, j: nat)
    requires j <= |toks|
  {
    forall i :: 0 <= i < j ==> Clean(t, toks[i])
  }

  /** The index of the first `false`, or `|bs|`. */
  function FirstFalse(bs: seq<bool>): (r: nat)
    ensures r <= |bs|
    ensures forall i :: 0 <= i < r ==> bs[i]
    ensures r < |bs| ==> !bs[r]
    decreases |bs|
  {
    if bs == [] then 0
    else
      var r := FirstFalse(bs[..|bs| - 1]);
      if r < |bs| - 1 then r
      else if bs[|bs| - 1] then |bs|
      else |bs| - 1
  }

  /** The index of the first token that is not clean, or `|toks|`. */
  function FirstUnclean(t: MacroMap, toks: seq<string>): (r: nat)
    ensures r <= |toks|
    ensures CleanBefore(t, toks, r)
    ensures r < |toks| ==> !Clean(t, toks[r])
  {
    var bs := seq(|toks|, i requires 0 <= i < |toks| => Clean(t, toks[i]));
    assert forall i :: 0 <= i < |toks| ==> bs[i] == Clean(t, toks[i]);
    FirstFalse(bs)
  }

  lemma FirstUncleanUnique(t: MacroMap, toks: seq<string>, j: nat)
    requires j < |toks| && CleanBefore(t, toks, j) && !Clean(t, toks[j])
    ensures FirstUnclean(t, toks) == j
  {
  }

  /** A clean token keeps the scan going; any other token ends it. */
  lemma CleanStep(t: MacroMap, p: seq<Statement>, e: string, idx: nat)
    ensures ScanStep(t, Going(p), e, idx).Going? <==> Clean(t, e)
  {
  }

  lemma {:induction false} ScanClean(t: MacroMap, toks: seq<string>, k: nat)
    requires k <= |toks| && CleanBefore(t, toks, k)
    ensures Scan(t, toks[..k]).Going?
    decreases k
  {
    if k > 0 {
      ScanClean(t, toks, k - 1);
      assert toks[..k][..k - 1] == toks[..k - 1];
      CleanStep(t, Scan(t, toks[..k - 1]).parsed, toks[k - 1], k - 1);
    }
  }

  /** The scan goes on over clean tokens, and the first unclean token
      settles it. */
  lemma ScanSettles(t: MacroMap, toks: seq<string>)
    ensures FirstUnclean(t, toks) == |toks| ==> Scan(t, toks).Going?
    ensures FirstUnclean(t, toks) < |toks| ==>
      var j := FirstUnclean(t, toks);
      Scan(t, toks[..j]).Going?
      && Scan(t, toks) == ScanStep(t, Scan(t, toks[..j]), toks[j], j)
      && !Scan(t, toks).Going?
  {
    var j := FirstUnclean(t, toks);
    ScanClean(t, toks, j);
    if j == |toks| {
      assert toks[..j] == toks;
    } else {
      UncleanSettles(t, toks, j);
    }
  }

  lemma UncleanSettles(t: MacroMap, toks: seq<string>, j: nat)
    requires j < |toks| && Scan(t, toks[..j]).Going? && !Clean(t, toks[j])
    ensures Scan(t, toks) == ScanStep(t, Scan(t, toks[..j]), toks[j], j)
    ensures !Scan(t, toks).Going?
  {
    var pre := toks[..j + 1];
    assert pre[..j] == toks[..j];
    assert Scan(t, pre) == ScanStep(t, Scan(t, toks[..j]), toks[j], j);
    CleanStep(t, Scan(t, toks[..j]).parsed, toks[j], j);
    ScanPersists(t, toks, j + 1);
  }

  /** A parse of tokens succeeds exactly when every token before the first
      `;` is a macro name or resolves. */
  lemma ParseOkIff(t: MacroMap, toks: seq<string>)
    ensures ParseTokens(t, toks).ParseOk? <==>
      forall j :: 0 <= j < |toks| && (forall i :: 0 <= i < j ==> toks[i] != ";") ==>
        toks[j] == ";" || Clean(t, toks[j])
  {
    ScanSettles(t, toks);
    var j := FirstUnclean(t, toks);
    if j < |toks| {
      var st := Scan(t, toks[..j]);
      if toks[j] != ";" {
        assert forall i :: 0 <= i < j ==> toks[i] != ";";
      }
    }
  }

  /** A parse fails exactly on the first undefined token before any `;`,
      with that token's message. */
  lemma ParseErrorIff(t: MacroMap, toks: seq<string>, m: string)
    ensures ParseTokens(t, toks) == ParseError(m) <==>
      exists j :: 0 <= j < |toks| && CleanBefore(t, toks, j)
        && toks[j] != ";" && toks[j] !in t && Classify(toks[j]) == Undefined
        && m == UndefinedMessage(toks[j])
  {
    ScanSettles(t, toks);
    var j := FirstUnclean(t, toks);
    if ParseTokens(t, toks) == ParseError(m) {
      assert j < |toks|;
    }
    forall k | 0 <= k < |toks| && CleanBefore(t, toks, k) && toks[k] != ";" && toks[k] !in t
      && Classify(toks[k]) == Undefined
      ensures ParseTokens(t, toks) == ParseError(UndefinedMessage(toks[k]))
    {
      FirstUncleanUnique(t, toks, k);
    }
  }

  /** A parse throws exactly when `|`, not being a macro name, is the first
      token that does not resolve and comes before any `;`. */
  lemma ParseCrashIff(t: MacroMap, toks: seq<string>)
    ensures ParseTokens(t, toks) == ParseCrash <==>
      "|" !in t && exists j :: 0 <= j < |toks| && CleanBefore(t, toks, j) && toks[j] == "|"
  {
    ScanSettles(t, toks);
    var j := FirstUnclean(t, toks);
    if j < |toks| {
      ThrowsOnlyOnPipe(toks[j]);
    }
    forall k | 0 <= k < |toks| && CleanBefore(t, toks, k) && toks[k] == "|" && "|" !in t
      ensures ParseTokens(t, toks) == ParseCrash
    {
      ThrowsOnlyOnPipe(toks[k]);
      FirstUncleanUnique(t, toks, k);
    }
  }

  // ---------------------------------------------------------------------
  // Single-word lines
  // ---------------------------------------------------------------------

  predicate PlainWord(w: string) {
    |w| > 0 && forall i :: 0 <= i < |w| ==> !IsSpace(w[i]) && !IsBracket(w[i])
  }

  lemma PlainWordParse(t: MacroMap, w: string)
    requires PlainWord(w)
    ensures Balanced(w)
    ensures ParseSpec(t, w) == ParseTokens(t, [w])
  {
    ClearAllBracketsKeepsPlainText(w);
    BracketFreeBalanced(w);
    SingleWord(w);
  }

  lemma {:induction false} BracketFreeBalanced(s: string)
    requires forall i :: 0 <= i < |s| ==> !IsBracket(s[i])
    ensures Balanced(s)
  {
    forall k | 0 <= k <= |s|
      ensures Depth(s[..k]) == 0
    {
      BracketFreeDepth(s[..k]);
    }
    assert s[..|s|] == s;
  }

  lemma {:induction false} BracketFreeDepth(s: string)
    requires forall i :: 0 <= i < |s| ==> !IsBracket(s[i])
    ensures Depth(s) == 0
    decreases |s|
  {
    if s != [] {
      BracketFreeDepth(s[..|s| - 1]);
    }
  }

  /** A line naming a macro parses to the macro's body attributed to token
      0, even where the name would otherwise be a number or an operator:
      macros are looked up first. */
  lemma MacroReferenceExpands(t: MacroMap, w: string)
    requires PlainWord(w) && w != ";" && w in t
    ensures ParseSpec(t, w) == ParseOk(Retag(t[w], 0))
  {
    PlainWordParse(t, w);
    assert [w][..0] == [];
    assert Scan(t, [w]) == ScanStep(t, Going([]), w, 0);
  }

  /** A word that is not a macro name and resolves parses to the one
      statement it resolves to. */
  lemma ResolvedWordParses(t: MacroMap, w: string)
    requires |w| > 0 && forall i :: 0 <= i < |w| ==> !IsSpace(w[i]) && !IsBracket(w[i])
    requires w != ";" && w !in t && Classify(w).Resolved?
    ensures ParseSpec(t, w) == ParseOk([Statement(Classify(w).instr, 0)])
  {
    assert PlainWord(w);
    PlainWordParse(t, w);
    assert [w][..0] == [];
    assert Scan(t, [w]) == ScanStep(t, Going([]), w, 0);
  }

  /** A numeral that is not a macro name parses to one number statement
      holding its value. */
  lemma NumberParses(t: MacroMap, w: string)
    requires PlainWord(w) && w !in t && IsNumeric(w)
    ensures ParseSpec(t, w) == ParseOk([Statement(Num(NumeralValue(w)), 0)])
  {
    PlainWordParse(t, w);
    assert [w][..0] == [];
    assert Scan(t, [w]) == ScanStep(t, Going([]), w, 0);
  }
}
