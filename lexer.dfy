// Text-level pieces of the parser: JavaScript whitespace and the runs of
// non-whitespace that `split(/\s+/)` and `/\S+/g` produce, the bracket gate
// and bracket strip (evaluation.ts:476-492), and the token predicates with
// their `which*` mappings (evaluation.ts:71-108).

module Lexer {
  import opened Syntax

  // ---------------------------------------------------------------------
  // Whitespace and words
  // ---------------------------------------------------------------------

  /** The characters JavaScript's `\s` matches. */
  predicate IsSpace(c: char) {
    c == ' ' || c == '\t' || c == '\n' || c == '\r' || c == '\U{000B}' || c == '\U{000C}'
    || c == '\U{00A0}' || c == '\U{1680}' || ('\U{2000}' <= c <= '\U{200A}')
    || c == '\U{2028}' || c == '\U{2029}' || c == '\U{202F}' || c == '\U{205F}'
    || c == '\U{3000}' || c == '\U{FEFF}'
  }

  /** A half-open range of character positions. */
  datatype Span = Span(start: nat, end: nat)

  /** `sp` is a maximal, non-empty run of non-whitespace characters of `s`. */
  predicate IsRun(s: string, sp: Span) {
    sp.start < sp.end <= |s|
    && (forall p :: sp.start <= p < sp.end ==> !IsSpace(s[p]))
    && (sp.start == 0 || IsSpace(s[sp.start - 1]))
    && (sp.end == |s| || IsSpace(s[sp.end]))
  }

  /** `s` ends with a non-whitespace character (a run is still open). */
  predicate Open(s: string) {
    |s| > 0 && !IsSpace(s[|s| - 1])
  }

  /** The runs of non-whitespace of `s`, left to right: exactly what `/\S+/g`
      matches and what `split(/\s+/)` keeps once empty pieces are dropped
      (SpansAreRuns states this). */
  function Spans(s: string): (r: seq<Span>)
    ensures forall k :: 0 <= k < |r| ==> r[k].start < r[k].end <= |s|
    decreases |s|
  {
    if s == [] then []
    else
      var init := s[..|s| - 1];
      var prev := Spans(init);
      if IsSpace(s[|s| - 1]) then prev
      else if |prev| > 0 && prev[|prev| - 1].end == |init| then
        prev[..|prev| - 1] + [Span(prev[|prev| - 1].start, |s|)]
      else
        prev + [Span(|init|, |s|)]
  }

  /** The last span reaches the end of `s` exactly when `s` ends inside a
      run. */
  lemma {:induction false} SpansOpen(s: string)
    ensures Open(s) <==> |Spans(s)| > 0 && Spans(s)[|Spans(s)| - 1].end == |s|
    ensures forall k :: 0 <= k < |Spans(s)| ==> Spans(s)[k].end <= |s|
    decreases |s|
  {
    if s != [] {
      SpansOpen(s[..|s| - 1]);
    }
  }

  /** The spans are increasing and disjoint. */
  lemma {:induction false} SpansOrdered(s: string)
    ensures forall k :: 0 <= k < |Spans(s)| ==> Spans(s)[k].start < Spans(s)[k].end
    ensures forall k :: 0 < k < |Spans(s)| ==> Spans(s)[k - 1].end < Spans(s)[k].start
    decreases |s|
  {
    if s != [] {
      var init := s[..|s| - 1];
      SpansOrdered(init);
      SpansOpen(init);
      var prev := Spans(init);
      var r := Spans(s);
      if IsSpace(s[|s| - 1]) {
      } else if |prev| > 0 && prev[|prev| - 1].end == |init| {
        assert r == prev[..|prev| - 1] + [Span(prev[|prev| - 1].start, |s|)];
        forall k | 0 < k < |r| ensures r[k - 1].end < r[k].start {
          assert prev[k - 1].end < prev[k].start;
        }
      } else {
        assert r == prev + [Span(|init|, |s|)];
      }
    }
  }

  /** A run of `init` stays a run when a character is appended, provided
      the run does not touch the end or the new character is whitespace. */
  lemma RunSurvivesAppend(init: string, c: char, sp: Span)
    requires IsRun(init, sp)
    requires sp.end < |init| || IsSpace(c)
    ensures IsRun(init + [c], sp)
  {
    var s := init + [c];
    assert forall p :: 0 <= p < |init| ==> s[p] == init[p];
  }

  /** A run that reaches the end of `init` grows by an appended
      non-whitespace character. */
  lemma RunGrows(init: string, c: char, sp: Span)
    requires IsRun(init, sp) && sp.end == |init| && !IsSpace(c)
    ensures IsRun(init + [c], Span(sp.start, |init| + 1))
  {
    var s := init + [c];
    assert forall p :: 0 <= p < |init| ==> s[p] == init[p];
  }

  /** Every span is a maximal run of non-whitespace. */
  lemma {:induction false} SpansRuns(s: string)
    ensures forall k :: 0 <= k < |Spans(s)| ==> IsRun(s, Spans(s)[k])
    decreases |s|
  {
    if s != [] {
      var init := s[..|s| - 1];
      var c := s[|s| - 1];
      assert s == init + [c];
      SpansRuns(init);
      SpansOpen(init);
      SpansOrdered(init);
      var prev := Spans(init);
      if IsSpace(c) {
        RunsAfterSpace(init, c);
      } else if |prev| > 0 && prev[|prev| - 1].end == |init| {
        RunsAfterGrowth(init, c);
      } else {
        RunsAfterStart(init, c);
      }
    }
  }

  lemma RunsAfterSpace(init: string, c: char)
    requires IsSpace(c)
    requires forall k :: 0 <= k < |Spans(init)| ==> IsRun(init, Spans(init)[k])
    ensures forall k :: 0 <= k < |Spans(init + [c])| ==> IsRun(init + [c], Spans(init + [c])[k])
  {
    var s := init + [c];
    assert s[..|s| - 1] == init;
    var prev := Spans(init);
    forall k | 0 <= k < |Spans(s)| ensures IsRun(s, Spans(s)[k]) {
      RunSurvivesAppend(init, c, prev[k]);
    }
  }

  lemma RunsAfterGrowth(init: string, c: char)
    requires !IsSpace(c)
    requires |Spans(init)| > 0 && Spans(init)[|Spans(init)| - 1].end == |init|
    requires forall k :: 0 <= k < |Spans(init)| ==> IsRun(init, Spans(init)[k])
    requires forall k :: 0 < k < |Spans(init)| ==> Spans(init)[k - 1].end < Spans(init)[k].start
    ensures forall k :: 0 <= k < |Spans(init + [c])| ==> IsRun(init + [c], Spans(init + [c])[k])
  {
    var s := init + [c];
    assert s[..|s| - 1] == init;
    var prev := Spans(init);
    var last := prev[|prev| - 1];
    var r := Spans(s);
    assert r == prev[..|prev| - 1] + [Span(last.start, |s|)];
    forall k | 0 <= k < |r| ensures IsRun(s, r[k]) {
      if k < |r| - 1 {
        assert prev[k].end < prev[k + 1].start <= last.start by {
          SpansIncreasing(prev, k, |prev| - 1);
        }
        RunSurvivesAppend(init, c, prev[k]);
      } else {
        RunGrows(init, c, last);
      }
    }
  }

  /** Consecutive ordering of spans extends to any two of them. */
  lemma SpansIncreasing(prev: seq<Span>, k: nat, m: nat)
    requires k < m < |prev|
    requires forall i :: 0 <= i < |prev| ==> prev[i].start < prev[i].end
    requires forall i :: 0 < i < |prev| ==> prev[i - 1].end < prev[i].start
    ensures prev[k].end < prev[k + 1].start <= prev[m].start
    decreases m - k
  {
    if k + 1 < m {
      SpansIncreasing(prev, k + 1, m);
    }
  }

  lemma RunsAfterStart(init: string, c: char)
    requires !IsSpace(c)
    requires !(|Spans(init)| > 0 && Spans(init)[|Spans(init)| - 1].end == |init|)
    requires Open(init) <==> |Spans(init)| > 0 && Spans(init)[|Spans(init)| - 1].end == |init|
    requires forall k :: 0 <= k < |Spans(init)| ==> IsRun(init, Spans(init)[k])
    ensures forall k :: 0 <= k < |Spans(init + [c])| ==> IsRun(init + [c], Spans(init + [c])[k])
  {
    var s := init + [c];
    assert s[..|s| - 1] == init;
    var prev := Spans(init);
    var r := Spans(s);
    assert r == prev + [Span(|init|, |s|)];
    forall k | 0 <= k < |r| ensures IsRun(s, r[k]) {
      if k < |prev| {
        RunSurvivesAppend(init, c, prev[k]);
      } else {
        assert !Open(init);
      }
    }
  }

  /** The spans are the maximal runs of non-whitespace, in increasing
      order. */
  lemma SpansAreRuns(s: string)
    ensures forall k :: 0 <= k < |Spans(s)| ==> IsRun(s, Spans(s)[k])
    ensures forall k :: 0 < k < |Spans(s)| ==> Spans(s)[k - 1].end < Spans(s)[k].start
    ensures Open(s) <==> |Spans(s)| > 0 && Spans(s)[|Spans(s)| - 1].end == |s|
  {
    SpansRuns(s);
    SpansOrdered(s);
    SpansOpen(s);
  }

  /** Every non-whitespace character lies inside some span. */
  lemma {:induction false} SpansCover(s: string, p: nat)
    requires p < |s| && !IsSpace(s[p])
    ensures exists k :: 0 <= k < |Spans(s)| && Spans(s)[k].start <= p < Spans(s)[k].end
    decreases |s|
  {
    var r := Spans(s);
    if p == |s| - 1 {
      SpansCoverLast(s);
      assert r[|r| - 1].start <= p < r[|r| - 1].end;
    } else {
      var init := s[..|s| - 1];
      SpansCover(init, p);
      var k :| 0 <= k < |Spans(init)| && Spans(init)[k].start <= p < Spans(init)[k].end;
      SpansGrow(s, k);
      assert r[k].start <= p < r[k].end;
    }
  }

  /** A word character at the end of the line lies in the last span. */
  lemma SpansCoverLast(s: string)
    requires s != [] && !IsSpace(s[|s| - 1])
    ensures |Spans(s)| > 0
    ensures Spans(s)[|Spans(s)| - 1].start < |s| == Spans(s)[|Spans(s)| - 1].end
  {
    var init := s[..|s| - 1];
    var prev := Spans(init);
    var r := Spans(s);
    if |prev| > 0 && prev[|prev| - 1].end == |init| {
      assert r[|r| - 1] == Span(prev[|prev| - 1].start, |s|);
    } else {
      assert r[|r| - 1] == Span(|init|, |s|);
    }
  }

  /** Appending a character keeps every span's start and never shrinks it. */
  lemma SpansGrow(s: string, k: nat)
    requires s != [] && k < |Spans(s[..|s| - 1])|
    ensures k < |Spans(s)|
    ensures Spans(s)[k].start == Spans(s[..|s| - 1])[k].start
    ensures Spans(s)[k].end >= Spans(s[..|s| - 1])[k].end
  {
    var init := s[..|s| - 1];
    var prev := Spans(init);
    var r := Spans(s);
    if IsSpace(s[|s| - 1]) {
    } else if |prev| > 0 && prev[|prev| - 1].end == |init| {
      if k < |prev| - 1 {
        assert r[k] == prev[k];
      } else {
        assert r[k] == Span(prev[k].start, |s|);
      }
    } else {
      assert r[k] == prev[k];
    }
  }

  lemma SpansCountStep(s: string)
    requires |s| > 0
    ensures |Spans(s)| == |Spans(s[..|s| - 1])|
              + (if IsSpace(s[|s| - 1]) || Open(s[..|s| - 1]) then 0 else 1)
  {
    SpansAreRuns(s[..|s| - 1]);
  }

  /** The whitespace-separated tokens of `s`. */
  function Words(s: string): (r: seq<string>)
    ensures |r| == |Spans(s)|
    ensures forall k :: 0 <= k < |r| ==> r[k] == s[Spans(s)[k].start..Spans(s)[k].end]
  {
    SpansRuns(s);
    var spans := Spans(s);
    seq(|spans|, k requires 0 <= k < |spans| => s[spans[k].start..spans[k].end])
  }

  /** A line that is one non-empty word is its own only token. */
  lemma {:induction false} SingleWord(w: string)
    requires |w| > 0 && forall i :: 0 <= i < |w| ==> !IsSpace(w[i])
    ensures Spans(w) == [Span(0, |w|)]
    ensures Words(w) == [w]
    decreases |w|
  {
    var init := w[..|w| - 1];
    if |init| > 0 {
      SingleWord(init);
      assert Spans(w) == [] + [Span(0, |w|)];
    } else {
      assert Spans(init) == [];
    }
    assert w[0..|w|] == w;
  }

  // ---------------------------------------------------------------------
  // Brackets
  // ---------------------------------------------------------------------

  predicate IsBracket(c: char) {
    c == '(' || c == ')'
  }

  /** The number of `(` minus the number of `)` in `s`. */
  function Depth(s: string): int
    decreases |s|
  {
    if s == [] then 0
    else
      var c := s[|s| - 1];
      Depth(s[..|s| - 1]) + (if c == '(' then 1 else if c == ')' then -1 else 0)
  }

  /** No prefix closes more brackets than it opened, and the whole line
      closes every bracket it opened. */
  predicate Balanced(s: string) {
    (forall k :: 0 <= k <= |s| ==> Depth(s[..k]) >= 0) && Depth(s) == 0
  }

  /** `checkForBrackets`: the callback of `replace` sees the brackets in
      order, counts `(` up and `)` down, and stops counting for good once the
      count went below zero. */
  method CheckForBrackets(eq: string) returns (ok: bool)
    ensures ok <==> Balanced(eq)
  {
    var count := 0;
    var correct := true;
    var i := 0;
    while i < |eq|
      invariant 0 <= i <= |eq|
      invariant correct ==> count == Depth(eq[..i])
      invariant correct ==> forall k :: 0 <= k <= i ==> Depth(eq[..k]) >= 0
      invariant !correct ==> exists k :: 0 <= k <= i && Depth(eq[..k]) < 0
    {
      assert eq[..i + 1][..i] == eq[..i];
      var c := eq[i];
      if IsBracket(c) && correct {
        if c == '(' {
          count := count + 1;
        } else {
          count := count - 1;
        }
        if count < 0 {
          correct := false;
        }
      }
      i := i + 1;
    }
    assert eq[..|eq|] == eq;
    if correct {
      assert Depth(eq[..|eq|]) >= 0;
    }
    ok := !(count > 0 || !correct);
  }

  /** `clearAllBrackets`: every `(` and `)` removed, the rest kept in order. */
  function ClearAllBrackets(s: string): (r: string)
    ensures |r| <= |s|
    ensures forall i :: 0 <= i < |r| ==> !IsBracket(r[i])
    decreases |s|
  {
    if s == [] then []
    else
      var c := s[|s| - 1];
      ClearAllBrackets(s[..|s| - 1]) + (if IsBracket(c) then [] else [c])
  }

  /** A line without brackets is left as it is. */
  lemma {:induction false} ClearAllBracketsKeepsPlainText(s: string)
    requires forall i :: 0 <= i < |s| ==> !IsBracket(s[i])
    ensures ClearAllBrackets(s) == s
    decreases |s|
  {
    if s != [] {
      var init := s[..|s| - 1];
      assert forall i :: 0 <= i < |init| ==> init[i] == s[i];
      ClearAllBracketsKeepsPlainText(init);
      assert init + [s[|s| - 1]] == s;
    }
  }

  lemma ClearAllBracketsChar(c: char)
    ensures ClearAllBrackets([c]) == if IsBracket(c) then [] else [c]
  {
    assert [c][..0] == [];
  }

  /** Stripping works character by character (ClearAllBracketsChar: a single
      bracket goes, any other character stays) and puts the pieces back
      together in order, so the result is the input with its brackets removed
      and nothing else changed. */
  lemma {:induction false} ClearAllBracketsConcat(a: string, b: string)
    ensures ClearAllBrackets(a + b) == ClearAllBrackets(a) + ClearAllBrackets(b)
    decreases |b|
  {
    if b == [] {
      assert a + b == a;
    } else {
      var init := b[..|b| - 1];
      assert (a + b)[..|a + b| - 1] == a + init;
      ClearAllBracketsConcat(a, init);
    }
  }

  /** Removing brackets never creates a token: brackets only shorten or
      delete runs, and whitespace is never removed, so runs never merge. The
      extra term accounts for a run that is open in `s` but not yet in the
      stripped text (it ends in a bracket). */
  lemma {:induction false} ClearAllBracketsWordCount(s: string)
    ensures |Spans(ClearAllBrackets(s))|
              + (if Open(s) && !Open(ClearAllBrackets(s)) then 1 else 0)
            <= |Spans(s)|
    decreases |s|
  {
    if s != [] {
      var init := s[..|s| - 1];
      var c := s[|s| - 1];
      ClearAllBracketsWordCount(init);
      SpansCountStep(s);
      var ci := ClearAllBrackets(init);
      if IsBracket(c) {
        assert ClearAllBrackets(s) == ci;
      } else {
        var cs := ci + [c];
        assert ClearAllBrackets(s) == cs;
        assert cs[..|cs| - 1] == ci;
        SpansCountStep(cs);
        if !Open(init) && |init| > 0 {
          var c0 := init[|init| - 1];
          assert ci == ClearAllBrackets(init[..|init| - 1]) + [c0];
        }
      }
    }
  }

  lemma WordCountAfterClearing(s: string)
    ensures |Words(ClearAllBrackets(s))| <= |Words(s)|
  {
    ClearAllBracketsWordCount(s);
  }

  // ---------------------------------------------------------------------
  // Numerals
  // ---------------------------------------------------------------------

  predicate IsDigit(c: char) {
    '0' <= c <= '9'
  }

  predicate AllDigits(s: string) {
    forall i :: 0 <= i < |s| ==> IsDigit(s[i])
  }

  /** The token without its optional leading minus sign. */
  function Unsigned(s: string): string {
    if |s| > 0 && s[0] == '-' then s[1..] else s
  }

  /** `isNumeric`, the pattern `^-?\d*\.?\d+$`: an optional `-`, then either
      one or more digits, or digits, a `.` and one or more digits. */
  predicate IsNumeric(s: string) {
    var u := Unsigned(s);
    (|u| > 0 && AllDigits(u))
    || exists i :: 0 <= i < |u| - 1 && u[i] == '.' && AllDigits(u[..i]) && AllDigits(u[i + 1..])
  }

  /** Character-level reading of the pattern: a non-empty string of digits
      and dots that holds at most one dot and ends in a digit. */
  predicate NumeralShape(u: string) {
    && |u| > 0
    && IsDigit(u[|u| - 1])
    && (forall i :: 0 <= i < |u| ==> IsDigit(u[i]) || u[i] == '.')
    && (forall j :: DotIndex(u) < j < |u| ==> u[j] != '.')
  }

  /** `isNumeric` accepts exactly an optional `-` followed by a numeral
      shape. */
  lemma IsNumericCharacterization(s: string)
    ensures IsNumeric(s) <==> NumeralShape(Unsigned(s))
  {
    var u := Unsigned(s);
    if NumeralShape(u) {
      if !AllDigits(u) {
        var d :| 0 <= d < |u| && !IsDigit(u[d]);
        assert u[d] == '.';
        assert d < |u| - 1;
        assert AllDigits(u[..d]) by {
          forall i | 0 <= i < d ensures IsDigit(u[..d][i]) {
            assert u[i] != '.';
          }
        }
        assert AllDigits(u[d + 1..]) by {
          forall i | d + 1 <= i < |u| ensures IsDigit(u[i]) {
            assert u[i] != '.';
          }
        }
      }
    }
    if IsNumeric(s) {
      if !(|u| > 0 && AllDigits(u)) {
        var i :| 0 <= i < |u| - 1 && u[i] == '.' && AllDigits(u[..i]) && AllDigits(u[i + 1..]);
        assert IsDigit(u[i + 1..][|u| - i - 2]);
        forall p | 0 <= p < |u| && p != i ensures IsDigit(u[p]) {
          if p < i {
            assert u[p] == u[..i][p];
          } else {
            assert u[p] == u[i + 1..][p - i - 1];
          }
        }
      }
    }
  }

  lemma NumericExamplesAccepted()
    ensures IsNumeric(".5") && IsNumeric("-5") && IsNumeric("3.14") && IsNumeric("-.5")
  {
    HalfAccepted();
    PiAccepted();
    assert Unsigned("-5") == "5" && AllDigits("5");
  }

  lemma HalfAccepted()
    ensures IsNumeric(".5") && IsNumeric("-.5")
  {
    FractionAccepted(".5", 0);
    assert "-.5" == "-" + ".5";
  }

  lemma PiAccepted()
    ensures IsNumeric("3.14")
  {
    FractionAccepted("3.14", 1);
  }

  /** Digits, a dot and at least one digit form a numeral. */
  lemma FractionAccepted(u: string, i: nat)
    requires i < |u| - 1 && u[i] == '.' && |u| > 0 && u[0] != '-'
    requires AllDigits(u[..i]) && AllDigits(u[i + 1..])
    ensures IsNumeric(u) && IsNumeric("-" + u)
  {
    assert Unsigned(u) == u;
    assert Unsigned("-" + u) == u;
  }

  lemma NumericExamplesRejected()
    ensures !IsNumeric("-") && !IsNumeric(".") && !IsNumeric("5.") && !IsNumeric("")
    ensures !IsNumeric("1.2.3") && !IsNumeric("--1")
  {
    IsNumericCharacterization("5.");
    IsNumericCharacterization(".");
    IsNumericCharacterization("1.2.3");
    assert DotIndex("1.2.3") == 1 && "1.2.3"[3] == '.';
    IsNumericCharacterization("--1");
    assert Unsigned("--1")[0] == '-';
  }

  function DigitValue(c: char): nat {
    if IsDigit(c) then c as int - '0' as int else 0
  }

  /** The value of a string of decimal digits. */
  function DigitsValue(ds: string): nat
    decreases |ds|
  {
    if ds == [] then 0 else DigitsValue(ds[..|ds| - 1]) * 10 + DigitValue(ds[|ds| - 1])
  }

  function Pow10(n: nat): (r: nat)
    ensures r > 0
  {
    if n == 0 then 1 else 10 * Pow10(n - 1)
  }

  /** The position of the first `.` in `u`, or `|u|` when there is none. */
  function DotIndex(u: string): (d: nat)
    ensures d <= |u|
    ensures forall i :: 0 <= i < d ==> u[i] != '.'
    ensures d < |u| ==> u[d] == '.'
  {
    if u == [] then 0 else if u[0] == '.' then 0 else 1 + DotIndex(u[1..])
  }

  /** `Number(e)` for a token that passed `isNumeric`, as an exact decimal
      (the conversion to the nearest double is not modelled). */
  function NumeralValue(s: string): real {
    var u := Unsigned(s);
    var d := DotIndex(u);
    var magnitude := DigitsValue(u[..d]) as real
      + (if d < |u| then DigitsValue(u[d + 1..]) as real / Pow10(|u| - d - 1) as real else 0.0);
    if |s| > 0 && s[0] == '-' then -magnitude else magnitude
  }

  lemma {:induction false} DigitsValueOfDecimal(n: nat)
    ensures DigitsValue(NatToDecimal(n)) == n
    decreases n
  {
    if n >= 10 {
      DigitsValueOfDecimal(n / 10);
      var r := NatToDecimal(n);
      assert r[..|r| - 1] == NatToDecimal(n / 10);
    }
  }

  /** The decimal rendering of any integer is a numeral that denotes it. */
  lemma NumeralRoundTrip(n: int)
    ensures IsNumeric(IntToDecimal(n))
    ensures NumeralValue(IntToDecimal(n)) == n as real
  {
    var m: nat := if n < 0 then -n else n;
    var digits := NatToDecimal(m);
    UnsignedDecimal(n);
    DigitsValueOfDecimal(m);
    assert AllDigits(digits);
    assert DotIndex(digits) == |digits| by {
      assert forall i :: 0 <= i < |digits| ==> digits[i] != '.';
    }
    assert digits[..|digits|] == digits;
    assert NumeralValue(IntToDecimal(n)) == if n < 0 then -(m as real) else m as real;
  }

  /** Dropping the sign of a rendered integer leaves the digits of its
      magnitude, and the sign is there exactly for negative numbers. */
  lemma UnsignedDecimal(n: int)
    ensures Unsigned(IntToDecimal(n)) == NatToDecimal(if n < 0 then -n else n)
    ensures IntToDecimal(n)[0] == '-' <==> n < 0
  {
    var digits := NatToDecimal(if n < 0 then -n else n);
    if n < 0 {
      assert IntToDecimal(n)[1..] == digits;
    } else {
      assert IsDigit(digits[0]);
    }
  }

  // ---------------------------------------------------------------------
  // Token predicates and `which*` mappings
  // ---------------------------------------------------------------------

  /** `isOperator`: the pattern `^[\+|\-|\*|\/|\/\/|\%]$` is a character
      class, so it accepts exactly one of the six characters `+ | - * / %`. */
  predicate IsOperator(n: string) {
    |n| == 1 && n[0] in "+|-*/%"
  }

  /** `whichOperator`; `None` is the `unreachable()` throw. */
  function WhichOperator(n: string): (r: Option<Operator>)
    ensures r.Some? ==> OperatorText(r.value) == n
    ensures r.None? ==> forall o: Operator :: OperatorText(o) != n
  {
    if n == "+" then Some(Plus)
    else if n == "-" then Some(Minus)
    else if n == "/" then Some(Div)
    else if n == "*" then Some(Mul)
    else if n == "//" then Some(FloorDiv)
    else if n == "%" then Some(Mod)
    else None
  }

  predicate IsIntrinsic(n: string) {
    n in ["drop", "over", "dup", "swap"]
  }

  function WhichIntrinsic(n: string): (r: Intrinsic)
    requires IsIntrinsic(n)
    ensures IntrinsicText(r) == n
  {
    if n == "drop" then Drop
    else if n == "over" then Over
    else if n == "dup" then Dup
    else Swap
  }

  predicate IsFunction(n: string) {
    n in ["sqrt", "sin", "cos", "tan", "ctan", "asin", "acos", "atan", "log", "ln", "fact", "pow", "root"]
  }

  function WhichFunction(n: string): (r: MFunction)
    requires IsFunction(n)
    ensures FunctionText(r) == n
  {
    if n == "sqrt" then Sqrt
    else if n == "sin" then Sin
    else if n == "cos" then Cos
    else if n == "tan" then Tan
    else if n == "ctan" then Ctan
    else if n == "asin" then Asin
    else if n == "acos" then Acos
    else if n == "atan" then Atan
    else if n == "log" then Log
    else if n == "ln" then Ln
    else if n == "fact" then Fact
    else if n == "pow" then Pow
    else Root
  }

  /** What a token that is not a macro name resolves to. */
  datatype Resolution = Resolved(instr: Instr) | Undefined | Throws

  /** The number/operator/intrinsic/function chain of `parse`, in its order. */
  function Classify(e: string): Resolution {
    if IsNumeric(e) then Resolved(Num(NumeralValue(e)))
    else if IsOperator(e) then
      match WhichOperator(e)
      case Some(o) => Resolved(Op(o))
      case None => Throws
    else if IsIntrinsic(e) then Resolved(Intr(WhichIntrinsic(e)))
    else if IsFunction(e) then Resolved(Func(WhichFunction(e)))
    else Undefined
  }

  lemma NotNumericByFirstChar(s: string)
    requires |s| > 0 && !IsDigit(s[0]) && s[0] != '.' && s[0] != '-'
    ensures !IsNumeric(s)
  {
    var u := Unsigned(s);
    assert u == s;
    forall i | 0 <= i < |u| - 1 && u[i] == '.'
      ensures !AllDigits(u[..i])
    {
      assert i > 0;
      assert u[..i][0] == s[0];
    }
  }

  /** The only token whose resolution throws is `|`. */
  lemma ThrowsOnlyOnPipe(e: string)
    ensures Classify(e) == Throws <==> e == "|"
  {
    if e == "|" {
      NotNumericByFirstChar(e);
    }
  }

  /** `//` is not an operator token: it resolves to nothing, so the floor
      division operator cannot be written. */
  lemma FloorDivIsUndefined()
    ensures Classify("//") == Undefined
  {
    NotNumericByFirstChar("//");
  }

  lemma OperatorRoundTrip(o: Operator)
    requires o != FloorDiv
    ensures Classify(OperatorText(o)) == Resolved(Op(o))
  {
    var w := OperatorText(o);
    if o == Minus {
      assert Unsigned(w) == [];
    } else {
      NotNumericByFirstChar(w);
    }
  }

  lemma IntrinsicRoundTrip(i: Intrinsic)
    ensures Classify(IntrinsicText(i)) == Resolved(Intr(i))
  {
    NotNumericByFirstChar(IntrinsicText(i));
  }

  lemma FunctionRoundTrip(f: MFunction)
    ensures Classify(FunctionText(f)) == Resolved(Func(f))
  {
    var w := FunctionText(f);
    NotNumericByFirstChar(w);
    assert !IsOperator(w);
    match f {
      case Sqrt => assert w == "sqrt" && !IsIntrinsic(w) && WhichFunction(w) == Sqrt;
      case Sin => assert w == "sin" && !IsIntrinsic(w) && WhichFunction(w) == Sin;
      case Cos => assert w == "cos" && !IsIntrinsic(w) && WhichFunction(w) == Cos;
      case Tan => assert w == "tan" && !IsIntrinsic(w) && WhichFunction(w) == Tan;
      case Ctan => assert w == "ctan" && !IsIntrinsic(w) && WhichFunction(w) == Ctan;
      case Asin => assert w == "asin" && !IsIntrinsic(w) && WhichFunction(w) == Asin;
      case Acos => assert w == "acos" && !IsIntrinsic(w) && WhichFunction(w) == Acos;
      case Atan => assert w == "atan" && !IsIntrinsic(w) && WhichFunction(w) == Atan;
      case Log => assert w == "log" && !IsIntrinsic(w) && WhichFunction(w) == Log;
      case Ln => assert w == "ln" && !IsIntrinsic(w) && WhichFunction(w) == Ln;
      case Fact => assert w == "fact" && !IsIntrinsic(w) && WhichFunction(w) == Fact;
      case Pow => assert w == "pow" && !IsIntrinsic(w) && WhichFunction(w) == Pow;
      case Root => assert w == "root" && !IsIntrinsic(w) && WhichFunction(w) == Root;
    }
  }

  /** Every reserved word except `//` resolves to an instruction other
      than a number, whose own text it is. */
  lemma ReservedResolves(w: string)
    requires w in Reserved && w != "//"
    ensures Classify(w).Resolved? && !Classify(w).instr.Num?
    ensures Classify(w).instr != Op(FloorDiv)
    ensures Readable(Statement(Classify(w).instr, 0), x => "") == w
    ensures w != ";" && |w| > 0 && forall i :: 0 <= i < |w| ==> !IsSpace(w[i]) && !IsBracket(w[i])
  {
    if w in {"+", "-", "*", "%", "/"} {
      OperatorWordResolves(w);
    } else if w in {"drop", "over", "dup", "swap"} {
      IntrinsicWordResolves(w);
    } else if w in {"sqrt", "sin", "cos", "tan", "ctan", "asin", "acos"} {
      FunctionWordResolves(w);
    } else {
      LaterFunctionWordResolves(w);
    }
  }

  /** The text of an instruction other than a number and `//` resolves
      back to it. */
  lemma TextResolves(w: string, ins: Instr)
    requires !ins.Num? && ins != Op(FloorDiv)
    requires w == Readable(Statement(ins, 0), x => "")
    ensures Classify(w) == Resolved(ins)
    ensures Readable(Statement(Classify(w).instr, 0), x => "") == w
    ensures w != ";" && |w| > 0 && forall i :: 0 <= i < |w| ==> !IsSpace(w[i]) && !IsBracket(w[i])
  {
    ReadableRoundTrip(Statement(ins, 0), x => "");
    InstrTextPlain(ins);
  }

  lemma InstrTextPlain(ins: Instr)
    requires !ins.Num?
    ensures var w := Readable(Statement(ins, 0), x => "");
      w != ";" && |w| > 0 && forall i :: 0 <= i < |w| ==> !IsSpace(w[i]) && !IsBracket(w[i])
  {
    match ins
    case Op(o) => OperatorTextPlain(o);
    case Intr(i) => IntrinsicTextPlain(i);
    case Func(f) => FunctionTextPlain(f);
  }

  lemma OperatorTextPlain(o: Operator)
    ensures OperatorText(o) != ";" && |OperatorText(o)| > 0
    ensures forall i :: 0 <= i < |OperatorText(o)| ==> !IsSpace(OperatorText(o)[i]) && !IsBracket(OperatorText(o)[i])
  {
  }

  lemma IntrinsicTextPlain(n: Intrinsic)
    ensures IntrinsicText(n) != ";" && |IntrinsicText(n)| > 0
    ensures forall i :: 0 <= i < |IntrinsicText(n)| ==> !IsSpace(IntrinsicText(n)[i]) && !IsBracket(IntrinsicText(n)[i])
  {
  }

  lemma FunctionTextPlain(f: MFunction)
    ensures FunctionText(f) != ";" && |FunctionText(f)| > 0
    ensures forall i :: 0 <= i < |FunctionText(f)| ==> !IsSpace(FunctionText(f)[i]) && !IsBracket(FunctionText(f)[i])
  {
  }

  lemma OperatorWordResolves(w: string)
    requires w in {"+", "-", "*", "%", "/"}
    ensures Classify(w).Resolved? && !Classify(w).instr.Num?
    ensures Classify(w).instr != Op(FloorDiv)
    ensures Readable(Statement(Classify(w).instr, 0), x => "") == w
    ensures w != ";" && |w| > 0 && forall i :: 0 <= i < |w| ==> !IsSpace(w[i]) && !IsBracket(w[i])
  {
    if w == "+" {
      TextResolves(w, Op(Plus));
    } else if w == "-" {
      TextResolves(w, Op(Minus));
    } else if w == "*" {
      TextResolves(w, Op(Mul));
    } else if w == "%" {
      TextResolves(w, Op(Mod));
    } else {
      TextResolves(w, Op(Div));
    }
  }

  lemma IntrinsicWordResolves(w: string)
    requires w in {"drop", "over", "dup", "swap"}
    ensures Classify(w).Resolved? && !Classify(w).instr.Num?
    ensures Classify(w).instr != Op(FloorDiv)
    ensures Readable(Statement(Classify(w).instr, 0), x => "") == w
    ensures w != ";" && |w| > 0 && forall i :: 0 <= i < |w| ==> !IsSpace(w[i]) && !IsBracket(w[i])
  {
    if w == "drop" {
      TextResolves(w, Intr(Drop));
    } else if w == "over" {
      TextResolves(w, Intr(Over));
    } else if w == "dup" {
      TextResolves(w, Intr(Dup));
    } else {
      TextResolves(w, Intr(Swap));
    }
  }

  lemma FunctionWordResolves(w: string)
    requires w in {"sqrt", "sin", "cos", "tan", "ctan", "asin", "acos"}
    ensures Classify(w).Resolved? && !Classify(w).instr.Num?
    ensures Classify(w).instr != Op(FloorDiv)
    ensures Readable(Statement(Classify(w).instr, 0), x => "") == w
    ensures w != ";" && |w| > 0 && forall i :: 0 <= i < |w| ==> !IsSpace(w[i]) && !IsBracket(w[i])
  {
    if w == "sqrt" {
      TextResolves(w, Func(Sqrt));
    } else if w == "sin" {
      TextResolves(w, Func(Sin));
    } else if w == "cos" {
      TextResolves(w, Func(Cos));
    } else if w == "tan" {
      TextResolves(w, Func(Tan));
    } else if w == "ctan" {
      TextResolves(w, Func(Ctan));
    } else if w == "asin" {
      TextResolves(w, Func(Asin));
    } else {
      TextResolves(w, Func(Acos));
    }
  }

  lemma LaterFunctionWordResolves(w: string)
    requires w in {"atan", "log", "ln", "fact", "pow", "root"}
    ensures Classify(w).Resolved? && !Classify(w).instr.Num?
    ensures Classify(w).instr != Op(FloorDiv)
    ensures Readable(Statement(Classify(w).instr, 0), x => "") == w
    ensures w != ";" && |w| > 0 && forall i :: 0 <= i < |w| ==> !IsSpace(w[i]) && !IsBracket(w[i])
  {
    if w == "atan" {
      TextResolves(w, Func(Atan));
    } else if w == "log" {
      TextResolves(w, Func(Log));
    } else if w == "ln" {
      TextResolves(w, Func(Ln));
    } else if w == "fact" {
      TextResolves(w, Func(Fact));
    } else if w == "pow" {
      TextResolves(w, Func(Pow));
    } else {
      TextResolves(w, Func(Root));
    }
  }

  /** Every non-number instruction except floor division renders to a token
      that resolves back to it. */
  lemma ReadableRoundTrip(st: Statement, show: real -> string)
    requires !st.instr.Num? && st.instr != Op(FloorDiv)
    ensures Classify(Readable(st, show)) == Resolved(st.instr)
  {
    match st.instr
    case Op(o) => OperatorRoundTrip(o);
    case Intr(i) => IntrinsicRoundTrip(i);
    case Func(f) => FunctionRoundTrip(f);
  }

  /** Every decimal integer token resolves to the number it denotes. */
  lemma IntegerTokenRoundTrip(n: int)
    ensures Classify(IntToDecimal(n)) == Resolved(Num(n as real))
  {
    NumeralRoundTrip(n);
  }
}
