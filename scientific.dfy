/**
  The scientific calculator pane: `factorial`, the rewriter `toJsExpression`
  that turns display tokens into JavaScript, and the key handler that edits the
  input buffer `expr`. This pane applies no allow-list before evaluation.
 */
module ScientificCalc {
  import opened Common
  import opened Text

  // ---------------------------------------------------------------------------
  // factorial

  /** n! = 1·2·…·n, with 0! = 1. */
  function Fact(n: nat): (r: nat)
    ensures r >= 1
    ensures n >= 1 ==> r >= n
  {
    if n == 0 then 1 else n * Fact(n - 1)
  }

  /** `factorial(n)` as the scientific pane passes it to the evaluator: NaN when
      `n` is NaN, negative or not an integer; otherwise the product 2·3·…·n,
      built up by a loop over `i`, which makes 0! = 1! = 1. */
  method Factorial(n: Number) returns (r: Number)
    ensures r.NaN? <==> n.NaN? || n.value < 0.0 || n.value != n.value.Floor as real
    ensures r.Num? ==> r.value == Fact(n.value.Floor) as real
  {
    if n.NaN? || n.value < 0.0 || n.value != n.value.Floor as real {
      return NaN;
    }
    var k := n.value.Floor;
    var acc := 1;
    var i := 2;
    while i as real <= n.value
      invariant 2 <= i <= (if k < 1 then 2 else k + 1)
      invariant acc == Fact(i - 1)
      decreases k + 2 - i
    {
      acc := acc * i;
      i := i + 1;
    }
    return Num(acc as real);
  }

  // ---------------------------------------------------------------------------
  // toJsExpression

  /** s.replace(/(\d+(?:\.\d+)?)!\b/g, 'factorial($1)'): a literal followed by
      `!` becomes a call, but only where the character after `!` is a word
      character; at the end of the text, or before `)` or an operator, there is
      no word boundary after `!` and nothing is rewritten. */
  function FactorialRewrite(s: string): string {
    RewriteMarked(s, '!', true, "factorial(", ")")
  }

  /** The trigonometric and logarithm names mapped to `Math`, in source order. */
  function MapFunctionNames(s: string): string {
    var s1 := ReplaceAll(s, "sin(", "Math.sin(");
    var s2 := ReplaceAll(s1, "cos(", "Math.cos(");
    var s3 := ReplaceAll(s2, "tan(", "Math.tan(");
    var s4 := ReplaceAll(s3, "log(", "Math.log10(");
    ReplaceAll(s4, "ln(", "Math.log(")
  }

  /** The text the scientific pane hands to the evaluator: `÷`/`×`, then `√`,
      then the function names, then factorial, then `^` to `**`. */
  function ToJsExpression(src: string): string {
    var s1 := ReplaceAll(ReplaceAll(src, "÷", "/"), "×", "*");
    var s2 := ReplaceAll(s1, "√", "Math.sqrt");
    var s3 := MapFunctionNames(s2);
    var s4 := FactorialRewrite(s3);
    ReplaceAll(s4, "^", "**")
  }

  /** A character the input lacks and no replacement inserts stays absent. */
  lemma ReplaceAllAbsent(s: string, pat: string, rep: string, c: char)
    requires pat != [] && c !in s && c !in rep
    ensures c !in ReplaceAll(s, pat, rep)
  {
    if c in ReplaceAll(s, pat, rep) {
      ReplaceAllSource(s, pat, rep, c);
    }
  }

  /** The function names and factorial insert only ASCII letters, digits, `.` and parentheses. */
  lemma MiddleStepsAbsent(s: string, c: char)
    requires c !in s && c in "÷×√^!"
    ensures c !in FactorialRewrite(MapFunctionNames(s))
  {
    var s1 := ReplaceAll(s, "sin(", "Math.sin(");
    var s2 := ReplaceAll(s1, "cos(", "Math.cos(");
    var s3 := ReplaceAll(s2, "tan(", "Math.tan(");
    var s4 := ReplaceAll(s3, "log(", "Math.log10(");
    var s5 := ReplaceAll(s4, "ln(", "Math.log(");
    ReplaceAllAbsent(s, "sin(", "Math.sin(", c);
    ReplaceAllAbsent(s1, "cos(", "Math.cos(", c);
    ReplaceAllAbsent(s2, "tan(", "Math.tan(", c);
    ReplaceAllAbsent(s3, "log(", "Math.log10(", c);
    ReplaceAllAbsent(s4, "ln(", "Math.log(", c);
    if c in FactorialRewrite(s5) {
      RewriteMarkedSource(s5, '!', true, "factorial(", ")", c);
    }
  }

  /** The rewritten text holds no `^` (it has become `**`) and none of the
      display characters `÷`, `×`, `√`. */
  lemma ToJsDisplayFree(src: string)
    ensures '^' !in ToJsExpression(src)
    ensures '÷' !in ToJsExpression(src) && '×' !in ToJsExpression(src) && '√' !in ToJsExpression(src)
  {
    var s0 := ReplaceAll(src, "÷", "/");
    var s1 := ReplaceAll(s0, "×", "*");
    var s2 := ReplaceAll(s1, "√", "Math.sqrt");
    var s4 := FactorialRewrite(MapFunctionNames(s2));
    ReplaceCharRemoves(s4, '^', "**");
    ReplaceCharRemoves(src, '÷', "/");
    ReplaceAllAbsent(s0, "×", "*", '÷');
    ReplaceCharRemoves(s0, '×', "*");
    ReplaceAllAbsent(s1, "√", "Math.sqrt", '÷');
    ReplaceAllAbsent(s1, "√", "Math.sqrt", '×');
    ReplaceCharRemoves(s1, '√', "Math.sqrt");
    MiddleStepsAbsent(s2, '÷');
    MiddleStepsAbsent(s2, '×');
    MiddleStepsAbsent(s2, '√');
    ReplaceAllAbsent(s4, "^", "**", '÷');
    ReplaceAllAbsent(s4, "^", "**", '×');
    ReplaceAllAbsent(s4, "^", "**", '√');
  }

  /** The pane applies no allow-list: a text without the characters that the
      rewrites look for (`÷ × √ ( ! ^`) reaches the evaluator exactly as keyed
      in, whatever letters it holds. */
  lemma ToJsUnguarded(src: string)
    requires '÷' !in src && '×' !in src && '√' !in src
    requires '(' !in src && '!' !in src && '^' !in src
    ensures ToJsExpression(src) == src
  {
    ReplaceAllIdentity(src, "÷", "/", 0);
    ReplaceAllIdentity(src, "×", "*", 0);
    ReplaceAllIdentity(src, "√", "Math.sqrt", 0);
    ReplaceAllIdentity(src, "sin(", "Math.sin(", 3);
    ReplaceAllIdentity(src, "cos(", "Math.cos(", 3);
    ReplaceAllIdentity(src, "tan(", "Math.tan(", 3);
    ReplaceAllIdentity(src, "log(", "Math.log10(", 3);
    ReplaceAllIdentity(src, "ln(", "Math.log(", 2);
    RewriteMarkedAbsent(src, '!', true, "factorial(", ")");
    ReplaceAllIdentity(src, "^", "**", 0);
  }

  /** For instance a bare identifier is handed to the evaluator as is. */
  lemma ToJsPassesIdentifier()
    ensures ToJsExpression("document.cookie") == "document.cookie"
  {
    ToJsUnguarded("document.cookie");
  }

  /** A literal followed by `!` and a word character becomes a call, and the
      word character is left for the rest of the scan. */
  lemma FactorialBeforeWord(lit: string, rest: string)
    requires IsLiteral(lit) && rest != [] && IsWordChar(rest[0])
    ensures FactorialRewrite(lit + "!" + rest) == "factorial(" + lit + ")" + FactorialRewrite(rest)
  {
    RewriteMarkedLiteral(lit, '!', true, "factorial(", ")", rest);
  }

  /** Characters of a purely numeric text: no letters and no display symbols. */
  predicate NumericChar(c: char) {
    IsDigit(c) || c in "+-*/%().,! "
  }

  /** A numeric text in which every `!` is last or followed by a non-word
      character passes through `toJsExpression` unchanged: `5!` at the end of
      the input or before `)` is not turned into a factorial call. */
  lemma ToJsKeepsFactorialWithoutBoundary(src: string)
    requires forall i :: 0 <= i < |src| ==> NumericChar(src[i])
    requires forall i :: 0 <= i < |src| - 1 && src[i] == '!' ==> !IsWordChar(src[i + 1])
    ensures ToJsExpression(src) == src
  {
    NoLetters(src);
    ReplaceAllIdentity(src, "÷", "/", 0);
    ReplaceAllIdentity(src, "×", "*", 0);
    ReplaceAllIdentity(src, "√", "Math.sqrt", 0);
    NamesAbsent(src);
    RewriteMarkedNeedsWord(src, '!', "factorial(", ")");
    ReplaceAllIdentity(src, "^", "**", 0);
  }

  /** A numeric text holds none of the characters the name patterns start with. */
  lemma NoLetters(src: string)
    requires forall i :: 0 <= i < |src| ==> NumericChar(src[i])
    ensures '÷' !in src && '×' !in src && '√' !in src && '^' !in src
    ensures 's' !in src && 'c' !in src && 't' !in src && 'l' !in src
  {
    forall c | c in src
      ensures c != '÷' && c != '×' && c != '√' && c != '^' && c != 's' && c != 'c' && c != 't' && c != 'l'
    {
      var i :| 0 <= i < |src| && src[i] == c;
      assert NumericChar(c);
    }
  }

  /** `5!` at the end of the input is left as it is. */
  lemma FactorialAtEndKept()
    ensures ToJsExpression("5!") == "5!"
  {
    var a := "5!";
    assert NumericChar(a[0]) && NumericChar(a[1]);
    assert forall i :: 0 <= i < |a| ==> NumericChar(a[i]);
    ToJsKeepsFactorialWithoutBoundary(a);
  }

  /** `(5!)`, where `)` follows the `!`, is left as it is. */
  lemma FactorialBeforeParenKept()
    ensures ToJsExpression("(5!)") == "(5!)"
  {
    var b := "(5!)";
    assert NumericChar(b[0]) && NumericChar(b[1]) && NumericChar(b[2]) && NumericChar(b[3]);
    assert forall i :: 0 <= i < |b| ==> NumericChar(b[i]);
    assert !IsWordChar(b[3]);
    ToJsKeepsFactorialWithoutBoundary(b);
  }

  // ---------------------------------------------------------------------------
  // The factorial rewrite without the word boundary.

  /** The factorial rewrite as evidently intended: `(\d+(?:\.\d+)?)!` with no
      `\b` after it, so a literal followed by `!` becomes a call wherever it
      stands. */
  function FactorialRewriteCorrected(s: string): string {
    RewriteMarked(s, '!', false, "factorial(", ")")
  }

  /** `toJsExpression` with `FactorialRewriteCorrected` in place of the
      factorial step; every other step is as in `ToJsExpression`. */
  function ToJsExpressionCorrected(src: string): string {
    var s1 := ReplaceAll(ReplaceAll(src, "÷", "/"), "×", "*");
    var s2 := ReplaceAll(s1, "√", "Math.sqrt");
    var s3 := MapFunctionNames(s2);
    var s4 := FactorialRewriteCorrected(s3);
    ReplaceAll(s4, "^", "**")
  }

  /** With the correction, a literal followed by `!` at the end of the input
      becomes a call of the `factorial` handed to the evaluator. */
  lemma CorrectedFactorialCall(lit: string)
    requires IsLiteral(lit)
    ensures ToJsExpressionCorrected(lit + "!") == "factorial(" + lit + ")"
  {
    var src := lit + "!";
    var out := "factorial(" + lit + ")";
    var s2 := ReplaceAll(ReplaceAll(ReplaceAll(src, "÷", "/"), "×", "*"), "√", "Math.sqrt");
    assert MapFunctionNames(s2) == src by {
      LiteralBangNumeric(lit);
      NumericFrontSteps(src);
    }
    assert FactorialRewriteCorrected(src) == out by {
      RewriteMarkedLiteral(lit, '!', false, "factorial(", ")", []);
      assert lit + ['!'] + [] == src;
      assert "factorial(" + lit + ")" + [] == out;
    }
    CallHasNoCaret(lit);
    ReplaceAllIdentity(out, "^", "**", 0);
  }

  /** A literal followed by `!` is a numeric text. */
  lemma LiteralBangNumeric(lit: string)
    requires IsLiteral(lit)
    ensures forall i :: 0 <= i < |lit + "!"| ==> NumericChar((lit + "!")[i])
  {
    forall i | 0 <= i < |lit + "!"| ensures NumericChar((lit + "!")[i]) {
      if i < |lit| { assert (lit + "!")[i] == lit[i]; }
    }
  }

  /** The call text of a literal holds no `^`. */
  lemma CallHasNoCaret(lit: string)
    requires IsLiteral(lit)
    ensures '^' !in "factorial(" + lit + ")"
  {
    var out := "factorial(" + lit + ")";
    forall i | 0 <= i < |out| ensures out[i] != '^' {
      if 10 <= i < 10 + |lit| { assert out[i] == lit[i - 10]; }
    }
  }

  /** With the correction, a literal followed by `!` becomes a call wherever
      it stands, whatever follows, and the scan goes on after the `!`. */
  lemma CorrectedFactorialStep(lit: string, rest: string)
    requires IsLiteral(lit)
    ensures FactorialRewriteCorrected(lit + "!" + rest) == "factorial(" + lit + ")" + FactorialRewriteCorrected(rest)
  {
    RewriteMarkedLiteral(lit, '!', false, "factorial(", ")", rest);
  }

  /** With the correction, a literal followed by `!` inside parentheses, as
      in `(5!)`, becomes a call inside the parentheses. */
  lemma CorrectedFactorialInParens(lit: string)
    requires IsLiteral(lit)
    ensures ToJsExpressionCorrected("(" + lit + "!)") == "(factorial(" + lit + "))"
  {
    var src := "(" + lit + "!)";
    var t := lit + "!" + ")";
    var call := "factorial(" + lit + ")";
    var out := "(factorial(" + lit + "))";
    var s2 := ReplaceAll(ReplaceAll(ReplaceAll(src, "÷", "/"), "×", "*"), "√", "Math.sqrt");
    assert MapFunctionNames(s2) == src by {
      ParenLiteralNumeric(lit);
      NumericFrontSteps(src);
    }
    assert FactorialRewriteCorrected(src) == "(" + (call + ")") by {
      ParenSplit(lit);
      ParenStep(t);
      CorrectedFactorialStep(lit, ")");
      RewriteMarkedAbsent(")", '!', false, "factorial(", ")");
    }
    WrapCall(lit);
    ReplaceAllIdentity(out, "^", "**", 0);
  }

  /** The characters of `(lit!)` are numeric. */
  lemma ParenLiteralNumeric(lit: string)
    requires IsLiteral(lit)
    ensures forall i :: 0 <= i < |"(" + lit + "!)"| ==> NumericChar(("(" + lit + "!)")[i])
  {
    var src := "(" + lit + "!)";
    forall i | 0 <= i < |src| ensures NumericChar(src[i]) {
      if 1 <= i < 1 + |lit| { assert src[i] == lit[i - 1]; }
    }
  }

  /** `(lit!)` is `(` in front of `lit!)`. */
  lemma ParenSplit(lit: string)
    ensures "(" + lit + "!)" == "(" + (lit + "!" + ")")
  {
  }

  /** The call of a literal in parentheses, regrouped, holds no `^`. */
  lemma WrapCall(lit: string)
    requires IsLiteral(lit)
    ensures "(" + ("factorial(" + lit + ")" + ")") == "(factorial(" + lit + "))"
    ensures '^' !in "(factorial(" + lit + "))"
  {
    CallHasNoCaret(lit);
  }

  /** A `(` in front is copied by the corrected factorial step. */
  lemma ParenStep(t: string)
    ensures FactorialRewriteCorrected("(" + t) == "(" + FactorialRewriteCorrected(t)
  {
    var s := "(" + t;
    assert !IsDigit(s[0]);
    assert s == ['('] + t;
    RewriteMarkedStep(s, '(', t, '!', false, "factorial(", ")");
  }

  /** The steps before the factorial step leave a numeric text as it is. */
  lemma NumericFrontSteps(src: string)
    requires forall i :: 0 <= i < |src| ==> NumericChar(src[i])
    ensures MapFunctionNames(ReplaceAll(ReplaceAll(ReplaceAll(src, "÷", "/"), "×", "*"), "√", "Math.sqrt")) == src
  {
    NoLetters(src);
    DisplayStepsIdentity(src);
    NamesAbsent(src);
  }

  /** For instance `5!` becomes `factorial(5)`. */
  lemma CorrectedFactorialExample()
    ensures ToJsExpressionCorrected("5!") == "factorial(5)"
  {
    assert IsLiteral("5");
    assert "5" + "!" == "5!";
    CorrectedFactorialCall("5");
  }

  /** Several patterns at once whose first character is missing from `s`. */
  lemma NamesAbsent(s: string)
    requires 's' !in s && 'c' !in s && 't' !in s && 'l' !in s
    ensures MapFunctionNames(s) == s
  {
    ReplaceAllIdentity(s, "sin(", "Math.sin(", 0);
    ReplaceAllIdentity(s, "cos(", "Math.cos(", 0);
    ReplaceAllIdentity(s, "tan(", "Math.tan(", 0);
    ReplaceAllIdentity(s, "log(", "Math.log10(", 0);
    ReplaceAllIdentity(s, "ln(", "Math.log(", 0);
  }

  /** A digit string followed by `)` holds no letter or display character. */
  lemma DigitsClose(arg: string, c: char)
    requires AllDigits(arg) && !IsDigit(c) && c != ')'
    ensures c !in arg + ")"
  {
  }

  /** The steps of `toJsExpression` before the function names leave a text
      without `÷`, `×`, `√` as it is. */
  lemma DisplayStepsIdentity(s: string)
    requires '÷' !in s && '×' !in s && '√' !in s
    ensures ReplaceAll(ReplaceAll(ReplaceAll(s, "÷", "/"), "×", "*"), "√", "Math.sqrt") == s
  {
    ReplaceAllIdentity(s, "÷", "/", 0);
    ReplaceAllIdentity(s, "×", "*", 0);
    ReplaceAllIdentity(s, "√", "Math.sqrt", 0);
  }

  /** The steps after the function names leave a text without `!` and `^` as it is. */
  lemma FinalStepsIdentity(s: string)
    requires '!' !in s && '^' !in s
    ensures ReplaceAll(FactorialRewrite(s), "^", "**") == s
  {
    RewriteMarkedAbsent(s, '!', true, "factorial(", ")");
    ReplaceAllIdentity(s, "^", "**", 0);
  }

  /** When the display steps change nothing and the last two steps find
      nothing, `toJsExpression` is the function-name mapping alone. */
  lemma ToJsIsNameMapping(s: string, u: string)
    requires '÷' !in s && '×' !in s && '√' !in s
    requires MapFunctionNames(s) == u && '!' !in u && '^' !in u
    ensures ToJsExpression(s) == u
  {
    DisplayStepsIdentity(s);
    FinalStepsIdentity(u);
  }

  lemma LogNames(t: string)
    requires 's' !in t && 'c' !in t && 't' !in t && 'l' !in t && 'n' !in t
    ensures MapFunctionNames("log(" + t) == "Math.log10(" + t
  {
    var s := "log(" + t;
    ReplaceAllIdentity(s, "sin(", "Math.sin(", 0);
    ReplaceAllIdentity(s, "cos(", "Math.cos(", 0);
    ReplaceAllIdentity(s, "tan(", "Math.tan(", 0);
    ReplaceAllPrefix("log(", t, "Math.log10(");
    ReplaceAllIdentity(t, "log(", "Math.log10(", 0);
    var u := "Math.log10(" + t;
    assert 'n' !in "Math.log10(";
    ReplaceAllIdentity(u, "ln(", "Math.log(", 1);
  }

  lemma LnNames(t: string)
    requires 's' !in t && 'c' !in t && 't' !in t && 'l' !in t && 'o' !in t
    ensures MapFunctionNames("ln(" + t) == "Math.log(" + t
  {
    var s := "ln(" + t;
    ReplaceAllIdentity(s, "sin(", "Math.sin(", 0);
    ReplaceAllIdentity(s, "cos(", "Math.cos(", 0);
    ReplaceAllIdentity(s, "tan(", "Math.tan(", 0);
    ReplaceAllIdentity(s, "log(", "Math.log10(", 1);
    ReplaceAllPrefix("ln(", t, "Math.log(");
    ReplaceAllIdentity(t, "ln(", "Math.log(", 0);
  }

  /** `log(` is the base-10 logarithm. */
  lemma LogIsBase10(arg: string)
    requires AllDigits(arg)
    ensures ToJsExpression("log(" + arg + ")") == "Math.log10(" + arg + ")"
  {
    var t := arg + ")";
    assert "log(" + arg + ")" == "log(" + t;
    assert "Math.log10(" + arg + ")" == "Math.log10(" + t;
    DigitsClose(arg, '÷'); DigitsClose(arg, '×'); DigitsClose(arg, '√');
    DigitsClose(arg, 's'); DigitsClose(arg, 'c'); DigitsClose(arg, 't'); DigitsClose(arg, 'l');
    DigitsClose(arg, '!'); DigitsClose(arg, '^'); DigitsClose(arg, 'n');
    LogCall(t);
  }

  /** `log(` followed by a text free of the pattern characters. */
  lemma LogCall(t: string)
    requires '÷' !in t && '×' !in t && '√' !in t && '!' !in t && '^' !in t
    requires 's' !in t && 'c' !in t && 't' !in t && 'l' !in t && 'n' !in t
    ensures ToJsExpression("log(" + t) == "Math.log10(" + t
  {
    LogNames(t);
    ToJsIsNameMapping("log(" + t, "Math.log10(" + t);
  }

  /** `ln(` is the natural logarithm. */
  lemma LnIsNatural(arg: string)
    requires AllDigits(arg)
    ensures ToJsExpression("ln(" + arg + ")") == "Math.log(" + arg + ")"
  {
    var t := arg + ")";
    assert "ln(" + arg + ")" == "ln(" + t;
    assert "Math.log(" + arg + ")" == "Math.log(" + t;
    DigitsClose(arg, '÷'); DigitsClose(arg, '×'); DigitsClose(arg, '√');
    DigitsClose(arg, 's'); DigitsClose(arg, 'c'); DigitsClose(arg, 't'); DigitsClose(arg, 'l');
    DigitsClose(arg, 'o'); DigitsClose(arg, '!'); DigitsClose(arg, '^');
    LnCall(t);
  }

  /** `ln(` followed by a text free of the pattern characters. */
  lemma LnCall(t: string)
    requires '÷' !in t && '×' !in t && '√' !in t && '!' !in t && '^' !in t
    requires 's' !in t && 'c' !in t && 't' !in t && 'l' !in t && 'o' !in t
    ensures ToJsExpression("ln(" + t) == "Math.log(" + t
  {
    LnNames(t);
    ToJsIsNameMapping("ln(" + t, "Math.log(" + t);
  }

  /** `toJsExpression` as the composition of its display steps, the name
      mapping and the final steps, when the last two find nothing. */
  lemma ToJsSteps(src: string, s2: string, u: string)
    requires ReplaceAll(ReplaceAll(ReplaceAll(src, "÷", "/"), "×", "*"), "√", "Math.sqrt") == s2
    requires MapFunctionNames(s2) == u && '!' !in u && '^' !in u
    ensures ToJsExpression(src) == u
  {
    FinalStepsIdentity(u);
  }

  /** The characters of `(digits)` that matter to the rewriters. */
  lemma RootArgument(arg: string) returns (t: string)
    requires AllDigits(arg)
    ensures t == "(" + arg + ")"
    ensures '÷' !in t && '×' !in t && '√' !in t && '!' !in t && '^' !in t
    ensures 'i' !in t && 'c' !in t && 'n' !in t && 'l' !in t
  {
    t := "(" + arg + ")";
    forall c | c in t && !IsDigit(c) ensures c == '(' || c == ')' {
      assert t == "(" + (arg + ")");
    }
  }

  /** `√(` becomes a call of `Math.sqrt`. */
  lemma RootIsSqrt(arg: string)
    requires AllDigits(arg)
    ensures ToJsExpression("√(" + arg + ")") == "Math.sqrt(" + arg + ")"
  {
    var t := RootArgument(arg);
    assert "√(" + arg + ")" == "√" + t;
    assert "Math.sqrt(" + arg + ")" == "Math.sqrt" + t;
    RootStep(t);
    SqrtNames("Math.sqrt" + t);
    ToJsSteps("√" + t, "Math.sqrt" + t, "Math.sqrt" + t);
  }

  lemma RootStep(t: string)
    requires '÷' !in t && '×' !in t && '√' !in t
    ensures ReplaceAll(ReplaceAll(ReplaceAll("√" + t, "÷", "/"), "×", "*"), "√", "Math.sqrt") == "Math.sqrt" + t
  {
    ReplaceAllIdentity("√" + t, "÷", "/", 0);
    ReplaceAllIdentity("√" + t, "×", "*", 0);
    ReplaceAllPrefix("√", t, "Math.sqrt");
    ReplaceAllIdentity(t, "√", "Math.sqrt", 0);
  }

  lemma SqrtNames(u: string)
    requires 'i' !in u && 'c' !in u && 'n' !in u && 'l' !in u
    ensures MapFunctionNames(u) == u
  {
    ReplaceAllIdentity(u, "sin(", "Math.sin(", 1);
    ReplaceAllIdentity(u, "cos(", "Math.cos(", 0);
    ReplaceAllIdentity(u, "tan(", "Math.tan(", 2);
    ReplaceAllIdentity(u, "log(", "Math.log10(", 0);
    ReplaceAllIdentity(u, "ln(", "Math.log(", 0);
  }

  // ---------------------------------------------------------------------------
  // The key handler of the pane.

  /** The function keys, each of which appends its name and `(`. */
  predicate FunctionKey(key: string) {
    key == "sin" || key == "cos" || key == "tan" || key == "log" || key == "ln"
  }

  /** The buffer after a key other than `=`: `C` clears, `⌫` drops the last
      character, `x^y` and `^` append `^`, `√` appends `√(`, a function key
      appends its name and `(`, any other key appends itself. */
  function ScientificKey(buffer: string, key: string): string
    requires key != "="
  {
    if key == "C" then ""
    else if key == "⌫" then (if buffer == [] then [] else buffer[..|buffer| - 1])
    else if key == "x^y" || key == "^" then buffer + "^"
    else if key == "√" then buffer + "√("
    else if FunctionKey(key) then buffer + key + "("
    else buffer + key
  }

  /** `⌫` after a function key or `√` removes only the `(`: the name stays. */
  lemma BackspaceAfterCallKey(buffer: string, key: string)
    requires FunctionKey(key) || key == "√"
    ensures ScientificKey(ScientificKey(buffer, key), "⌫") == buffer + key
  {
    var r := ScientificKey(buffer, key);
    assert r == (buffer + key) + "(";
    assert r[..|r| - 1] == buffer + key;
  }

  /** Pressing `log` and then digits and `)` yields a base-10 logarithm call,
      pressing `ln` a natural one. */
  lemma KeyedLogarithms(arg: string)
    requires AllDigits(arg)
    ensures ToJsExpression(ScientificKey("", "log") + arg + ")") == "Math.log10(" + arg + ")"
    ensures ToJsExpression(ScientificKey("", "ln") + arg + ")") == "Math.log(" + arg + ")"
  {
    assert ScientificKey("", "log") == "log(";
    assert ScientificKey("", "ln") == "ln(";
    LogIsBase10(arg);
    LnIsNatural(arg);
  }

  /** The scientific pane: the closure-held buffer `expr` shown on its display. */
  class ScientificPane {
    var expr: string

    constructor ()
      ensures expr == ""
    {
      expr := "";
    }

    /** A click on a key. `=` runs `compute`: nothing happens on an empty
        buffer; otherwise the rewritten text is returned for evaluation, with no
        check of its characters, and the buffer is unchanged. */
    method Press(key: string) returns (code: Option<string>)
      modifies this
      ensures key != "=" ==> expr == ScientificKey(old(expr), key) && code == None
      ensures key == "=" ==> expr == old(expr)
      ensures key == "=" ==> code == if old(expr) == "" then None else Some(ToJsExpression(old(expr)))
    {
      code := None;
      if key == "=" {
        if expr != "" {
          code := Some(ToJsExpression(expr));
        }
      } else {
        expr := ScientificKey(expr, key);
      }
    }

    /** The end of `compute`: the rendered result, or "Error" when the
        evaluator threw or the clamped result was NaN (`None`). */
    method Settle(rendered: Option<string>)
      modifies this
      ensures expr == (if rendered.Some? then rendered.value else "Error")
    {
      expr := if rendered.Some? then rendered.value else "Error";
    }

    /** The timer set after an error: it empties the buffer. */
    method ClearError()
      modifies this
      ensures expr == ""
    {
      expr := "";
    }
  }
}
