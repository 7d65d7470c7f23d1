/**
  The normal calculator pane: the `safeEval` guard and rewrite, the
  preprocessing in `compute` (display operators and percent literals), and the
  key handler that edits the input buffer `current`.
 */
module NormalCalc {
  import opened Common
  import opened Text

  /** The character class `[0-9+\-*\/%^().,\s]` of the allow-list. */
  predicate Allowed(c: char) {
    IsDigit(c) || c in "+-*/%^().," || IsSpace(c)
  }

  /** The whole string matches `^[0-9+\-*\/%^().,\s]*$`. */
  predicate AllAllowed(s: string) {
    forall i :: 0 <= i < |s| ==> Allowed(s[i])
  }

  /** `safeEval` up to the point where it hands its text to `Function`: a
      string with a character outside the allow-list is rejected with
      "Invalid characters"; otherwise every `^` becomes `**`. */
  function SafeEval(expression: string): (r: Result<string, string>)
    ensures r.Failure? <==> exists i :: 0 <= i < |expression| && !Allowed(expression[i])
    ensures r.Failure? ==> r.error == "Invalid characters"
    ensures r.Success? ==> '^' !in r.value && AllAllowed(r.value)
  {
    if AllAllowed(expression) then
      var code := ReplaceAll(expression, "^", "**");
      ReplaceCharRemoves(expression, '^', "**");
      forall i | 0 <= i < |code| ensures Allowed(code[i]) {
        ReplaceAllSource(expression, "^", "**", code[i]);
      }
      Success(code)
    else
      Failure("Invalid characters")
  }

  /** An allow-listed string without `^` reaches the evaluator unchanged. */
  lemma SafeEvalNoCaret(s: string)
    requires AllAllowed(s) && '^' !in s
    ensures SafeEval(s) == Success(s)
  {
    ReplaceAllIdentity(s, "^", "**", 0);
  }

  /** The first `^` becomes `**`; the characters before it are kept in order
      and the rest is rewritten the same way. */
  lemma SafeEvalCaret(a: string, b: string)
    requires AllAllowed(a) && AllAllowed(b) && '^' !in a
    ensures SafeEval(a + "^" + b).Success? && SafeEval(b).Success?
    ensures SafeEval(a + "^" + b).value == a + "**" + SafeEval(b).value
  {
    var s := a + "^" + b;
    assert AllAllowed(s) by {
      forall i | 0 <= i < |s| ensures Allowed(s[i]) {
        if i < |a| { assert s[i] == a[i]; }
        else if i > |a| { assert s[i] == b[i - |a| - 1]; }
      }
    }
    ReplaceCharConcat(a + "^", b, '^', "**");
    ReplaceCharConcat(a, "^", '^', "**");
    ReplaceAllIdentity(a, "^", "**", 0);
  }

  /** The `÷` and `×` keys' display operators mapped to `/` and `*`. */
  function MapDisplayOperators(s: string): string {
    ReplaceAll(ReplaceAll(s, "÷", "/"), "×", "*")
  }

  /** current.replace(/(\d+(?:\.\d+)?)%/g, '($1/100)'): a literal followed by
      `%` becomes that literal divided by 100. */
  function PercentRewrite(s: string): string {
    RewriteMarked(s, '%', false, "(", "/100)")
  }

  /** The text the normal pane's `compute` hands to the evaluator, or the
      rejection that puts "Error" on the display. The allow-list is applied to
      the rewritten text, not to the keyed-in text. */
  function Prepare(current: string): Result<string, string> {
    SafeEval(PercentRewrite(MapDisplayOperators(current)))
  }

  /** A character that the guard lets through once `compute` has rewritten it. */
  predicate AcceptedRaw(c: char) {
    Allowed(c) || c == '÷' || c == '×'
  }

  /** `compute` accepts exactly the inputs made of allow-listed characters and
      the display operators `÷`, `×`: the guard rejects a keyed-in string iff it
      holds some other character. */
  lemma PrepareAccepts(s: string)
    ensures Prepare(s).Success? <==> forall i :: 0 <= i < |s| ==> AcceptedRaw(s[i])
  {
    var s1 := ReplaceAll(s, "÷", "/");
    var s2 := ReplaceAll(s1, "×", "*");
    var s3 := PercentRewrite(s2);
    if forall i :: 0 <= i < |s| ==> AcceptedRaw(s[i]) {
      ReplaceCharRemoves(s, '÷', "/");
      ReplaceCharRemoves(s1, '×', "*");
      forall i | 0 <= i < |s3| ensures Allowed(s3[i]) {
        var c := s3[i];
        RewriteMarkedSource(s2, '%', false, "(", "/100)", c);
        if c in s2 {
          ReplaceAllSource(s1, "×", "*", c);
          if c in s1 {
            ReplaceAllSource(s, "÷", "/", c);
          }
        }
      }
    } else {
      var i :| 0 <= i < |s| && !AcceptedRaw(s[i]);
      var c := s[i];
      ReplaceCharKeeps(s, '÷', "/", c);
      ReplaceCharKeeps(s1, '×', "*", c);
      RewriteMarkedKeeps(s2, '%', false, "(", "/100)", c);
      var j :| 0 <= j < |s3| && s3[j] == c;
      assert !Allowed(s3[j]);
    }
  }

  /** A literal directly followed by `%` becomes `(literal/100)`: the percent is
      taken of one, not of a preceding operand. */
  lemma PercentOfLiteral(lit: string, rest: string)
    requires IsLiteral(lit)
    ensures PercentRewrite(lit + "%" + rest) == "(" + lit + "/100)" + PercentRewrite(rest)
  {
    RewriteMarkedLiteral(lit, '%', false, "(", "/100)", rest);
  }

  /** The percent after an operator applies to the literal alone: with `a`
      ending in the operator, `a` stays as it is, so `200+10%` becomes
      `200+(10/100)` and not 200 plus ten percent of 200. */
  lemma PercentAfterOperand(a: string, lit: string, rest: string)
    requires '%' !in a && LiteralClosed(a) && IsLiteral(lit)
    ensures PercentRewrite(a + (lit + "%" + rest)) == a + ("(" + lit + "/100)" + PercentRewrite(rest))
  {
    RewriteMarkedSkip(a, lit + "%" + rest, '%', false, "(", "/100)");
    PercentOfLiteral(lit, rest);
  }

  /** Without `%` there is nothing to rewrite. */
  lemma PercentIdentity(s: string)
    requires '%' !in s
    ensures PercentRewrite(s) == s
  {
    RewriteMarkedAbsent(s, '%', false, "(", "/100)");
  }

  /** After the rewrite no digit is directly followed by `%`: every percent
      sign that follows a literal has been consumed. */
  lemma {:induction false} PercentConsumed(s: string)
    ensures NoDigitBefore(PercentRewrite(s), '%')
    decreases |s|
  {
    if s != [] {
      match MarkedLiteral(s, '%', false)
      case Some(n) =>
        PercentConsumed(s[n + 1..]);
        var lit := s[..n];
        var head := "(" + lit + "/100)";
        assert forall j :: 0 <= j < |lit| ==> lit[j] == s[j];
        assert '%' !in lit;
        assert '%' !in head;
        assert NoDigitBefore(head, '%');
        NoDigitBeforeConcat(head, PercentRewrite(s[n + 1..]), '%');
        assert PercentRewrite(s) == head + PercentRewrite(s[n + 1..]);
      case None =>
        var t := PercentRewrite(s[1..]);
        PercentConsumed(s[1..]);
        if IsDigit(s[0]) && t != [] {
          if MarkedLiteral(s[1..], '%', false).None? {
            assert t[0] == s[1];
            assert s[1] != '%';
          }
        }
        NoDigitBeforeConcat([s[0]], t, '%');
        assert PercentRewrite(s) == [s[0]] + t;
    }
  }

  // ---------------------------------------------------------------------------
  // The key handler of the pane.

  /** The buffer after a key other than `=`: `C` clears, `⌫` drops the last
      character (an empty buffer stays empty), `÷` and `×` append the JavaScript
      operator, any other key appends itself. */
  function NormalKey(buffer: string, key: string): string
    requires key != "="
  {
    if key == "C" then ""
    else if key == "⌫" then (if buffer == [] then [] else buffer[..|buffer| - 1])
    else if key == "÷" then buffer + "/"
    else if key == "×" then buffer + "*"
    else buffer + key
  }

  /** Keys that keep an allow-listed buffer allow-listed. */
  predicate KeypadKey(key: string) {
    key != "=" && (key == "C" || key == "⌫" || key == "÷" || key == "×" || AllAllowed(key))
  }

  /** The pane maps `÷` and `×` as they are keyed in, so a buffer built from
      keypad keys stays within the allow-list (and `compute` never rejects it). */
  lemma NormalKeyKeepsAllowed(buffer: string, key: string)
    requires AllAllowed(buffer) && KeypadKey(key)
    ensures AllAllowed(NormalKey(buffer, key))
    ensures Prepare(NormalKey(buffer, key)).Success?
  {
    var r := NormalKey(buffer, key);
    assert AllAllowed(r) by {
      forall i | 0 <= i < |r| ensures Allowed(r[i]) {
        if i < |buffer| {
          assert r[i] == buffer[i];
        }
      }
    }
    PrepareAccepts(r);
  }

  /** `⌫` undoes a key that appends one character. */
  lemma BackspaceUndoesKey(buffer: string, key: string)
    requires |key| == 1 && key != "=" && key != "C" && key != "⌫"
    ensures NormalKey(NormalKey(buffer, key), "⌫") == buffer
  {
  }

  /** The normal pane: the closure-held buffer `current` shown on its display. */
  class NormalPane {
    var current: string

    constructor ()
      ensures current == ""
    {
      current := "";
    }

    /** A click on a key. `=` runs `compute`: nothing happens on an empty
        buffer, a rejected buffer is replaced by "Error", and otherwise the
        prepared text is returned for evaluation with the buffer unchanged. */
    method Press(key: string) returns (code: Option<string>)
      modifies this
      ensures key != "=" ==> current == NormalKey(old(current), key) && code == None
      ensures key == "=" && old(current) == "" ==> current == "" && code == None
      ensures key == "=" && old(current) != "" && Prepare(old(current)).Success? ==>
                current == old(current) && code == Some(Prepare(old(current)).value)
      ensures key == "=" && old(current) != "" && Prepare(old(current)).Failure? ==>
                current == "Error" && code == None
    {
      code := None;
      if key == "=" {
        if current != "" {
          var prepared := Prepare(current);
          match prepared
          case Success(c) => code := Some(c);
          case Failure(_) => current := "Error";
        }
      } else {
        current := NormalKey(current, key);
      }
    }

    /** The end of `compute`: the rendered result, or "Error" when the
        evaluator threw or the clamped result was NaN (`None`). */
    method Settle(rendered: Option<string>)
      modifies this
      ensures current == (if rendered.Some? then rendered.value else "Error")
    {
      current := if rendered.Some? then rendered.value else "Error";
    }

    /** The timer set after an error: it empties the buffer, whatever it holds by then. */
    method ClearError()
      modifies this
      ensures current == ""
    {
      current := "";
    }
  }
}
