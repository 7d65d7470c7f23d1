/**
  Character classes and the string rewrites the calculator panes perform with
  JavaScript regular expressions: global replacement of a fixed pattern, the
  rewrite of a decimal literal followed by a marker character, trimming of
  white space, and decimal digit strings.
 */
module Text {
  import opened Common

  /** `\d`: an ASCII decimal digit. */
  predicate IsDigit(c: char) {
    '0' <= c <= '9'
  }

  /** `\w`: the characters on which `\b` decides a word boundary. */
  predicate IsWordChar(c: char) {
    IsDigit(c) || 'a' <= c <= 'z' || 'A' <= c <= 'Z' || c == '_'
  }

  /** `\s`: JavaScript's white space and line terminator characters. */
  predicate IsSpace(c: char) {
    || c == '\t' || c == '\n' || c == '\U{000B}' || c == '\U{000C}' || c == '\r' || c == ' '
    || c == '\U{00A0}' || c == '\U{1680}' || '\U{2000}' <= c <= '\U{200A}'
    || c == '\U{2028}' || c == '\U{2029}' || c == '\U{202F}' || c == '\U{205F}'
    || c == '\U{3000}' || c == '\U{FEFF}'
  }

  /** True when every character of `s` is a digit. */
  predicate AllDigits(s: string) {
    forall i :: 0 <= i < |s| ==> IsDigit(s[i])
  }

  // ---------------------------------------------------------------------------
  // s.replace(/pat/g, rep) for a pattern without special characters: scan from
  // the left, replace each occurrence, resume after it.

  function ReplaceAll(s: string, pat: string, rep: string): string
    requires pat != []
    decreases |s|
  {
    if |s| < |pat| then s
    else if s[..|pat|] == pat then rep + ReplaceAll(s[|pat|..], pat, rep)
    else [s[0]] + ReplaceAll(s[1..], pat, rep)
  }

  /** Every character of the result comes from the input or from the replacement. */
  lemma {:induction false} ReplaceAllSource(s: string, pat: string, rep: string, c: char)
    requires pat != []
    requires c in ReplaceAll(s, pat, rep)
    ensures c in s || c in rep
    decreases |s|
  {
    if |s| < |pat| {
    } else if s[..|pat|] == pat {
      if c !in rep {
        ReplaceAllSource(s[|pat|..], pat, rep, c);
        assert s == s[..|pat|] + s[|pat|..];
      }
    } else if c != s[0] {
      ReplaceAllSource(s[1..], pat, rep, c);
      assert s == [s[0]] + s[1..];
    }
  }

  /** A pattern at the very start is replaced, and the scan goes on after it. */
  lemma ReplaceAllPrefix(pat: string, t: string, rep: string)
    requires pat != []
    ensures ReplaceAll(pat + t, pat, rep) == rep + ReplaceAll(t, pat, rep)
  {
    assert (pat + t)[..|pat|] == pat;
    assert (pat + t)[|pat|..] == t;
  }

  /** Replacing one character keeps every other character of the input. */
  lemma {:induction false} ReplaceCharKeeps(s: string, p: char, rep: string, c: char)
    requires c in s && c != p
    ensures c in ReplaceAll(s, [p], rep)
    decreases |s|
  {
    if s[0] != c {
      var i :| 0 <= i < |s| && s[i] == c;
      assert s[1..][i - 1] == c;
      ReplaceCharKeeps(s[1..], p, rep, c);
    }
  }

  /** Replacing a character by a text that does not contain it removes it. */
  lemma {:induction false} ReplaceCharRemoves(s: string, p: char, rep: string)
    requires p !in rep
    ensures p !in ReplaceAll(s, [p], rep)
    decreases |s|
  {
    if s != [] {
      ReplaceCharRemoves(s[1..], p, rep);
    }
  }

  /** A pattern with a character the input lacks never matches: nothing changes. */
  lemma {:induction false} ReplaceAllIdentity(s: string, pat: string, rep: string, k: nat)
    requires k < |pat| && pat[k] !in s
    ensures ReplaceAll(s, pat, rep) == s
    decreases |s|
  {
    if |s| >= |pat| {
      assert s[..|pat|] != pat by { assert s[k] == s[..|pat|][k]; }
      ReplaceAllIdentity(s[1..], pat, rep, k);
    }
  }

  /** Replacing one character works character by character: it distributes over concatenation. */
  lemma {:induction false} ReplaceCharConcat(a: string, b: string, p: char, rep: string)
    ensures ReplaceAll(a + b, [p], rep) == ReplaceAll(a, [p], rep) + ReplaceAll(b, [p], rep)
    decreases |a|
  {
    if a == [] {
      assert a + b == b;
    } else {
      var ab := a + b;
      assert ab[1..] == a[1..] + b;
      assert ab[..1] == a[..1] == [a[0]];
      ReplaceCharConcat(a[1..], b, p, rep);
      var head := if a[0] == p then rep else [a[0]];
      assert ReplaceAll(ab, [p], rep) == head + ReplaceAll(ab[1..], [p], rep);
      assert ReplaceAll(a, [p], rep) == head + ReplaceAll(a[1..], [p], rep);
      assert head + (ReplaceAll(a[1..], [p], rep) + ReplaceAll(b, [p], rep))
          == (head + ReplaceAll(a[1..], [p], rep)) + ReplaceAll(b, [p], rep);
    }
  }

  // ---------------------------------------------------------------------------
  // Decimal literals `\d+(?:\.\d+)?` followed by a marker character.

  /** The length of the run of digits that starts `s`. */
  function DigitRun(s: string): (n: nat)
    ensures n <= |s|
    ensures forall i :: 0 <= i < n ==> IsDigit(s[i])
    ensures n < |s| ==> !IsDigit(s[n])
  {
    if s != [] && IsDigit(s[0]) then 1 + DigitRun(s[1..]) else 0
  }

  /** The length of the longest prefix of `s` that is a decimal literal
      `\d+(?:\.\d+)?`, or 0 when `s` does not start with a digit. A digit run
      cut short is followed by a digit, so the regular expression's
      backtracking cannot end a match anywhere else. */
  function LiteralLen(s: string): (n: nat)
    ensures n <= |s|
    ensures n == 0 <==> s == [] || !IsDigit(s[0])
    ensures forall i :: 0 <= i < n ==> IsDigit(s[i]) || s[i] == '.'
  {
    var d := DigitRun(s);
    if d > 0 && d < |s| && s[d] == '.' && DigitRun(s[d + 1..]) > 0 then d + 1 + DigitRun(s[d + 1..]) else d
  }

  /** `t` is exactly one decimal literal. */
  predicate IsLiteral(t: string) {
    t != [] && LiteralLen(t) == |t|
  }

  /** When `s` starts with a decimal literal directly followed by `marker` (and,
      if `wordAfter`, the marker by a word character, which is what `\b` after
      a non-word marker demands), the length of that literal. */
  function MarkedLiteral(s: string, marker: char, wordAfter: bool): (r: Option<nat>)
    ensures r.Some? ==> 0 < r.value < |s| && s[r.value] == marker
    ensures r.Some? ==> forall i :: 0 <= i < r.value ==> IsDigit(s[i]) || s[i] == '.'
    ensures r.Some? && wordAfter ==> r.value + 1 < |s| && IsWordChar(s[r.value + 1])
  {
    var n := LiteralLen(s);
    if n > 0 && n < |s| && s[n] == marker && (!wordAfter || (n + 1 < |s| && IsWordChar(s[n + 1])))
    then Some(n) else None
  }

  /** s.replace(/(\d+(?:\.\d+)?)M/g, open + "$1" + close), with `\b` after M when
      `wordAfter`: each match is replaced and the scan resumes after the marker
      (the character that `\b` looks at is not consumed). */
  function RewriteMarked(s: string, marker: char, wordAfter: bool, open: string, close: string): string
    decreases |s|
  {
    if s == [] then []
    else match MarkedLiteral(s, marker, wordAfter)
      case Some(n) => open + s[..n] + close + RewriteMarked(s[n + 1..], marker, wordAfter, open, close)
      case None => [s[0]] + RewriteMarked(s[1..], marker, wordAfter, open, close)
  }

  /** Every character of the rewrite comes from the input or from the wrapping texts. */
  lemma {:induction false} RewriteMarkedSource(s: string, marker: char, wordAfter: bool, open: string, close: string, c: char)
    requires c in RewriteMarked(s, marker, wordAfter, open, close)
    ensures c in s || c in open || c in close
    decreases |s|
  {
    if s != [] {
      match MarkedLiteral(s, marker, wordAfter)
      case Some(n) =>
        if c in RewriteMarked(s[n + 1..], marker, wordAfter, open, close) {
          RewriteMarkedSource(s[n + 1..], marker, wordAfter, open, close, c);
        }
        SourceOfMatch(s, n, marker, wordAfter, open, close, c);
      case None =>
        if c in RewriteMarked(s[1..], marker, wordAfter, open, close) {
          RewriteMarkedSource(s[1..], marker, wordAfter, open, close, c);
        }
        SourceOfCopy(s, marker, wordAfter, open, close, c);
    }
  }

  /** One step of `RewriteMarkedSource` at a match. */
  lemma SourceOfMatch(s: string, n: nat, marker: char, wordAfter: bool, open: string, close: string, c: char)
    requires MarkedLiteral(s, marker, wordAfter) == Some(n)
    requires c in RewriteMarked(s, marker, wordAfter, open, close)
    requires c in RewriteMarked(s[n + 1..], marker, wordAfter, open, close) ==> c in s[n + 1..] || c in open || c in close
    ensures c in s || c in open || c in close
  {
    var rest := RewriteMarked(s[n + 1..], marker, wordAfter, open, close);
    assert RewriteMarked(s, marker, wordAfter, open, close) == open + s[..n] + close + rest;
    InConcat(open + s[..n] + close, rest, c);
    if c in rest {
      if c in s[n + 1..] { InSuffix(s, n + 1, c); }
    } else {
      InConcat(open + s[..n], close, c);
      if c in open + s[..n] {
        InConcat(open, s[..n], c);
        if c in s[..n] { InPrefix(s, n, c); }
      }
    }
  }

  /** One step of `RewriteMarkedSource` where the first character is copied. */
  lemma SourceOfCopy(s: string, marker: char, wordAfter: bool, open: string, close: string, c: char)
    requires s != [] && MarkedLiteral(s, marker, wordAfter).None?
    requires c in RewriteMarked(s, marker, wordAfter, open, close)
    requires c in RewriteMarked(s[1..], marker, wordAfter, open, close) ==> c in s[1..] || c in open || c in close
    ensures c in s || c in open || c in close
  {
    var rest := RewriteMarked(s[1..], marker, wordAfter, open, close);
    assert RewriteMarked(s, marker, wordAfter, open, close) == [s[0]] + rest;
    InConcat([s[0]], rest, c);
    if c in s[1..] { InSuffix(s, 1, c); }
  }

  /** A character of a concatenation is a character of one of its parts. */
  lemma InConcat(a: string, b: string, c: char)
    requires c in a + b
    ensures c in a || c in b
  {
    var k :| 0 <= k < |a + b| && (a + b)[k] == c;
    if k >= |a| { assert b[k - |a|] == c; }
  }

  /** A character of a prefix is a character of the whole. */
  lemma InPrefix(s: string, n: nat, c: char)
    requires n <= |s| && c in s[..n]
    ensures c in s
  {
    var k :| 0 <= k < n && s[..n][k] == c;
    assert s[k] == c;
  }

  /** A character of a suffix is a character of the whole. */
  lemma InSuffix(s: string, n: nat, c: char)
    requires n <= |s| && c in s[n..]
    ensures c in s
  {
    var k :| 0 <= k < |s| - n && s[n..][k] == c;
    assert s[n + k] == c;
  }

  /** A character that can be part of no match survives the rewrite. */
  lemma {:induction false} RewriteMarkedKeeps(s: string, marker: char, wordAfter: bool, open: string, close: string, c: char)
    requires c in s && !IsDigit(c) && c != '.' && c != marker
    ensures c in RewriteMarked(s, marker, wordAfter, open, close)
    decreases |s|
  {
    var i :| 0 <= i < |s| && s[i] == c;
    match MarkedLiteral(s, marker, wordAfter)
    case Some(n) =>
      assert i > n;
      assert s[n + 1..][i - n - 1] == c;
      RewriteMarkedKeeps(s[n + 1..], marker, wordAfter, open, close, c);
    case None =>
      if i > 0 {
        assert s[1..][i - 1] == c;
        RewriteMarkedKeeps(s[1..], marker, wordAfter, open, close, c);
      }
  }

  /** A string without the marker has no match and is left as it is. */
  lemma {:induction false} RewriteMarkedAbsent(s: string, marker: char, wordAfter: bool, open: string, close: string)
    requires marker !in s
    ensures RewriteMarked(s, marker, wordAfter, open, close) == s
    decreases |s|
  {
    if s != [] {
      assert MarkedLiteral(s, marker, wordAfter).None?;
      assert s == [s[0]] + s[1..];
      RewriteMarkedAbsent(s[1..], marker, wordAfter, open, close);
    }
  }

  /** With `\b` after the marker, a marker that ends the input or precedes a
      non-word character is never part of a match, so such a string is left as it is. */
  lemma {:induction false} RewriteMarkedNeedsWord(s: string, marker: char, open: string, close: string)
    requires forall i :: 0 <= i < |s| - 1 && s[i] == marker ==> !IsWordChar(s[i + 1])
    ensures RewriteMarked(s, marker, true, open, close) == s
    decreases |s|
  {
    if s != [] {
      assert MarkedLiteral(s, marker, true).None?;
      forall i | 0 <= i < |s[1..]| - 1 && s[1..][i] == marker
        ensures !IsWordChar(s[1..][i + 1])
      {
        assert s[i + 1] == marker;
      }
      RewriteMarkedNeedsWord(s[1..], marker, open, close);
    }
  }

  /** The digit run of a concatenation. */
  lemma {:induction false} DigitRunAppend(a: string, b: string)
    ensures DigitRun(a + b) == if DigitRun(a) < |a| then DigitRun(a) else |a| + DigitRun(b)
    decreases |a|
  {
    if a == [] {
      assert a + b == b;
    } else {
      assert (a + b)[0] == a[0];
      if IsDigit(a[0]) {
        assert (a + b)[1..] == a[1..] + b;
        DigitRunAppend(a[1..], b);
      }
    }
  }

  /** A literal directly followed by a character that can neither extend it
      nor be its decimal point: the longest literal prefix is that literal. */
  lemma LiteralLenOfLiteral(lit: string, c: char, rest: string)
    requires IsLiteral(lit) && !IsDigit(c) && c != '.'
    ensures LiteralLen(lit + [c] + rest) == |lit|
  {
    var s := lit + [c] + rest;
    assert s == lit + ([c] + rest);
    var d := DigitRun(lit);
    DigitRunAppend(lit, [c] + rest);
    assert DigitRun([c] + rest) == 0;
    if d < |lit| {
      assert lit[d] == '.' && DigitRun(lit[d + 1..]) > 0;
      assert s[d + 1..] == lit[d + 1..] + ([c] + rest);
      DigitRunAppend(lit[d + 1..], [c] + rest);
    }
  }

  /** A literal followed by the marker (and, when `wordAfter`, by a word
      character) is rewritten to `open + literal + close`, and the scan goes on
      after the marker. */
  lemma RewriteMarkedLiteral(lit: string, marker: char, wordAfter: bool, open: string, close: string, rest: string)
    requires IsLiteral(lit) && !IsDigit(marker) && marker != '.'
    requires wordAfter ==> rest != [] && IsWordChar(rest[0])
    ensures RewriteMarked(lit + [marker] + rest, marker, wordAfter, open, close)
         == open + lit + close + RewriteMarked(rest, marker, wordAfter, open, close)
  {
    var s := lit + [marker] + rest;
    LiteralLenOfLiteral(lit, marker, rest);
    assert MarkedLiteral(s, marker, wordAfter) == Some(|lit|);
    assert s[..|lit|] == lit;
    assert s[|lit| + 1..] == rest;
  }

  /** A text that ends with a character that is neither a digit nor `.`: every
      literal that starts in it also ends in it. */
  predicate LiteralClosed(a: string) {
    a != [] && !IsDigit(a[|a| - 1]) && a[|a| - 1] != '.'
  }

  lemma LiteralLenAppend(a: string, b: string)
    requires LiteralClosed(a)
    ensures LiteralLen(a + b) == LiteralLen(a) < |a|
  {
    var d := DigitRun(a);
    assert d < |a|;
    DigitRunAppend(a, b);
    if a[d] == '.' && d > 0 {
      assert d + 1 < |a|;
      assert (a + b)[d + 1..] == a[d + 1..] + b;
      DigitRunAppend(a[d + 1..], b);
      assert DigitRun(a[d + 1..]) < |a[d + 1..]|;
    }
  }

  /** A text without the marker whose last literal is closed passes through
      the rewrite unchanged, and the scan picks up after it. */
  lemma {:induction false} RewriteMarkedSkip(a: string, b: string, marker: char, wordAfter: bool, open: string, close: string)
    requires marker !in a && LiteralClosed(a)
    ensures RewriteMarked(a + b, marker, wordAfter, open, close) == a + RewriteMarked(b, marker, wordAfter, open, close)
    decreases |a|
  {
    if |a| > 1 {
      assert a[1..][|a[1..]| - 1] == a[|a| - 1];
      RewriteMarkedSkip(a[1..], b, marker, wordAfter, open, close);
    }
    SkipFirst(a, b, marker, wordAfter, open, close);
  }

  /** One step of `RewriteMarkedSkip`: the first character of `a` is copied. */
  lemma SkipFirst(a: string, b: string, marker: char, wordAfter: bool, open: string, close: string)
    requires marker !in a && LiteralClosed(a)
    requires |a| > 1 ==> RewriteMarked(a[1..] + b, marker, wordAfter, open, close) == a[1..] + RewriteMarked(b, marker, wordAfter, open, close)
    ensures RewriteMarked(a + b, marker, wordAfter, open, close) == a + RewriteMarked(b, marker, wordAfter, open, close)
  {
    var t := a[1..] + b;
    var rb := RewriteMarked(b, marker, wordAfter, open, close);
    var rt := RewriteMarked(t, marker, wordAfter, open, close);
    assert RewriteMarked(a + b, marker, wordAfter, open, close) == [a[0]] + rt by {
      NoMatchInClosed(a, b, marker, wordAfter);
      ConsAppend(a, b);
      RewriteMarkedStep(a + b, a[0], t, marker, wordAfter, open, close);
    }
    assert rt == a[1..] + rb by {
      if |a| <= 1 { assert t == b; }
    }
    ConsAppend(a, rb);
  }

  /** The first character and the rest of a non-empty text, followed by another text. */
  lemma ConsAppend(a: string, v: string)
    requires a != []
    ensures [a[0]] + (a[1..] + v) == a + v
  {
    assert a == [a[0]] + a[1..];
  }

  /** No match starts at the beginning of a closed text without the marker. */
  lemma NoMatchInClosed(a: string, b: string, marker: char, wordAfter: bool)
    requires marker !in a && LiteralClosed(a)
    ensures a + b != [] && MarkedLiteral(a + b, marker, wordAfter).None?
  {
    LiteralLenAppend(a, b);
    var n := LiteralLen(a + b);
    assert n > 0 ==> (a + b)[n] == a[n];
  }

  /** Where no match starts, the scan emits one character and moves on. */
  lemma RewriteMarkedStep(s: string, c: char, t: string, marker: char, wordAfter: bool, open: string, close: string)
    requires s == [c] + t && MarkedLiteral(s, marker, wordAfter).None?
    ensures RewriteMarked(s, marker, wordAfter, open, close) == [c] + RewriteMarked(t, marker, wordAfter, open, close)
  {
    assert s[1..] == t;
  }

  /** No digit of `s` is directly followed by `m`. */
  predicate NoDigitBefore(s: string, m: char) {
    forall i :: 0 <= i < |s| - 1 && IsDigit(s[i]) ==> s[i + 1] != m
  }

  lemma NoDigitBeforeConcat(a: string, b: string, m: char)
    requires NoDigitBefore(a, m) && NoDigitBefore(b, m)
    requires a == [] || b == [] || !IsDigit(a[|a| - 1]) || b[0] != m
    ensures NoDigitBefore(a + b, m)
  {
    forall i | 0 <= i < |a + b| - 1 && IsDigit((a + b)[i])
      ensures (a + b)[i + 1] != m
    {
      if i + 1 < |a| {
        assert (a + b)[i] == a[i] && (a + b)[i + 1] == a[i + 1];
      } else if i >= |a| {
        assert (a + b)[i] == b[i - |a|] && (a + b)[i + 1] == b[i - |a| + 1];
      }
    }
  }

  // ---------------------------------------------------------------------------
  // Decimal digit strings.

  function DigitValue(c: char): nat
    requires IsDigit(c)
  {
    (c as int - '0' as int) as nat
  }

  function DigitChar(k: nat): (c: char)
    requires k < 10
    ensures IsDigit(c) && DigitValue(c) == k
  {
    ('0' as int + k) as char
  }

  /** Number(s) for a string of decimal digits (leading zeros allowed). */
  function DigitsValue(s: string): nat
    requires AllDigits(s)
  {
    if s == [] then 0 else 10 * DigitsValue(s[..|s| - 1]) + DigitValue(s[|s| - 1])
  }

  /** The shortest decimal spelling of `n`; reading it back gives `n`. */
  function ShowNat(n: nat): (r: string)
    ensures AllDigits(r) && DigitsValue(r) == n
    ensures n < 10 ==> |r| == 1
    ensures 10 <= n < 100 ==> |r| == 2
    ensures 100 <= n < 1000 ==> |r| == 3
    ensures 1000 <= n < 10000 ==> |r| == 4
  {
    if n < 10 then [DigitChar(n)]
    else
      var r := ShowNat(n / 10) + [DigitChar(n % 10)];
      assert r[..|r| - 1] == ShowNat(n / 10);
      r
  }

  // ---------------------------------------------------------------------------
  // The `^\s*` and `\s*$` around an anchored pattern: trimming white space.

  function TrimStart(s: string): (r: string)
    ensures r == [] || !IsSpace(r[0])
    decreases |s|
  {
    if s != [] && IsSpace(s[0]) then TrimStart(s[1..]) else s
  }

  function TrimEnd(s: string): (r: string)
    ensures r == [] || !IsSpace(r[|r| - 1])
    decreases |s|
  {
    if s != [] && IsSpace(s[|s| - 1]) then TrimEnd(s[..|s| - 1]) else s
  }

  function Trim(s: string): string {
    TrimEnd(TrimStart(s))
  }

  /** True when every character of `s` is white space. */
  predicate AllSpace(s: string) {
    forall i :: 0 <= i < |s| ==> IsSpace(s[i])
  }

  lemma {:induction false} TrimStartSkips(ws: string, x: string)
    requires AllSpace(ws)
    ensures TrimStart(ws + x) == TrimStart(x)
    decreases |ws|
  {
    if ws == [] {
      assert ws + x == x;
    } else {
      assert (ws + x)[0] == ws[0] && IsSpace(ws[0]);
      assert (ws + x)[1..] == ws[1..] + x;
      TrimStartSkips(ws[1..], x);
    }
  }

  lemma {:induction false} TrimEndSkips(x: string, ws: string)
    requires AllSpace(ws)
    ensures TrimEnd(x + ws) == TrimEnd(x)
    decreases |ws|
  {
    if ws == [] {
      assert x + ws == x;
    } else {
      assert (x + ws)[|x + ws| - 1] == ws[|ws| - 1] && IsSpace(ws[|ws| - 1]);
      assert (x + ws)[..|x + ws| - 1] == x + ws[..|ws| - 1];
      TrimEndSkips(x, ws[..|ws| - 1]);
    }
  }

  /** White space around a text that neither starts nor ends with white space is cut off exactly. */
  lemma TrimPadded(ws1: string, body: string, ws2: string)
    requires AllSpace(ws1) && AllSpace(ws2)
    requires body != [] && !IsSpace(body[0]) && !IsSpace(body[|body| - 1])
    ensures Trim(ws1 + body + ws2) == body
  {
    assert ws1 + body + ws2 == ws1 + (body + ws2);
    TrimStartSkips(ws1, body + ws2);
    assert TrimStart(body + ws2) == body + ws2;
    TrimEndSkips(body, ws2);
  }
  /** Trimming only removes white space from the two ends. */
  lemma {:induction false} TrimStartSplit(s: string) returns (lead: string)
    ensures s == lead + TrimStart(s) && AllSpace(lead)
    decreases |s|
  {
    if s != [] && IsSpace(s[0]) {
      var l := TrimStartSplit(s[1..]);
      lead := [s[0]] + l;
      assert s == [s[0]] + s[1..];
    } else {
      lead := [];
      assert s == lead + s;
    }
  }

  lemma {:induction false} TrimEndSplit(s: string) returns (trail: string)
    ensures s == TrimEnd(s) + trail && AllSpace(trail)
    decreases |s|
  {
    if s != [] && IsSpace(s[|s| - 1]) {
      var t := TrimEndSplit(s[..|s| - 1]);
      trail := t + [s[|s| - 1]];
      assert s == s[..|s| - 1] + [s[|s| - 1]];
    } else {
      trail := [];
      assert s == s + trail;
    }
  }

  /** A character that is not white space is in the trimmed text iff it is in the text. */
  lemma TrimKeeps(s: string, c: char)
    requires !IsSpace(c)
    ensures c in Trim(s) <==> c in s
  {
    var lead := TrimStartSplit(s);
    var trail := TrimEndSplit(TrimStart(s));
    assert s == lead + Trim(s) + trail;
  }

  /** 10 to the power `n`. */
  function Pow10(n: nat): (r: nat)
    ensures r >= 1
  {
    if n == 0 then 1 else 10 * Pow10(n - 1)
  }

  /** A string of `n` digits spells a number below 10 to the `n`. */
  lemma {:induction false} DigitsValueBound(s: string)
    requires AllDigits(s)
    ensures DigitsValue(s) < Pow10(|s|)
    decreases |s|
  {
    if s != [] {
      DigitsValueBound(s[..|s| - 1]);
    }
  }
}
