# CalcALL calculator core in Dafny

This project models the computations behind the panes of the single-page
calculator `app.js`:

- the `safeEval` guard, which checks an expression against an allow-list and
  then rewrites it;
- the normal pane, which maps `÷` and `×`, rewrites percent literals and edits
  its input buffer `current` key by key;
- the scientific pane, with its `factorial` loop, the `toJsExpression`
  rewriter and its input buffer `expr`;
- the age pane, which parses a date of birth in two textual forms and
  computes an age in years, months and days with borrow steps;
- the currency pane, which picks a custom rate, a preset rate or an error.

Modules:

- `Common`: `Option`, `Result`, and `Number`, a JavaScript number that is NaN
  or finite.
- `Text`: the character classes `\d`, `\w` and `\s`, and JavaScript's global
  `replace` of a fixed pattern. It also models, as a deterministic
  left-to-right scan, the rewrite `(\d+(?:\.\d+)?)M` with an optional `\b`
  after the marker M, plus trimming and decimal digit strings.
- `NormalCalc`, `ScientificCalc`, `AgeCalc`, `CurrencyCalc`: one per pane.

Each pane's input buffer is a class with a string field; its key handler is a
method with `modifies this`.

The numeric evaluation through `Function(...)` is not modelled. Each pane's
result is the text it hands to the evaluator, and the pane's `=` method
returns that text. The rendered result, or a failure, comes back into the
model through `Settle`. "Today" in the age pane is a parameter. The age pane
takes the raw text of its date field; the currency pane takes its amount and
custom rate already converted by `parseFloat`, as `Number`s, and the text of
its currency and preset dropdowns.

Where the code does something other than its comments or its purpose would
suggest, the model follows the code:

- The allow-list is tested on the text after the `÷`/`×` and percent
  rewrites, not on the keyed-in text.
- A percent literal becomes `(lit/100)`. The comment at `app.js:101` speaks of
  `a*(b/100)`, which the code does not do.
- The scientific pane applies no allow-list at all.

## Model

| member | source | states |
|---|---|---|
| NormalCalc.SafeEval | app.js:80-83 | It rejects, with "Invalid characters", exactly the strings that hold a character outside digits, `+ - * / % ^ ( ) . ,` and JavaScript white space. On success the text holds no `^` and stays inside the allow-list. |
| NormalCalc.SafeEvalNoCaret | app.js:80-83 | An allow-listed text without `^` is handed on unchanged. |
| NormalCalc.SafeEvalCaret | app.js:83 | Each `^` becomes `**`. The characters before it are kept in order, and the rest is rewritten the same way. |
| NormalCalc.MapDisplayOperators | app.js:100 | Definition: every `÷` becomes `/`, then every `×` becomes `*`. Its properties are stated through `Prepare` (`PrepareAccepts`). |
| NormalCalc.PercentRewrite | app.js:102 | Definition: the global percent rewrite, the marker scan of `Text.RewriteMarked` with `%`. Its properties are `PercentOfLiteral`, `PercentAfterOperand`, `PercentIdentity` and `PercentConsumed`. |
| NormalCalc.Prepare | app.js:100-103 | Definition: `safeEval` of the text after the operator and percent rewrites. Its property is `PrepareAccepts`. |
| NormalCalc.PrepareAccepts | app.js:100-103 | `compute` rejects a keyed-in text iff it holds a character outside the allow-list other than `÷` and `×`. So the allow-list is applied after the rewrites. |
| NormalCalc.PercentOfLiteral | app.js:102 | A literal directly followed by `%` becomes `(literal/100)`, and the scan goes on after the `%`. |
| NormalCalc.PercentAfterOperand | app.js:101-102 | After an operator, the percent applies to the literal alone: `200+10%` becomes `200+(10/100)`, not a percentage of the preceding operand. |
| NormalCalc.PercentIdentity | app.js:102 | A text without `%` is not changed by the percent rewrite. |
| NormalCalc.PercentConsumed | app.js:102 | After the rewrite, no digit is directly followed by `%`. |
| NormalCalc.NormalKey | app.js:116-121 | Definition: the buffer after a key other than `=`. Its properties are `NormalKeyKeepsAllowed` and `BackspaceUndoesKey`, and `NormalPane.Press` applies it. |
| NormalCalc.NormalKeyKeepsAllowed | app.js:116-121 | Keypad keys keep an allow-listed buffer allow-listed, so `compute` never rejects such a buffer. |
| NormalCalc.BackspaceUndoesKey | app.js:117-121 | `⌫` undoes any key that appends one character. |
| NormalCalc.NormalPane.Press | app.js:97-122 | Results by key:<br>• `C` clears.<br>• `⌫` drops the last character.<br>• `÷` and `×` append `/` and `*`.<br>• Any other key except `=` appends itself.<br>• `=` on an empty buffer does nothing.<br>• `=` on a buffer the guard rejects sets it to "Error".<br>• Otherwise `=` returns the prepared text and leaves the buffer unchanged. |
| NormalCalc.NormalPane.Settle | app.js:105-107 | The buffer becomes the rendered result, or "Error" when evaluation failed. |
| NormalCalc.NormalPane.ClearError | app.js:108 | The timer empties the buffer. |
| ScientificCalc.Factorial | app.js:134-139 | The result is NaN iff the input is NaN, negative or not an integer. Otherwise it is the product `2·3·…·n` built by the loop, so `0! = 1! = 1`. |
| ScientificCalc.MapFunctionNames | app.js:145-149 | Definition: the five name patterns mapped to `Math`, in source order. Its properties are `LogIsBase10`, `LnIsNatural` and `RootIsSqrt`. |
| ScientificCalc.FactorialRewrite | app.js:150 | Definition: the marker scan of `Text.RewriteMarked` with `!` and the `\b` test. Its properties are `FactorialBeforeWord` and `ToJsKeepsFactorialWithoutBoundary`. |
| ScientificCalc.ToJsExpression | app.js:141-153 | Definition: the rewrite steps in source order. Its properties are the `ToJs…`, factorial and name-mapping lemmas below. |
| ScientificCalc.ToJsDisplayFree | app.js:141-152 | The rewritten text holds no `^`, `÷`, `×` or `√`. |
| ScientificCalc.ToJsUnguarded | app.js:141-158 | A text without `÷ × √ ( ! ^` reaches the evaluator exactly as keyed, whatever letters it holds. |
| ScientificCalc.ToJsPassesIdentifier | app.js:141-158 | For example, `document.cookie` is handed on unchanged. |
| ScientificCalc.FactorialBeforeWord | app.js:150 | `lit!` followed by a word character becomes `factorial(lit)`, and the word character is left for the rest of the scan. |
| ScientificCalc.ToJsKeepsFactorialWithoutBoundary | app.js:150 | In a numeric text, a `!` that ends the input or precedes a non-word character is never rewritten, because `\b` fails there. |
| ScientificCalc.FactorialAtEndKept | app.js:150 | `5!` at the end of the input is handed on unchanged. |
| ScientificCalc.FactorialBeforeParenKept | app.js:150 | `(5!)` is handed on unchanged: the `!` before `)` is no factorial. |
| ScientificCalc.FactorialRewriteCorrected | app.js:150 | Definition: the factorial rewrite without `\b`, the corrected half of the factorial finding. |
| ScientificCalc.ToJsExpressionCorrected | app.js:141-153 | Definition: `toJsExpression` with `FactorialRewriteCorrected` as its factorial step. |
| ScientificCalc.CorrectedFactorialStep | app.js:150 | With the correction, a decimal literal followed by `!` becomes `factorial(literal)` whatever follows the `!`, and the scan goes on after the `!`. This is the corrected counterpart of `FactorialBeforeWord`. |
| ScientificCalc.CorrectedFactorialCall | app.js:150 | With the correction, `lit!` as the whole input becomes `factorial(lit)` after all the rewrite steps. |
| ScientificCalc.CorrectedFactorialInParens | app.js:150 | With the correction, `(lit!)` becomes `(factorial(lit))` after all the rewrite steps, so the `!` before `)` is a call too. |
| ScientificCalc.CorrectedFactorialExample | app.js:150 | With the correction, `5!` becomes `factorial(5)`. |
| ScientificCalc.LogIsBase10 | app.js:148 | `log(d)` becomes `Math.log10(d)`. |
| ScientificCalc.LnIsNatural | app.js:149 | `ln(d)` becomes `Math.log(d)`. |
| ScientificCalc.RootIsSqrt | app.js:144-149 | `√(d)` becomes `Math.sqrt(d)`, and the later name mappings leave it alone. |
| ScientificCalc.ScientificKey | app.js:172-178 | Definition: the buffer after a key other than `=`. Its properties are `BackspaceAfterCallKey` and `KeyedLogarithms`, and `ScientificPane.Press` applies it. |
| ScientificCalc.BackspaceAfterCallKey | app.js:174-178 | `⌫` after a function key or `√` removes only the `(`. |
| ScientificCalc.KeyedLogarithms | app.js:141-178 | Keying `log` or `ln`, then digits and `)`, yields the base-10 or natural logarithm call. |
| ScientificCalc.ScientificPane.Press | app.js:155-180 | Results by key:<br>• `C` clears.<br>• `⌫` drops the last character.<br>• `x^y` and `^` append `^`.<br>• `√` appends `√(`.<br>• A function key appends its name and `(`.<br>• Any other key appends itself.<br>• `=` on a non-empty buffer returns `toJsExpression` of it, unchecked, and leaves the buffer unchanged. |
| ScientificCalc.ScientificPane.Settle | app.js:162-164 | The buffer becomes the rendered result, or "Error". |
| ScientificCalc.ScientificPane.ClearError | app.js:165 | The timer empties the buffer. |
| AgeCalc.SlashFields | app.js:237 | Whatever it matches is the slash form `d/m/yyyy` with 1–2 digit day and month and a 4-digit year. |
| AgeCalc.DashFields | app.js:238 | Whatever it matches is the dash form `yyyy-m-d` with a 4-digit year and 1–2 digit month and day. |
| AgeCalc.ParseTrimmed | app.js:239-251 | A failure is "Enter in dd/mm/yyyy." or "Enter DOB as dd/mm/yyyy.". Accepted fields are below 10000, 100 and 100. |
| AgeCalc.ParseDob | app.js:233-251 | An empty value, and only an empty value, gets "Select a valid date.". Every other failure is "Enter in dd/mm/yyyy." or "Enter DOB as dd/mm/yyyy.". Accepted fields are below 10000, 100 and 100. |
| AgeCalc.SlashAccepted | app.js:237-244 | `d/m/yyyy` with 1–2 digit day and month and white space around it is accepted iff `1 ≤ m ≤ 12` and `1 ≤ d ≤ 31`. Otherwise it gets "Enter in dd/mm/yyyy.". |
| AgeCalc.DashAccepted | app.js:238-249 | `yyyy-m-d` with white space around it is always accepted with its fields as written; there is no range check. |
| AgeCalc.ParseDobShape | app.js:237-251 | Whatever is accepted is one of the two forms with white space around it, and its fields give the result. An accepted slash date is in range. |
| AgeCalc.ParseDobRejects | app.js:250 | A non-empty text without `/` and `-` gets "Enter DOB as dd/mm/yyyy.". |
| AgeCalc.ShownSlashDate | app.js:237-244 | A slash date written with the shortest digits gives back its values iff it is in range. |
| AgeCalc.ShownDashDate | app.js:238-249 | A dash date written with the shortest digits always gives back its values, month 13 included. |
| AgeCalc.Age | app.js:254-269 | It fails with "Date is in the future." iff the birth date is after today. Otherwise the borrow steps give the age counted in whole months (`AgeByMonthCount`). |
| AgeCalc.AgeBounds | app.js:257-269 | The years are the birthdays passed and are ≥ 0. The months lie in 0..11 and the days in -2..30. |
| AgeCalc.PrevMonthDays | app.js:262-263 | `new Date(year, month, 0)` is the last day of the previous month. The result is 28 to 31, the length of the month before today's, and of December of the previous year in January. |
| AgeCalc.NegativeDays | app.js:261-265 | The days come out negative exactly when the birth day exceeds today's day by more than the previous month has days. |
| AgeCalc.NegativeDaysExample | app.js:261-269 | Born 31 January and today 1 March of a common year gives 0 years, 1 month, -2 days. |
| AgeCalc.AgeCorrected | app.js:254-269 | The corrected borrow: while the days are negative, it adds the length of the next earlier month (the month before today's, then the one before that) and takes one month off. It fails with "Date is in the future." iff the birth date is after today; otherwise the result is `CorrectedAge`. |
| AgeCalc.CorrectedBounds | app.js:257-269 | The corrected age has years ≥ 0, months 0..11 and days 0..30. |
| AgeCalc.CorrectedAgrees | app.js:261-269 | Wherever the borrow steps as written give non-negative days, the corrected age is the same. |
| AgeCalc.CorrectedExample | app.js:261-269 | 31 January to 1 March of a common year is 0 years, 0 months, 29 days. |
| CurrencyCalc.Presets | app.js:290-299 | Definition: the eight offline rates, keyed `FROM->TO`. Its property is `PresetsPositive`. |
| CurrencyCalc.PresetsPositive | app.js:289-299 | Every preset rate is positive, and every preset key names a pair of distinct listed currencies. |
| CurrencyCalc.SelectRate | app.js:324-332 | A positive custom rate is used as given. Failing that, a rate exists iff the `from->to` key is a preset, and it is that preset's rate. A chosen rate is always positive. |
| CurrencyCalc.Convert | app.js:317-337 | Results by input:<br>• A NaN or negative amount gives "Enter a valid amount.".<br>• `from == to` gives the amount.<br>• With no rate selected, the result is "Provide a valid rate or choose a preset.".<br>• Otherwise the result is the amount with the selected rate.<br>The preset dropdown does not affect the result. |
| CurrencyCalc.NeedsCustomRate | app.js:290-334 | AUD and CAD have no preset, in either direction, so they convert only with a custom rate. |
| Text.ReplaceAllIdentity | app.js:83 | A global replace whose pattern cannot occur leaves the text unchanged. |
| Text.ReplaceCharRemoves | app.js:83 | Replacing every occurrence of a character, with a text that lacks it, removes it. |
| Text.ReplaceAll | app.js:143-149 | Definition: JavaScript's global `replace` of a fixed pattern, a left-to-right scan that resumes after each match. Its properties are `ReplaceAllIdentity` and `ReplaceCharRemoves`. |
| Text.RewriteMarked | app.js:102-150 | Definition: the global rewrite `(\d+(?:\.\d+)?)M`, with an optional `\b` after the marker M, as a left-to-right scan. Its properties are `RewriteMarkedLiteral` and `RewriteMarkedNeedsWord`. |
| Text.RewriteMarkedLiteral | app.js:102-150 | A decimal literal directly followed by the marker is wrapped, and the scan resumes after the marker. |
| Text.RewriteMarkedNeedsWord | app.js:150 | With `\b` after the marker, a marker that ends the text or precedes a non-word character is never rewritten. |
| Text.TrimPadded | app.js:237-238 | The anchors `^\s*` and `\s*$` strip exactly the white space around a text that starts and ends with a non-space. |
| Text.TrimKeeps | app.js:237-238 | Trimming keeps every character that is not white space. |

## Left out

- Evaluation through `Function(...)` (`app.js:85`, `app.js:160`) is dynamic code execution. The model stops at the text handed to it.
- `clampNumber`, `String(result)` rendering, `toFixed` and the currency multiplication are floating-point formatting and arithmetic. `Settle` takes the rendered result as a parameter.
- BMI, the IST clock, `getZonedParts`/`getZonedTodayDate`, mode persistence in `localStorage` and the DOM are I/O, clocks and foreign library code. "Today" is a parameter of `AgeCalc.Age`.
- JavaScript `Date` normalisation, such as `31/02` rolling over into March, `yyyy-13-45`, or years 0–99 mapped to 19xx, is library behaviour. `AgeCalc.ParseDob` returns the fields as written. `AgeCalc.Age` requires valid calendar dates, as a normalised `Date` always is.
- The timer delay of 800 ms is timer plumbing. Only its effect, `ClearError`, is modelled.
- Infinities: `Number` has NaN and finite values only, so `factorial(Infinity)` and an infinite amount or rate are not modelled.
- ScientificCalc.Factorial: the product is exact; the double-precision overflow and rounding of large factorials are not modelled.
- CurrencyCalc.Convert: it returns the amount and the rate rather than their rounded product, because the product is floating-point output.
- `parseFloat` of the amount and rate fields (`app.js:318`, `app.js:324`) is JavaScript's own number parser (a numeric prefix such as `12abc` gives 12, an empty field gives NaN). `CurrencyCalc.Convert` takes its results as `Number`s.
- The currency `swap` and `populate` are DOM plumbing. `swap` only exchanges `from` and `to` before running `Convert`.
- Strings are sequences of code points: UTF-16 surrogate pairs are not modelled. No display key produces them.

## Findings

| source | as written | input that shows it | evidently intended | confidence | as-written member | corrected member |
|---|---|---|---|---|---|---|
| app.js:261-265 | The day borrow runs at most once, so `days` can stay negative. | Born 31/01/2023, today 01/03/2023: result "0 years, 1 months, -2 days". | While `days < 0`, borrow the next earlier month (at most twice; here February, then January), giving 29 days here and never a negative part. | not executed | AgeCalc.NegativeDaysExample | AgeCalc.CorrectedBounds |
| app.js:150 | The `\b` after `!` needs a word character next. So `5!` at the end of the input or before `)` is handed on as it is. Where the rewrite does happen, `factorial(lit)` is directly followed by a digit or a name. | `5!` is handed on as `5!`; `5!3` becomes `factorial(5)3`. Both are JavaScript syntax errors, so the pane shows "Error". | Drop the `\b`, so that `5!` becomes `factorial(5)`, which the evaluator can call. | not executed | ScientificCalc.FactorialAtEndKept | ScientificCalc.CorrectedFactorialStep |
