# Grid calculator: page state and evaluation endpoint

A Dafny model of a small web calculator. The page (`script.js`) keeps an
expression buffer that buttons and keys add to, shorten or clear. It sends the
trimmed buffer to the endpoint and shows the reply. It also keeps a
newest-first history of at most ten evaluations. The endpoint (`calculate.php`)
accepts only POST requests that carry an `expression` field. It rewrites `π`
and `e` into the decimal texts of `M_PI` and `M_E` and rewrites `^` into `**`.
It then checks the rewritten text against a character whitelist and hands it
to PHP's `eval`.

The code has no tokenizer, precedence parser or postfix evaluator: all
arithmetic is delegated to `eval`. The model covers the string and list
handling around the `eval` call.

Files:

- `js_string.dfy` (module `JsString`): the JavaScript string operations the
  page uses: `trim`, `includes`, `toLowerCase` and `slice(0, -1)`.
- `calculator.dfy` (module `Calculator`): the class `CalculatorPage` with the
  fields `expression`, `resultText` and `history`, its handlers, and the
  functions that specify them.
- `endpoint.dfy` (module `Endpoint`): the request gate, the two `str_replace`
  passes, the whitelist's character class and the script up to the evaluator.
- `exchange.dfy` (module `Exchange`): what the page does with the endpoint's
  refusal message.

The server's reply reaches the page asynchronously through `fetch`. Here it is
a parameter of `Calculate` and `KeyDown`: the reply text, or `NetworkFailure`
for a rejected request. In the endpoint, the `preg_match` call is a parameter
of `HandleRequest`. `Endpoint.PregMatch` models PHP's check of the pattern
text: the scan for the closing delimiter and the modifiers after it.
`Endpoint.WrittenMatch` applies it to the pattern as written and
`Endpoint.IntendedMatch` to the pattern as evidently meant (see Findings).

## Model

| member | source | states |
|---|---|---|
| `JsString.TrimStart` | script.js:24 | The result is a suffix of the input. Everything cut off is whitespace. The result does not start with whitespace. |
| `JsString.TrimEnd` | script.js:24 | The result is a prefix of the input. Everything cut off is whitespace. The result does not end with whitespace. |
| `JsString.Trim` | script.js:24 | The result is a contiguous run of the input with only whitespace before and after it. It has no whitespace at either end. It is empty exactly when the input is all whitespace. |
| `JsString.TrimIdempotent` | script.js:24 | Trimming a trimmed string changes nothing. |
| `JsString.SingleCharIncludes` | script.js:97-99 | A one-character key passes the key filter exactly when it is one of the listed characters. |
| `JsString.EmptyIncluded` | script.js:99 | The empty key passes the substring test, so it appends nothing. |
| `JsString.IncludedCharsOccur` | script.js:99 | Every character of a key that passes the filter is one of the listed characters. |
| `JsString.LowerCase` | script.js:43 | Lower-casing keeps the length and lowers each position on its own. |
| `JsString.DropLast` | script.js:109 | Backspace's `slice(0, -1)` removes exactly the final character. An empty buffer stays empty. |
| `Calculator.ErrorReplyIgnoresCase` | script.js:43 | Two replies that agree once lower-cased are classified alike, so the "error" test ignores letter case. |
| `Calculator.RecordEntry` | script.js:56-67 | The new entry comes first. Every entry is the new one or an earlier one. On a history within the limit of 10, the result stays within the limit and equals the new entry followed by the earlier entries in order, with only the tenth dropped. |
| `Calculator.RecordAllKeepsNewest` | script.js:56-67 | After several evaluations are recorded, the history holds the most recent entries up to ten. The newest comes first, followed by what was there before. |
| `Calculator.Calculated` | script.js:23-53 | A blank buffer sets "Error: Expression is empty" and leaves the history alone. A failed request sets "Server error". An empty reply, or one containing "error", sets "Error evaluating expression" and records nothing. Any other reply is shown after "Result: " and is recorded with the trimmed buffer. The history never grows past 10. |
| `Calculator.CalculatedKeepsEntriesRecordable` | script.js:24-48 | Suppose every history entry holds a trimmed, non-blank expression and a reply that is not an error. Then the same is true after any evaluation. |
| `Calculator.KeyNotAppended` | script.js:97-101 | A key whose first character is not listed fails the filter. This covers Enter, Backspace and Escape. |
| `Calculator.CalculatorPage.constructor` | script.js:7 | The page starts with an empty buffer, an empty result line and an empty history, so the bound of 10 holds. |
| `Calculator.CalculatorPage.AppendExpression` | script.js:10-12 | The buffer becomes the old buffer followed by the value. Nothing else changes. |
| `Calculator.CalculatorPage.ResetCalculator` | script.js:18-21 | The buffer and the result line become empty. The history is not touched. |
| `Calculator.CalculatorPage.Backspace` | script.js:108-110 | The buffer loses its final character, if it has one. Nothing else changes. |
| `Calculator.CalculatorPage.AddToHistory` | script.js:56-67 | The history becomes `RecordEntry` of the old history and the new entry. The bound of 10 is preserved. |
| `Calculator.CalculatorPage.Calculate` | script.js:23-53 | The buffer is never edited. The result line and history become what `Calculated` gives for the buffer, old history and reply. The bound of 10 is preserved. |
| `Calculator.CalculatorPage.KeyDown` | script.js:96-115 | A key that passes the filter is appended. Enter evaluates without editing the buffer. Backspace drops the last character. Escape resets the buffer and result line. Any other key changes nothing. The bound of 10 is preserved. |
| `Endpoint.ReplaceAll` | calculate.php:23-30 | The output is longer by the number of occurrences times the replacement's length minus one. Every output character comes from the replacement, or is an input character other than the searched one. The input is returned unchanged when the searched character is absent. |
| `Endpoint.ReplaceAllAppend` | calculate.php:23-30 | Replacing distributes over concatenation. |
| `Endpoint.NormaliseAppend` | calculate.php:23-30 | Both rewriting passes distribute over concatenation, so the rewrite of a joined text is the joined rewrites. |
| `Endpoint.NormaliseChar` | calculate.php:23-30 | A single character rewrites to its own image: `π` and `e` to the decimal constant texts, `^` to `**`, anything else to itself. |
| `Endpoint.NormaliseIsCharacterwise` | calculate.php:23-30 | Two passes run in order: `π` then `e`, the second on the output of the first, followed by `^`. The result equals rewriting each character on its own, so every other character is copied unchanged and in order. |
| `Endpoint.NormaliseRemovesRewritten` | calculate.php:23-30 | No `π`, `e` or `^` remains after the rewrite. |
| `Endpoint.PowerRewrite` | calculate.php:30 | No `^` remains, and the length grows by exactly the number of `^` in the input. |
| `Endpoint.NormaliseIdempotent` | calculate.php:23-30 | Rewriting twice gives the same result as rewriting once. |
| `Endpoint.ImageInClass` | calculate.php:23-33 | Each character's rewrite is non-empty. It is made of whitelist characters exactly when the character is in the class or is `π`, `e` or `^`. |
| `Endpoint.RewriteEachInClass` | calculate.php:23-33 | The character-by-character rewrite is made of whitelist characters exactly when each input character is admissible. It is empty exactly when the input is. |
| `Endpoint.WhitelistAfterRewrite` | calculate.php:23-35 | A rewritten expression passes the intended whitelist exactly when the input is non-empty and each of its characters is in the class or is `π`, `e` or `^`. |
| `Endpoint.ClosingDelimiter` | calculate.php:33-35 | The offset found is the position of a closing delimiter in the scanned text, or there is none. |
| `Endpoint.SlashDelimited` | calculate.php:33-35 | A pattern that opens with `/` is accepted exactly when the scan finds the closing `/` and only modifiers follow it. |
| `Endpoint.WrittenPatternRefused` | calculate.php:33 | PHP refuses the pattern as written. The scan ends at the unescaped `/` inside the brackets, and the `(` after it is not a modifier. |
| `Endpoint.IntendedPatternAccepted` | calculate.php:33 | PHP accepts the same pattern once the inner `/` is escaped. |
| `Endpoint.PregMatch` | calculate.php:35 | The result is false exactly when PHP refuses the pattern. For an accepted pattern it is a match exactly when the subject passes the whitelist. |
| `Endpoint.WrittenMatch` | calculate.php:33-35 | With the pattern as written, the call returns false for every subject. |
| `Endpoint.IntendedMatch` | calculate.php:33-35 | With the pattern as meant, the call never fails. It matches exactly the whitelisted subjects. |
| `Endpoint.HandleRequest` | calculate.php:1-37 | A request that is not POST gets 405 before the field is examined. A POST without the field gets 400. A POST with the field reaches the evaluator with the rewritten expression only if the match succeeds. Otherwise it ends with "Invalid characters in expression". Every body starts with the line-1 banner. |
| `Endpoint.HandleAsWritten` | calculate.php:33-37 | With the pattern as written, the evaluator is never reached. Every POST that carries an expression is refused as having invalid characters. |
| `Endpoint.HandleIntended` | calculate.php:33-55 | With the pattern as meant, the evaluator is reached exactly for POST requests whose rewritten expression passes the whitelist. The text it receives is the rewritten one and holds no `π`, `e` or `^`. |
| `Exchange.NoDoubleRNoError` | script.js:43 | A non-empty reply with no two consecutive `r` in either case does not read as an error. |
| `Exchange.RejectionNotAnError` | calculate.php:1-36 | The endpoint's refusal body (banner plus "Invalid characters in expression") does not read as an error to the page. |
| `Exchange.RejectionRecorded` | script.js:43-48 | When a non-blank buffer is refused by the endpoint, the page shows the refusal as a result and records it in the history. |

## Left out

- `safeEval` and PHP `eval` (calculate.php:44-55) run host-language code. They are a foreign call with no visible semantics, so the model stops where the script reaches the evaluator (`Endpoint.Outcome.Evaluate`).
- The result checks `is_nan` / `is_infinite` and the echoed number (calculate.php:57-61) are floating point and are not modelled.
- `fetch`, its promise chain and `encodeURIComponent` (script.js:34-52) are network I/O. The reply is a parameter. The model treats the request and its reply as one step, so these are not modelled: the "Calculating..." text shown while the request is in flight, and keys pressed before the reply arrives. The form encoding is assumed to deliver the trimmed buffer unchanged.
- DOM work is not modelled: the element lookups (script.js:2-5), `renderHistory` (script.js:71-85), `toggleHistory` (script.js:14-16) and `preventDefault`.
- The history item click handler (script.js:78-81) is not modelled. It loads an entry's expression into the buffer and shows its result after "Result: " in the result line.
- `http_response_code`, `exit` and `echo` become the `Outcome` value. Output buffering is not modelled. Nor is the warning PHP may print about the refused pattern, because whether it does depends on the `display_errors` setting.
- The `M_PI` and `M_E` texts depend on PHP's `precision` setting. They are fixed constants here, with PHP's default of 14 digits, and the lemmas use only the fact that they are non-empty runs of digits and `.`.
- PHP works on bytes and JavaScript on UTF-16 code units; the model works on code points. So `π` (two bytes in UTF-8) is one character here. Backspace on a character outside the Basic Multilingual Plane removes half a surrogate pair in the browser but a whole character here.
- `\s` in the whitelist is taken as space, tab, line feed, vertical tab, form feed and carriage return. Locale-dependent extra bytes are not modelled.
- An `expression` field sent as an array is not modelled. The field is either missing or a string.
- `JsString.LowerCase`: maps only the ASCII capitals, while `toLowerCase` maps all of Unicode. No non-ASCII character lower-cases to `e`, `r` or `o`, so the "error" test reads the same.
- `Endpoint.PregMatch` models only PHP's check of the pattern text, not the regular-expression engine. A pattern PHP accepts is read as the anchored whitelist class, which is what both pattern texts here mean. Bracket delimiters and the scan are modelled; the modifier letters are those PHP 8.2 accepts.
- The buttons of index.php are not modelled one by one. `AppendExpression` accepts any string, which covers every button's text.

## Findings

| source | as written | input that shows it | evidently intended | confidence | as-written member | corrected member |
|---|---|---|---|---|---|---|
| calculate.php:33-35 | The pattern is delimited by `/` and has an unescaped `/` inside its bracket, so PHP ends the pattern there. It then reads `(` as an unknown modifier and refuses the pattern, `preg_match` returns false, and the negated test exits for every input. | A POST with `expression=1+2`: the reply is "Invalid characters in expression". | The whole bracket is one character class (the slash escaped or another delimiter used), so whitelisted expressions reach `safeEval`. | high (PHP's delimiter scan does not treat brackets specially), not executed | `Endpoint.HandleAsWritten` | `Endpoint.HandleIntended` |

Because the refusal text does not contain "error", the page records it as a
result for every non-blank evaluation (`Exchange.RejectionRecorded`).
