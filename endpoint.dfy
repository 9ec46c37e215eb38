/**
 The evaluation endpoint: it accepts only POST requests carrying an
 `expression` field, rewrites the constants `π` and `e` and the power
 operator `^` into the host language's spelling, and checks the result
 against a character whitelist before handing it to the evaluator.
 */
module Endpoint {

  /** The `expression` field of the posted form, if it was sent. */
  datatype Field = Missing | Present(value: string)

  datatype Request = Request(requestMethod: string, expression: Field)

  /** The three results of a `preg_match` call: a match (1), no match (0),
      or a pattern the regular-expression library refused (false). */
  datatype MatchOutcome = Matched | NoMatch | PatternError

  /** How the script ends: it exits with a status and a body, or it reaches
      the evaluator with the normalised expression. */
  datatype Outcome = Exit(status: nat, body: string) | Evaluate(expression: string)

  /** The first line of calculate.php lies outside the PHP tags, so every
      response body starts with it. */
  const Banner: string := "<!-- calculate.php -->\n"

  const MethodNotAllowed: nat := 405
  const BadRequest: nat := 400
  const Ok: nat := 200

  const InvalidMethodMessage: string := "Invalid request method"
  const NoExpressionMessage: string := "No expression received"
  const InvalidCharactersMessage: string := "Invalid characters in expression"

  /** `M_PI` and `M_E` as PHP turns them into strings under its default
      `precision` of 14 significant digits. The model relies only on their
      being non-empty runs of digits and a decimal point. */
  const PiText: string := "3.1415926535898"
  const EText: string := "2.718281828459"

  predicate IsDecimalText(t: string) {
    t != [] && forall c :: c in t ==> c == '.' || '0' <= c <= '9'
  }

  lemma ConstantTextsAreDecimal()
    ensures IsDecimalText(PiText) && IsDecimalText(EText)
  {
  }

  /** The number of occurrences of `c` in `s`. */
  function Count(s: string, c: char): (n: nat)
    ensures n == 0 <==> c !in s
    ensures n <= |s|
  {
    if s == [] then 0 else (if s[0] == c then 1 else 0) + Count(s[1..], c)
  }

  lemma OneMore(n: int, w: int)
    ensures (1 + n) * w == w + n * w
  {
  }

  /** The length step of the replacement: prepending the image of `s[0]`
      adds `|t| - 1` exactly when `s[0]` is the searched character. */
  lemma ReplaceStepLength(s: string, c: char, t: string, tail: string)
    requires s != []
    requires |tail| == |s[1..]| + Count(s[1..], c) * (|t| - 1)
    ensures |(if s[0] == c then t else [s[0]]) + tail| == |s| + Count(s, c) * (|t| - 1)
  {
    if s[0] == c {
      OneMore(Count(s[1..], c), |t| - 1);
    }
  }

  /** The provenance step: every character of the result comes from `t` or
      is a character of `s` other than `c`. */
  lemma ReplaceStepChars(s: string, c: char, t: string, tail: string)
    requires s != []
    requires forall d :: d in tail ==> d in t || (d in s[1..] && d != c)
    ensures forall d :: d in (if s[0] == c then t else [s[0]]) + tail ==> d in t || (d in s && d != c)
  {
    var head := if s[0] == c then t else [s[0]];
    forall d | d in head + tail ensures d in t || (d in s && d != c) {
      if d in tail && d !in t {
        assert d in s[1..];
        var k :| 0 <= k < |s[1..]| && s[1..][k] == d;
        assert s[k + 1] == d;
      }
    }
  }

  /** `str_replace` with a one-character search: every `c` in `s` becomes `t`,
      every other character is copied in order. */
  function ReplaceAll(s: string, c: char, t: string): (r: string)
    ensures |r| == |s| + Count(s, c) * (|t| - 1)
    ensures forall d :: d in r ==> d in t || (d in s && d != c)
    ensures c !in s ==> r == s
  {
    if s == [] then []
    else
      var tail := ReplaceAll(s[1..], c, t);
      ReplaceStepLength(s, c, t, tail);
      ReplaceStepChars(s, c, t, tail);
      assert c !in s ==> c !in s[1..] && [s[0]] + s[1..] == s;
      (if s[0] == c then t else [s[0]]) + tail
  }

  /** Replacing distributes over concatenation. */
  lemma {:induction false} ReplaceAllAppend(a: string, b: string, c: char, t: string)
    ensures ReplaceAll(a + b, c, t) == ReplaceAll(a, c, t) + ReplaceAll(b, c, t)
  {
    if a != [] {
      var head := if a[0] == c then t else [a[0]];
      assert (a + b)[0] == a[0] && (a + b)[1..] == a[1..] + b;
      ReplaceAllAppend(a[1..], b, c, t);
      calc {
        ReplaceAll(a + b, c, t);
        head + ReplaceAll(a[1..] + b, c, t);
        head + (ReplaceAll(a[1..], c, t) + ReplaceAll(b, c, t));
        (head + ReplaceAll(a[1..], c, t)) + ReplaceAll(b, c, t);
        ReplaceAll(a, c, t) + ReplaceAll(b, c, t);
      }
    } else {
      assert a + b == b;
    }
  }

  /** The array form of `str_replace` applies its pairs in turn,
      each to the whole output of the one before; `π` first, then `e`. */
  function ReplaceConstants(s: string): string {
    ReplaceAll(ReplaceAll(s, 'π', PiText), 'e', EText)
  }

  /** The second `str_replace`: the power operator becomes `**`. */
  function ReplacePower(s: string): string {
    ReplaceAll(s, '^', "**")
  }

  /** The whole rewrite the script applies before its whitelist check. */
  function Normalise(s: string): string {
    ReplacePower(ReplaceConstants(s))
  }

  /** What one input character turns into: the reference reading of the rewrite. */
  function Image(c: char): string {
    if c == 'π' then PiText
    else if c == 'e' then EText
    else if c == '^' then "**"
    else [c]
  }

  /** The rewrite read character by character: the images of the input's
      characters, concatenated in order. */
  function RewriteEach(s: string): string {
    if s == [] then [] else Image(s[0]) + RewriteEach(s[1..])
  }

  /** The rewrite distributes over concatenation. */
  lemma NormaliseAppend(a: string, b: string)
    ensures Normalise(a + b) == Normalise(a) + Normalise(b)
  {
    ReplaceAllAppend(a, b, 'π', PiText);
    ReplaceAllAppend(ReplaceAll(a, 'π', PiText), ReplaceAll(b, 'π', PiText), 'e', EText);
    ReplaceAllAppend(ReplaceConstants(a), ReplaceConstants(b), '^', "**");
  }

  /** The rewrite of a single character is its image. */
  lemma NormaliseChar(x: char)
    ensures Normalise([x]) == Image(x)
  {
    ConstantTextsAreDecimal();
    assert [x][1..] == [];
  }

  /** The three passes amount to rewriting each character on its own: every
      `π`, `e` and `^` becomes its image and every other character is kept,
      in its original order. This holds because no replacement text contains
      a character a later pass searches for. */
  lemma {:induction false} NormaliseIsCharacterwise(s: string)
    ensures Normalise(s) == RewriteEach(s)
  {
    if s != [] {
      assert s == [s[0]] + s[1..];
      NormaliseAppend([s[0]], s[1..]);
      NormaliseChar(s[0]);
      NormaliseIsCharacterwise(s[1..]);
    }
  }

  /** After the rewrite no `π`, `e` or `^` remains. */
  lemma NormaliseRemovesRewritten(s: string)
    ensures 'π' !in Normalise(s) && 'e' !in Normalise(s) && '^' !in Normalise(s)
  {
    ConstantTextsAreDecimal();
  }

  /** The power rewrite on its own: no `^` remains and each one adds one character. */
  lemma PowerRewrite(s: string)
    ensures '^' !in ReplacePower(s)
    ensures |ReplacePower(s)| == |s| + Count(s, '^')
  {
  }

  /** Rewriting an already rewritten expression changes nothing. */
  lemma NormaliseIdempotent(s: string)
    ensures Normalise(Normalise(s)) == Normalise(s)
  {
    NormaliseRemovesRewritten(s);
  }

  /** The whitelist's character class as the pattern in calculate.php lists it:
      digits, `+ - * / ( ) . , %`, white space and the letters of `M_PI`,
      `M_E` and the function names. */
  predicate InClass(c: char) {
    ('0' <= c <= '9')
    || c == '+' || c == '-' || c == '*' || c == '/' || c == '(' || c == ')'
    || c == '.' || c == ',' || c == '%'
    || IsPcreSpace(c)
    || c == 'M' || c == '_' || c == 'P' || c == 'I' || c == 'E'
    || c == 'a' || c == 'c' || c == 'o' || c == 's' || c == 'i' || c == 'n'
    || c == 't' || c == 'l' || c == 'g' || c == 'q' || c == 'r'
  }

  /** `\s` in a byte-mode pattern: space, tab, line feed, vertical tab, form
      feed and carriage return. */
  predicate IsPcreSpace(c: char) {
    c == ' ' || c == '\t' || c == '\n' || c == '\U{000B}' || c == '\U{000C}' || c == '\r'
  }

  /** The intended whitelist: anchored at both ends with `+`, so the string is
      non-empty and every character is in the class. */
  predicate Whitelisted(s: string) {
    s != [] && AllInClass(s)
  }

  /** The whitelist pattern as calculate.php writes it: `/` delimits it, and
      the `/` listed inside the brackets is not escaped. The text is split
      where the delimiter scan meets a backslash or a `/`. */
  const WrittenPattern: string :=
    "/" + "^[0-9+" + "\\-" + "*" + "/" + "().,%\\s**M_PIEMacosintanlogqrt]+$/"

  /** The same pattern with the inner `/` escaped, as it was evidently meant. */
  const IntendedPattern: string :=
    "/" + "^[0-9+" + "\\-" + "*" + "\\/" + "().,%" + "\\s" + "**M_PIEMacosintanlogqrt]+$" + "/"

  predicate IsAsciiAlnum(c: char) {
    ('0' <= c <= '9') || ('a' <= c <= 'z') || ('A' <= c <= 'Z')
  }

  /** The pattern with its leading white space skipped (C `isspace`, the same
      six characters as `\s`). */
  function SkipSpace(p: string): (r: string)
    ensures |r| <= |p| && r == p[|p| - |r|..]
    ensures r != [] ==> !IsPcreSpace(r[0])
  {
    if p != [] && IsPcreSpace(p[0]) then SkipSpace(p[1..]) else p
  }

  /** The closing delimiter that goes with an opening one: brackets pair up,
      any other delimiter closes itself. */
  function ClosingOf(open: char): char {
    if open == '(' then ')'
    else if open == '[' then ']'
    else if open == '{' then '}'
    else if open == '<' then '>'
    else open
  }

  /** An offset found in a suffix, moved `n` places right; "none" stays none. */
  function Shift(n: nat, r: int): int {
    if r < 0 then -1 else r + n
  }

  /** PHP's scan for the end of the pattern over the text after the opening
      delimiter, with `depth` delimiters still open: a backslash skips the
      character after it and nothing else is special; an opening bracket
      delimiter nests. The result is the offset of the closing delimiter, or
      -1 when there is none. */
  function ClosingDelimiter(s: string, open: char, close: char, depth: nat): (r: int)
    ensures r == -1 || (0 <= r < |s| && s[r] == close)
  {
    if s == [] then -1
    else if s[0] == '\\' && |s| > 1 then Shift(2, ClosingDelimiter(s[2..], open, close, depth))
    else if s[0] == close then
      (if depth <= 1 then 0 else Shift(1, ClosingDelimiter(s[1..], open, close, depth - 1)))
    else if s[0] == open then Shift(1, ClosingDelimiter(s[1..], open, close, depth + 1))
    else Shift(1, ClosingDelimiter(s[1..], open, close, depth))
  }

  /** A character PHP accepts after the closing delimiter: a modifier letter,
      or a space, line feed or carriage return, which it skips. */
  predicate IsModifier(c: char) {
    c == 'i' || c == 'm' || c == 's' || c == 'x' || c == 'A' || c == 'D' || c == 'S'
    || c == 'U' || c == 'X' || c == 'u' || c == 'J' || c == 'n'
    || c == ' ' || c == '\n' || c == '\r'
  }

  /** A character PHP takes as the opening delimiter: not a letter, digit,
      backslash or NUL. */
  predicate IsDelimiter(c: char) {
    !IsAsciiAlnum(c) && c != '\\' && c != '\0'
  }

  /** The closing delimiter sits at offset `end` of `body`, and everything
      after it is a modifier. */
  predicate ModifiersAfter(body: string, end: int) {
    0 <= end < |body| && forall c :: c in body[end + 1..] ==> IsModifier(c)
  }

  /** Whether PHP accepts the pattern text: after leading white space there is
      a delimiter, a closing delimiter follows, and everything after it is a
      modifier. */
  predicate PatternAccepted(pattern: string) {
    var p := SkipSpace(pattern);
    p != [] && IsDelimiter(p[0])
    && ModifiersAfter(p[1..], ClosingDelimiter(p[1..], p[0], ClosingOf(p[0]), 1))
  }

  /** `preg_match` on one of the whitelist pattern texts: false (here
      `PatternError`) when PHP refuses the pattern; otherwise the pattern is
      read as the anchored class, so it matches a non-empty subject made of
      class characters. */
  function PregMatch(pattern: string, subject: string): (r: MatchOutcome)
    ensures r == PatternError <==> !PatternAccepted(pattern)
    ensures PatternAccepted(pattern) ==> (r == Matched <==> Whitelisted(subject))
  {
    if !PatternAccepted(pattern) then PatternError
    else if Whitelisted(subject) then Matched
    else NoMatch
  }

  /** The scan passes over a stretch holding no backslash and neither
      delimiter without stopping. */
  lemma {:induction false} ScanSkipsPlain(a: string, b: string, open: char, close: char, depth: nat)
    requires '\\' !in a && open !in a && close !in a
    ensures ClosingDelimiter(a + b, open, close, depth) == Shift(|a|, ClosingDelimiter(b, open, close, depth))
  {
    if a != [] {
      assert (a + b)[0] == a[0] && a[0] in a;
      assert (a + b)[1..] == a[1..] + b;
      ScanSkipsPlain(a[1..], b, open, close, depth);
    } else {
      assert a + b == b;
    }
  }

  /** The scan steps over a backslash and the character it escapes. */
  lemma ScanSkipsEscape(e: string, b: string, open: char, close: char, depth: nat)
    requires |e| == 2 && e[0] == '\\'
    ensures ClosingDelimiter(e + b, open, close, depth) == Shift(2, ClosingDelimiter(b, open, close, depth))
  {
    assert (e + b)[0] == '\\';
    assert (e + b)[2..] == b;
  }

  /** For a pattern that starts with `/`, acceptance comes down to where the
      scan finds the closing `/` and what follows it. */
  lemma SlashDelimited(p: string, end: int)
    requires p != [] && p[0] == '/'
    requires ClosingDelimiter(p[1..], '/', '/', 1) == end
    ensures PatternAccepted(p) <==> ModifiersAfter(p[1..], end)
  {
    assert SkipSpace(p) == p;
    assert IsDelimiter('/') && ClosingOf('/') == '/';
  }

  /** The scan over the written pattern's body stops at the unescaped `/`. */
  lemma UnescapedSlashScan(body: string, rest: string)
    requires body == "^[0-9+" + ("\\-" + ("*" + ("/" + rest)))
    ensures ClosingDelimiter(body, '/', '/', 1) == 9
    ensures body[10..] == rest
  {
    var tail := "*" + ("/" + rest);
    assert ClosingDelimiter("/" + rest, '/', '/', 1) == 0;
    ScanSkipsPlain("*", "/" + rest, '/', '/', 1);
    ScanSkipsEscape("\\-", tail, '/', '/', 1);
    ScanSkipsPlain("^[0-9+", "\\-" + tail, '/', '/', 1);
  }

  /** A pattern shaped like the written one is refused whatever follows the
      unescaped `/`, as long as it starts with a character that is not a
      modifier. */
  lemma UnescapedSlashRefused(p: string, rest: string)
    requires p == "/" + "^[0-9+" + "\\-" + "*" + "/" + rest
    requires rest != [] && !IsModifier(rest[0])
    ensures !PatternAccepted(p)
  {
    var body := "^[0-9+" + ("\\-" + ("*" + ("/" + rest)));
    assert p == "/" + body;
    assert p[1..] == body;
    UnescapedSlashScan(body, rest);
    SlashDelimited(p, 9);
    assert rest[0] in body[10..];
  }

  /** The scan over the end of the intended pattern: it steps over the `\s`
      escape and stops at the final `/`. */
  lemma ClassTailScan(t2: string, run: string)
    requires t2 == "().,%" + ("\\s" + (run + "/"))
    requires '\\' !in run && '/' !in run
    ensures ClosingDelimiter(t2, '/', '/', 1) == |t2| - 1
  {
    var t4 := run + "/";
    var t3 := "\\s" + t4;
    assert ClosingDelimiter("/", '/', '/', 1) == 0;
    ScanSkipsPlain(run, "/", '/', '/', 1);
    ScanSkipsEscape("\\s", t4, '/', '/', 1);
    ScanSkipsPlain("().,%", t3, '/', '/', 1);
  }

  /** The scan over the intended pattern's body steps over the three escapes
      and stops at the final `/`. */
  lemma EscapedSlashScan(body: string, run: string)
    requires body == "^[0-9+" + ("\\-" + ("*" + ("\\/" + ("().,%" + ("\\s" + (run + "/"))))))
    requires '\\' !in run && '/' !in run
    ensures ClosingDelimiter(body, '/', '/', 1) == |body| - 1
  {
    var t2 := "().,%" + ("\\s" + (run + "/"));
    var t1 := "\\/" + t2;
    var t0 := "*" + t1;
    ClassTailScan(t2, run);
    ScanSkipsEscape("\\/", t2, '/', '/', 1);
    ScanSkipsPlain("*", t1, '/', '/', 1);
    ScanSkipsEscape("\\-", t0, '/', '/', 1);
    ScanSkipsPlain("^[0-9+", "\\-" + t0, '/', '/', 1);
  }

  /** A pattern shaped like the intended one is accepted: its closing `/` is
      its last character, so no modifier follows. */
  lemma EscapedSlashAccepted(p: string, run: string)
    requires p == "/" + "^[0-9+" + "\\-" + "*" + "\\/" + "().,%" + "\\s" + run + "/"
    requires '\\' !in run && '/' !in run
    ensures PatternAccepted(p)
  {
    var body := "^[0-9+" + ("\\-" + ("*" + ("\\/" + ("().,%" + ("\\s" + (run + "/"))))));
    assert p == "/" + body;
    assert p[1..] == body;
    EscapedSlashScan(body, run);
    SlashDelimited(p, |body| - 1);
    assert body[|body|..] == [];
  }

  /** PHP refuses the pattern as written: the scan stops at the unescaped `/`
      inside the brackets, and the `(` after it is not a modifier. */
  lemma WrittenPatternRefused()
    ensures !PatternAccepted(WrittenPattern)
  {
    UnescapedSlashRefused(WrittenPattern, "().,%\\s**M_PIEMacosintanlogqrt]+$/");
  }

  /** PHP accepts the pattern with the inner `/` escaped: its closing
      delimiter is the last character and no modifier follows. */
  lemma IntendedPatternAccepted()
    ensures PatternAccepted(IntendedPattern)
  {
    EscapedSlashAccepted(IntendedPattern, "**M_PIEMacosintanlogqrt]+$");
  }

  /** `preg_match` with the pattern as it was evidently meant. */
  function IntendedMatch(s: string): (r: MatchOutcome)
    ensures r == Matched <==> Whitelisted(s)
    ensures r != PatternError
  {
    IntendedPatternAccepted();
    PregMatch(IntendedPattern, s)
  }

  /** `preg_match` with the pattern as written: PHP refuses the pattern, so
      the call returns false for every subject. */
  function WrittenMatch(s: string): (r: MatchOutcome)
    ensures r == PatternError
  {
    WrittenPatternRefused();
    PregMatch(WrittenPattern, s)
  }

  /** A character the rewrite lets through the whitelist: one in the class, or
      one the rewrite turns into class characters. */
  predicate Admissible(c: char) {
    InClass(c) || c == 'π' || c == 'e' || c == '^'
  }

  predicate AllInClass(s: string) {
    forall k :: 0 <= k < |s| ==> InClass(s[k])
  }

  predicate AllAdmissible(s: string) {
    forall k :: 0 <= k < |s| ==> Admissible(s[k])
  }

  lemma AllInClassAppend(a: string, b: string)
    ensures AllInClass(a + b) <==> AllInClass(a) && AllInClass(b)
  {
    if AllInClass(a) && AllInClass(b) {
      forall k | 0 <= k < |a + b| ensures InClass((a + b)[k]) {
        if k >= |a| { assert (a + b)[k] == b[k - |a|]; }
      }
    }
    if AllInClass(a + b) {
      forall k | 0 <= k < |a| ensures InClass(a[k]) {
        assert (a + b)[k] == a[k];
      }
      forall k | 0 <= k < |b| ensures InClass(b[k]) {
        assert (a + b)[|a| + k] == b[k];
      }
    }
  }

  /** The image of a character is non-empty, and made of class characters
      exactly when the character is admissible. */
  lemma ImageInClass(c: char)
    ensures Image(c) != []
    ensures AllInClass(Image(c)) <==> Admissible(c)
  {
    ConstantTextsAreDecimal();
    var t := Image(c);
    if c == 'π' || c == 'e' || c == '^' {
      forall k | 0 <= k < |t| ensures InClass(t[k]) {
        assert t[k] in t;
      }
    } else {
      assert t == [c];
      assert AllInClass(t) <==> InClass(t[0]);
    }
  }

  lemma {:induction false} RewriteEachInClass(s: string)
    ensures AllInClass(RewriteEach(s)) <==> AllAdmissible(s)
    ensures RewriteEach(s) == [] <==> s == []
  {
    if s != [] {
      RewriteEachInClass(s[1..]);
      ImageInClass(s[0]);
      AllInClassAppend(Image(s[0]), RewriteEach(s[1..]));
      assert AllAdmissible(s) <==> Admissible(s[0]) && AllAdmissible(s[1..]) by {
        if Admissible(s[0]) && AllAdmissible(s[1..]) {
          forall k | 0 <= k < |s| ensures Admissible(s[k]) {
            if k > 0 { assert s[k] == s[1..][k - 1]; }
          }
        }
      }
    }
  }

  /** An expression passes the intended whitelist after the rewrite exactly
      when it is non-empty and each character is in the class or is one of
      `π`, `e` and `^`. */
  lemma WhitelistAfterRewrite(s: string)
    ensures Whitelisted(Normalise(s)) <==> s != [] && AllAdmissible(s)
  {
    NormaliseIsCharacterwise(s);
    RewriteEachInClass(s);
  }

  /** The script from its first line up to the evaluator. `pregMatch` stands
      for the `preg_match` call with its pattern. */
  method HandleRequest(request: Request, pregMatch: string -> MatchOutcome) returns (outcome: Outcome)
    ensures request.requestMethod != "POST" ==> outcome == Exit(MethodNotAllowed, Banner + InvalidMethodMessage)
    ensures request.requestMethod == "POST" && request.expression.Missing? ==>
      outcome == Exit(BadRequest, Banner + NoExpressionMessage)
    ensures request.requestMethod == "POST" && request.expression.Present? ==>
      var normalised := Normalise(request.expression.value);
      outcome == if pregMatch(normalised) == Matched then Evaluate(normalised)
                 else Exit(Ok, Banner + InvalidCharactersMessage)
  {
    if request.requestMethod != "POST" {
      return Exit(MethodNotAllowed, Banner + InvalidMethodMessage);
    }
    if request.expression.Missing? {
      return Exit(BadRequest, Banner + NoExpressionMessage);
    }
    var expression := request.expression.value;
    expression := ReplaceConstants(expression);
    expression := ReplacePower(expression);
    if pregMatch(expression) != Matched {
      return Exit(Ok, Banner + InvalidCharactersMessage);
    }
    return Evaluate(expression);
  }

  /** The script as written never reaches the evaluator: every POST request
      that carries an expression is answered "Invalid characters in
      expression", whatever the expression. */
  method HandleAsWritten(request: Request) returns (outcome: Outcome)
    ensures !outcome.Evaluate?
    ensures request.requestMethod == "POST" && request.expression.Present? ==>
      outcome == Exit(Ok, Banner + InvalidCharactersMessage)
  {
    outcome := HandleRequest(request, WrittenMatch);
  }

  /** The script with the whitelist as intended: it reaches the evaluator
      exactly for POST requests whose rewritten expression is non-empty and
      made of class characters, and then only with that rewritten text, which
      holds no `π`, `e` or `^`. */
  method HandleIntended(request: Request) returns (outcome: Outcome)
    ensures outcome.Evaluate? <==>
      request.requestMethod == "POST" && request.expression.Present?
      && Whitelisted(Normalise(request.expression.value))
    ensures outcome.Evaluate? ==>
      outcome.expression == Normalise(request.expression.value)
      && Whitelisted(outcome.expression)
      && 'π' !in outcome.expression && 'e' !in outcome.expression && '^' !in outcome.expression
  {
    outcome := HandleRequest(request, IntendedMatch);
    if request.expression.Present? {
      NormaliseRemovesRewritten(request.expression.value);
    }
  }
}
