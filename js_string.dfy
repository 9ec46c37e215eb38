/**
 The JavaScript string operations the calculator page relies on, over strings
 of code points: `trim`, `includes`, `toLowerCase` and `slice(0, -1)`.
 */
module JsString {

  /** The code points `String.prototype.trim` strips: ECMAScript WhiteSpace
      (tab, vertical tab, form feed, space, no-break space, byte-order mark and
      the other Zs space separators) and LineTerminator (LF, CR, LS, PS). */
  predicate IsWhitespace(c: char) {
    c == '\t' || c == '\n' || c == '\U{000B}' || c == '\U{000C}' || c == '\r' || c == ' '
    || c == '\U{00A0}' || c == '\U{1680}' || ('\U{2000}' <= c <= '\U{200A}')
    || c == '\U{2028}' || c == '\U{2029}' || c == '\U{202F}' || c == '\U{205F}'
    || c == '\U{3000}' || c == '\U{FEFF}'
  }

  /** Strips leading whitespace: the result is a suffix of `s`, everything cut
      off is whitespace, and the result does not start with whitespace. */
  function TrimStart(s: string): (r: string)
    ensures |r| <= |s| && r == s[|s| - |r|..]
    ensures forall k :: 0 <= k < |s| - |r| ==> IsWhitespace(s[k])
    ensures r != [] ==> !IsWhitespace(r[0])
  {
    if s != [] && IsWhitespace(s[0]) then TrimStart(s[1..]) else s
  }

  /** Strips trailing whitespace: the result is a prefix of `s`, everything cut
      off is whitespace, and the result does not end with whitespace. */
  function TrimEnd(s: string): (r: string)
    ensures |r| <= |s| && r == s[..|r|]
    ensures forall k :: |r| <= k < |s| ==> IsWhitespace(s[k])
    ensures r != [] ==> !IsWhitespace(r[|r| - 1])
  {
    if s != [] && IsWhitespace(s[|s| - 1]) then TrimEnd(s[..|s| - 1]) else s
  }

  /** `r` is the run of `s` starting at offset `i`, with only whitespace
      before and after it. */
  predicate EnclosedByWhitespace(s: string, r: string, i: int) {
    0 <= i && i + |r| <= |s| && r == s[i..i + |r|]
    && (forall k :: 0 <= k < i ==> IsWhitespace(s[k]))
    && (forall k :: i + |r| <= k < |s| ==> IsWhitespace(s[k]))
  }

  /** `s.trim()`: the contiguous part of `s` left once whitespace is removed
      from both ends. It is empty exactly when `s` is all whitespace. */
  function Trim(s: string): (r: string)
    ensures exists i :: EnclosedByWhitespace(s, r, i)
    ensures r != [] ==> !IsWhitespace(r[0]) && !IsWhitespace(r[|r| - 1])
    ensures r == [] <==> forall k :: 0 <= k < |s| ==> IsWhitespace(s[k])
  {
    var t := TrimStart(s);
    var r := TrimEnd(t);
    assert EnclosedByWhitespace(s, r, |s| - |t|);
    r
  }

  /** Trimming a trimmed string changes nothing. */
  lemma TrimIdempotent(s: string)
    ensures Trim(Trim(s)) == Trim(s)
  {
    var r := Trim(s);
    if r != [] {
      assert TrimStart(r) == r;
      assert TrimEnd(r) == r;
    }
  }

  /** `sub` sits in `s` at offset `i`. */
  predicate OccursAt(s: string, sub: string, i: int) {
    0 <= i <= |s| - |sub| && s[i..i + |sub|] == sub
  }

  /** `s.includes(sub)`: whether `sub` occurs in `s` as a contiguous run. */
  predicate Includes(s: string, sub: string) {
    exists i | 0 <= i <= |s| - |sub| :: OccursAt(s, sub, i)
  }

  /** A one-character needle is included exactly when that character occurs. */
  lemma SingleCharIncludes(s: string, c: char)
    ensures Includes(s, [c]) <==> c in s
  {
    if Includes(s, [c]) {
      var i :| OccursAt(s, [c], i);
      assert OccursAt(s, [c], i);
      assert s[i] == s[i..i + 1][0];
    }
    if c in s {
      var i :| 0 <= i < |s| && s[i] == c;
      assert OccursAt(s, [c], i);
    }
  }

  /** The empty needle is included in every string. */
  lemma EmptyIncluded(s: string)
    ensures Includes(s, [])
  {
    assert OccursAt(s, [], 0);
  }

  /** Every character of an included needle occurs in the haystack. */
  lemma IncludedCharsOccur(s: string, sub: string)
    requires Includes(s, sub)
    ensures forall c :: c in sub ==> c in s
  {
    var i :| OccursAt(s, sub, i);
    assert OccursAt(s, sub, i);
    forall c | c in sub ensures c in s {
      var k :| 0 <= k < |sub| && sub[k] == c;
      assert s[i + k] == sub[k];
    }
  }

  /** `toLowerCase` on one code point; only the ASCII capitals are mapped. */
  function LowerChar(c: char): char {
    if 'A' <= c <= 'Z' then (c as int + 32) as char else c
  }

  /** `s.toLowerCase()`, position by position. */
  function LowerCase(s: string): (r: string)
    ensures |r| == |s|
    ensures forall k :: 0 <= k < |s| ==> r[k] == LowerChar(s[k])
  {
    if s == [] then [] else [LowerChar(s[0])] + LowerCase(s[1..])
  }

  /** `s.slice(0, -1)`: drops the final character; the empty string stays empty. */
  function DropLast(s: string): (r: string)
    ensures s == [] ==> r == []
    ensures s != [] ==> r + [s[|s| - 1]] == s
  {
    if s == [] then [] else s[..|s| - 1]
  }
}
