/**
 * The pieces of java.lang.String and java.util.regex that the authentication core
 * relies on: isBlank, the line terminators that the regex `.` refuses, toUpperCase
 * and equalsIgnoreCase.  Case mapping is the ASCII one; every other character maps
 * to itself.
 */
module JavaText {

  import opened Wrappers

  /** Character.isWhitespace: the Unicode space, line and paragraph separators other
      than the three no-break spaces, plus the ASCII controls U+0009..U+000D and
      U+001C..U+001F. */
  predicate IsWhitespace(c: char) {
    ('\U{9}' <= c <= '\U{D}') || ('\U{1C}' <= c <= ' ') || c == '\U{1680}'
    || ('\U{2000}' <= c <= '\U{2006}') || ('\U{2008}' <= c <= '\U{200A}')
    || c == '\U{2028}' || c == '\U{2029}' || c == '\U{205F}' || c == '\U{3000}'
  }

  /** String.isBlank: empty, or whitespace only. */
  predicate IsBlank(s: string) {
    forall i :: 0 <= i < |s| ==> IsWhitespace(s[i])
  }

  /** The characters String.trim() strips from either end: U+0000 up to the space. */
  predicate AtMostSpace(c: char) { c <= ' ' }

  /** `s` without its leading characters at or below the space. */
  function TrimStart(s: string): (r: string)
    ensures |r| <= |s| && r == s[|s| - |r|..]
    ensures r != [] ==> !AtMostSpace(r[0])
    ensures forall i :: 0 <= i < |s| - |r| ==> AtMostSpace(s[i])
    decreases |s|
  {
    if s != [] && AtMostSpace(s[0]) then
      var t := s[1..];
      var r := TrimStart(t);
      assert t[|t| - |r|..] == s[|s| - |r|..];
      assert forall i :: 1 <= i < |s| - |r| ==> s[i] == t[i - 1] && AtMostSpace(t[i - 1]);
      r
    else s
  }

  /** `s` without its trailing characters at or below the space. */
  function TrimEnd(s: string): (r: string)
    ensures |r| <= |s| && r == s[..|r|]
    ensures r != [] ==> !AtMostSpace(r[|r| - 1])
    ensures forall i :: |r| <= i < |s| ==> AtMostSpace(s[i])
    decreases |s|
  {
    if s != [] && AtMostSpace(s[|s| - 1]) then
      var t := s[..|s| - 1];
      var r := TrimEnd(t);
      assert t[..|r|] == s[..|r|];
      assert forall i :: |r| <= i < |s| - 1 ==> s[i] == t[i] && AtMostSpace(t[i]);
      r
    else s
  }

  /** String.trim(). */
  function Trim(s: string): string {
    TrimEnd(TrimStart(s))
  }

  /** Trimming leaves nothing exactly when every character is at or below the space. */
  lemma TrimIsEmptyIffAllAtMostSpace(s: string)
    ensures |Trim(s)| == 0 <==> forall i :: 0 <= i < |s| ==> AtMostSpace(s[i])
  {
    var t := TrimStart(s);
    assert t != [] ==> t[0] == s[|s| - |t|];
  }

  /** The characters that `.` does not match in a java.util.regex.Pattern compiled
      without flags. */
  predicate IsLineTerminator(c: char) {
    c == '\n' || c == '\r' || c == '\U{85}' || c == '\U{2028}' || c == '\U{2029}'
  }

  predicate IsAsciiLower(c: char) { 'a' <= c <= 'z' }

  predicate IsAsciiUpper(c: char) { 'A' <= c <= 'Z' }

  function UpperChar(c: char): (u: char)
    ensures !IsAsciiLower(u)
    ensures IsAsciiLower(c) ==> u as int == c as int - 32
    ensures !IsAsciiLower(c) ==> u == c
  {
    if IsAsciiLower(c) then (c as int - 32) as char else c
  }

  function LowerChar(c: char): (l: char)
    ensures !IsAsciiUpper(l)
    ensures IsAsciiUpper(c) ==> l as int == c as int + 32
    ensures !IsAsciiUpper(c) ==> l == c
  {
    if IsAsciiUpper(c) then (c as int + 32) as char else c
  }

  /** String.toUpperCase() over ASCII. */
  function ToUpper(s: string): (r: string)
    ensures |r| == |s|
    ensures forall i :: 0 <= i < |s| ==> r[i] == UpperChar(s[i])
  {
    seq(|s|, i requires 0 <= i < |s| => UpperChar(s[i]))
  }

  /** The per-character test of String.regionMatches(ignoreCase = true, ...):
      equal, or equal after toUpperCase, or equal after toUpperCase then toLowerCase. */
  predicate CharsEqualIgnoreCase(a: char, b: char) {
    a == b || UpperChar(a) == UpperChar(b) || LowerChar(UpperChar(a)) == LowerChar(UpperChar(b))
  }

  /** String.equalsIgnoreCase with a non-null argument: same length and every
      position equal ignoring case. */
  predicate EqualsIgnoreCase(a: string, b: string) {
    |a| == |b| && forall i :: 0 <= i < |a| ==> CharsEqualIgnoreCase(a[i], b[i])
  }

  /** `literal.equalsIgnoreCase(s)` where s may be null: null is never equal. */
  predicate EqualsIgnoreCaseNullable(literal: string, s: Option<string>) {
    s.Some? && EqualsIgnoreCase(literal, s.value)
  }

  /** Over ASCII the three-way per-character test is the same as comparing the
      upper-case forms. */
  lemma CharsEqualIgnoreCaseIffUpper(a: char, b: char)
    ensures CharsEqualIgnoreCase(a, b) <==> UpperChar(a) == UpperChar(b)
  {
    if LowerChar(UpperChar(a)) == LowerChar(UpperChar(b)) {
      var ua, ub := UpperChar(a), UpperChar(b);
      if ua != ub {
        // LowerChar is injective on characters that are not ASCII lower case.
        assert IsAsciiUpper(ua) || IsAsciiUpper(ub);
      }
    }
  }

  /** equalsIgnoreCase holds exactly when the upper-case forms are the same string. */
  lemma EqualsIgnoreCaseIffSameUpper(a: string, b: string)
    ensures EqualsIgnoreCase(a, b) <==> ToUpper(a) == ToUpper(b)
  {
    if EqualsIgnoreCase(a, b) {
      forall i | 0 <= i < |a| ensures ToUpper(a)[i] == ToUpper(b)[i] {
        CharsEqualIgnoreCaseIffUpper(a[i], b[i]);
      }
    }
    if ToUpper(a) == ToUpper(b) {
      forall i | 0 <= i < |a| ensures CharsEqualIgnoreCase(a[i], b[i]) {
        assert ToUpper(a)[i] == ToUpper(b)[i];
        CharsEqualIgnoreCaseIffUpper(a[i], b[i]);
      }
    }
  }

  /** equalsIgnoreCase is an equivalence: it is reflexive, symmetric and transitive. */
  lemma EqualsIgnoreCaseIsEquivalence(a: string, b: string, c: string)
    ensures EqualsIgnoreCase(a, a)
    ensures EqualsIgnoreCase(a, b) ==> EqualsIgnoreCase(b, a)
    ensures EqualsIgnoreCase(a, b) && EqualsIgnoreCase(b, c) ==> EqualsIgnoreCase(a, c)
  {
    EqualsIgnoreCaseIffSameUpper(a, a);
    EqualsIgnoreCaseIffSameUpper(a, b);
    EqualsIgnoreCaseIffSameUpper(b, a);
    EqualsIgnoreCaseIffSameUpper(b, c);
    EqualsIgnoreCaseIffSameUpper(a, c);
  }
}
