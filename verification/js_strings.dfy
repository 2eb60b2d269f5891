/**
 * The parts of JavaScript string semantics the application relies on:
 * `String.prototype.trim`, `.length` (counted in UTF-16 code units) and the
 * ASCII and Hangul character classes its regular expressions use.
 */
module JsStrings {

  /** ECMAScript WhiteSpace and LineTerminator code points: the set `trim` strips. */
  predicate IsWhiteSpace(c: char) {
    || c == '\t' || c == '\n' || c == '\U{B}' || c == '\U{C}' || c == '\r' || c == ' '
    || c == '\U{A0}' || c == '\U{1680}' || ('\U{2000}' <= c <= '\U{200A}')
    || c == '\U{2028}' || c == '\U{2029}' || c == '\U{202F}' || c == '\U{205F}'
    || c == '\U{3000}' || c == '\U{FEFF}'
  }

  predicate AllWhiteSpace(s: string) {
    forall k :: 0 <= k < |s| ==> IsWhiteSpace(s[k])
  }

  /** A string `trim` leaves alone: empty, or neither end is white space. */
  predicate IsTrimmed(s: string) {
    s == [] || (!IsWhiteSpace(s[0]) && !IsWhiteSpace(s[|s| - 1]))
  }

  /** Number of white-space characters at the front of `s`. */
  function LeadingWhiteSpace(s: string): (n: nat)
    ensures n <= |s|
    ensures AllWhiteSpace(s[..n])
    ensures n < |s| ==> !IsWhiteSpace(s[n])
  {
    if |s| == 0 || !IsWhiteSpace(s[0]) then 0
    else
      var m := LeadingWhiteSpace(s[1..]);
      assert s[..m + 1] == [s[0]] + s[1..][..m];
      m + 1
  }

  /** Number of white-space characters at the back of `s`. */
  function TrailingWhiteSpace(s: string): (n: nat)
    ensures n <= |s|
    ensures AllWhiteSpace(s[|s| - n..])
    ensures n < |s| ==> !IsWhiteSpace(s[|s| - n - 1])
  {
    if |s| == 0 || !IsWhiteSpace(s[|s| - 1]) then 0
    else
      var init := s[..|s| - 1];
      var m := TrailingWhiteSpace(init);
      assert s[|s| - (m + 1)..] == init[|init| - m..] + [s[|s| - 1]];
      m + 1
  }

  /** `r` is `s` with the white space before index `i` and after `r` cut off. */
  predicate TrimsTo(s: string, i: int, r: string) {
    && 0 <= i && i + |r| <= |s| && r == s[i..i + |r|]
    && AllWhiteSpace(s[..i]) && AllWhiteSpace(s[i + |r|..])
  }

  /**
   * `s.trim()`: the slice of `s` left after dropping white space at both
   * ends; a blank string trims to the empty string.
   */
  function Trim(s: string): (r: string)
    ensures IsTrimmed(r)
    ensures exists i :: TrimsTo(s, i, r)
    ensures r == [] <==> AllWhiteSpace(s)
  {
    var a := LeadingWhiteSpace(s);
    var t := s[a..];
    var b := TrailingWhiteSpace(t);
    assert t[|t| - b..] == s[|s| - b..];
    assert b < |t| ==> t[|t| - b - 1] == s[|s| - b - 1];
    TrimSlice(s, a, b);
    s[a..|s| - b]
  }

  /**
   * Cutting `a` white-space characters from the front and `b` from the back,
   * both maximal, leaves a trimmed slice that is empty exactly when `s` is blank.
   */
  lemma TrimSlice(s: string, a: nat, b: nat)
    requires a + b <= |s|
    requires AllWhiteSpace(s[..a]) && (a < |s| ==> !IsWhiteSpace(s[a]))
    requires AllWhiteSpace(s[|s| - b..]) && (a + b < |s| ==> !IsWhiteSpace(s[|s| - b - 1]))
    ensures IsTrimmed(s[a..|s| - b])
    ensures TrimsTo(s, a, s[a..|s| - b])
    ensures s[a..|s| - b] == [] <==> AllWhiteSpace(s)
  {
    var r := s[a..|s| - b];
    assert a + |r| == |s| - b;
    if r == [] {
      assert s[..a] == s;
    }
  }

  /** Trimming a trimmed string changes nothing, so `trim` is idempotent. */
  lemma TrimOfTrimmed(s: string)
    requires IsTrimmed(s)
    ensures Trim(s) == s
  {
    var r := Trim(s);
    var i :| TrimsTo(s, i, r);
  }

  lemma TrimIdempotent(s: string)
    ensures Trim(Trim(s)) == Trim(s)
  {
    TrimOfTrimmed(Trim(s));
  }

  /** Number of UTF-16 code units of one character: two for a supplementary-plane character. */
  function Utf16Units(c: char): nat {
    if c as int > 0xFFFF then 2 else 1
  }

  /** `s.length`: JavaScript counts UTF-16 code units, not characters. */
  function Utf16Length(s: string): (n: nat)
    ensures |s| <= n <= 2 * |s|
    ensures n == |s| <==> forall k :: 0 <= k < |s| ==> s[k] as int <= 0xFFFF
  {
    if s == [] then 0 else Utf16Units(s[0]) + Utf16Length(s[1..])
  }

  predicate IsDigit(c: char) { '0' <= c <= '9' }

  predicate IsAsciiLetter(c: char) { ('a' <= c <= 'z') || ('A' <= c <= 'Z') }

  predicate IsAsciiAlnum(c: char) { IsDigit(c) || IsAsciiLetter(c) }

  /** The regular-expression range `[가-힣]`: the precomposed Hangul syllables. */
  predicate IsHangulSyllable(c: char) { '\U{AC00}' <= c <= '\U{D7A3}' }

  /** Whether some character of `s` satisfies `p`: what `/[class]/.test(s)` decides. */
  function Any(s: string, p: char -> bool): (r: bool)
    ensures r <==> exists k :: 0 <= k < |s| && p(s[k])
  {
    if s == [] then false
    else
      var rest := Any(s[1..], p);
      assert forall k :: 1 <= k < |s| ==> s[k] == s[1..][k - 1];
      p(s[0]) || rest
  }

  /** Whether every character of `s` satisfies `p`: what `/^[class]*$/.test(s)` decides. */
  function All(s: string, p: char -> bool): (r: bool)
    ensures r <==> forall k :: 0 <= k < |s| ==> p(s[k])
  {
    if s == [] then true
    else
      var rest := All(s[1..], p);
      assert forall k :: 1 <= k < |s| ==> s[k] == s[1..][k - 1];
      p(s[0]) && rest
  }
}
