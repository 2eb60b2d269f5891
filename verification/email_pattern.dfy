/**
 * The sign-up form's email check, the regular expression
 *   ^W@W\.[a-zA-Z]{2,3}$   where   W = [0-9a-zA-Z]([-_.]?[0-9a-zA-Z])*
 * (the `i` flag adds nothing: every class already holds both cases). The
 * regular expression's meaning is written as a grammar; `IsEmail` is the
 * split-and-scan recognizer proved to decide it.
 */
module EmailPattern {
  import opened JsStrings

  /** The optional separators `[-_.]`. */
  predicate IsSep(c: char) { c == '-' || c == '_' || c == '.' }

  /** `([-_.]?[0-9a-zA-Z])*`: zero or more groups, each an alphanumeric optionally preceded by one separator. */
  ghost predicate Groups(g: string)
    decreases |g|
  {
    || g == []
    || (IsAsciiAlnum(g[0]) && Groups(g[1..]))
    || (|g| >= 2 && IsSep(g[0]) && IsAsciiAlnum(g[1]) && Groups(g[2..]))
  }

  /** `[0-9a-zA-Z]([-_.]?[0-9a-zA-Z])*`: the shape of the local part and of the domain name. */
  ghost predicate Word(w: string) {
    |w| >= 1 && IsAsciiAlnum(w[0]) && Groups(w[1..])
  }

  /** `[a-zA-Z]{2,3}`: the top-level domain. */
  predicate IsTld(t: string) {
    2 <= |t| <= 3 && forall k :: 0 <= k < |t| ==> IsAsciiLetter(t[k])
  }

  /** `s` reads as word, `@` at `i`, word, `.` at `j`, top-level domain. */
  ghost predicate SplitsAt(s: string, i: int, j: int) {
    && 0 <= i < j < |s|
    && Word(s[..i]) && s[i] == '@'
    && Word(s[i + 1..j]) && s[j] == '.' && IsTld(s[j + 1..])
  }

  /** What the whole regular expression accepts: some split into word, `@`, word, `.`, top-level domain. */
  ghost predicate MatchesEmail(s: string) {
    exists i, j :: SplitsAt(s, i, j)
  }

  /** Position `k` of `g` is an alphanumeric, or a separator followed by an alphanumeric. */
  predicate GuardedAt(g: string, k: nat)
    requires k < |g|
  {
    IsAsciiAlnum(g[k]) || (IsSep(g[k]) && k + 1 < |g| && IsAsciiAlnum(g[k + 1]))
  }

  /** Every character is alphanumeric or a separator, and every separator is followed by an alphanumeric. */
  predicate SepsGuarded(g: string) {
    forall k :: 0 <= k < |g| ==> GuardedAt(g, k)
  }

  /** `SepsGuarded` peeled one character at a time. */
  lemma SepsGuardedCons(g: string)
    requires |g| >= 1
    ensures SepsGuarded(g) <==> GuardedAt(g, 0) && SepsGuarded(g[1..])
  {
    forall k | 0 <= k < |g| - 1
      ensures GuardedAt(g[1..], k) <==> GuardedAt(g, k + 1)
    {
      assert g[1..][k] == g[k + 1];
      if k + 1 < |g| - 1 { assert g[1..][k + 1] == g[k + 2]; }
    }
    if GuardedAt(g, 0) && SepsGuarded(g[1..]) {
      forall k | 0 <= k < |g|
        ensures GuardedAt(g, k)
      {
        if k > 0 { assert GuardedAt(g[1..], k - 1); }
      }
    }
  }

  /** The group repetition is exactly the strings whose separators are each followed by an alphanumeric. */
  lemma {:induction false} GroupsIffSepsGuarded(g: string)
    ensures Groups(g) <==> SepsGuarded(g)
    decreases |g|
  {
    if g != [] {
      SepsGuardedCons(g);
      GroupsIffSepsGuarded(g[1..]);
      if |g| >= 2 {
        SepsGuardedCons(g[1..]);
        assert g[1..][1..] == g[2..];
        GroupsIffSepsGuarded(g[2..]);
      }
    }
  }

  /** The single-pass test for `[0-9a-zA-Z]([-_.]?[0-9a-zA-Z])*`. */
  predicate IsWord(w: string) {
    |w| >= 1 && IsAsciiAlnum(w[0]) && SepsGuarded(w[1..])
  }

  /** The single-pass test decides the word grammar. */
  lemma IsWordDecidesWord(w: string)
    ensures IsWord(w) <==> Word(w)
  {
    if |w| >= 1 {
      GroupsIffSepsGuarded(w[1..]);
    }
  }

  /** A word holds only alphanumerics and separators; in particular no `@`. */
  lemma WordAlphabet(w: string)
    requires IsWord(w)
    ensures forall k :: 0 <= k < |w| ==> IsAsciiAlnum(w[k]) || IsSep(w[k])
  {
    forall k | 1 <= k < |w|
      ensures IsAsciiAlnum(w[k]) || IsSep(w[k])
    {
      assert GuardedAt(w[1..], k - 1);
      assert w[k] == w[1..][k - 1];
    }
  }

  /** `i` is the position of the first `c` in `s`. */
  predicate FirstIs(s: string, c: char, i: int) {
    0 <= i < |s| && s[i] == c && forall k :: 0 <= k < i ==> s[k] != c
  }

  /** `j` is the position of the last `c` in `s`. */
  predicate LastIs(s: string, c: char, j: int) {
    0 <= j < |s| && s[j] == c && forall k :: j < k < |s| ==> s[k] != c
  }

  /** Position of the first `c` in `s`, or -1: `String.prototype.indexOf`. */
  function IndexOf(s: string, c: char): (r: int)
    ensures -1 <= r < |s|
    ensures r >= 0 ==> FirstIs(s, c, r)
    ensures r == -1 ==> forall k :: 0 <= k < |s| ==> s[k] != c
    decreases |s|
  {
    if s == [] then -1
    else if s[0] == c then 0
    else
      var r := IndexOf(s[1..], c);
      assert forall k :: 1 <= k < |s| ==> s[k] == s[1..][k - 1];
      if r == -1 then -1 else r + 1
  }

  /** Position of the last `c` in `s`, or -1: `String.prototype.lastIndexOf`. */
  function LastIndexOf(s: string, c: char): (r: int)
    ensures -1 <= r < |s|
    ensures r >= 0 ==> LastIs(s, c, r)
    ensures r == -1 ==> forall k :: 0 <= k < |s| ==> s[k] != c
    decreases |s|
  {
    if s == [] then -1
    else if s[|s| - 1] == c then |s| - 1
    else LastIndexOf(s[..|s| - 1], c)
  }

  /** The same split as `SplitsAt`, with each word checked by the one-pass test. */
  predicate Splits(s: string, i: int, j: int) {
    && 0 <= i < j < |s|
    && IsWord(s[..i]) && s[i] == '@'
    && IsWord(s[i + 1..j]) && s[j] == '.' && IsTld(s[j + 1..])
  }

  /** The checked split and the grammar's split agree. */
  lemma SplitsAgree(s: string, i: int, j: int)
    ensures Splits(s, i, j) <==> SplitsAt(s, i, j)
  {
    if 0 <= i < j < |s| {
      IsWordDecidesWord(s[..i]);
      IsWordDecidesWord(s[i + 1..j]);
    }
  }

  /**
   * The recognizer: split at the first `@`, split the rest at its last `.`,
   * and test the three pieces. It accepts exactly what the regular
   * expression accepts.
   */
  function IsEmail(s: string): (r: bool)
    ensures r <==> MatchesEmail(s)
  {
    var i := IndexOf(s, '@');
    if i < 0 then
      NoAtNoMatch(s);
      false
    else
      var rest := s[i + 1..];
      var j := LastIndexOf(rest, '.');
      if j < 0 then
        MatchHasDotAfterAt(s, i);
        false
      else
        SplitAtFoundDecides(s, i, j);
        SplitPieces(s, i, j);
        IsWord(s[..i]) && IsWord(rest[..j]) && IsTld(rest[j + 1..])
  }

  /** Without an `@` there is no match. */
  lemma NoAtNoMatch(s: string)
    requires forall k :: 0 <= k < |s| ==> s[k] != '@'
    ensures !MatchesEmail(s)
  {
  }

  /** In a match, a `.` follows the first `@`. */
  lemma MatchHasDotAfterAt(s: string, i: int)
    requires FirstIs(s, '@', i)
    ensures MatchesEmail(s) ==> exists k :: i < k < |s| && s[k] == '.' && s[i + 1..][k - i - 1] == '.'
  {
    if MatchesEmail(s) {
      var a, b :| SplitsAt(s, a, b);
      SplitsAgree(s, a, b);
      FirstAt(s, a, i);
      assert s[i + 1..][b - i - 1] == s[b];
    }
  }

  /** With the first `@` at `i` and the last `.` after it at `j`, that split is a witness exactly when the string matches. */
  lemma SplitAtFoundDecides(s: string, i: int, j: int)
    requires FirstIs(s, '@', i) && LastIs(s[i + 1..], '.', j)
    ensures MatchesEmail(s) <==> Splits(s, i, i + 1 + j)
  {
    if MatchesEmail(s) {
      var a, b :| SplitsAt(s, a, b);
      SplitsAgree(s, a, b);
      SplitIsCanonical(s, a, b, i, j);
    }
    if Splits(s, i, i + 1 + j) {
      SplitsAgree(s, i, i + 1 + j);
    }
  }

  /** One witnessing split is enough for a match. */
  lemma WitnessMatches(s: string, i: int, j: int)
    requires Splits(s, i, j)
    ensures MatchesEmail(s)
  {
    SplitsAgree(s, i, j);
  }

  /** With `@` at `i` and `.` at `j` after it, the split is a witness when its three pieces have the right shapes. */
  lemma SplitPieces(s: string, i: nat, j: nat)
    requires i < |s| && j < |s[i + 1..]| && s[i] == '@' && s[i + 1..][j] == '.'
    ensures Splits(s, i, i + 1 + j) <==>
      IsWord(s[..i]) && IsWord(s[i + 1..][..j]) && IsTld(s[i + 1..][j + 1..])
  {
    assert s[i + 1..i + 1 + j] == s[i + 1..][..j];
    assert s[i + 1 + j + 1..] == s[i + 1..][j + 1..];
  }

  /** Any witnessing split is the one the recognizer finds: the first `@` and the last `.` after it. */
  lemma SplitIsCanonical(s: string, a: int, b: int, i: int, j: int)
    requires Splits(s, a, b)
    requires FirstIs(s, '@', i) && LastIs(s[i + 1..], '.', j)
    ensures i == a && i + 1 + j == b
  {
    FirstAt(s, a, i);
    LastDot(s, a, b, j);
  }

  /** The `@` after a word is the first one. */
  lemma FirstAt(s: string, a: int, i: int)
    requires 0 <= a < |s| && IsWord(s[..a]) && s[a] == '@'
    requires FirstIs(s, '@', i)
    ensures i == a
  {
    WordAlphabet(s[..a]);
    forall k | 0 <= k < a
      ensures s[k] != '@'
    {
      assert s[k] == s[..a][k];
    }
  }

  /** The `.` before a top-level domain is the last one. */
  lemma LastDot(s: string, a: int, b: int, j: int)
    requires 0 <= a < b < |s| && s[b] == '.' && IsTld(s[b + 1..])
    requires LastIs(s[a + 1..], '.', j)
    ensures j == b - a - 1
  {
    var rest := s[a + 1..];
    assert rest[b - a - 1] == '.';
    forall k | b - a - 1 < k < |rest|
      ensures rest[k] != '.'
    {
      assert rest[k] == s[b + 1..][k - (b - a)];
    }
  }

  /** A dotted domain name is accepted: the last label is the top-level domain. */
  lemma AcceptsDottedDomain()
    ensures IsEmail("cook@fridge.co.kr")
  {
    DottedDomainSplit();
    WitnessMatches("cook@fridge.co.kr", 4, 14);
  }

  /** The witnessing split of `cook@fridge.co.kr`: `cook`, `@`, `fridge.co`, `.`, `kr`. */
  lemma DottedDomainSplit()
    ensures Splits("cook@fridge.co.kr", 4, 14)
  {
    var s := "cook@fridge.co.kr";
    assert s[..4] == "cook";
    assert s[5..14] == "fridge.co";
    assert s[15..] == "kr";
    assert "cook"[1..] == "ook";
    assert "fridge.co"[1..] == "ridge.co";
    assert SepsGuarded("ook") && SepsGuarded("ridge.co");
  }

  /** Two separators in a row are rejected. */
  lemma RejectsDoubledSeparator()
    ensures !IsEmail("a..b@x.io")
  {
    var t := "a..b@x.io";
    assert IndexOf(t, '@') == 4;
    assert t[..4][1..] == "..b";
    assert !GuardedAt("..b", 0);
  }

  /** A top-level domain of four letters is rejected. */
  lemma RejectsLongTld()
    ensures !IsEmail("ab@x.info")
  {
    var u := "ab@x.info";
    assert IndexOf(u, '@') == 2;
    assert u[3..] == "x.info";
    var d := "x.info";
    assert d[1] == '.' && d[0] != '.' && d[2] != '.' && d[3] != '.' && d[4] != '.' && d[5] != '.';
    assert LastIndexOf(d, '.') == 1;
    assert "x.info"[2..] == "info";
  }
}
