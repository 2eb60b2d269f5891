/**
 * The sign-up page's client-side checks: the email and nickname patterns,
 * the password rule, the password-confirmation flag and the submit button's
 * `disabled` condition, with the handlers that consult them.
 */
module SignUp {
  import opened Wrappers
  import opened JsStrings
  import EmailPattern

  const EmailType := "sign-up"
  const SocialType := "Refrigerator-Alchemist"
  const EmailFormatError := "이메일 형식이 올바르지 않습니다"
  const NicknameRuleError := "한글은 최소 2글자, 영문은 최소 3글자 이상 입력하세요. 숫자는 선택적으로 포함할 수 있습니다."

  /** The page's own state. */
  datatype SignUpForm = SignUpForm(
    email: string, emailError: string, inputNum: string,
    nickName: string, nameError: string,
    password: string, checkPassword: string)

  /** Requests the page hands to the user context. */
  datatype ApiCall =
    | RequestEmailForSignUp(email: string, emailType: string, socialType: string)
    | CheckNameDuplication(nickName: string)

  /** A handler's effect: the new page state and the request it made, if any. */
  datatype Handled = Handled(form: SignUpForm, call: Option<ApiCall>)

  /** The special characters `[!@#$%^&*]`. */
  predicate IsSpecial(c: char) {
    c == '!' || c == '@' || c == '#' || c == '$' || c == '%' || c == '^' || c == '&' || c == '*'
  }

  /**
   * `isPasswordValid`: 8 to 15 UTF-16 code units long, with at least one
   * decimal digit, one of `!@#$%^&*` and one ASCII letter.
   */
  function IsPasswordValid(p: string): (r: bool)
    ensures r <==> && 8 <= Utf16Length(p) <= 15
                   && (exists k :: 0 <= k < |p| && IsDigit(p[k]))
                   && (exists k :: 0 <= k < |p| && IsSpecial(p[k]))
                   && (exists k :: 0 <= k < |p| && IsAsciiLetter(p[k]))
  {
    8 <= Utf16Length(p) <= 15 && Any(p, IsDigit) && Any(p, IsSpecial) && Any(p, IsAsciiLetter)
  }

  /** The checklist's length indicator, which tests only `password.length >= 8`. */
  predicate LengthIndicator(p: string)
    ensures |p| >= 8 ==> LengthIndicator(p)
    ensures LengthIndicator(p) ==> |p| >= 4
    ensures (forall k :: 0 <= k < |p| ==> p[k] as int <= 0xFFFF) ==> (LengthIndicator(p) <==> |p| >= 8)
  {
    Utf16Length(p) >= 8
  }

  /** A valid password always lights the length indicator... */
  lemma ValidPasswordLightsLengthIndicator(p: string)
    requires IsPasswordValid(p)
    ensures LengthIndicator(p)
  {
  }

  /** ...but not conversely: eight letters light it and are not a valid password. */
  lemma LengthIndicatorIsWeaker()
    ensures LengthIndicator("abcdefgh") && !IsPasswordValid("abcdefgh")
  {
    EightLettersLength();
    EightLettersNoDigit();
  }

  lemma EightLettersLength()
    ensures Utf16Length("abcdefgh") == 8
  {
    assert forall k :: 0 <= k < 8 ==> "abcdefgh"[k] as int <= 0xFFFF;
  }

  lemma EightLettersNoDigit()
    ensures forall k :: 0 <= k < |"abcdefgh"| ==> !IsDigit("abcdefgh"[k])
  {
    assert !IsDigit("abcdefgh"[0]) && !IsDigit("abcdefgh"[1]) && !IsDigit("abcdefgh"[2]) && !IsDigit("abcdefgh"[3]);
    assert !IsDigit("abcdefgh"[4]) && !IsDigit("abcdefgh"[5]) && !IsDigit("abcdefgh"[6]) && !IsDigit("abcdefgh"[7]);
  }

  /** Length is counted in code units: six characters, three of them outside the BMP, make a valid password. */
  lemma SupplementaryCharactersCountTwice()
    ensures IsPasswordValid("a1!\U{1F600}\U{1F600}\U{1F600}")
  {
    var p := "a1!\U{1F600}\U{1F600}\U{1F600}";
    assert p[3..] == "\U{1F600}\U{1F600}\U{1F600}";
    assert Utf16Length(p[3..]) == 6 by {
      assert p[3..][1..] == "\U{1F600}\U{1F600}";
      assert p[3..][1..][1..] == "\U{1F600}";
    }
    assert Utf16Length(p) == 9 by {
      assert p[1..] == "1!\U{1F600}\U{1F600}\U{1F600}";
      assert p[1..][1..] == "!\U{1F600}\U{1F600}\U{1F600}";
      assert p[1..][1..][1..] == p[3..];
    }
    assert IsDigit(p[1]) && IsSpecial(p[2]) && IsAsciiLetter(p[0]);
  }

  predicate IsHangulOrDigit(c: char) { IsHangulSyllable(c) || IsDigit(c) }

  /**
   * The nickname pattern `^[가-힣0-9]{2,}$|^[A-Za-z0-9]{3,}$`: two or more
   * Hangul syllables and digits, or three or more ASCII letters and digits.
   * Every character either class admits is one UTF-16 code unit, so the
   * repetition counts are character counts.
   */
  function IsNickname(n: string): (r: bool)
    ensures r <==> || (|n| >= 2 && forall k :: 0 <= k < |n| ==> IsHangulOrDigit(n[k]))
                   || (|n| >= 3 && forall k :: 0 <= k < |n| ==> IsAsciiAlnum(n[k]))
  {
    (|n| >= 2 && All(n, IsHangulOrDigit)) || (|n| >= 3 && All(n, IsAsciiAlnum))
  }

  /** A name mixing Hangul and Latin letters matches neither alternative. */
  lemma MixedScriptNicknameRejected(n: string, i: int, j: int)
    requires 0 <= i < |n| && 0 <= j < |n|
    requires IsHangulSyllable(n[i]) && IsAsciiLetter(n[j])
    ensures !IsNickname(n)
  {
  }

  /** A name of digits only is taken by the Hangul alternative, so two digits already suffice. */
  lemma DigitNickname(n: string)
    requires forall k :: 0 <= k < |n| ==> IsDigit(n[k])
    ensures IsNickname(n) <==> |n| >= 2
  {
  }

  /**
   * `checkDuplication`: a nickname failing the pattern is cleared and an
   * error shown; a matching one clears the error and, only then, is sent
   * for the duplication check.
   */
  function CheckDuplication(f: SignUpForm): (r: Handled)
    ensures r.call.Some? <==> IsNickname(f.nickName)
    ensures r.call.Some? ==> r.call.value == CheckNameDuplication(f.nickName)
                             && r.form == f.(nameError := "")
    ensures r.call.None? ==> r.form == f.(nickName := "", nameError := NicknameRuleError)
                             && r.form.nameError != ""
  {
    if !IsNickname(f.nickName) then
      Handled(f.(nameError := NicknameRuleError, nickName := ""), None)
    else
      Handled(f.(nameError := ""), Some(CheckNameDuplication(f.nickName)))
  }

  /**
   * `requestVerifying`: an empty email stops at a toast with nothing
   * changed; one failing the pattern is cleared and an error shown; only a
   * matching email reaches `requestEmailForSignUp`.
   */
  function RequestVerifying(f: SignUpForm): (r: Handled)
    ensures f.email == "" ==> r == Handled(f, None)
    ensures r.call.Some? <==> EmailPattern.MatchesEmail(f.email)
    ensures r.call.Some? ==> r.call.value == RequestEmailForSignUp(f.email, EmailType, SocialType)
                             && r.form == f.(emailError := "")
    ensures f.email != "" && r.call.None? ==> r.form == f.(email := "", emailError := EmailFormatError)
  {
    if f.email == "" then Handled(f, None)
    else if !EmailPattern.IsEmail(f.email) then
      Handled(f.(emailError := EmailFormatError, email := ""), None)
    else
      Handled(f.(emailError := ""), Some(RequestEmailForSignUp(f.email, EmailType, SocialType)))
  }

  /**
   * `isSamePassword`: no verdict (`null`) while either field is empty,
   * otherwise whether the two fields agree.
   */
  function PasswordMessage(password: string, checkPassword: string): (r: Option<bool>)
    ensures r.None? <==> password == "" || checkPassword == ""
    ensures r.Some? ==> (r.value <==> password == checkPassword)
  {
    if password != "" && checkPassword != "" then Some(password == checkPassword) else None
  }

  /** The confirmation flag does not care which field is which. */
  lemma PasswordMessageSymmetric(p: string, c: string)
    ensures PasswordMessage(p, c) == PasswordMessage(c, p)
  {
  }

  /** What the submit button's `disabled` expression reads. */
  datatype SubmitGate = SubmitGate(
    emailExists: bool, verified: bool, nameDuplicated: bool,
    password: string, checkPassword: string)

  /**
   * The `disabled` expression as written: a conjunction of the failure
   * conditions, so the button is disabled only when all of them hold, and
   * meeting any single check enables it. The `isPasswordValid` conjunct adds
   * nothing, since a length outside 8 to 15 already makes the password invalid.
   */
  predicate SubmitDisabled(g: SubmitGate)
    ensures SubmitDisabled(g) <==>
              && g.emailExists && !g.verified && g.nameDuplicated
              && !(8 <= Utf16Length(g.password) <= 15)
              && !(g.password != "" && g.password == g.checkPassword)
  {
    && g.emailExists
    && !g.verified
    && g.nameDuplicated
    && (Utf16Length(g.password) < 8 || Utf16Length(g.password) > 15)
    && !IsPasswordValid(g.password)
    && PasswordMessage(g.password, g.checkPassword) != Some(true)
  }

  /** For instance two matching one-letter passwords enable it with the email taken, unverified, and the nickname taken. */
  lemma MatchingPasswordsAloneEnableSubmit()
    ensures !SubmitDisabled(SubmitGate(true, false, true, "a", "a"))
    ensures SubmitDisabledIntended(SubmitGate(true, false, true, "a", "a"))
  {
  }

  /**
   * The evident intent: the button stays disabled while any check fails:
   * the email is taken, it is unverified, the nickname is taken, the
   * password is invalid, or the confirmation does not match.
   */
  predicate SubmitDisabledIntended(g: SubmitGate) {
    || g.emailExists
    || !g.verified
    || g.nameDuplicated
    || !IsPasswordValid(g.password)
    || PasswordMessage(g.password, g.checkPassword) != Some(true)
  }

  /** With the intended condition an enabled button means every check passed. */
  lemma IntendedSubmitRequiresAllChecks(g: SubmitGate)
    requires !SubmitDisabledIntended(g)
    ensures !g.emailExists && g.verified && !g.nameDuplicated
    ensures 8 <= Utf16Length(g.password) <= 15 && g.password == g.checkPassword
    ensures !SubmitDisabled(g)
  {
  }
}
