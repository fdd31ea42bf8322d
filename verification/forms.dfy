/**
 * The posted forms the controller actions receive, and the one validation
 * rule the core depends on: a [Required] string field rejects a missing,
 * empty or all-white-space value.
 *
 * Model binding turns a posted value that is empty or only white space into
 * null; null is represented here by the string as posted, and every test of
 * a field goes through `IsNullOrWhiteSpace`, which is true of both.
 */
module Forms {

  /** char.IsWhiteSpace: the Unicode separators plus U+0009..U+000D and U+0085. */
  predicate IsWhiteSpace(c: char) {
    || ('\t' <= c <= '\r')
    || c == ' ' || c == '\U{85}' || c == '\U{A0}' || c == '\U{1680}'
    || ('\U{2000}' <= c <= '\U{200A}')
    || c == '\U{2028}' || c == '\U{2029}' || c == '\U{202F}' || c == '\U{205F}' || c == '\U{3000}'
  }

  /** string.IsNullOrWhiteSpace, and equally whether binding produced null. */
  predicate IsNullOrWhiteSpace(s: string) {
    forall k :: 0 <= k < |s| ==> IsWhiteSpace(s[k])
  }

  /** string.TrimStart(): `s` without its leading white space. */
  function TrimStart(s: string): (r: string)
    ensures |r| <= |s| && r == s[|s| - |r|..]
    ensures r == [] || !IsWhiteSpace(r[0])
    ensures forall k :: 0 <= k < |s| - |r| ==> IsWhiteSpace(s[k])
    decreases |s|
  {
    if s != [] && IsWhiteSpace(s[0]) then TrimStart(s[1..]) else s
  }

  /** string.TrimEnd(): `s` without its trailing white space. */
  function TrimEnd(s: string): (r: string)
    ensures |r| <= |s| && r == s[..|r|]
    ensures r == [] || !IsWhiteSpace(r[|r| - 1])
    ensures forall k :: |r| <= k < |s| ==> IsWhiteSpace(s[k])
    decreases |s|
  {
    if s != [] && IsWhiteSpace(s[|s| - 1]) then TrimEnd(s[..|s| - 1]) else s
  }

  /** string.Trim(). */
  function Trim(s: string): string {
    TrimEnd(TrimStart(s))
  }

  /** What a [Required] string field accepts. */
  predicate Required(s: string) {
    !IsNullOrWhiteSpace(s)
  }

  /**
   * RequiredAttribute accepts a string whose trimmed form is not empty: that
   * is the same as the value having a character that is not white space.
   */
  lemma {:induction false} RequiredIffTrimmedNonEmpty(s: string)
    ensures Required(s) <==> Trim(s) != ""
    ensures Required(s) <==> exists k :: 0 <= k < |s| && !IsWhiteSpace(s[k])
  {
    var t := TrimStart(s);
    if t == [] {
      assert IsNullOrWhiteSpace(s);
    } else {
      assert s[|s| - |t|] == t[0];
      assert !IsWhiteSpace(t[0]);
    }
  }

  datatype SignupForm = SignupForm(username: string, email: string, password: string)

  /** The login form; `mfaCode` is empty unless the second step posts one. */
  datatype LoginForm = LoginForm(
    usernameOrEmail: string,
    password: string,
    rememberMe: bool,
    mfaCode: string)

  /** Model validation of the login form: its two [Required] fields. */
  predicate LoginFormValid(f: LoginForm) {
    Required(f.usernameOrEmail) && Required(f.password)
  }

  /**
   * Whether the login form carries an MFA code: the action's
   * string.IsNullOrEmpty test on the bound value fails exactly when the
   * posted code has a character that is not white space.
   */
  predicate HasMfaCode(f: LoginForm) {
    !IsNullOrWhiteSpace(f.mfaCode)
  }

  /** The enrollment confirmation form holds one required field, the verification code. */
  predicate VerificationFormValid(code: string) {
    Required(code)
  }
}
