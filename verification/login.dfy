/**
 * The login state machine: look the user up by username or email, check
 * the password, demand and check a TOTP code when the user has MFA enabled,
 * then record the success, stamp the last-login date and issue a session.
 * An unknown user and a wrong password are reported with the same message;
 * only a wrong password and a full success write a history row.
 */
module LoginFlow {
  import opened Models
  import opened Db
  import opened Crypto
  import opened Passwords
  import opened Forms

  /** The authentication cookie's content: the user's three claims and its persistence. */
  datatype Session = Session(userId: nat, name: string, email: string, persistent: bool)

  datatype LoginOutcome =
    | FormRejected                  // a required field is blank
    | InvalidLogin                  // unknown user or wrong password
    | MfaRequired(codeRejected: bool) // ask for a code; `codeRejected` when one was posted and refused
    | SignedIn(session: Session)    // signed in, redirect to the home page

  const InvalidLoginAttempt: string := "Invalid login attempt"
  const InvalidMfaCode: string := "Invalid MFA code"

  /** The error shown with an outcome, if any. */
  function ErrorText(o: LoginOutcome): Option<string> {
    match o
    case InvalidLogin => Some(InvalidLoginAttempt)
    case MfaRequired(rejected) => if rejected then Some(InvalidMfaCode) else None
    case _ => None
  }

  /** One posted login form with what the request carries besides it. */
  datatype LoginRequest = LoginRequest(
    form: LoginForm,
    ipAddress: Option<string>,
    userAgent: string,
    now: Time)

  /** Whether the user with id `userId` has an MFA row with MFA switched on; no row counts as off. */
  predicate MfaOn(s: Store, userId: nat)
    ensures MfaOn(s, userId) ==>
      exists j :: 0 <= j < |s.mfaSettings| && s.mfaSettings[j].userId == userId && s.mfaSettings[j].isEnabled
  {
    match FindMfa(s, userId)
    case None => false
    case Some(j) => s.mfaSettings[j].isEnabled
  }

  /**
   * In a valid store a user has at most one MFA row, so MFA is on exactly
   * when some row of that user has it switched on.
   */
  lemma MfaOnMeansEnabledRow(s: Store, userId: nat)
    requires Valid(s)
    ensures MfaOn(s, userId) <==>
      exists j :: 0 <= j < |s.mfaSettings| && s.mfaSettings[j].userId == userId && s.mfaSettings[j].isEnabled
  {
    if j :| 0 <= j < |s.mfaSettings| && s.mfaSettings[j].userId == userId && s.mfaSettings[j].isEnabled {
      assert FindMfa(s, userId) == Some(j);
    }
  }

  /** SignInUser: the session issued for `u`. */
  function SignInUser(u: User, isPersistent: bool): Session {
    Session(u.userId, u.username, u.email, isPersistent)
  }

  /**
   * The last step of a successful login: last-login date, history row dated
   * `rowDate`, session.
   */
  function CompleteSignIn(s: Store, i: nat, req: LoginRequest, rowDate: Time): (r: (Store, LoginOutcome))
    requires i < |s.users|
    ensures |r.0.users| == |s.users| && r.0.users[i] == s.users[i].(lastLoginDate := Some(req.now))
    ensures forall k :: 0 <= k < |s.users| && k != i ==> r.0.users[k] == s.users[k]
    ensures r.0.mfaSettings == s.mfaSettings
    ensures |r.0.history| == |s.history| + 1 && r.0.history[..|s.history|] == s.history
    ensures var row := r.0.history[|s.history|];
      && row.userId == s.users[i].userId && row.loginStatus && row.loginDate == rowDate
      && row.ipAddress == IpOrUnknown(req.ipAddress) && row.userAgent == req.userAgent
    ensures r.1 == SignedIn(SignInUser(s.users[i], req.form.rememberMe))
    ensures Valid(s) ==> Valid(r.0)
    ensures EveryUserHasMfa(s) ==> EveryUserHasMfa(r.0)
  {
    var u := s.users[i];
    var s1 := UpdateUser(s, i, u.(lastLoginDate := Some(req.now)));
    assert HasUser(s1.users, u.userId) by {
      assert s1.users[i].userId == u.userId;
    }
    var s2 := RecordAttempt(s1, u.userId, true, rowDate, req.ipAddress, req.userAgent);
    (s2, SignedIn(SignInUser(u, req.form.rememberMe)))
  }

  /**
   * The part of the POST action after the form is accepted and `i` is the
   * user the login names: password check, MFA gate, sign-in.
   */
  function KnownUserLogin(s: Store, oracles: Oracles, req: LoginRequest, i: nat, rowDate: Time): (r: (Store, LoginOutcome))
    requires i < |s.users|
    ensures var u := s.users[i];
      && (r.1.InvalidLogin? <==> !VerifyPasswordHash(oracles.hmac, req.form.password, u.passwordHash, u.passwordSalt))
      && (r.1.InvalidLogin? ==> r.0 == RecordAttempt(s, u.userId, false, rowDate, req.ipAddress, req.userAgent))
    ensures var u := s.users[i];
      && (r.1.MfaRequired? <==>
            && VerifyPasswordHash(oracles.hmac, req.form.password, u.passwordHash, u.passwordSalt)
            && MfaOn(s, u.userId)
            && (!HasMfaCode(req.form) ||
                !oracles.validPin(req.now, s.mfaSettings[FindMfa(s, u.userId).value].secretKey, req.form.mfaCode)))
      && (r.1.MfaRequired? ==> r.0 == s && (r.1.codeRejected <==> HasMfaCode(req.form)))
    ensures var u := s.users[i];
      && (r.1.SignedIn? <==>
            && VerifyPasswordHash(oracles.hmac, req.form.password, u.passwordHash, u.passwordSalt)
            && (MfaOn(s, u.userId) ==>
                  HasMfaCode(req.form) &&
                  oracles.validPin(req.now, s.mfaSettings[FindMfa(s, u.userId).value].secretKey, req.form.mfaCode)))
      && (r.1.SignedIn? ==> r == CompleteSignIn(s, i, req, rowDate))
    ensures r.1.InvalidLogin? || r.1.MfaRequired? || r.1.SignedIn?
  {
    var f := req.form;
    var u := s.users[i];
    if !VerifyPasswordHash(oracles.hmac, f.password, u.passwordHash, u.passwordSalt) then
      (RecordAttempt(s, u.userId, false, rowDate, req.ipAddress, req.userAgent), InvalidLogin)
    else if MfaOn(s, u.userId) && !HasMfaCode(f) then
      (s, MfaRequired(false))
    else if MfaOn(s, u.userId) &&
            !oracles.validPin(req.now, s.mfaSettings[FindMfa(s, u.userId).value].secretKey, f.mfaCode) then
      (s, MfaRequired(true))
    else
      CompleteSignIn(s, i, req, rowDate)
  }

  /**
   * The POST action, with the date written into its history rows as a
   * parameter. `oracles` supplies the keyed hash and the PIN check.
   */
  function LoginAt(s: Store, oracles: Oracles, req: LoginRequest, rowDate: Time): (r: (Store, LoginOutcome))
    // Form validation comes first and has no effect.
    ensures !LoginFormValid(req.form) ==> r == (s, FormRejected)
    // Unknown user: generic error, nothing written.
    ensures LoginFormValid(req.form) && FindUserByLogin(s, req.form.usernameOrEmail).None? ==>
      r == (s, InvalidLogin)
    ensures r.1.InvalidLogin? <==>
      && LoginFormValid(req.form)
      && match FindUserByLogin(s, req.form.usernameOrEmail)
         case None => true
         case Some(i) => !VerifyPasswordHash(oracles.hmac, req.form.password, s.users[i].passwordHash, s.users[i].passwordSalt)
    // Wrong password: the same error, and exactly one failed-attempt row for that user.
    ensures r.1.InvalidLogin? && FindUserByLogin(s, req.form.usernameOrEmail).Some? ==>
      && r.0.users == s.users && r.0.mfaSettings == s.mfaSettings
      && |r.0.history| == |s.history| + 1 && r.0.history[..|s.history|] == s.history
      && r.0.history[|s.history|].userId == s.users[FindUserByLogin(s, req.form.usernameOrEmail).value].userId
      && !r.0.history[|s.history|].loginStatus
      && r.0.history[|s.history|].loginDate == rowDate
    // The MFA gate: asking for, or refusing, a code writes nothing.
    ensures r.1.MfaRequired? ==> r.0 == s
    ensures r.1.MfaRequired? <==>
      && LoginFormValid(req.form)
      && FindUserByLogin(s, req.form.usernameOrEmail).Some?
      && var u := s.users[FindUserByLogin(s, req.form.usernameOrEmail).value];
      && VerifyPasswordHash(oracles.hmac, req.form.password, u.passwordHash, u.passwordSalt)
      && MfaOn(s, u.userId)
      && (!HasMfaCode(req.form) ||
          !oracles.validPin(req.now, s.mfaSettings[FindMfa(s, u.userId).value].secretKey, req.form.mfaCode))
    ensures r.1.MfaRequired? ==> (r.1.codeRejected <==> HasMfaCode(req.form))
    // Success: password accepted, and the code too when MFA is on.
    ensures r.1.SignedIn? <==>
      && LoginFormValid(req.form)
      && FindUserByLogin(s, req.form.usernameOrEmail).Some?
      && var u := s.users[FindUserByLogin(s, req.form.usernameOrEmail).value];
      && VerifyPasswordHash(oracles.hmac, req.form.password, u.passwordHash, u.passwordSalt)
      && (MfaOn(s, u.userId) ==>
            HasMfaCode(req.form) &&
            oracles.validPin(req.now, s.mfaSettings[FindMfa(s, u.userId).value].secretKey, req.form.mfaCode))
    ensures r.1.SignedIn? ==>
      var i := FindUserByLogin(s, req.form.usernameOrEmail).value;
      && r == CompleteSignIn(s, i, req, rowDate)
      && r.1.session == SignInUser(s.users[i], req.form.rememberMe)
    // Whatever happens: no identity changes, MFA settings untouched, history only appended to.
    ensures |r.0.users| == |s.users|
    ensures forall k :: 0 <= k < |s.users| ==>
      && r.0.users[k].userId == s.users[k].userId
      && r.0.users[k].username == s.users[k].username && r.0.users[k].email == s.users[k].email
    ensures r.0.mfaSettings == s.mfaSettings
    ensures |s.history| <= |r.0.history| <= |s.history| + 1 && r.0.history[..|s.history|] == s.history
    ensures Valid(s) ==> Valid(r.0)
    ensures EveryUserHasMfa(s) ==> EveryUserHasMfa(r.0)
  {
    var f := req.form;
    if !LoginFormValid(f) then (s, FormRejected)
    else match FindUserByLogin(s, f.usernameOrEmail)
      case None => (s, InvalidLogin)
      case Some(i) =>
        assert HasUser(s.users, s.users[i].userId);
        KnownUserLogin(s, oracles, req, i, rowDate)
  }

  /**
   * The session a successful login issues leads back to the signed-in user:
   * its id claim, looked up as the MFA setup actions look it up, finds the
   * very user the login named, and its name and email claims are that
   * user's username and email.
   */
  lemma SessionFindsUser(s: Store, oracles: Oracles, req: LoginRequest, rowDate: Time)
    requires Valid(s)
    ensures var (s', r) := LoginAt(s, oracles, req, rowDate);
      r.SignedIn? ==>
        && FindUserByLogin(s, req.form.usernameOrEmail).Some?
        && var i := FindUserByLogin(s, req.form.usernameOrEmail).value;
        && FindUserById(s', r.session.userId) == Some(i)
        && s'.users[i].username == r.session.name && s'.users[i].email == r.session.email
        && r.session.persistent == req.form.rememberMe
  {
    var (s', r) := LoginAt(s, oracles, req, rowDate);
    if r.SignedIn? {
      KeysIdentifyRows(s');
    }
  }

  /**
   * The POST action as written: neither history row it builds assigns a
   * login date, so every row carries DateTime's default.
   */
  function Login(s: Store, oracles: Oracles, req: LoginRequest): (r: (Store, LoginOutcome))
    ensures forall k :: |s.history| <= k < |r.0.history| ==> r.0.history[k].loginDate == DefaultDate
  {
    LoginAt(s, oracles, req, DefaultDate)
  }

  /** A wrong password for a known user: one failed-attempt row, with the default date. */
  lemma WrongPasswordRecordsFailure(s: Store, oracles: Oracles, req: LoginRequest, i: nat)
    requires LoginFormValid(req.form) && FindUserByLogin(s, req.form.usernameOrEmail) == Some(i)
    requires !VerifyPasswordHash(oracles.hmac, req.form.password, s.users[i].passwordHash, s.users[i].passwordSalt)
    ensures Login(s, oracles, req) ==
      (RecordAttempt(s, s.users[i].userId, false, DefaultDate, req.ipAddress, req.userAgent), InvalidLogin)
  {
  }

  /** Whenever the action as written logs an attempt, the row does not say when it happened. */
  lemma LoginLosesTime(s: Store, oracles: Oracles, req: LoginRequest)
    requires req.now != DefaultDate
    requires |Login(s, oracles, req).0.history| > |s.history|
    ensures Login(s, oracles, req).0.history[|s.history|].loginDate != req.now
  {
  }

  /** The POST action with each history row stamped with the time of the attempt. */
  function LoginStamped(s: Store, oracles: Oracles, req: LoginRequest): (r: (Store, LoginOutcome))
    ensures forall k :: |s.history| <= k < |r.0.history| ==> r.0.history[k].loginDate == req.now
  {
    LoginAt(s, oracles, req, req.now)
  }

  /**
   * Stamping the rows changes nothing else: same outcome, same users and
   * MFA rows, and the same history row apart from its date.
   */
  lemma LoginStampedOnlyDates(s: Store, oracles: Oracles, req: LoginRequest)
    ensures var (a, ra) := Login(s, oracles, req);
      var (b, rb) := LoginStamped(s, oracles, req);
      && ra == rb && a.users == b.users && a.mfaSettings == b.mfaSettings
      && |a.history| == |b.history| && b.history[..|s.history|] == a.history[..|s.history|]
      && (|s.history| < |a.history| ==>
            b.history[|s.history|] == a.history[|s.history|].(loginDate := req.now))
  {
  }

  /**
   * Anti-enumeration: an unknown identifier and a known one with a wrong
   * password produce the same outcome and the same message.
   */
  lemma UnknownUserLooksLikeWrongPassword(s1: Store, req1: LoginRequest, s2: Store, req2: LoginRequest, oracles: Oracles)
    requires LoginFormValid(req1.form) && FindUserByLogin(s1, req1.form.usernameOrEmail).None?
    requires LoginFormValid(req2.form) && FindUserByLogin(s2, req2.form.usernameOrEmail).Some?
    requires var u := s2.users[FindUserByLogin(s2, req2.form.usernameOrEmail).value];
      !VerifyPasswordHash(oracles.hmac, req2.form.password, u.passwordHash, u.passwordSalt)
    ensures Login(s1, oracles, req1).1 == Login(s2, oracles, req2).1 == InvalidLogin
    ensures ErrorText(Login(s1, oracles, req1).1) == ErrorText(Login(s2, oracles, req2).1) == Some(InvalidLoginAttempt)
  {
  }

  /**
   * The second leg of an MFA login: when a login was answered with a request
   * for a code, posting the same form again with a code the authenticator
   * accepts at that time signs the user in.
   */
  lemma MfaContinuation(s: Store, oracles: Oracles, req: LoginRequest, code: string)
    requires Login(s, oracles, req).1.MfaRequired?
    requires !IsNullOrWhiteSpace(code)
    requires var u := s.users[FindUserByLogin(s, req.form.usernameOrEmail).value];
      oracles.validPin(req.now, s.mfaSettings[FindMfa(s, u.userId).value].secretKey, code)
    ensures Login(s, oracles, req.(form := req.form.(mfaCode := code))).1.SignedIn?
  {
  }
}
