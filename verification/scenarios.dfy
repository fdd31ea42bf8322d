/**
 * An end-to-end walkthrough of the controller as written: sign up,
 * sign up again with a taken email, sign in without MFA, enroll (a wrong
 * code, then a right one), sign in with MFA, and a wrong password. The
 * cryptography stays abstract: the walkthrough only assumes that a wrong
 * password hashes differently and which codes the authenticator accepts.
 */
module Scenarios {
  import opened Models
  import opened Db
  import opened Crypto
  import opened Forms
  import opened SecretKeys
  import opened Passwords
  import opened SignupFlow
  import opened MfaSetupFlow
  import opened LoginFlow

  const Alice: SignupForm := SignupForm("alice", "alice@x.com", "Secret1!")

  function LoginAs(name: string, password: string, code: string, now: Time): LoginRequest {
    LoginRequest(LoginForm(name, password, false, code), Some("10.0.0.1"), "browser", now)
  }

  /** The store after Alice signs up on a fresh database. */
  lemma AliceSignedUp(o: Oracles, key: Key, t0: Time)
    ensures var s1 := Signup(Empty, o.hmac, Alice, key, t0).0;
      && |s1.users| == 1 && s1.users[0].userId == 1
      && s1.users[0].username == "alice" && s1.users[0].email == "alice@x.com"
      && s1.users[0].passwordSalt == key && s1.users[0].passwordHash == o.hmac(key, "Secret1!")
      && s1.history == [] && s1.mfaSettings == [MfaSettings(1, 1, false, "", t0)]
      && FindUserByLogin(s1, "alice") == Some(0) && FindMfa(s1, 1) == Some(0)
  {
    var s1 := Signup(Empty, o.hmac, Alice, key, t0).0;
    assert s1.users[0].username == "alice";
  }

  /** Signing up twice with the same email: the second attempt is refused and changes nothing. */
  lemma SignupThenDuplicate(o: Oracles, key1: Key, key2: Key, now: Time)
    ensures var (s1, r1) := Signup(Empty, o.hmac, Alice, key1, now);
      && r1 == SignedUp(1)
      && s1.mfaSettings == [MfaSettings(1, 1, false, "", now)]
      && Signup(s1, o.hmac, SignupForm("alice2", "alice@x.com", "Other1!"), key2, now) == (s1, UsernameOrEmailTaken)
  {
    var (s1, r1) := Signup(Empty, o.hmac, Alice, key1, now);
    assert s1.users[0].email == "alice@x.com";
  }

  /** Without MFA, the right password signs in and records one successful attempt. */
  lemma SignInWithoutMfa(o: Oracles, key: Key, t0: Time, t1: Time)
    ensures var s1 := Signup(Empty, o.hmac, Alice, key, t0).0;
      var (s2, r2) := Login(s1, o, LoginAs("alice", "Secret1!", "", t1));
      && r2 == SignedIn(Session(1, "alice", "alice@x.com", false))
      && s2.history == [AuthenticationHistory(1, 1, DefaultDate, true, "10.0.0.1", "browser")]
      && s2.users[0].lastLoginDate == Some(t1)
  {
    AliceSignedUp(o, key, t0);
    var s1 := Signup(Empty, o.hmac, Alice, key, t0).0;
    var req := LoginAs("alice", "Secret1!", "", t1);
    assert LoginFormValid(req.form) by {
      assert !IsWhiteSpace(req.form.usernameOrEmail[0]);
      assert !IsWhiteSpace(req.form.password[0]);
    }
    assert !MfaOn(s1, 1);
    var (s2, r2) := Login(s1, o, req);
    assert (s2, r2) == CompleteSignIn(s1, 0, req, DefaultDate);
  }

  /**
   * Enrollment, then an MFA login: the secret is generated once, survives a
   * rejected code, MFA comes on with an accepted code, and from then on a
   * login without a code is asked for one and a login with the code succeeds.
   */
  lemma EnrollThenSignInWithMfa(o: Oracles, key: Key, g: Guid, t0: Time, t1: Time, t2: Time, t3: Time)
    requires !o.validPin(t1, NewSecretKey(g), "000000")
    requires o.validPin(t2, NewSecretKey(g), "123456")
    requires o.validPin(t3, NewSecretKey(g), "654321")
    ensures var s1 := Signup(Empty, o.hmac, Alice, key, t0).0;
      var (s2, v) := SetupMfaGet(s1, 1, g);
      var (s3, c1) := SetupMfaPost(s2, o.validPin, 1, "000000", t1);
      var (s4, c2) := SetupMfaPost(s3, o.validPin, 1, "123456", t2);
      && v == ShowSetup(SetupCode(Issuer, "alice@x.com", NewSecretKey(g), false, QrPixelsPerModule))
      && s3 == s2 && c1.CodeRejected?
      && c2 == MfaEnabled && s4.mfaSettings[0] == MfaSettings(1, 1, true, NewSecretKey(g), t0)
      && Login(s4, o, LoginAs("alice@x.com", "Secret1!", "", t3)) == (s4, MfaRequired(false))
      && Login(s4, o, LoginAs("alice@x.com", "Secret1!", "654321", t3)).1 == SignedIn(Session(1, "alice", "alice@x.com", false))
  {
    var s1 := Signup(Empty, o.hmac, Alice, key, t0).0;
    assert FindUserById(s1, 1) == Some(0);
    assert FindMfa(s1, 1) == Some(0);
    var (s2, v) := SetupMfaGet(s1, 1, g);
    assert s2.mfaSettings[0] == MfaSettings(1, 1, false, NewSecretKey(g), t0);
    assert s2.users == s1.users;
    assert FindUserById(s2, 1) == Some(0);
    assert FindMfa(s2, 1) == Some(0);
    EnrollCodes(o, s2, g, t1, t2);
    var s4 := SetupMfaPost(s2, o.validPin, 1, "123456", t2).0;
    SignInWithMfa(o, s4, g, t3);
  }

  lemma EnrollCodes(o: Oracles, s2: Store, g: Guid, t1: Time, t2: Time)
    requires FindUserById(s2, 1) == Some(0) && FindMfa(s2, 1) == Some(0)
    requires s2.mfaSettings[0].secretKey == NewSecretKey(g)
    requires !o.validPin(t1, NewSecretKey(g), "000000")
    requires o.validPin(t2, NewSecretKey(g), "123456")
    ensures var (s3, c1) := SetupMfaPost(s2, o.validPin, 1, "000000", t1);
      s3 == s2 && c1.CodeRejected?
    ensures var (s4, c2) := SetupMfaPost(s2, o.validPin, 1, "123456", t2);
      c2 == MfaEnabled && s4.mfaSettings[0] == s2.mfaSettings[0].(isEnabled := true)
      && s4.users == s2.users && |s4.mfaSettings| == |s2.mfaSettings|
  {
    assert VerificationFormValid("000000") by { assert !IsWhiteSpace("000000"[0]); }
    assert VerificationFormValid("123456") by { assert !IsWhiteSpace("123456"[0]); }
  }

  lemma SignInWithMfa(o: Oracles, s4: Store, g: Guid, t3: Time)
    requires |s4.users| == 1 && s4.users[0].userId == 1 && s4.users[0].username == "alice"
    requires s4.users[0].email == "alice@x.com"
    requires VerifyPasswordHash(o.hmac, "Secret1!", s4.users[0].passwordHash, s4.users[0].passwordSalt)
    requires |s4.mfaSettings| == 1 && s4.mfaSettings[0].userId == 1 && s4.mfaSettings[0].isEnabled
    requires s4.mfaSettings[0].secretKey == NewSecretKey(g)
    requires o.validPin(t3, NewSecretKey(g), "654321")
    ensures Login(s4, o, LoginAs("alice@x.com", "Secret1!", "", t3)) == (s4, MfaRequired(false))
    ensures Login(s4, o, LoginAs("alice@x.com", "Secret1!", "654321", t3)).1 == SignedIn(Session(1, "alice", "alice@x.com", false))
  {
    var req := LoginAs("alice@x.com", "Secret1!", "", t3);
    assert LoginFormValid(req.form) by {
      assert !IsWhiteSpace(req.form.usernameOrEmail[0]);
      assert !IsWhiteSpace(req.form.password[0]);
    }
    assert FindUserByLogin(s4, "alice@x.com") == Some(0);
    assert FindMfa(s4, 1) == Some(0);
    assert MfaOn(s4, 1);
    SignInWithCode(o, s4, req, "654321");
  }

  /** The same login with a posted code that the authenticator accepts signs the user in. */
  lemma SignInWithCode(o: Oracles, s4: Store, req: LoginRequest, code: string)
    requires LoginFormValid(req.form) && FindUserByLogin(s4, req.form.usernameOrEmail) == Some(0)
    requires VerifyPasswordHash(o.hmac, req.form.password, s4.users[0].passwordHash, s4.users[0].passwordSalt)
    requires MfaOn(s4, s4.users[0].userId)
    requires code == "654321"
    requires o.validPin(req.now, s4.mfaSettings[FindMfa(s4, s4.users[0].userId).value].secretKey, code)
    ensures Login(s4, o, req.(form := req.form.(mfaCode := code))).1 ==
      SignedIn(SignInUser(s4.users[0], req.form.rememberMe))
  {
    assert !IsWhiteSpace(code[0]);
    var req' := req.(form := req.form.(mfaCode := code));
    assert HasMfaCode(req'.form);
  }

  /** A wrong password is refused and leaves exactly one failed-attempt row for the user. */
  lemma WrongPassword(o: Oracles, key: Key, t0: Time, t1: Time)
    requires o.hmac(key, "wrong") != o.hmac(key, "Secret1!")
    ensures var s1 := Signup(Empty, o.hmac, Alice, key, t0).0;
      var (s2, r2) := Login(s1, o, LoginAs("alice", "wrong", "", t1));
      && r2 == InvalidLogin && ErrorText(r2) == Some(InvalidLoginAttempt)
      && s2.users == s1.users
      && s2.history == [AuthenticationHistory(1, 1, DefaultDate, false, "10.0.0.1", "browser")]
  {
    AliceSignedUp(o, key, t0);
    var s1 := Signup(Empty, o.hmac, Alice, key, t0).0;
    var req := LoginAs("alice", "wrong", "", t1);
    assert LoginFormValid(req.form) by {
      assert !IsWhiteSpace(req.form.usernameOrEmail[0]);
      assert !IsWhiteSpace(req.form.password[0]);
    }
    WrongPasswordRecordsFailure(s1, o, req, 0);
  }

  /**
   * With the as-written signup check, a second user may take the first
   * user's email as username. Signing in with that username and the second
   * user's own password then checks the password against the first user,
   * fails, and records the failure against the first user.
   */
  lemma ShadowedUserCannotSignIn(o: Oracles, key1: Key, key2: Key, t0: Time, t1: Time)
    requires o.hmac(key1, "pw-bob") != o.hmac(key1, "pw-alice")
    ensures var s1 := Signup(Empty, o.hmac, SignupForm("alice", "alice@x.com", "pw-alice"), key1, t0).0;
      var (s2, r2) := Signup(s1, o.hmac, SignupForm("alice@x.com", "bob@y.com", "pw-bob"), key2, t0);
      var (s3, r3) := Login(s2, o, LoginAs("alice@x.com", "pw-bob", "", t1));
      && r2 == SignedUp(2)
      && r3 == InvalidLogin
      && s3.history == [AuthenticationHistory(1, 1, DefaultDate, false, "10.0.0.1", "browser")]
  {
    ShadowedStore(o, key1, key2, t0);
    var s1 := Signup(Empty, o.hmac, SignupForm("alice", "alice@x.com", "pw-alice"), key1, t0).0;
    var s2 := Signup(s1, o.hmac, SignupForm("alice@x.com", "bob@y.com", "pw-bob"), key2, t0).0;
    var req := LoginAs("alice@x.com", "pw-bob", "", t1);
    assert LoginFormValid(req.form) by {
      assert !IsWhiteSpace(req.form.usernameOrEmail[0]);
      assert !IsWhiteSpace(req.form.password[0]);
    }
    WrongPasswordRecordsFailure(s2, o, req, 0);
  }

  /** The store after the two signups: the second is accepted and the first user keeps its name and hash. */
  lemma ShadowedStore(o: Oracles, key1: Key, key2: Key, t0: Time)
    ensures var s1 := Signup(Empty, o.hmac, SignupForm("alice", "alice@x.com", "pw-alice"), key1, t0).0;
      var (s2, r2) := Signup(s1, o.hmac, SignupForm("alice@x.com", "bob@y.com", "pw-bob"), key2, t0);
      && r2 == SignedUp(2) && s2.history == [] && |s2.users| == 2
      && s2.users[0].userId == 1 && s2.users[0].passwordSalt == key1
      && s2.users[0].passwordHash == o.hmac(key1, "pw-alice")
      && FindUserByLogin(s2, "alice@x.com") == Some(0)
  {
    SignupShadowsUsername(o.hmac, key1, key2, t0);
    var s1 := Signup(Empty, o.hmac, SignupForm("alice", "alice@x.com", "pw-alice"), key1, t0).0;
    var s2 := Signup(s1, o.hmac, SignupForm("alice@x.com", "bob@y.com", "pw-bob"), key2, t0).0;
    assert s2.users[0] == s1.users[0];
  }
}
