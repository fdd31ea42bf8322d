/**
 * MFA enrollment for a signed-in user. Viewing the page makes sure the user
 * has a shared secret, generating one only when none is stored, and returns
 * the provisioning request for it. Posting a verification code enables MFA
 * when, and only when, the authenticator accepts the code for the stored
 * secret; otherwise nothing is written and the page is shown again.
 */
module MfaSetupFlow {
  import opened Models
  import opened Db
  import opened Crypto
  import opened SecretKeys
  import opened Forms

  datatype MfaSetupOutcome =
    | FormRejected                   // the verification code field is blank
    | NotFound                       // no user with the signed-in user's id
    | Fault                          // the user has no MFA settings row: the action dereferences null
    | ShowSetup(setup: SetupCode)    // the enrollment page, with its provisioning request
    | CodeRejected(setup: SetupCode) // the enrollment page again, with an error
    | MfaEnabled                     // MFA switched on, redirect to the login page

  const InvalidVerificationCode: string := "Invalid verification code"

  /** Every stored secret is either absent (empty) or a generated one. */
  ghost predicate SecretsWellFormed(s: Store) {
    forall j :: 0 <= j < |s.mfaSettings| ==> s.mfaSettings[j].secretKey == "" || IsSecretKey(s.mfaSettings[j].secretKey)
  }

  /** The store differs from `s` at most in the secret of MFA row `j`. */
  ghost predicate OnlySecretChanged(s: Store, s': Store, j: nat)
    requires j < |s.mfaSettings|
  {
    && s'.users == s.users && s'.history == s.history
    && |s'.mfaSettings| == |s.mfaSettings|
    && s'.mfaSettings[j] == s.mfaSettings[j].(secretKey := s'.mfaSettings[j].secretKey)
    && forall k :: 0 <= k < |s.mfaSettings| && k != j ==> s'.mfaSettings[k] == s.mfaSettings[k]
  }

  /** The GET action for the user with id `userId`; `guid` is the GUID it would draw. */
  function SetupMfaGet(s: Store, userId: nat, guid: Guid): (r: (Store, MfaSetupOutcome))
    ensures FindUserById(s, userId).None? ==> r == (s, NotFound)
    ensures FindUserById(s, userId).Some? && FindMfa(s, userId).None? ==> r == (s, Fault)
    ensures EveryUserHasMfa(s) ==> !r.1.Fault?
    ensures r.1.NotFound? || r.1.Fault? || r.1.ShowSetup?
    ensures !r.1.ShowSetup? ==> r.0 == s
    ensures r.1.ShowSetup? ==>
      && FindUserById(s, userId).Some? && FindMfa(s, userId).Some?
      && var i, j := FindUserById(s, userId).value, FindMfa(s, userId).value;
      && OnlySecretChanged(s, r.0, j)
      && (s.mfaSettings[j].secretKey != "" ==> r.0 == s)
      && (s.mfaSettings[j].secretKey == "" ==> r.0.mfaSettings[j].secretKey == NewSecretKey(guid))
      && r.0.mfaSettings[j].secretKey != ""
      && r.1.setup == GenerateSetupCode(s.users[i].email, r.0.mfaSettings[j].secretKey)
    ensures Valid(s) ==> Valid(r.0)
    ensures EveryUserHasMfa(s) ==> EveryUserHasMfa(r.0)
    ensures SecretsWellFormed(s) ==> SecretsWellFormed(r.0)
  {
    match FindUserById(s, userId)
    case None => (s, NotFound)
    case Some(i) =>
      var u := s.users[i];
      match FindMfa(s, u.userId)
      case None => (s, Fault)
      case Some(j) =>
        var m := s.mfaSettings[j];
        var s' := if m.secretKey == "" then UpdateMfa(s, j, m.(secretKey := NewSecretKey(guid))) else s;
        (s', ShowSetup(GenerateSetupCode(u.email, s'.mfaSettings[j].secretKey)))
  }

  /**
   * Viewing the enrollment page twice is viewing it once: the second view
   * finds the secret the first one stored, whatever GUID it would draw.
   */
  lemma SetupMfaGetIdempotent(s: Store, userId: nat, g1: Guid, g2: Guid)
    ensures var r1 := SetupMfaGet(s, userId, g1);
      SetupMfaGet(r1.0, userId, g2) == r1
  {
    var r1 := SetupMfaGet(s, userId, g1);
    if r1.1.ShowSetup? {
      var j := FindMfa(s, userId).value;
      assert FindUserById(r1.0, userId) == FindUserById(s, userId);
      assert FindMfa(r1.0, userId) == Some(j) by {
        assert r1.0.mfaSettings[j].userId == userId;
        assert forall k :: 0 <= k < j ==> r1.0.mfaSettings[k] == s.mfaSettings[k];
      }
    }
  }

  /** The POST action for the user with id `userId`, checking `code` at time `now`. */
  function SetupMfaPost(s: Store, validPin: PinValidator, userId: nat, code: string, now: Time): (r: (Store, MfaSetupOutcome))
    ensures !VerificationFormValid(code) ==> r == (s, FormRejected)
    ensures r.1.FormRejected? || r.1.NotFound? || r.1.Fault? || r.1.CodeRejected? || r.1.MfaEnabled?
    ensures r.1.MfaEnabled? <==>
      && VerificationFormValid(code)
      && FindUserById(s, userId).Some? && FindMfa(s, userId).Some?
      && validPin(now, s.mfaSettings[FindMfa(s, userId).value].secretKey, code)
    ensures !r.1.MfaEnabled? ==> r.0 == s
    ensures r.1.CodeRejected? ==>
      && FindUserById(s, userId).Some? && FindMfa(s, userId).Some?
      && r.1.setup == GenerateSetupCode(s.users[FindUserById(s, userId).value].email,
                                        s.mfaSettings[FindMfa(s, userId).value].secretKey)
    ensures r.1.MfaEnabled? ==>
      var j := FindMfa(s, userId).value;
      && r.0.users == s.users && r.0.history == s.history
      && |r.0.mfaSettings| == |s.mfaSettings|
      && r.0.mfaSettings[j] == s.mfaSettings[j].(isEnabled := true)
      && forall k :: 0 <= k < |s.mfaSettings| && k != j ==> r.0.mfaSettings[k] == s.mfaSettings[k]
    ensures EveryUserHasMfa(s) ==> !r.1.Fault?
    ensures Valid(s) ==> Valid(r.0)
    ensures EveryUserHasMfa(s) ==> EveryUserHasMfa(r.0)
  {
    if !VerificationFormValid(code) then (s, FormRejected)
    else match FindUserById(s, userId)
      case None => (s, NotFound)
      case Some(i) =>
        var u := s.users[i];
        match FindMfa(s, u.userId)
        case None => (s, Fault)
        case Some(j) =>
          var m := s.mfaSettings[j];
          if !validPin(now, m.secretKey, code) then (s, CodeRejected(GenerateSetupCode(u.email, m.secretKey)))
          else (UpdateMfa(s, j, m.(isEnabled := true)), MfaEnabled)
  }

  /**
   * Across one POST, an MFA row goes from disabled to enabled only when the
   * posted code was accepted for that row's secret on behalf of its owner,
   * and no row is ever disabled or given another secret.
   */
  lemma SetupMfaPostEnablesOnlyWithAcceptedCode(s: Store, validPin: PinValidator, userId: nat, code: string, now: Time, k: nat)
    requires k < |s.mfaSettings|
    ensures var s' := SetupMfaPost(s, validPin, userId, code, now).0;
      && k < |s'.mfaSettings|
      && s'.mfaSettings[k].secretKey == s.mfaSettings[k].secretKey
      && (s.mfaSettings[k].isEnabled ==> s'.mfaSettings[k].isEnabled)
      && (!s.mfaSettings[k].isEnabled && s'.mfaSettings[k].isEnabled ==>
            s.mfaSettings[k].userId == userId && validPin(now, s.mfaSettings[k].secretKey, code))
  {
  }
}
