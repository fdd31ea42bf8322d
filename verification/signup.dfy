/**
 * Account creation: reject a username or email already in use, otherwise
 * store the new user with a salted password hash and create its MFA
 * settings row, disabled and without a secret.
 */
module SignupFlow {
  import opened Models
  import opened Db
  import opened Crypto
  import opened Passwords
  import opened Forms

  datatype SignupOutcome = UsernameOrEmailTaken | SignedUp(userId: nat)

  const UsernameOrEmailInUse: string := "Username or email already in use"

  /** The pre-check: some user already has this username, or this email. */
  predicate Taken(s: Store, form: SignupForm)
    ensures Taken(s, form) <==>
      exists k :: 0 <= k < |s.users| && (s.users[k].username == form.username || s.users[k].email == form.email)
  {
    FirstIndex(s.users, (u: User) => u.username == form.username || u.email == form.email).Some?
  }

  lemma HasUserAppend(users: seq<User>, u: User, id: nat)
    requires HasUser(users, id)
    ensures HasUser(users + [u], id)
  {
    var k :| 0 <= k < |users| && users[k].userId == id;
    assert (users + [u])[k] == users[k];
  }

  /**
   * Inserts the user and then its MFA settings row. Together the two writes
   * add exactly one user and one disabled, secret-less MFA row that belongs
   * to it; nothing else changes.
   */
  function Register(s: Store, hmac: Hmac, form: SignupForm, key: Key, now: Time): (r: (Store, nat))
    ensures var (s', id) := r;
      && id == s.nextUserId
      && |s'.users| == |s.users| + 1 && s'.users[..|s.users|] == s.users
      && |s'.mfaSettings| == |s.mfaSettings| + 1 && s'.mfaSettings[..|s.mfaSettings|] == s.mfaSettings
      && s'.history == s.history
    ensures var (s', id) := r; var u := s'.users[|s.users|];
      && u.userId == id && u.username == form.username && u.email == form.email
      && u.passwordSalt == key && VerifyPasswordHash(hmac, form.password, u.passwordHash, u.passwordSalt)
      && !u.isEmailConfirmed && u.createdDate == now && u.lastLoginDate == None
    ensures var (s', id) := r; var m := s'.mfaSettings[|s.mfaSettings|];
      m.userId == id && !m.isEnabled && m.secretKey == "" && m.createdDate == now
    ensures Valid(s) && !Taken(s, form) ==> Valid(r.0)
    ensures EveryUserHasMfa(s) ==> EveryUserHasMfa(r.0)
  {
    var h := CreatePasswordHash(hmac, key, form.password);
    var id := s.nextUserId;
    var user := User(id, form.username, form.email, h.hash, h.salt, false, now, None);
    var mfa := MfaSettings(s.nextMfaSettingsId, id, false, "", now);
    var s' := s.(users := s.users + [user], mfaSettings := s.mfaSettings + [mfa],
                 nextUserId := id + 1, nextMfaSettingsId := s.nextMfaSettingsId + 1);
    InsertKeepsValid(s, user, mfa);
    InsertKeepsMfaRows(s, user, mfa);
    (s', id)
  }

  /** Appending a user with a fresh id and fresh names, and its MFA row, keeps the constraints. */
  lemma InsertKeepsValid(s: Store, user: User, mfa: MfaSettings)
    requires user.userId == s.nextUserId && mfa.userId == s.nextUserId
    requires mfa.mfaSettingsId == s.nextMfaSettingsId
    ensures var s' := s.(users := s.users + [user], mfaSettings := s.mfaSettings + [mfa],
                         nextUserId := s.nextUserId + 1, nextMfaSettingsId := s.nextMfaSettingsId + 1);
      Valid(s) && (forall k :: 0 <= k < |s.users| ==> s.users[k].username != user.username && s.users[k].email != user.email)
      ==> Valid(s')
  {
    var s' := s.(users := s.users + [user], mfaSettings := s.mfaSettings + [mfa],
                 nextUserId := s.nextUserId + 1, nextMfaSettingsId := s.nextMfaSettingsId + 1);
    if Valid(s) && (forall k :: 0 <= k < |s.users| ==> s.users[k].username != user.username && s.users[k].email != user.email) {
      InsertKeepsValidHelper(s, user, mfa);
    }
  }

  lemma InsertKeepsValidHelper(s: Store, user: User, mfa: MfaSettings)
    requires Valid(s) && user.userId == s.nextUserId && mfa.userId == s.nextUserId
    requires mfa.mfaSettingsId == s.nextMfaSettingsId
    requires forall k :: 0 <= k < |s.users| ==> s.users[k].username != user.username && s.users[k].email != user.email
    ensures Valid(s.(users := s.users + [user], mfaSettings := s.mfaSettings + [mfa],
                     nextUserId := s.nextUserId + 1, nextMfaSettingsId := s.nextMfaSettingsId + 1))
  {
    var s' := s.(users := s.users + [user], mfaSettings := s.mfaSettings + [mfa],
                 nextUserId := s.nextUserId + 1, nextMfaSettingsId := s.nextMfaSettingsId + 1);
    assert HasUser(s'.users, user.userId) by {
      assert s'.users[|s.users|].userId == user.userId;
    }
    forall x: nat | HasUser(s.users, x) ensures HasUser(s'.users, x) && x < s.nextUserId {
      HasUserAppend(s.users, user, x);
    }
    assert forall i :: 0 <= i < |s.mfaSettings| ==> s.mfaSettings[i].userId < user.userId by {
      forall i | 0 <= i < |s.mfaSettings| ensures s.mfaSettings[i].userId < user.userId {
        assert HasUser(s.users, s.mfaSettings[i].userId);
      }
    }
    assert UserKeys(s');
    assert MfaLinks(s');
    assert HistoryLinks(s');
  }

  /** Appending a user together with its MFA row keeps every user's row in place. */
  lemma InsertKeepsMfaRows(s: Store, user: User, mfa: MfaSettings)
    requires mfa.userId == user.userId
    ensures var s' := s.(users := s.users + [user], mfaSettings := s.mfaSettings + [mfa],
                         nextUserId := s.nextUserId + 1, nextMfaSettingsId := s.nextMfaSettingsId + 1);
      EveryUserHasMfa(s) ==> EveryUserHasMfa(s')
  {
    var s' := s.(users := s.users + [user], mfaSettings := s.mfaSettings + [mfa],
                 nextUserId := s.nextUserId + 1, nextMfaSettingsId := s.nextMfaSettingsId + 1);
    if EveryUserHasMfa(s) {
      forall i | 0 <= i < |s'.users| ensures FindMfa(s', s'.users[i].userId).Some? {
        if i < |s.users| {
          var j := FindMfa(s, s.users[i].userId).value;
          assert s'.mfaSettings[j] == s.mfaSettings[j];
        } else {
          assert s'.mfaSettings[|s.mfaSettings|].userId == s'.users[i].userId;
        }
      }
    }
  }

  /** The POST action as written: the pre-check compares usernames with usernames and emails with emails. */
  function Signup(s: Store, hmac: Hmac, form: SignupForm, key: Key, now: Time): (r: (Store, SignupOutcome))
    ensures r.1.UsernameOrEmailTaken? <==>
      exists k :: 0 <= k < |s.users| && (s.users[k].username == form.username || s.users[k].email == form.email)
    ensures r.1.UsernameOrEmailTaken? ==> r.0 == s
    ensures r.1.SignedUp? ==> r == (Register(s, hmac, form, key, now).0, SignedUp(s.nextUserId))
    ensures Valid(s) ==> Valid(r.0)
    ensures EveryUserHasMfa(s) ==> EveryUserHasMfa(r.0)
  {
    if Taken(s, form) then (s, UsernameOrEmailTaken)
    else
      var (s', id) := Register(s, hmac, form, key, now);
      (s', SignedUp(id))
  }

  /**
   * A store accepted by the as-written pre-check in which one user's username
   * is another user's email: both uniqueness constraints hold, yet a login
   * with the second user's username finds the first user.
   */
  lemma SignupShadowsUsername(hmac: Hmac, key1: Key, key2: Key, now: Time)
    ensures var s1 := Signup(Empty, hmac, SignupForm("alice", "alice@x.com", "pw-alice"), key1, now);
      var s2 := Signup(s1.0, hmac, SignupForm("alice@x.com", "bob@y.com", "pw-bob"), key2, now);
      && s1.1 == SignedUp(1) && s2.1 == SignedUp(2) && Valid(s2.0)
      && s2.0.users[1].username == "alice@x.com"
      && FindUserByLogin(s2.0, "alice@x.com") == Some(0)
  {
    EmptyIsValid();
    var s1 := Signup(Empty, hmac, SignupForm("alice", "alice@x.com", "pw-alice"), key1, now);
    assert s1.0.users[0].username == "alice";
    assert s1.0.users[0].email == "alice@x.com";
    assert !Taken(s1.0, SignupForm("alice@x.com", "bob@y.com", "pw-bob")) by {
      assert "alice" != "alice@x.com";
      assert "alice@x.com" != "bob@y.com";
    }
  }

  // ---------------------------------------------------------------------
  // Corrected pre-check
  // ---------------------------------------------------------------------

  /** No two users share an identifier a login may name: usernames and emails taken together. */
  ghost predicate Unambiguous(users: seq<User>) {
    forall i, j :: 0 <= i < j < |users| ==>
      !Names(users[j], users[i].username) && !Names(users[j], users[i].email)
  }

  /** A user no existing user is known by, by either identifier, keeps the identifiers unambiguous. */
  lemma UnambiguousAppend(users: seq<User>, u: User)
    requires forall k :: 0 <= k < |users| ==> !Names(users[k], u.username) && !Names(users[k], u.email)
    ensures Unambiguous(users) ==> Unambiguous(users + [u])
  {
    if Unambiguous(users) {
      var us := users + [u];
      forall i, j | 0 <= i < j < |us|
        ensures !Names(us[j], us[i].username) && !Names(us[j], us[i].email)
      {
        if j == |users| {
          assert us[j] == u && us[i] == users[i];
          assert !Names(users[i], u.username) && !Names(users[i], u.email);
        } else {
          assert us[i] == users[i] && us[j] == users[j];
        }
      }
    }
  }

  /** Some user is already known by the new username or by the new email. */
  predicate Clashes(s: Store, form: SignupForm)
    ensures Clashes(s, form) <==>
      exists k :: 0 <= k < |s.users| && (Names(s.users[k], form.username) || Names(s.users[k], form.email))
  {
    FirstIndex(s.users, (u: User) => Names(u, form.username) || Names(u, form.email)).Some?
  }

  /**
   * Registering a user no existing user is known by: both identifiers then
   * find the new user, and the constraints, unambiguous identifiers and MFA
   * rows are kept.
   */
  lemma StrictRegisterFacts(s: Store, hmac: Hmac, form: SignupForm, key: Key, now: Time)
    requires !Clashes(s, form)
    ensures var s' := Register(s, hmac, form, key, now).0;
      && FindUserByLogin(s', form.username) == Some(|s.users|) && FindUserByLogin(s', form.email) == Some(|s.users|)
      && (Valid(s) ==> Valid(s'))
      && (Unambiguous(s.users) ==> Unambiguous(s'.users))
      && (EveryUserHasMfa(s) ==> EveryUserHasMfa(s'))
  {
    var s' := Register(s, hmac, form, key, now).0;
    assert !Taken(s, form);
    forall k | 0 <= k < |s.users|
      ensures !Names(s'.users[k], form.username) && !Names(s'.users[k], form.email)
    {
      assert s'.users[k] == s.users[k];
    }
    assert s'.users == s.users + [s'.users[|s.users|]];
    UnambiguousAppend(s.users, s'.users[|s.users|]);
  }

  /**
   * Signup with the pre-check extended across both columns. A new account
   * is then the one user a login with its username, or with its email,
   * finds, and no identifier ever names two users.
   */
  function SignupStrict(s: Store, hmac: Hmac, form: SignupForm, key: Key, now: Time): (r: (Store, SignupOutcome))
    ensures r.1.UsernameOrEmailTaken? <==>
      exists k :: 0 <= k < |s.users| && (Names(s.users[k], form.username) || Names(s.users[k], form.email))
    ensures r.1.UsernameOrEmailTaken? ==> r.0 == s
    ensures r.1.SignedUp? ==> r == (Register(s, hmac, form, key, now).0, SignedUp(s.nextUserId))
    ensures r.1.SignedUp? ==>
      FindUserByLogin(r.0, form.username) == Some(|s.users|) && FindUserByLogin(r.0, form.email) == Some(|s.users|)
    ensures Valid(s) ==> Valid(r.0)
    ensures Unambiguous(s.users) ==> Unambiguous(r.0.users)
    ensures EveryUserHasMfa(s) ==> EveryUserHasMfa(r.0)
  {
    if Clashes(s, form) then (s, UsernameOrEmailTaken)
    else
      StrictRegisterFacts(s, hmac, form, key, now);
      var (s', id) := Register(s, hmac, form, key, now);
      (s', SignedUp(id))
  }
}
