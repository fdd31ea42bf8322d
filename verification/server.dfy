/**
 * The account controller as a whole: any sequence of requests to its
 * signup, enrollment and login actions, applied one after another to the
 * store, each atomically. Properties that no single action can state are
 * proved here over whole sequences: the constraints always hold, history is
 * only ever appended to, a secret once set never changes, and an MFA row is
 * only ever switched on by a code the authenticator accepted.
 */
module Server {
  import opened Models
  import opened Db
  import opened Crypto
  import opened Forms
  import opened SecretKeys
  import opened SignupFlow
  import opened MfaSetupFlow
  import opened LoginFlow

  datatype Request =
    | SignupPost(form: SignupForm, key: Key, now: Time)
    | SetupMfaView(userId: nat, guid: Guid)
    | SetupMfaConfirm(userId: nat, code: string, now: Time)
    | LoginPost(login: LoginRequest)

  /**
   * What the actions as written maintain: the database constraints, an MFA
   * row for every user, and well-formed secrets.
   */
  ghost predicate Inv(s: Store) {
    && Valid(s)
    && EveryUserHasMfa(s)
    && SecretsWellFormed(s)
  }

  /** What the corrected actions maintain besides: no identifier names two users. */
  ghost predicate StrictInv(s: Store) {
    Inv(s) && Unambiguous(s.users)
  }

  lemma SameIdentitiesUnambiguous(a: seq<User>, b: seq<User>)
    requires |a| == |b|
    requires forall k :: 0 <= k < |a| ==> a[k].username == b[k].username && a[k].email == b[k].email
    ensures Unambiguous(a) ==> Unambiguous(b)
  {
  }

  /**
   * What one request may do to the tables that outlive it: history is only
   * appended to; MFA rows keep their owners, keep a stored secret, stay on
   * once on, and are switched on only by their owner's accepted code; new
   * MFA rows start off and without a secret.
   */
  ghost predicate Evolves(s: Store, s': Store, oracles: Oracles, rq: Request) {
    && |s.history| <= |s'.history| && s'.history[..|s.history|] == s.history
    && |s.mfaSettings| <= |s'.mfaSettings|
    && (forall j :: 0 <= j < |s.mfaSettings| ==>
      && s'.mfaSettings[j].userId == s.mfaSettings[j].userId
      && (s.mfaSettings[j].secretKey != "" ==> s'.mfaSettings[j].secretKey == s.mfaSettings[j].secretKey)
      && (s.mfaSettings[j].isEnabled ==> s'.mfaSettings[j].isEnabled)
      && (!s.mfaSettings[j].isEnabled && s'.mfaSettings[j].isEnabled ==>
            && rq.SetupMfaConfirm? && rq.userId == s.mfaSettings[j].userId
            && oracles.validPin(rq.now, s.mfaSettings[j].secretKey, rq.code)))
    && (forall j :: |s.mfaSettings| <= j < |s'.mfaSettings| ==>
      !s'.mfaSettings[j].isEnabled && s'.mfaSettings[j].secretKey == "")
  }

  /** One request to the controller as written. */
  function Step(s: Store, oracles: Oracles, rq: Request): (s': Store)
    ensures Evolves(s, s', oracles, rq)
  {
    match rq
    case SignupPost(form, key, now) =>
      SignupEvolves(s, oracles, form, key, now);
      Signup(s, oracles.hmac, form, key, now).0
    case SetupMfaView(id, g) =>
      SetupMfaGetEvolves(s, oracles, id, g);
      SetupMfaGet(s, id, g).0
    case SetupMfaConfirm(id, code, now) =>
      SetupMfaPostEvolves(s, oracles, id, code, now);
      SetupMfaPost(s, oracles.validPin, id, code, now).0
    case LoginPost(req) =>
      LoginEvolves(s, oracles, req, DefaultDate);
      Login(s, oracles, req).0
  }

  /**
   * One request to the corrected controller: signup checks both identifier
   * columns (SignupStrict) and login dates its history rows (LoginStamped).
   */
  function StepCorrected(s: Store, oracles: Oracles, rq: Request): (s': Store)
    ensures Evolves(s, s', oracles, rq)
  {
    match rq
    case SignupPost(form, key, now) =>
      SignupStrictEvolves(s, oracles, form, key, now);
      SignupStrict(s, oracles.hmac, form, key, now).0
    case SetupMfaView(id, g) =>
      SetupMfaGetEvolves(s, oracles, id, g);
      SetupMfaGet(s, id, g).0
    case SetupMfaConfirm(id, code, now) =>
      SetupMfaPostEvolves(s, oracles, id, code, now);
      SetupMfaPost(s, oracles.validPin, id, code, now).0
    case LoginPost(req) =>
      LoginEvolves(s, oracles, req, req.now);
      LoginStamped(s, oracles, req).0
  }

  lemma StepKeepsInv(s: Store, oracles: Oracles, rq: Request)
    requires Inv(s)
    ensures Inv(Step(s, oracles, rq))
  {
    match rq
    case SignupPost(form, key, now) =>
      SignupEvolves(s, oracles, form, key, now);
    case SetupMfaView(id, g) =>
      SetupMfaGetKeepsInv(s, id, g);
    case SetupMfaConfirm(id, code, now) =>
      SetupMfaPostKeepsInv(s, oracles.validPin, id, code, now);
    case LoginPost(req) =>
      LoginEvolves(s, oracles, req, DefaultDate);
  }

  lemma StepCorrectedKeepsStrictInv(s: Store, oracles: Oracles, rq: Request)
    requires StrictInv(s)
    ensures StrictInv(StepCorrected(s, oracles, rq))
  {
    match rq
    case SignupPost(form, key, now) =>
      SignupStrictEvolves(s, oracles, form, key, now);
    case SetupMfaView(id, g) =>
      SetupMfaGetKeepsInv(s, id, g);
    case SetupMfaConfirm(id, code, now) =>
      SetupMfaPostKeepsInv(s, oracles.validPin, id, code, now);
    case LoginPost(req) =>
      LoginEvolves(s, oracles, req, req.now);
  }

  lemma SetupMfaGetEvolves(s: Store, oracles: Oracles, id: nat, g: Guid)
    ensures var s' := SetupMfaGet(s, id, g).0;
      Evolves(s, s', oracles, SetupMfaView(id, g)) && s'.users == s.users
  {
  }

  lemma SetupMfaGetKeepsInv(s: Store, id: nat, g: Guid)
    ensures var s' := SetupMfaGet(s, id, g).0;
      (Inv(s) ==> Inv(s')) && (StrictInv(s) ==> StrictInv(s'))
  {
  }

  lemma SetupMfaPostEvolves(s: Store, oracles: Oracles, id: nat, code: string, now: Time)
    ensures var s' := SetupMfaPost(s, oracles.validPin, id, code, now).0;
      Evolves(s, s', oracles, SetupMfaConfirm(id, code, now)) && s'.users == s.users
  {
    var s' := SetupMfaPost(s, oracles.validPin, id, code, now).0;
    forall j | 0 <= j < |s.mfaSettings|
      ensures s'.mfaSettings[j].secretKey == s.mfaSettings[j].secretKey
      ensures !s.mfaSettings[j].isEnabled && s'.mfaSettings[j].isEnabled ==>
        s.mfaSettings[j].userId == id && oracles.validPin(now, s.mfaSettings[j].secretKey, code)
    {
      SetupMfaPostEnablesOnlyWithAcceptedCode(s, oracles.validPin, id, code, now, j);
    }
  }

  lemma SetupMfaPostKeepsInv(s: Store, validPin: PinValidator, id: nat, code: string, now: Time)
    ensures var s' := SetupMfaPost(s, validPin, id, code, now).0;
      (Inv(s) ==> Inv(s')) && (StrictInv(s) ==> StrictInv(s'))
  {
  }

  /** Login, whatever date it writes, only appends history and keeps every identity. */
  lemma LoginEvolves(s: Store, oracles: Oracles, req: LoginRequest, rowDate: Time)
    ensures var s' := LoginAt(s, oracles, req, rowDate).0;
      && Evolves(s, s', oracles, LoginPost(req))
      && (Inv(s) ==> Inv(s')) && (StrictInv(s) ==> StrictInv(s'))
  {
    var s' := LoginAt(s, oracles, req, rowDate).0;
    SameIdentitiesUnambiguous(s.users, s'.users);
  }

  /** Register leaves the existing MFA rows as they were and adds one that is off and secret-less. */
  lemma RegisterEvolves(s: Store, oracles: Oracles, form: SignupForm, key: Key, now: Time)
    ensures var s' := Register(s, oracles.hmac, form, key, now).0;
      && Evolves(s, s', oracles, SignupPost(form, key, now))
      && (SecretsWellFormed(s) ==> SecretsWellFormed(s'))
  {
    var s' := Register(s, oracles.hmac, form, key, now).0;
    forall j | 0 <= j < |s.mfaSettings| ensures s'.mfaSettings[j] == s.mfaSettings[j] {
      assert s'.mfaSettings[..|s.mfaSettings|][j] == s'.mfaSettings[j];
    }
  }

  lemma SignupEvolves(s: Store, oracles: Oracles, form: SignupForm, key: Key, now: Time)
    ensures var s' := Signup(s, oracles.hmac, form, key, now).0;
      Evolves(s, s', oracles, SignupPost(form, key, now)) && (Inv(s) ==> Inv(s'))
  {
    RegisterEvolves(s, oracles, form, key, now);
  }

  lemma SignupStrictEvolves(s: Store, oracles: Oracles, form: SignupForm, key: Key, now: Time)
    ensures var s' := SignupStrict(s, oracles.hmac, form, key, now).0;
      Evolves(s, s', oracles, SignupPost(form, key, now)) && (StrictInv(s) ==> StrictInv(s'))
  {
    RegisterEvolves(s, oracles, form, key, now);
  }

  /** The store after applying `step` to each request of `rqs` in turn. */
  function Fold(step: (Store, Request) -> Store, s: Store, rqs: seq<Request>): Store
    decreases |rqs|
  {
    if rqs == [] then s else step(Fold(step, s, rqs[..|rqs| - 1]), rqs[|rqs| - 1])
  }

  /** The controller's actions as one step function. */
  function Controller(oracles: Oracles): (Store, Request) -> Store {
    (t: Store, rq: Request) => Step(t, oracles, rq)
  }

  /** The store after the requests `rqs`, in order. */
  function Run(s: Store, oracles: Oracles, rqs: seq<Request>): Store {
    Fold(Controller(oracles), s, rqs)
  }

  /** The corrected actions as one step function. */
  function CorrectedController(oracles: Oracles): (Store, Request) -> Store {
    (t: Store, rq: Request) => StepCorrected(t, oracles, rq)
  }

  /** The store after the requests `rqs` sent to the corrected controller. */
  function RunCorrected(s: Store, oracles: Oracles, rqs: seq<Request>): Store {
    Fold(CorrectedController(oracles), s, rqs)
  }

  /** `step` keeps every invariant. */
  ghost predicate KeepsInv(step: (Store, Request) -> Store) {
    forall t, rq :: Inv(t) ==> Inv(step(t, rq))
  }

  /** `step` keeps the invariant and unambiguous identifiers together. */
  ghost predicate KeepsStrictInv(step: (Store, Request) -> Store) {
    forall t, rq :: StrictInv(t) ==> StrictInv(step(t, rq))
  }

  /** Every application of `step` is an evolution allowed under `oracles`. */
  ghost predicate AlwaysEvolves(step: (Store, Request) -> Store, oracles: Oracles) {
    forall t, rq :: Evolves(t, step(t, rq), oracles, rq)
  }

  lemma ControllerKeepsInv(oracles: Oracles)
    ensures KeepsInv(Controller(oracles))
  {
    forall t, rq | Inv(t) ensures Inv(Controller(oracles)(t, rq)) {
      StepKeepsInv(t, oracles, rq);
    }
  }

  lemma CorrectedControllerKeepsStrictInv(oracles: Oracles)
    ensures KeepsStrictInv(CorrectedController(oracles))
  {
    forall t, rq | StrictInv(t) ensures StrictInv(CorrectedController(oracles)(t, rq)) {
      StepCorrectedKeepsStrictInv(t, oracles, rq);
    }
  }

  lemma CorrectedControllerEvolves(oracles: Oracles)
    ensures AlwaysEvolves(CorrectedController(oracles), oracles)
  {
    forall t, rq ensures Evolves(t, CorrectedController(oracles)(t, rq), oracles, rq) {
      assert CorrectedController(oracles)(t, rq) == StepCorrected(t, oracles, rq);
    }
  }

  lemma ControllerEvolves(oracles: Oracles)
    ensures AlwaysEvolves(Controller(oracles), oracles)
  {
    forall t, rq ensures Evolves(t, Controller(oracles)(t, rq), oracles, rq) {
      assert Controller(oracles)(t, rq) == Step(t, oracles, rq);
    }
  }

  lemma {:induction false} FoldKeepsInv(step: (Store, Request) -> Store, s: Store, rqs: seq<Request>)
    requires KeepsInv(step) && Inv(s)
    ensures Inv(Fold(step, s, rqs))
    decreases |rqs|
  {
    if rqs != [] {
      FoldKeepsInv(step, s, rqs[..|rqs| - 1]);
    }
  }

  lemma {:induction false} FoldKeepsStrictInv(step: (Store, Request) -> Store, s: Store, rqs: seq<Request>)
    requires KeepsStrictInv(step) && StrictInv(s)
    ensures StrictInv(Fold(step, s, rqs))
    decreases |rqs|
  {
    if rqs != [] {
      FoldKeepsStrictInv(step, s, rqs[..|rqs| - 1]);
    }
  }

  lemma {:induction false} FoldOnlyAppendsHistory(step: (Store, Request) -> Store, oracles: Oracles, s: Store, rqs: seq<Request>)
    requires AlwaysEvolves(step, oracles)
    ensures |s.history| <= |Fold(step, s, rqs).history|
    ensures Fold(step, s, rqs).history[..|s.history|] == s.history
    decreases |rqs|
  {
    if rqs != [] {
      var prev := Fold(step, s, rqs[..|rqs| - 1]);
      var last := Fold(step, s, rqs);
      FoldOnlyAppendsHistory(step, oracles, s, rqs[..|rqs| - 1]);
      assert Evolves(prev, last, oracles, rqs[|rqs| - 1]);
      assert last.history[..|s.history|] == last.history[..|prev.history|][..|s.history|];
    }
  }

  lemma {:induction false} FoldKeepsMfaRow(step: (Store, Request) -> Store, oracles: Oracles, s: Store, rqs: seq<Request>, j: nat)
    requires AlwaysEvolves(step, oracles)
    requires j < |s.mfaSettings|
    ensures var s' := Fold(step, s, rqs);
      && j < |s'.mfaSettings|
      && s'.mfaSettings[j].userId == s.mfaSettings[j].userId
      && (s.mfaSettings[j].secretKey != "" ==> s'.mfaSettings[j].secretKey == s.mfaSettings[j].secretKey)
      && (s.mfaSettings[j].isEnabled ==> s'.mfaSettings[j].isEnabled)
    decreases |rqs|
  {
    if rqs != [] {
      var prev := Fold(step, s, rqs[..|rqs| - 1]);
      FoldKeepsMfaRow(step, oracles, s, rqs[..|rqs| - 1], j);
      assert Evolves(prev, Fold(step, s, rqs), oracles, rqs[|rqs| - 1]);
    }
  }

  /**
   * Request `k` of `rqs` is a confirmation on behalf of `owner` whose code
   * the authenticator accepted for the secret MFA row `j` held just before it.
   */
  ghost predicate AcceptedAt(step: (Store, Request) -> Store, oracles: Oracles, s: Store, rqs: seq<Request>, j: nat, owner: nat, k: nat) {
    && k < |rqs| && rqs[k].SetupMfaConfirm? && rqs[k].userId == owner
    && j < |Fold(step, s, rqs[..k]).mfaSettings|
    && oracles.validPin(rqs[k].now, Fold(step, s, rqs[..k]).mfaSettings[j].secretKey, rqs[k].code)
  }

  lemma AcceptedAtExtend(step: (Store, Request) -> Store, oracles: Oracles, s: Store, rqs: seq<Request>, j: nat, owner: nat, k: nat)
    requires rqs != [] && AcceptedAt(step, oracles, s, rqs[..|rqs| - 1], j, owner, k)
    ensures AcceptedAt(step, oracles, s, rqs, j, owner, k)
  {
    assert rqs[..|rqs| - 1][..k] == rqs[..k];
  }

  lemma {:induction false} FoldEnablesOnlyWithAcceptedCode(step: (Store, Request) -> Store, oracles: Oracles, s: Store, rqs: seq<Request>, j: nat)
    requires AlwaysEvolves(step, oracles)
    requires j < |Fold(step, s, rqs).mfaSettings| && Fold(step, s, rqs).mfaSettings[j].isEnabled
    requires j < |s.mfaSettings| ==> !s.mfaSettings[j].isEnabled
    ensures exists k :: AcceptedAt(step, oracles, s, rqs, j, Fold(step, s, rqs).mfaSettings[j].userId, k)
    decreases |rqs|
  {
    if rqs == [] {
      assert false;
    } else {
      var n := |rqs| - 1;
      var prev := Fold(step, s, rqs[..n]);
      var owner := Fold(step, s, rqs).mfaSettings[j].userId;
      assert Evolves(prev, Fold(step, s, rqs), oracles, rqs[n]);
      assert j < |prev.mfaSettings|;
      if prev.mfaSettings[j].isEnabled {
        FoldEnablesOnlyWithAcceptedCode(step, oracles, s, rqs[..n], j);
        var k :| AcceptedAt(step, oracles, s, rqs[..n], j, owner, k);
        AcceptedAtExtend(step, oracles, s, rqs, j, owner, k);
      } else {
        assert rqs[..n] == rqs[..n][..n];
        assert AcceptedAt(step, oracles, s, rqs, j, owner, n);
      }
    }
  }

  /** Any sequence of requests keeps every invariant. */
  lemma RunKeepsInv(s: Store, oracles: Oracles, rqs: seq<Request>)
    requires Inv(s)
    ensures Inv(Run(s, oracles, rqs))
  {
    ControllerKeepsInv(oracles);
    FoldKeepsInv(Controller(oracles), s, rqs);
  }

  /** No request edits or removes a history row: the old history is a prefix of the new. */
  lemma RunOnlyAppendsHistory(s: Store, oracles: Oracles, rqs: seq<Request>)
    ensures |s.history| <= |Run(s, oracles, rqs).history|
    ensures Run(s, oracles, rqs).history[..|s.history|] == s.history
  {
    ControllerEvolves(oracles);
    FoldOnlyAppendsHistory(Controller(oracles), oracles, s, rqs);
  }

  /**
   * An MFA row keeps its owner, a secret once stored is never replaced, and
   * MFA once switched on stays on.
   */
  lemma RunKeepsMfaRow(s: Store, oracles: Oracles, rqs: seq<Request>, j: nat)
    requires j < |s.mfaSettings|
    ensures var s' := Run(s, oracles, rqs);
      && j < |s'.mfaSettings|
      && s'.mfaSettings[j].userId == s.mfaSettings[j].userId
      && (s.mfaSettings[j].secretKey != "" ==> s'.mfaSettings[j].secretKey == s.mfaSettings[j].secretKey)
      && (s.mfaSettings[j].isEnabled ==> s'.mfaSettings[j].isEnabled)
  {
    ControllerEvolves(oracles);
    FoldKeepsMfaRow(Controller(oracles), oracles, s, rqs, j);
  }

  /**
   * Every MFA row that is on after a run, and was not on before it, was
   * switched on by a confirmation request from its owner whose code the
   * authenticator accepted for the secret stored at that moment.
   */
  lemma RunEnablesOnlyWithAcceptedCode(s: Store, oracles: Oracles, rqs: seq<Request>, j: nat)
    requires j < |Run(s, oracles, rqs).mfaSettings| && Run(s, oracles, rqs).mfaSettings[j].isEnabled
    requires j < |s.mfaSettings| ==> !s.mfaSettings[j].isEnabled
    ensures exists k :: AcceptedAt(Controller(oracles), oracles, s, rqs, j, Run(s, oracles, rqs).mfaSettings[j].userId, k)
  {
    ControllerEvolves(oracles);
    FoldEnablesOnlyWithAcceptedCode(Controller(oracles), oracles, s, rqs, j);
  }

  /**
   * From a fresh database, every run keeps the constraints and well-formed
   * secrets, and every enabled MFA row was enabled by an accepted code.
   */
  lemma FromEmpty(oracles: Oracles, rqs: seq<Request>)
    ensures Inv(Run(Empty, oracles, rqs))
    ensures forall j: nat :: j < |Run(Empty, oracles, rqs).mfaSettings| && Run(Empty, oracles, rqs).mfaSettings[j].isEnabled ==>
      exists k :: AcceptedAt(Controller(oracles), oracles, Empty, rqs, j, Run(Empty, oracles, rqs).mfaSettings[j].userId, k)
  {
    EmptyIsValid();
    RunKeepsInv(Empty, oracles, rqs);
    forall j: nat | j < |Run(Empty, oracles, rqs).mfaSettings| && Run(Empty, oracles, rqs).mfaSettings[j].isEnabled
      ensures exists k :: AcceptedAt(Controller(oracles), oracles, Empty, rqs, j, Run(Empty, oracles, rqs).mfaSettings[j].userId, k)
    {
      RunEnablesOnlyWithAcceptedCode(Empty, oracles, rqs, j);
    }
  }

  /**
   * The corrected controller keeps the invariant and, on top of it, keeps
   * every login identifier naming at most one user, so that a sign-in
   * always reaches the account it names.
   */
  lemma RunCorrectedKeepsStrictInv(s: Store, oracles: Oracles, rqs: seq<Request>)
    requires StrictInv(s)
    ensures StrictInv(RunCorrected(s, oracles, rqs))
  {
    CorrectedControllerKeepsStrictInv(oracles);
    FoldKeepsStrictInv(CorrectedController(oracles), s, rqs);
  }

  /** The corrected controller changes the same tables in the same constrained ways. */
  lemma RunCorrectedEvolves(s: Store, oracles: Oracles, rqs: seq<Request>, j: nat)
    requires j < |s.mfaSettings|
    ensures var s' := RunCorrected(s, oracles, rqs);
      && |s.history| <= |s'.history| && s'.history[..|s.history|] == s.history
      && j < |s'.mfaSettings| && s'.mfaSettings[j].userId == s.mfaSettings[j].userId
      && (s.mfaSettings[j].isEnabled ==> s'.mfaSettings[j].isEnabled)
  {
    CorrectedControllerEvolves(oracles);
    FoldOnlyAppendsHistory(CorrectedController(oracles), oracles, s, rqs);
    FoldKeepsMfaRow(CorrectedController(oracles), oracles, s, rqs, j);
  }

  lemma FoldTwo(step: (Store, Request) -> Store, s: Store, r0: Request, r1: Request)
    ensures Fold(step, s, [r0, r1]) == step(step(s, r0), r1)
  {
    assert [r0, r1][..1] == [r0];
    assert [r0][..0] == [];
    assert Fold(step, s, [r0]) == step(s, r0);
  }

  /**
   * Two signups from a fresh database: the controller as written accepts a
   * username equal to the first user's email, so the identifiers become
   * ambiguous; the corrected controller turns the second signup away.
   */
  lemma ShadowingRun(oracles: Oracles, key1: Key, key2: Key, now: Time)
    ensures var rqs := [SignupPost(SignupForm("alice", "alice@x.com", "pw-alice"), key1, now),
                        SignupPost(SignupForm("alice@x.com", "bob@y.com", "pw-bob"), key2, now)];
      && Inv(Run(Empty, oracles, rqs)) && |Run(Empty, oracles, rqs).users| == 2
      && !Unambiguous(Run(Empty, oracles, rqs).users)
      && StrictInv(RunCorrected(Empty, oracles, rqs)) && |RunCorrected(Empty, oracles, rqs).users| == 1
  {
    var f1 := SignupForm("alice", "alice@x.com", "pw-alice");
    var f2 := SignupForm("alice@x.com", "bob@y.com", "pw-bob");
    var rqs := [SignupPost(f1, key1, now), SignupPost(f2, key2, now)];
    EmptyIsValid();
    RunKeepsInv(Empty, oracles, rqs);
    RunCorrectedKeepsStrictInv(Empty, oracles, rqs);
    AsWrittenShadows(oracles, key1, key2, now, f1, f2);
    CorrectedRefuses(oracles, key1, key2, now, f1, f2);
    FoldTwo(Controller(oracles), Empty, rqs[0], rqs[1]);
    FoldTwo(CorrectedController(oracles), Empty, rqs[0], rqs[1]);
    var w1 := Step(Empty, oracles, rqs[0]);
    assert Run(Empty, oracles, rqs) == Step(w1, oracles, rqs[1]);
    var c1 := StepCorrected(Empty, oracles, rqs[0]);
    assert RunCorrected(Empty, oracles, rqs) == StepCorrected(c1, oracles, rqs[1]);
  }

  lemma AsWrittenShadows(oracles: Oracles, key1: Key, key2: Key, now: Time, f1: SignupForm, f2: SignupForm)
    requires f1 == SignupForm("alice", "alice@x.com", "pw-alice")
    requires f2 == SignupForm("alice@x.com", "bob@y.com", "pw-bob")
    ensures var w := Signup(Signup(Empty, oracles.hmac, f1, key1, now).0, oracles.hmac, f2, key2, now).0;
      |w.users| == 2 && !Unambiguous(w.users)
  {
    SignupShadowsUsername(oracles.hmac, key1, key2, now);
    var w1 := Signup(Empty, oracles.hmac, f1, key1, now).0;
    var w := Signup(w1, oracles.hmac, f2, key2, now).0;
    assert w.users[0].email == w.users[1].username;
  }

  lemma CorrectedRefuses(oracles: Oracles, key1: Key, key2: Key, now: Time, f1: SignupForm, f2: SignupForm)
    requires f1 == SignupForm("alice", "alice@x.com", "pw-alice")
    requires f2 == SignupForm("alice@x.com", "bob@y.com", "pw-bob")
    ensures var c1 := SignupStrict(Empty, oracles.hmac, f1, key1, now).0;
      |SignupStrict(c1, oracles.hmac, f2, key2, now).0.users| == 1
  {
    var c1 := SignupStrict(Empty, oracles.hmac, f1, key1, now).0;
    assert c1.users[0].email == "alice@x.com";
    assert Names(c1.users[0], f2.username);
  }
}
