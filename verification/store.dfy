/**
 * The user store: the three tables of the database context, the lookups the
 * controller performs on them, the constraints the context declares, and the
 * few writes the controller makes. Every table is a sequence in insertion
 * order, so a "first or default" query is the first matching row.
 */
module Db {
  import opened Models

  datatype Store = Store(
    users: seq<User>,
    mfaSettings: seq<MfaSettings>,
    history: seq<AuthenticationHistory>,
    nextUserId: nat,
    nextMfaSettingsId: nat,
    nextAuthHistoryId: nat)

  /** A fresh database: empty tables, identity columns starting at 1. */
  const Empty: Store := Store([], [], [], 1, 1, 1)

  /** Position of the first element satisfying `p`, if any. */
  function FirstIndex<T>(xs: seq<T>, p: T -> bool): (r: Option<nat>)
    ensures r.Some? ==> r.value < |xs| && p(xs[r.value])
    ensures r.Some? ==> forall k :: 0 <= k < r.value ==> !p(xs[k])
    ensures r.None? <==> forall k :: 0 <= k < |xs| ==> !p(xs[k])
  {
    if |xs| == 0 then None
    else if p(xs[0]) then Some(0)
    else match FirstIndex(xs[1..], p)
      case None => None
      case Some(i) => Some(i + 1)
  }

  // ---------------------------------------------------------------------
  // Lookups
  // ---------------------------------------------------------------------

  /** The user with id `id`, first match wins. */
  function FindUserById(s: Store, id: nat): (r: Option<nat>)
    ensures r.Some? ==> r.value < |s.users| && s.users[r.value].userId == id
    ensures r.Some? ==> forall k :: 0 <= k < r.value ==> s.users[k].userId != id
    ensures r.None? <==> forall k :: 0 <= k < |s.users| ==> s.users[k].userId != id
  {
    FirstIndex(s.users, (u: User) => u.userId == id)
  }

  /** Whether `name` is the user's username or email: what a login identifier is compared with. */
  predicate Names(u: User, name: string) {
    u.username == name || u.email == name
  }

  /** The user a login identifier names: username or email, first match wins. */
  function FindUserByLogin(s: Store, name: string): (r: Option<nat>)
    ensures r.Some? ==> r.value < |s.users| && Names(s.users[r.value], name)
    ensures r.Some? ==> forall k :: 0 <= k < r.value ==> !Names(s.users[k], name)
    ensures r.None? <==> forall k :: 0 <= k < |s.users| ==> !Names(s.users[k], name)
  {
    FirstIndex(s.users, (u: User) => Names(u, name))
  }

  /** The MFA settings row that the user's navigation property loads. */
  function FindMfa(s: Store, userId: nat): (r: Option<nat>)
    ensures r.Some? ==> r.value < |s.mfaSettings| && s.mfaSettings[r.value].userId == userId
    ensures r.Some? ==> forall k :: 0 <= k < r.value ==> s.mfaSettings[k].userId != userId
    ensures r.None? <==> forall k :: 0 <= k < |s.mfaSettings| ==> s.mfaSettings[k].userId != userId
  {
    FirstIndex(s.mfaSettings, (m: MfaSettings) => m.userId == userId)
  }

  // ---------------------------------------------------------------------
  // Constraints declared by the database context
  // ---------------------------------------------------------------------

  ghost predicate HasUser(users: seq<User>, id: nat) {
    exists k :: 0 <= k < |users| && users[k].userId == id
  }

  ghost predicate UserKeys(s: Store) {
    && (forall i :: 0 <= i < |s.users| ==> s.users[i].userId < s.nextUserId)
    && (forall i, j :: 0 <= i < j < |s.users| ==> s.users[i].userId != s.users[j].userId)
  }

  ghost predicate UniqueUsernames(users: seq<User>) {
    forall i, j :: 0 <= i < j < |users| ==> users[i].username != users[j].username
  }

  ghost predicate UniqueEmails(users: seq<User>) {
    forall i, j :: 0 <= i < j < |users| ==> users[i].email != users[j].email
  }

  /** One-to-one: every row belongs to an existing user, no user has two rows. */
  ghost predicate MfaLinks(s: Store) {
    && (forall i :: 0 <= i < |s.mfaSettings| ==> s.mfaSettings[i].mfaSettingsId < s.nextMfaSettingsId)
    && (forall i, j :: 0 <= i < j < |s.mfaSettings| ==>
          s.mfaSettings[i].mfaSettingsId != s.mfaSettings[j].mfaSettingsId)
    && (forall i :: 0 <= i < |s.mfaSettings| ==> HasUser(s.users, s.mfaSettings[i].userId))
    && (forall i, j :: 0 <= i < j < |s.mfaSettings| ==> s.mfaSettings[i].userId != s.mfaSettings[j].userId)
  }

  /** One-to-many: every history row belongs to an existing user. */
  ghost predicate HistoryLinks(s: Store) {
    && (forall i :: 0 <= i < |s.history| ==> s.history[i].authHistoryId < s.nextAuthHistoryId)
    && (forall i, j :: 0 <= i < j < |s.history| ==> s.history[i].authHistoryId != s.history[j].authHistoryId)
    && (forall i :: 0 <= i < |s.history| ==> HasUser(s.users, s.history[i].userId))
  }

  ghost predicate Valid(s: Store) {
    && UserKeys(s)
    && UniqueUsernames(s.users)
    && UniqueEmails(s.users)
    && MfaLinks(s)
    && HistoryLinks(s)
  }

  /** Every user has its MFA settings row (true of stores built by signup alone). */
  ghost predicate EveryUserHasMfa(s: Store) {
    forall i :: 0 <= i < |s.users| ==> FindMfa(s, s.users[i].userId).Some?
  }

  /**
   * In a valid store the keys identify rows: looking a user up by its own id
   * finds that user, and looking up a user's MFA row by an MFA row's owner
   * finds that row.
   */
  lemma KeysIdentifyRows(s: Store)
    requires Valid(s)
    ensures forall i :: 0 <= i < |s.users| ==> FindUserById(s, s.users[i].userId) == Some(i)
    ensures forall j :: 0 <= j < |s.mfaSettings| ==> FindMfa(s, s.mfaSettings[j].userId) == Some(j)
  {
    forall i | 0 <= i < |s.users| ensures FindUserById(s, s.users[i].userId) == Some(i) {
      assert FindUserById(s, s.users[i].userId).Some?;
    }
    forall j | 0 <= j < |s.mfaSettings| ensures FindMfa(s, s.mfaSettings[j].userId) == Some(j) {
      assert FindMfa(s, s.mfaSettings[j].userId).Some?;
    }
  }

  lemma EmptyIsValid()
    ensures Valid(Empty) && EveryUserHasMfa(Empty)
  {
  }

  // ---------------------------------------------------------------------
  // Writes
  // ---------------------------------------------------------------------

  /** The address recorded for a request: the remote address, or "unknown" when there is none. */
  function IpOrUnknown(ip: Option<string>): string {
    match ip
    case Some(a) => a
    case None => "unknown"
  }

  /** Two stores that differ at most by rows appended to the history table. */
  ghost predicate HistoryExtends(s: Store, s': Store) {
    && s'.users == s.users
    && s'.mfaSettings == s.mfaSettings
    && |s.history| <= |s'.history|
    && s'.history[..|s.history|] == s.history
  }

  /**
   * Appends one login-history row with the given user, status, address and
   * agent, dated `loginDate`. The controller itself never assigns the date,
   * so as written every row carries DefaultDate.
   */
  function RecordAttempt(s: Store, userId: nat, status: bool, loginDate: Time, ip: Option<string>, userAgent: string): (s': Store)
    ensures HistoryExtends(s, s') && |s'.history| == |s.history| + 1
    ensures s'.history[|s.history|].userId == userId
    ensures s'.history[|s.history|].loginStatus == status
    ensures s'.history[|s.history|].loginDate == loginDate
    ensures s'.history[|s.history|].ipAddress == IpOrUnknown(ip)
    ensures s'.history[|s.history|].userAgent == userAgent
    ensures Valid(s) && HasUser(s.users, userId) ==> Valid(s')
  {
    var row := AuthenticationHistory(s.nextAuthHistoryId, userId, loginDate, status, IpOrUnknown(ip), userAgent);
    s.(history := s.history + [row], nextAuthHistoryId := s.nextAuthHistoryId + 1)
  }

  /** Replaces user `i` by a record with the same id, username and email. */
  function UpdateUser(s: Store, i: nat, u: User): (s': Store)
    requires i < |s.users|
    requires u.userId == s.users[i].userId && u.username == s.users[i].username && u.email == s.users[i].email
    ensures |s'.users| == |s.users| && s'.users[i] == u
    ensures forall k :: 0 <= k < |s.users| && k != i ==> s'.users[k] == s.users[k]
    ensures s'.mfaSettings == s.mfaSettings && s'.history == s.history
    ensures Valid(s) ==> Valid(s')
    ensures EveryUserHasMfa(s) ==> EveryUserHasMfa(s')
  {
    var s' := s.(users := s.users[i := u]);
    assert forall id :: HasUser(s.users, id) ==> HasUser(s'.users, id) by {
      forall id | HasUser(s.users, id)
        ensures HasUser(s'.users, id)
      {
        var k :| 0 <= k < |s.users| && s.users[k].userId == id;
        assert s'.users[k].userId == id;
      }
    }
    s'
  }

  /** Replaces MFA row `j` by a row with the same id that belongs to the same user. */
  function UpdateMfa(s: Store, j: nat, m: MfaSettings): (s': Store)
    requires j < |s.mfaSettings|
    requires m.mfaSettingsId == s.mfaSettings[j].mfaSettingsId && m.userId == s.mfaSettings[j].userId
    ensures |s'.mfaSettings| == |s.mfaSettings| && s'.mfaSettings[j] == m
    ensures forall k :: 0 <= k < |s.mfaSettings| && k != j ==> s'.mfaSettings[k] == s.mfaSettings[k]
    ensures s'.users == s.users && s'.history == s.history
    ensures Valid(s) ==> Valid(s')
    ensures EveryUserHasMfa(s) ==> EveryUserHasMfa(s')
  {
    var s' := s.(mfaSettings := s.mfaSettings[j := m]);
    assert forall id :: FindMfa(s, id).Some? ==> FindMfa(s', id).Some? by {
      forall id | FindMfa(s, id).Some?
        ensures FindMfa(s', id).Some?
      {
        var k := FindMfa(s, id).value;
        assert s'.mfaSettings[k].userId == id;
      }
    }
    s'
  }
}
