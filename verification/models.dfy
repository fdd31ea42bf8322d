/**
 * Record shapes of the three tables the authentication core works on:
 * users, their MFA settings (one row per user) and their login history
 * (many rows per user). Identity columns are natural numbers handed out by
 * the store; times are ticks of the .NET DateTime clock.
 */
module Models {

  datatype Option<T> = None | Some(value: T)

  /** A point in time, in DateTime ticks. */
  type Time = int

  /** What a DateTime field holds when nothing assigns it (DateTime.MinValue). */
  const DefaultDate: Time := 0

  newtype byte = b: int | 0 <= b < 256

  /** Key of the keyed password hash; stored as the user's password salt. */
  type Key = seq<byte>

  /** Output of the keyed password hash; stored as the user's password hash. */
  type Digest = seq<byte>

  datatype User = User(
    userId: nat,
    username: string,
    email: string,
    passwordHash: Digest,
    passwordSalt: Key,
    isEmailConfirmed: bool,
    createdDate: Time,
    lastLoginDate: Option<Time>)

  datatype MfaSettings = MfaSettings(
    mfaSettingsId: nat,
    userId: nat,
    isEnabled: bool,
    secretKey: string,
    createdDate: Time)

  datatype AuthenticationHistory = AuthenticationHistory(
    authHistoryId: nat,
    userId: nat,
    loginDate: Time,
    loginStatus: bool,
    ipAddress: string,
    userAgent: string)
}
