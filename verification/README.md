# MFADemo authentication core in Dafny

This project models the decision logic of MFADemo's `AccountController`.
MFADemo is an ASP.NET MVC site with username/password sign-in and optional
TOTP two-factor authentication. The model covers:

- **Signup.** The username/email pre-check, salted HMAC password hashing, and
  the user row plus its disabled MFA settings row.
- **MFA enrollment.** The GET action generates the shared secret once and
  returns the provisioning request for the authenticator app. The POST action
  enables MFA only when the authenticator library accepts the posted code.
- **Login.** Lookup by username or email, password check, the MFA gate, the
  authentication-history rows, the last-login stamp and the issued session.
- **The database.** The three tables and the constraints
  `ApplicationDbContext` declares: primary keys, unique usernames, unique
  emails, one MFA row per user, and the history foreign key. Every action,
  as written, is proved to preserve them.
- **The controller over time.** `Server.Step` is the controller as written,
  and `Server.Run` applies it to any sequence of requests. Proofs over whole
  runs show that the constraints, an MFA row per user and well-formed
  secrets are kept; that history is append-only; that a stored secret never
  changes; and that every enabled MFA row was enabled by an accepted code
  from its owner. They do not show that a login identifier names a single
  user: the as-written signup lets that fail (`Server.ShadowingRun`).
  `Server.StepCorrected`, with the two corrections listed under Findings,
  keeps that property too (`Server.RunCorrectedKeepsStrictInv`). The
  induction is done once over `Server.Fold`, for any step function with the
  one-step property, and instantiated with both controllers.

Modules follow the program: `Models` (the entity classes), `Db` (the
context and its tables), `Crypto`, `Passwords`, `SecretKeys`, `Forms` (the
view models' `[Required]` rules), `SignupFlow`, `MfaSetupFlow`, `LoginFlow`,
`Server`, and `Scenarios` (an end-to-end walkthrough: sign up, enroll, sign
in with and without MFA, a wrong password, and a shadowed username).

Tables are sequences in insertion order, with identity counters for their
keys. `FirstOrDefaultAsync` is the first matching row (`Db.FirstIndex`).
The two external cryptographic primitives are function parameters, so
every property holds whatever they compute:
- HMAC-SHA512, as `Crypto.Hmac`;
- the authenticator library's `ValidateTwoFactorPIN`, as `Crypto.PinValidator`,
  which also takes the request's clock reading.

The code takes a version-4 GUID's text form,
removes the dashes and keeps the first 16 characters. The result is 16
lower-case hex digits whose thirteenth character is always `4`
(`SecretKeys.NewSecretKey`).

## Model

| member | source | states |
|---|---|---|
| Db.FirstIndex | Controllers/AccountController.cs:194-196 | The lookup finds the first row satisfying the predicate, with no earlier match. It returns nothing exactly when no row matches. |
| Db.FindUserById | Controllers/AccountController.cs:87-89 | Finding a user by id returns the first user with that id, and nothing exactly when no user has it. |
| Db.FindUserByLogin | Controllers/AccountController.cs:194-196 | Finding a user by login returns the first user whose username or email equals the identifier, and nothing exactly when no user has it in either column. |
| Db.FindMfa | Controllers/AccountController.cs:88 | A user's MFA row is the first row owned by that user, and there is none exactly when no row is. |
| Db.Valid | Controllers/ApplicationDbContext.cs:28-54 | The declared constraints: user ids and MFA ids below their identity counters and distinct, unique usernames, unique emails, each MFA row owned by an existing user and at most one per user, and each history row with a distinct id and an existing user. |
| Db.KeysIdentifyRows | Controllers/ApplicationDbContext.cs:28-54 | In a store meeting the declared constraints, looking a user up by its id finds that very row, and looking an MFA row up by its owner finds that very row. |
| Db.EmptyIsValid | Controllers/ApplicationDbContext.cs:23-55 | A fresh database meets every declared key, uniqueness and foreign-key constraint. |
| Db.RecordAttempt | Controllers/AccountController.cs:212-218 | One history row is appended with the given user, status, login date, address (or "unknown") and user agent. Earlier rows, users and MFA rows are untouched. The constraints are kept when the user exists. |
| Db.UpdateUser | Controllers/AccountController.cs:256-257 | Saving a changed user that keeps its id, username and email changes only that row. The constraints and every user's MFA row are kept. |
| Db.UpdateMfa | Controllers/AccountController.cs:100-101 | Saving a changed MFA row that keeps its id and owner changes only that row. The constraints are kept. |
| Crypto.GenerateSetupCode | Controllers/AccountController.cs:104-111 | Definition (no contract): the provisioning request names issuer "iSEM.ai", the user's email and the stored secret, marks the secret as not base-32 and asks for 3 pixels per QR module. What a page shows is stated by `MfaSetupFlow.SetupMfaGet`. |
| Passwords.CreatePasswordHash | Controllers/AccountController.cs:75-80 | The salt is the fresh HMAC key, and the stored hash verifies for the password it was made from. |
| Passwords.VerifyPasswordHash | Controllers/AccountController.cs:278-285 | Definition (no contract): the candidate's HMAC under the stored salt equals the stored hash. Its round trip with hashing is proved by `Passwords.CreatePasswordHash` and `Passwords.VerifyCreatedHash`. |
| Passwords.VerifyCreatedHash | Controllers/AccountController.cs:278-285 | A candidate verifies against a created hash exactly when its HMAC under the same key equals the password's. The password itself always verifies. |
| Forms.Required | Controllers/LoginViewModel.cs:10-17 | Definition (no contract): a `[Required]` field is accepted when the value is not null or white space. |
| Forms.RequiredIffTrimmedNonEmpty | Controllers/LoginViewModel.cs:10-17 | `[Required]`'s own test, that the trimmed value is not empty (with `Trim` defined separately from the leading and trailing white space it removes), agrees with `Required`; both hold exactly when the value has a character that is not white space. |
| Forms.LoginFormValid | Controllers/AccountController.cs:180 | Definition (no contract): the login form is valid when its two `[Required]` fields, identifier and password, are accepted. |
| Forms.HasMfaCode | Controllers/AccountController.cs:231 | Definition (no contract): a code counts as posted only when it has a character that is not white space, since binding makes an empty or white-space value null. |
| Forms.VerificationFormValid | Controllers/AccountController.cs:127 | Definition (no contract): the confirmation form is valid when its one `[Required]` field, the code, is accepted. |
| SecretKeys.WithoutDashes | Controllers/AccountController.cs:98 | Removing dashes leaves no dash, never lengthens the text, and leaves dash-free text unchanged. |
| SecretKeys.GuidStringDigits | Controllers/AccountController.cs:98 | The text form of a GUID with its dashes removed is exactly its 32 hex digits. |
| SecretKeys.NewSecretKey | Controllers/AccountController.cs:98 | The generated secret is the GUID's first 16 hex digits: 16 lower-case hex characters, the thirteenth being '4'. |
| SignupFlow.Taken | Controllers/AccountController.cs:36 | The pre-check holds exactly when some user has the form's username as username or its email as email. |
| SignupFlow.InsertKeepsValid | Controllers/ApplicationDbContext.cs:38-49 | Appending a user with a fresh id, unused username and unused email, plus its MFA row, keeps every constraint. |
| SignupFlow.InsertKeepsMfaRows | Controllers/ApplicationDbContext.cs:46-49 | Appending a user together with its MFA row keeps every user's MFA row findable. |
| SignupFlow.Register | Controllers/AccountController.cs:42-66 | Exactly one user and one MFA row are added, both owned by the next id, and history is untouched. The user carries the form's names, the key as salt, a hash that verifies the password, an unconfirmed email, the creation time and no last login. The MFA row is disabled, has no secret and carries the creation time. |
| SignupFlow.Signup | Controllers/AccountController.cs:33-69 | Signup is refused exactly when the username or the email is already in use (same column only), and a refused signup changes nothing. A successful one is Register under the next id. The constraints and the MFA rows are kept. |
| SignupFlow.SignupShadowsUsername | Controllers/AccountController.cs:36 | The as-written pre-check accepts a second user whose username is the first user's email. Both stores are valid, yet a login with that username finds the first user. |
| SignupFlow.Clashes | Controllers/AccountController.cs:36 | The corrected pre-check holds exactly when some user is already known by the new username or the new email, in either column. |
| SignupFlow.UnambiguousAppend | Controllers/AccountController.cs:36 | Adding a user whom no existing user is known by, by either identifier, keeps every identifier naming at most one user. |
| SignupFlow.StrictRegisterFacts | Controllers/AccountController.cs:42-66 | Registering a user that passes the cross-column check makes both its identifiers find it and keeps the constraints, unambiguous identifiers and the MFA rows. |
| SignupFlow.SignupStrict | Controllers/AccountController.cs:33-69 | Signup with the cross-column pre-check is refused exactly on a clash and leaves the store unchanged then. A successful signup is Register, and a login by the new username or email finds the new user. The constraints, unambiguous identifiers and the MFA rows are kept. |
| MfaSetupFlow.SetupMfaGet | Controllers/AccountController.cs:84-120 | An unknown user gets NotFound and a missing MFA row gets Fault, neither with a write. Otherwise a stored secret is reused and nothing changes. A missing secret is replaced by the GUID's secret, and only that field changes. The page shows the provisioning request for the email and the now non-empty secret. The constraints and secret well-formedness are kept. |
| MfaSetupFlow.SetupMfaGetIdempotent | Controllers/AccountController.cs:94-102 | Viewing the enrollment page a second time, whatever GUID it would draw, returns the same store and page as the first view. |
| MfaSetupFlow.SetupMfaPost | Controllers/AccountController.cs:125-167 | MFA is enabled exactly when the form is valid, the user and its MFA row exist, and the validator accepts the code for the stored secret. In that case only that row's flag changes. In every other case nothing is written, and a rejected code shows the provisioning request again. |
| MfaSetupFlow.SetupMfaPostEnablesOnlyWithAcceptedCode | Controllers/AccountController.cs:138-164 | Across one confirmation, no row loses its secret or its enabled flag. A row is switched on only for its owner and with a code accepted for its secret. |
| LoginFlow.MfaOn | Controllers/AccountController.cs:227 | MFA counts as on only if some MFA row of the user has it switched on. A user without a row counts as off. |
| LoginFlow.MfaOnMeansEnabledRow | Controllers/ApplicationDbContext.cs:46-49 | In a valid store, where a user has at most one MFA row, MFA is on exactly when some row of that user is enabled. |
| LoginFlow.SignInUser | Controllers/AccountController.cs:287-306 | Definition (no contract): the session carries the user's username, id and email claims and the "remember me" persistence. |
| LoginFlow.SessionFindsUser | Controllers/AccountController.cs:287-306 | After a successful login the session leads back to its user: looking up its id claim, as the MFA setup actions do, finds exactly the user the login named, whose username and email are the session's name and email claims, and the session is persistent exactly when "remember me" was ticked. |
| LoginFlow.CompleteSignIn | Controllers/AccountController.cs:256-271 | A success stamps the user's last login with the request's time, appends one successful history row with the given row date and the request's address and agent, and issues the session. Other users and the MFA rows are untouched. |
| LoginFlow.KnownUserLogin | Controllers/AccountController.cs:206-271 | For a user the login names: a wrong password writes one failed row; with MFA on, a missing code (empty or only white space) or a rejected one asks again with no write; otherwise the user is signed in. |
| LoginFlow.LoginAt | Controllers/AccountController.cs:177-276 | An invalid form is refused with no write. Unknown user and wrong password give the same error, and only the wrong password writes a failed row. With MFA on, a missing code (empty or only white space) or a rejected one asks again with no write. Sign-in happens exactly when the password and, with MFA on, a posted code are accepted. Identities and MFA rows never change, and history grows by at most one row, dated with the given row date. |
| LoginFlow.Login | Controllers/AccountController.cs:212-218 | The action as written: every history row it appends carries the default date, because neither row it builds sets `LoginDate`. |
| LoginFlow.WrongPasswordRecordsFailure | Controllers/AccountController.cs:206-221 | A wrong password for a known user writes exactly one failed history row for that user, with the default date, and gives the generic error. |
| LoginFlow.LoginLosesTime | Models/AuthenticationHistory.cs:14 | When the action as written logs an attempt made at any time other than the default date, the row does not record that time. |
| LoginFlow.LoginStamped | Controllers/AccountController.cs:260-266 | The corrected action dates every history row it appends with the time of the attempt. |
| LoginFlow.LoginStampedOnlyDates | Controllers/AccountController.cs:212-266 | Stamping the date changes nothing else: the same outcome, users, MFA rows and history, apart from the appended row's date. |
| LoginFlow.UnknownUserLooksLikeWrongPassword | Controllers/AccountController.cs:198-222 | An unknown identifier and a known one with a wrong password produce the same outcome and the same message. |
| LoginFlow.MfaContinuation | Controllers/AccountController.cs:226-254 | After a login answered with a code request, the same form with a code that has a non-white-space character and that the authenticator accepts signs the user in. |
| Server.Step | Controllers/AccountController.cs:31-276 | One request to the controller as written appends to history only. It keeps MFA rows' owners and stored secrets, and never switches MFA off. It switches a row on only through the owner's accepted confirmation, and adds new rows disabled and without a secret. |
| Server.StepCorrected | Controllers/AccountController.cs:31-276 | One request to the corrected controller (cross-column signup check, dated history rows) evolves the store under the same rules. |
| Server.StepKeepsInv | Controllers/ApplicationDbContext.cs:28-54 | Every action as written keeps the constraints, an MFA row per user and well-formed secrets. |
| Server.StepCorrectedKeepsStrictInv | Controllers/ApplicationDbContext.cs:28-54 | Every corrected action keeps those and, besides, that no identifier names two users. |
| Server.RegisterEvolves | Controllers/AccountController.cs:42-66 | Inserting a user leaves history and the existing MFA rows as they were, adds only a disabled, secret-less row, and keeps secrets well-formed. |
| Server.SignupEvolves | Controllers/AccountController.cs:33-69 | The signup as written only evolves the store and keeps the invariant. |
| Server.SignupStrictEvolves | Controllers/AccountController.cs:33-69 | The corrected signup only evolves the store and keeps the invariant with unambiguous identifiers. |
| Server.SetupMfaGetEvolves | Controllers/AccountController.cs:94-102 | The enrollment page changes a secret only when none is stored, and never touches users. |
| Server.SetupMfaGetKeepsInv | Controllers/AccountController.cs:94-102 | The enrollment page keeps the invariant, and unambiguous identifiers too. |
| Server.SetupMfaPostEvolves | Controllers/AccountController.cs:138-164 | The confirmation enables only its owner's row, with an accepted code, and never touches users. |
| Server.SetupMfaPostKeepsInv | Controllers/AccountController.cs:138-164 | The confirmation keeps the invariant, and unambiguous identifiers too. |
| Server.LoginEvolves | Controllers/AccountController.cs:205-268 | Login, whatever date it writes into its rows, only appends history, leaves MFA rows alone and keeps both invariants. |
| Server.ControllerKeepsInv | Controllers/ApplicationDbContext.cs:28-54 | The as-written step function keeps the invariant, whatever store and request it is given. |
| Server.CorrectedControllerKeepsStrictInv | Controllers/ApplicationDbContext.cs:28-54 | The corrected step function keeps the invariant with unambiguous identifiers. |
| Server.ControllerEvolves | Controllers/AccountController.cs:31-276 | Every application of the as-written step function is an allowed evolution of the store. |
| Server.CorrectedControllerEvolves | Controllers/AccountController.cs:31-276 | Every application of the corrected step function is an allowed evolution of the store. |
| Server.FoldKeepsInv | Controllers/ApplicationDbContext.cs:28-54 | Any step function that keeps the invariant keeps it over any sequence of requests. |
| Server.FoldKeepsStrictInv | Controllers/ApplicationDbContext.cs:28-54 | Any step function that keeps the invariant with unambiguous identifiers keeps it over any sequence of requests. |
| Server.FoldOnlyAppendsHistory | Controllers/AccountController.cs:212-218 | For a step function that only evolves the store, the history after any sequence keeps the earlier history as a prefix. |
| Server.FoldKeepsMfaRow | Controllers/AccountController.cs:94-102 | For such a step function, an MFA row keeps its owner over any sequence. A stored secret is never replaced, and an enabled row stays enabled. |
| Server.FoldEnablesOnlyWithAcceptedCode | Controllers/AccountController.cs:138-164 | For such a step function, a row enabled at the end and not at the start was enabled by some request in the sequence. That request was its owner's confirmation, with a code accepted for the secret the row held just before it. |
| Server.AcceptedAtExtend | Controllers/AccountController.cs:138-164 | A confirmation that enabled a row in a sequence of requests is still that confirmation when more requests follow. |
| Server.FoldTwo | Controllers/AccountController.cs:31-276 | Applying two requests in sequence is applying the step to the first and then to the second. |
| Server.RunKeepsInv | Controllers/ApplicationDbContext.cs:28-54 | Any sequence of requests to the controller as written keeps the constraints, an MFA row per user and well-formed secrets. |
| Server.RunOnlyAppendsHistory | Controllers/AccountController.cs:212-218 | After any sequence of requests, the earlier history is an unchanged prefix of the later one. |
| Server.RunKeepsMfaRow | Controllers/AccountController.cs:94-102 | Over any run an MFA row keeps its owner, a stored secret is never replaced, and an enabled row stays enabled. |
| Server.RunEnablesOnlyWithAcceptedCode | Controllers/AccountController.cs:138-164 | A row enabled after a run and not before was enabled by some confirmation in the run. That confirmation came from the row's owner, with a code accepted for the secret stored at that moment. |
| Server.FromEmpty | Controllers/ApplicationDbContext.cs:23-55 | From a fresh database, every run of the controller as written keeps the invariant, and every enabled MFA row was enabled by an accepted code. |
| Server.RunCorrectedKeepsStrictInv | Controllers/AccountController.cs:36 | Any sequence of requests to the corrected controller keeps the invariant and, besides, keeps every login identifier naming at most one user. |
| Server.RunCorrectedEvolves | Controllers/AccountController.cs:31-276 | The corrected controller only appends history, and keeps MFA rows' owners and enabled flags, over any run. |
| Server.ShadowingRun | Controllers/AccountController.cs:36 | Two signups from a fresh database: the controller as written ends valid but with one identifier naming two users, while the corrected one refuses the second signup and stays unambiguous. |
| Server.AsWrittenShadows | Controllers/AccountController.cs:36 | The as-written signup accepts a username equal to an existing user's email, leaving two users with a shared identifier. |
| Server.CorrectedRefuses | Controllers/AccountController.cs:36 | The corrected signup refuses that second signup and keeps one user. |
| Scenarios.SignupThenDuplicate | Controllers/AccountController.cs:36-66 | The first signup creates user 1 with a disabled MFA row. A second signup with the same email is refused and changes nothing. |
| Scenarios.AliceSignedUp | Controllers/AccountController.cs:42-66 | After one signup on a fresh database there is user 1 with the form's names and a hash under the key, a disabled MFA row, no history, and both lookups find them. |
| Scenarios.SignInWithoutMfa | Controllers/AccountController.cs:256-271 | Without MFA, the right password signs in, records one successful row with the default date, and stamps the last login with the request's time. |
| Scenarios.EnrollCodes | Controllers/AccountController.cs:138-164 | A rejected code leaves enrollment unchanged, and an accepted one enables MFA on the user's row. |
| Scenarios.SignInWithMfa | Controllers/AccountController.cs:226-254 | With MFA on, a login without a code is asked for one, and a login with an accepted code succeeds. |
| Scenarios.SignInWithCode | Controllers/AccountController.cs:238-271 | A known user with the right password and MFA on who posts an accepted code is signed in with that user's session. |
| Scenarios.EnrollThenSignInWithMfa | Controllers/AccountController.cs:84-276 | Enrollment then MFA login, end to end. The secret is generated once and survives a rejected code. An accepted code enables MFA. Later logins need, and accept, a code. |
| Scenarios.WrongPassword | Controllers/AccountController.cs:206-221 | A wrong password gives "Invalid login attempt" and exactly one failed row for the user, with the default date. |
| Scenarios.ShadowedUserCannotSignIn | Controllers/AccountController.cs:194-222 | With the as-written pre-check, a user whose username is another user's email cannot sign in with it. The failure is recorded against the other user, with the default date. |
| Scenarios.ShadowedStore | Controllers/AccountController.cs:36-66 | The second signup, with the first user's email as username, is accepted; the first user keeps its id and hash, and a login by that email finds the first user. |

## Left out

- Base64 text encoding of the salt and hash. The digests and keys are compared as bytes, which is equivalent because the encoding is one-to-one. The exception `FromBase64String` raises on a malformed stored salt is not modelled.
- The internals of HMAC-SHA512, TOTP validation and QR rendering. They are function parameters (`Crypto.Hmac`, `Crypto.PinValidator`). The QR image URL and manual entry key are represented by the arguments they are generated from (`Crypto.SetupCode`).
- Randomness and the clock. The HMAC key and the GUID are parameters of signup and enrollment. `DateTime.UtcNow` is a `now` parameter, and signup uses one reading for both the user's and the MFA row's creation time.
- Asynchrony, concurrency and transactions. Each action is applied atomically, including signup's two separate saves. A failure between them, which would leave a user without an MFA row, is not modelled.
- Signup form validation. `SignupViewModel` is not part of this model, so signup's `ModelState.IsValid` is assumed to hold.
- Claims parsing. The signed-in user's id is passed in rather than parsed from the `NameIdentifier` claim. `[Authorize]` and anti-forgery checks are framework filters and are left out.
- Views, redirects, `ModelState` plumbing other than the error messages, the `RequiresMfa` view flag, and console logging. The outcome datatypes stand for them.
- The GET actions for signup and login, `Logout`/`LogoutConfirmed`, and `HomeController`. They contain no decision logic over the store.
- Database row order. `FirstOrDefaultAsync` without `OrderBy` is modelled as insertion order.
- Forms.LoginFormValid: assumes model validation checks only the two `[Required]` fields. If the project enables nullable reference types, the non-nullable `MfaCode` (Controllers/LoginViewModel.cs:22) would be implicitly required as well, and a first-step login with no code would be refused. The project settings that decide this are not part of this model.
- Db.FindUserByLogin: compares identifiers as exact, case-sensitive strings. The database collation decides this in the real system (SQL Server's default is case-insensitive). The same holds for `SignupFlow.Taken`, `SignupFlow.Clashes` and the unique indexes in `Db.Valid`.
- Integer widths. Identity counters are unbounded, and 32-bit overflow of the `int` keys is not modelled.

## Findings

| source | as written | input that shows it | evidently intended | confidence | as-written member | corrected member |
|---|---|---|---|---|---|---|
| Controllers/AccountController.cs:212-218, 260-266 | Both history rows set user, status, address and agent but never `LoginDate`, so every row stores the default date | any login attempt at a time other than the default date | each row records the time of the attempt | high; not executed | LoginFlow.Login (shown by LoginFlow.LoginLosesTime) | LoginFlow.LoginStamped |
| Controllers/AccountController.cs:36, 194-196 | The signup pre-check compares username with username and email with email, but login matches the identifier against either column | user "alice"/"alice@x.com", then signup of username "alice@x.com" with email "bob@y.com": accepted, and a login as "alice@x.com" finds alice | no identifier names two users, so login by a new user's username finds that user | medium; not executed | SignupFlow.Signup (shown by SignupFlow.SignupShadowsUsername and Server.ShadowingRun) | SignupFlow.SignupStrict |

`Server.Step` is the controller as written: it uses `SignupFlow.Signup` and
`LoginFlow.Login`. Its partner `Server.StepCorrected` uses
`SignupFlow.SignupStrict` and `LoginFlow.LoginStamped`, and is proved to keep
identifiers unambiguous as well. `LoginFlow.LoginStampedOnlyDates` shows the
two logins differ only in the row date. `Scenarios.ShadowedUserCannotSignIn`
replays the second finding end to end.
