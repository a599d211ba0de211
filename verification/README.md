# Decision logic of lucia-auth-public, in Dafny

lucia-auth-public is a Next.js authentication template. Its server actions
sit on top of Prisma, Lucia, jsonwebtoken and argon2. Under the glue is a
small layer of sequential decisions, and this project models that layer as
pure transitions over an immutable store. The store has four tables: users,
verification-code rows, magic-link rows and sessions. Time is integer
milliseconds.

- **One-time credentials.** `Email.Resend` models `resendVerificationEmail`.
  It does an exact e-mail lookup, refuses verified users and users without a
  code row, and enforces a 120 s cooldown that reports whole seconds rounded
  up. Otherwise it rewrites the same code row in place with a six-digit code
  and mails a signed URL.
  - `MagicLinks.SignIn` models `signIn`. The lookup ignores case, an unknown
    address gets a new user, and a link issued in the last 60 s (boundary
    included) blocks a new one. Each issue appends a row that expires five
    minutes later.
  - `MagicLinkRoute.Redeem` models the `GET` handler. A token that verifies
    and belongs to a user with any link row deletes all of that user's rows
    and opens one session, so a replayed token is refused.
- **Account mutations.** `AuthActions.SignUp`, `AuthActions.Login`,
  `AuthActions.Logout`, and the two password-reset actions
  (`ResetPassword.ResetPassword`, `ResetPassword.ResetPasswordLegacy`).
  After a successful reset, the user's sessions are exactly one new session.
- **Validators.** `Schemas` models the zod schemas.
  - zod's trim uses JavaScript's whitespace set.
  - The five password rules are modelled as patterns, each paired with a
    declarative predicate.
  - Username and display-name rules, and the confirm-password refinement.
  - Issues are collected in field order, with the refinement last.

Calls into code that is not part of this model are parameters. The fields
of `Effects.Env` are:
- `jwt.sign` and the decode and expiry checks of `jwt.verify`;
- argon2 `hash` and `verify`;
- `APP_NAME`.

The actions also take two kinds of function argument:
- `isEmail` (`SignUp`, `Login`): zod's e-mail format check;
- `schema` (`SignIn`, `ResetPassword`, `ResetPasswordLegacy`): the magic-link
  and reset-password schemas, whose definitions are not among the source
  files.

`Math.random` becomes the argument `n` in `[0, 999999]`, and the clock becomes
the argument `now`. Mail senders catch their own errors, so a send is a
`Mail` value in the result and never fails.

The modules follow the source files:

| module | models |
|---|---|
| `Text` | decimal form, `padStart`, lower-casing |
| `Cooldown` | `Math.ceil` of milliseconds / 1000 |
| `Schemas` | `src/schemas/index.ts` |
| `Store` | Prisma reads and writes, fresh ids, `validateRequest`, the store invariant `Valid` |
| `Effects` | library calls |
| `Email` | `src/actions/email.ts` |
| `MagicLinks` | `src/actions/magic-link.ts` |
| `MagicLinkRoute` | `src/app/api/magic-link/route.ts` |
| `AuthActions` | `src/actions/auth-actions.ts` |
| `ResetPassword` | both reset actions |
| `Scenarios` | properties across actions |

Two consequences of the code are easy to miss:
- `signUp` creates no verification-code row (src/actions/auth-actions.ts:60-76),
  so resending to a fresh sign-up always answers "Code not found"
  (`Scenarios.SignUpThenResendFindsNoCode`).
- A token that fails verification is answered with jsonwebtoken's own message
  (src/app/api/magic-link/route.ts:65-74), not a uniform "Invalid token".

## Model

| member | source | states |
|---|---|---|
| Text.DecimalString | src/actions/email.ts:282-283 | the decimal form of a number is a non-empty digit string, a single digit exactly below 10, and has no leading zero otherwise |
| Text.PadStart | src/actions/email.ts:284 | padding yields width max(width, input length), ends with the input, and everything before the input is the fill character |
| Text.ParseDecimalString | src/actions/email.ts:282-283 | reading the decimal form back gives the number (round trip) |
| Text.ParseIgnoresLeadingZeros | src/actions/email.ts:284 | left zeros added by padding do not change the number read back |
| Text.DecimalStringLength | src/actions/email.ts:282-284 | a number below 10^k has at most k digits, so padding to six never has to cut |
| Email.CodeText | src/actions/email.ts:282-284 | the code for a draw in [0, 999999] is exactly six digit characters and reads back as the draw |
| Cooldown.CeilSeconds | src/actions/email.ts:276 | the wait is the least whole number of seconds covering the remaining milliseconds |
| Cooldown.CeilSecondsUnique | src/actions/email.ts:276 | that characterisation determines the wait uniquely |
| Cooldown.SecondsLeftWithinWindow | src/actions/email.ts:275-276 | inside the window the wait is at least 1 and at most the window in whole seconds |
| Cooldown.SecondsLeftNonIncreasing | src/actions/email.ts:276 | a later clock never reports a longer wait |
| Cooldown.SecondsLeftTicks | src/actions/magic-link.ts:54-62 | one more elapsed second lowers the reported wait by exactly one |
| Email.ResendWithCode | src/actions/email.ts:271-301 | with the user's code row: wait iff the row is younger than 120000 ms, reporting ceil((120000 - elapsed)/1000); otherwise that row alone gets the new code and createdAt = now, and the mail carries APP_NAME + '/api/verify-email?token=' + the token signed over {email, userId, code} |
| Email.ResendToUser | src/actions/email.ts:259-269 | a verified user is refused before any code lookup; an unverified user without a code row gets "Code not found" |
| Email.Resend | src/actions/email.ts:251-306 | "User not found" iff no user has exactly that e-mail; otherwise the first such user decides, in the order verified, code row, cooldown; nothing is written unless the row is rewritten, and success comes only with the rewrite and the mail |
| Email.ResendWaitBounds | src/actions/email.ts:271-280 | for an unverified user whose code row is under two minutes old (and not dated in the future) the action waits, reporting 1 to 120 seconds |
| Email.ResendWaitNonIncreasing | src/actions/email.ts:271-280 | inside the cooldown, asking later never reports a longer wait |
| Email.ResendTwiceCoolsDown | src/actions/email.ts:271-289 | once the cooldown is over and signing works the code is resent; another request within two minutes only reports the wait counted from the rewrite, and writes and mails nothing |
| Email.ResendKeepsValid | src/actions/email.ts:286-289 | a resend keeps the store invariant and every user's number of code rows |
| Email.CooldownMessageShowsWait | src/actions/email.ts:276-279 | the cooldown reply is the fixed prefix, the decimal seconds, the fixed suffix, and the digits read back as the wait |
| Email.ResendMessageDistinct | src/actions/email.ts:251-306 | the six replies are pairwise different, and two cooldown replies are equal only for the same wait |
| Effects.Verify | src/app/api/magic-link/route.ts:26-29 | a token verifies only if it decodes and has not expired at that time |
| MagicLinks.GenerateMagicLink | src/actions/magic-link.ts:9-24 | a signing error propagates; otherwise the URL is APP_NAME, then '/api/magic-link?token=', then the token, and the token is the one signed over {email, userId} |
| MagicLinks.LatestSince | src/actions/magic-link.ts:41-51 | none iff the user has no link created at or after the bound; otherwise the newest such creation time |
| MagicLinks.NewEmailUser | src/actions/magic-link.ts:80-85 | the created user carries only the e-mail (no username, no hash, unverified) under an id no row uses |
| MagicLinks.IssueLink | src/actions/magic-link.ts:67-76 | a link is sent iff signing {email, userId} succeeds, and then exactly one link row carrying that token is appended for the user, expiring at now + 300000, and its URL is mailed; a signing error is the reply's message and adds nothing |
| MagicLinks.WaitMessageShowsWait | src/actions/magic-link.ts:58-64 | the wait reply is the fixed prefix, the decimal seconds, the fixed suffix, and the digits read back as the wait |
| MagicLinks.SignInMessageDistinct | src/actions/magic-link.ts:58-102 | the success reply and every wait reply are pairwise different |
| MagicLinks.SignIn | src/actions/magic-link.ts:26-110 | a schema error changes nothing; existing rows are never changed; a user is created iff no user has the e-mail ignoring case; for a known user, a link created in the last 60 s (inclusive) blocks, with the wait rounded up; otherwise, for the found or created user, a link is sent iff signing succeeds (else the signing error is the message), and the sent row's token is the signed one and the mailed URL carries it |
| MagicLinks.SignInWaitBounds | src/actions/magic-link.ts:39-65 | a known user with a link from the last minute (none dated in the future) is asked to wait 0 to 60 seconds, and 0 exactly when every such link is exactly 60 s old |
| MagicLinks.SentLinkOwner | src/actions/magic-link.ts:30-96 | after a sent link, the new row belongs to the first user whose e-mail matches ignoring case, whether that user was found or created |
| MagicLinks.SignInTwiceWaits | src/actions/magic-link.ts:39-74 | a second request within 60 s of a sent link, the boundary included, is refused and writes nothing |
| MagicLinks.SignInNeverShrinksLinks | src/actions/magic-link.ts:39-96 | no user's number of link rows ever decreases |
| MagicLinks.SignInKeepsValid | src/actions/magic-link.ts:80-94 | sign-in keeps ids unique and e-mails unique ignoring case |
| MagicLinkRoute.Redeem | src/app/api/magic-link/route.ts:7-75 | a missing or empty token gives 400 "Token is not existed"; a failed verification gives 400 with its message; a verified token whose user has no link row gives 400 "Invalid token"; success iff the token verifies and its user has any link row; on success all of that user's rows go, other users' rows stay, one session with a never-issued id is added for the user, and the answer is 302 to APP_NAME; every failure writes nothing |
| MagicLinkRoute.RedeemReplayRejected | src/app/api/magic-link/route.ts:31-51 | after a successful redemption, the same token is refused with 400 at any time and writes nothing |
| MagicLinkRoute.RedeemIgnoresRowTokenAndExpiry | src/app/api/magic-link/route.ts:31-35 | any row of the user authorises redemption, even one with another token that has expired |
| MagicLinkRoute.RedeemKeepsRetired | src/app/api/magic-link/route.ts:54 | a redemption's new session never revives a retired cookie |
| MagicLinkRoute.RedeemKeepsValid | src/app/api/magic-link/route.ts:47-54 | redemption keeps the store invariant |
| Schemas.TrimStart | src/schemas/index.ts:28 | removes exactly the leading whitespace and line terminators |
| Schemas.TrimEnd | src/schemas/index.ts:28 | removes exactly the trailing whitespace and line terminators |
| Schemas.Trim | src/schemas/index.ts:28 | the trimmed string starts and ends with a non-trimmable character, and a string with no trimmable character is unchanged |
| Schemas.TrimStartIsSuffix | src/schemas/index.ts:28 | trimming the start leaves a suffix of the input |
| Schemas.TrimEndIsPrefix | src/schemas/index.ts:28 | trimming the end leaves a prefix of the input |
| Schemas.TrimIsInfix | src/schemas/index.ts:28 | the trimmed string is a contiguous slice of the input |
| Schemas.TrimIdempotent | src/schemas/index.ts:28 | trimming twice is trimming once |
| Schemas.Span | src/schemas/index.ts:37 | the scanned prefix is the longest prefix inside the character class |
| Schemas.Occurs | src/schemas/index.ts:9 | a class pattern without anchors matches iff some character is in the class |
| Schemas.Test | src/schemas/index.ts:5-23 | an anchored pattern matches iff the whole string is in the class with enough characters; an unanchored one iff one character is |
| Schemas.FailedMessages | src/schemas/index.ts:47-57 | at most one message per requirement, and none iff every requirement passes |
| Schemas.PasswordIssuesExact | src/schemas/index.ts:3-57 | exactly one message per failed rule, in list order, by the declarative reading of each rule (length of at least 12 with no line terminator, lower, upper, digit, the listed special set); none iff the password is strong |
| Schemas.UsernameIssues | src/schemas/index.ts:31-40 | no issue iff the trimmed username has at least 3 characters all in [a-zA-Z0-9_-]; the length message appears iff it is shorter than 3, the character message iff it is empty or holds a character outside that set, and the list is the length message (if any) followed by the character message (if any), so "ab" gets only the length message |
| Schemas.FieldIssues | src/schemas/index.ts:27-60 | the per-field issues are empty iff every field passes, and none concerns the confirm field |
| Schemas.SignUpIssues | src/schemas/index.ts:26-64 | no issue iff the form is valid field by field and the trimmed passwords agree; "Passwords do not match" appears iff they differ |
| Schemas.FirstIssueDisplayName | src/schemas/index.ts:28-30 | an empty trimmed display name is reported first |
| Schemas.FirstIssueUsername | src/schemas/index.ts:31-40 | with a valid display name, a bad username is reported first, by its first message |
| Schemas.FirstIssueEmail | src/schemas/index.ts:41-43 | with display name and username valid, a bad e-mail is reported first |
| Schemas.FirstIssuePassword | src/schemas/index.ts:44-58 | with the earlier fields valid, the first failed password rule is reported first |
| Schemas.FirstIssueMismatch | src/schemas/index.ts:59-64 | with every field valid, a mismatch is the only issue |
| Schemas.SignUpFirstIssue | src/actions/auth-actions.ts:13-18 | the message sign-up returns for an invalid form is the first failing check in form order |
| Schemas.LoginIssues | src/schemas/index.ts:68-75 | no issue iff the trimmed e-mail is well formed and the trimmed password is non-empty; otherwise the list is the e-mail issue (if any) followed by "Password is required." (if the trimmed password is empty), so a good e-mail with an empty password is answered "Password is required." |
| Store.FindUser | src/actions/email.ts:253 | none iff no user matches the filter; otherwise the first matching user |
| Store.FirstWhere | src/actions/email.ts:263-265 | none iff no row has the key; otherwise the first such row |
| Store.Where | src/app/api/magic-link/route.ts:31-35 | the rows with the key, and only those |
| Store.WhereNot | src/app/api/magic-link/route.ts:47-51 | deleting by key leaves exactly the other rows: none with the key, and every other key's rows unchanged |
| Store.WhereAppend | src/actions/magic-link.ts:68-74 | appending a row extends its owner's rows by that row and nobody else's |
| Store.WhereCountUpdate | src/actions/email.ts:286-289 | rewriting a row in place without changing its owner keeps every owner's row count |
| Store.NewUserId | src/actions/magic-link.ts:81-85 | a created user's id is used by no user, code row, link row or session |
| Store.NewLinkId | src/actions/magic-link.ts:88-94 | a created link row's id is used by no other link row |
| Store.CreateSession | src/app/api/magic-link/route.ts:54 | exactly one session is appended, for the user, with an id never issued before (so unlike any session present or deleted), and nothing else changes |
| Store.CurrentSession | src/auth.ts:37-68 | a session is found iff the cookie names an existing session |
| Store.DistinctAfterWhereNot | src/app/api/magic-link/route.ts:47-51 | deleting rows keeps ids distinct |
| Store.CreateSessionValid | src/app/api/magic-link/route.ts:54 | creating a session keeps the store invariant |
| Store.CreateSessionKeepsRetired | src/app/api/magic-link/route.ts:54 | a cookie whose session was deleted stays dead when any new session is created |
| AuthActions.CreateAccount | src/actions/auth-actions.ts:28-76 | "Username is already taken" iff some username matches ignoring case; otherwise "Email is already taken" iff some e-mail does; otherwise exactly one user with the username, e-mail and hash is added, one session is created for it, and the answer is a redirect to '/'; refusals write nothing |
| AuthActions.SignUp | src/actions/auth-actions.ts:11-85 | an invalid form returns the first issue; a hashing error returns "Something went wrong"; otherwise the account is created from the trimmed values; only a redirect writes |
| AuthActions.CreateAccountKeepsValid | src/actions/auth-actions.ts:28-66 | creating an account keeps usernames and e-mails unique ignoring case |
| AuthActions.SignUpKeepsValid | src/actions/auth-actions.ts:11-85 | sign-up keeps the store invariant |
| AuthActions.CheckCredentials | src/actions/auth-actions.ts:106-134 | a missing or empty hash and a wrong password give the same "Invalid username or password"; a throwing verify gives "Something went wrong"; a correct password adds one session with a never-issued id and redirects to '/', leaving users, codes and links as they were; only that writes |
| AuthActions.Login | src/actions/auth-actions.ts:87-143 | an invalid form returns the first issue; an unknown key gives the same reply as a wrong password; otherwise the first user matching ignoring case is checked |
| AuthActions.Logout | src/actions/auth-actions.ts:145-163 | throws "Unauthorized" iff no session; otherwise exactly the cookie's session is removed, nothing else changes (the record of issued session ids included), and the user goes to '/login' |
| AuthActions.LoginKeepsValid | src/actions/auth-actions.ts:87-143 | a login keeps the store invariant |
| AuthActions.LoginKeepsRetired | src/actions/auth-actions.ts:126 | a login's new session never revives a deleted session's cookie |
| AuthActions.LogoutRetiresCookie | src/actions/auth-actions.ts:145-163 | a logout keeps the invariant, and the logged-out cookie is retired: issued, and carried by no session |
| ResetPassword.CommitPasswordChange | src/actions/reset-password.ts:57-80 | only the user's hash changes among users; the user then has exactly one session, whose id was never issued before; other users' sessions are unchanged |
| ResetPassword.CommitRetiresOldSessions | src/actions/reset-password.ts:68-75 | every session the user held before the change is retired afterwards, so none of its cookies validates |
| ResetPassword.ChangeForUser | src/actions/reset-password.ts:44-85 | a throwing verify returns its message; a wrong password gives "Invalid password"; a hashing error returns its message; success iff the password verifies and hashing works; only success writes |
| ResetPassword.ResetPassword | src/actions/reset-password.ts:11-92 | checks run validate, session, stored user, current password, and the first failure decides the reply without any write |
| ResetPassword.ResetPasswordLegacy | src/actions/resetPassword.ts:11-111 | as the current action, but a new password equal to the current one is refused right after the session check, before the user lookup |
| ResetPassword.CommitKeepsValid | src/actions/reset-password.ts:59-80 | a committed change keeps the store invariant |
| ResetPassword.ChangeLeavesOneSession | src/actions/reset-password.ts:57-80 | with the right current password and a new password that hashes, the change succeeds, the user has exactly one session, every earlier session of theirs is retired, and the invariant is kept |
| ResetPassword.PasswordlessUserCannotChange | src/actions/reset-password.ts:44-48 | when argon2's verify throws on a missing hash, a user without one (created by a magic link) gets that error as the reply and nothing is written |
| ResetPassword.ResetLeavesOneSession | src/actions/reset-password.ts:11-80 | a valid request from a signed-in user with the right current password succeeds; that user is left with exactly one session, every earlier session of theirs (the request's own included) is retired so the old cookie no longer validates, and the invariant holds |
| ResetPassword.ResetLegacyLeavesOneSession | src/actions/resetPassword.ts:76-99 | the same for the older action, when the new password differs from the current one |
| Scenarios.CreateAccountThenResendFindsNoCode | src/actions/auth-actions.ts:60-76 | when username and e-mail are free an account is created without a code row, and resending to its e-mail answers "Code not found" |
| Scenarios.SignUpThenResendFindsNoCode | src/actions/email.ts:263-269 | a valid sign-up with free username and e-mail succeeds, and resending to that address right after answers "Code not found" and writes nothing |
| Scenarios.LoggedOutCookieStaysDead | src/actions/auth-actions.ts:145-163 | after a logout the cookie no longer validates, and a login right after, for any user, does not bring it back |
| Scenarios.LoggedOutCookieStaysDeadAfterRedeem | src/app/api/magic-link/route.ts:47-54 | after a logout, redeeming any magic link does not bring the cookie back, and the invariant holds |
| Scenarios.MagicLinkRoundTrip | src/app/api/magic-link/route.ts:26-64 | a link issued by sign-in, whose token decodes to what was signed and has not expired, redeems once for its user and is refused afterwards |

## Left out

- Mail templates and senders (`src/actions/email.ts:8-249`) are I/O. A send is a `Mail` value and never fails, because the senders catch their own errors.
- Token signing and verification, password hashing and checking, and `APP_NAME` are parameters of `Effects.Env`. The five-minute token lifetime lives inside `expired`.
- Effects.Verify: jsonwebtoken's checks (signature, payload shape, expiry) are not modelled, only their outcome and message.
- Database calls never throw in this model. Only signing, hashing and password checking can fail, so the catch-all replies arise only from those.
- Concurrency between a check and the write that follows it (resend, sign-in, redemption) is not modelled. Each action is atomic.
- Email.Resend: reads the clock once. The source reads the clock (`new Date()`) for the cooldown check and again for the stored `createdAt` (src/actions/email.ts:272 and :288), so the stored time may be a few milliseconds later than the model's `now`.
- MagicLinks.SignIn: reads the clock once. For a known user the source calls `Date.now()` twice (src/actions/magic-link.ts:45, then :55 for the wait or :72 for the expiry), and for a new user once (:92); the link row's `createdAt` is the database's column default, a clock of its own. The model uses one `now` for all of these, so they may differ by the milliseconds between the reads.
- MagicLinks.SignIn: `schema` stands for `magicLinkSchema`, which is not part of this model. Only its outcome (passes, or fails with a message) is modelled.
- ResetPassword.ResetPassword: `schema` stands for `resetPasswordSchema`, and in ResetPasswordLegacy for `forgetPasswordSchema`. Neither is part of this model.
- Schemas.SignUpIssues: zod's `.email()` format check is the parameter `isEmail`, not modelled character by character.
- AuthActions.Login: the lookup key is a parameter. The source destructures `username` from the login schema's output, which never contains it, and how the ORM treats that undefined filter is not modelled.
- Store.Satisfies: "equals ignoring case" is ASCII lower-casing (`Text.Lower`). The database's case-insensitive comparison follows its collation, which is not modelled.
- Schemas.UsernameIssues: lengths count Dafny characters. JavaScript counts UTF-16 code units, so the two differ only for characters outside the Basic Multilingual Plane.
- Schemas.PasswordIssuesExact: the twelve-character rule counts Dafny characters. `/^.{12,}$/` has no `u` flag, so its `.` matches one UTF-16 code unit, and six characters outside the Basic Multilingual Plane pass in JavaScript but fail here.
- ResetPassword.ChangeForUser: what argon2's `verify` does with a missing hash is not fixed for every `Env`; `Effects.RejectsMissingHash` is the hypothesis under which such a user is refused (`ResetPassword.PasswordlessUserCannotChange`).
- Store.CreateSession: Lucia's random session ids are modelled as ids never drawn twice: `Db.issued` bounds every id handed out, and a new session gets an id at or above it. Session expiry (two weeks), renewal and cookie attributes are left out.
- Store.CurrentSession: `validateRequest` is reduced to "the cookie names an existing session". Expiry checks and cookie refreshes are left out.
- Email.Resend: the rewritten row is the first code row of the user, found by position. The source addresses it by its id and user id, which under `Store.Valid` is the same row.
- `Response.redirect(new URL(APP_NAME))` throwing on a malformed `APP_NAME` is not modelled. `MagicLinkRoute.Redeem` assumes the redirect is built.
- The `/api/verify-email` endpoint named in the resend URL is not part of this model, and neither are the OAuth providers (`src/auth.ts:79-97`, `src/queries/index.ts`).
- React components, including the client-side countdowns, are UI only and enforce nothing.
- `signUp` drops `displayName`: the created user row has no display name. The model's `User` has no such column.
