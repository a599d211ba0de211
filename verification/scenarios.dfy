/** Properties that span more than one action. */
module Scenarios {
  import opened Wrappers
  import opened Text
  import opened Store
  import opened Effects
  import opened Schemas
  import opened Email
  import opened MagicLinks
  import opened MagicLinkRoute
  import opened AuthActions

  /** A created account has no verification-code row, and no earlier user
      has its e-mail address: resending to it ends in "Code not found". */
  lemma {:induction false} CreateAccountThenResendFindsNoCode(db: Db, env: Env, username: string, email: string, hash: string, now: int, n: nat)
    requires n < 1000000
    requires !UsernameTaken(db, username) && !EmailTaken(db, email)
    ensures CreateAccount(db, username, email, hash).outcome == Redirected("/")
    ensures var after := CreateAccount(db, username, email, hash).db;
            Resend(after, env, email, now, n) == Step(CodeNotFound, after, None)
  {
    var after := CreateAccount(db, username, email, hash).db;
    var i := |db.users|;
    forall j | 0 <= j < i ensures !Satisfies(after.users[j], EmailIs(email)) {
      assert after.users[j] == db.users[j];
      assert !Satisfies(db.users[j], EmailLike(email));
    }
    assert FirstMatch(after.users, EmailIs(email), i);
  }

  /** A valid form whose password hashes and whose username and e-mail are
      free signs up; `signUp` creates no verification-code row, so resending
      the verification e-mail to that address then ends in "Code not found". */
  lemma SignUpThenResendFindsNoCode(db: Db, env: Env, v: SignUpValues, isEmail: string -> bool, now: int, n: nat)
    requires n < 1000000
    requires SignUpValid(v, isEmail) && env.hash(Trim(v.password)).Success?
    requires !UsernameTaken(db, Trim(v.username)) && !EmailTaken(db, Trim(v.email))
    ensures SignUp(db, env, v, isEmail).outcome == Redirected("/")
    ensures var after := SignUp(db, env, v, isEmail).db;
            Resend(after, env, Trim(v.email), now, n) == Step(CodeNotFound, after, None)
  {
    CreateAccountThenResendFindsNoCode(db, env, Trim(v.username), Trim(v.email), env.hash(Trim(v.password)).value, now, n);
  }

  /** A link mailed by `signIn` redeems once, for the user it was issued to,
      provided the token it carries decodes to what was signed and has not
      expired; the same token is refused afterwards. */
  lemma {:induction false} MagicLinkRoundTrip(db: Db, env: Env, schema: string -> Option<string>, email: string, now: int, later: int)
    requires SignIn(db, env, schema, email, now).outcome.Sent?
    requires var row := SignIn(db, env, schema, email, now).db.links[|db.links|];
             row.token != [] && env.decode(row.token) == Success(Claims(email, row.userId, None)) && !env.expired(row.token, later)
    ensures var issued := SignIn(db, env, schema, email, now).db;
            var row := issued.links[|db.links|];
            var redeemed := Redeem(issued, env, Some(row.token), later);
            && redeemed.outcome == Redirect(302, env.appName)
            && redeemed.db.sessions[|issued.sessions|].userId == row.userId
            && Redeem(redeemed.db, env, Some(row.token), later).outcome.Json?
  {
    var issued := SignIn(db, env, schema, email, now).db;
    var row := issued.links[|db.links|];
    assert HasLinkRow(issued, row.userId);
    RedeemReplayRejected(issued, env, Some(row.token), later, later);
  }

  /** A logged-out cookie never opens a session again: not even when a login
      right after it creates a new session, for any user. */
  lemma {:induction false} LoggedOutCookieStaysDead(db: Db, env: Env, cookie: Option<nat>, v: LoginValues, isEmail: string -> bool, key: string)
    requires Valid(db) && CurrentSession(db, cookie).Some?
    ensures var out := Logout(db, cookie).db;
            var back := Login(out, env, v, isEmail, key).db;
            CurrentSession(out, cookie).None? && CurrentSession(back, cookie).None? && Valid(back)
  {
    var out := Logout(db, cookie).db;
    LogoutRetiresCookie(db, cookie);
    LoginKeepsValid(out, env, v, isEmail, key);
    LoginKeepsRetired(out, env, v, isEmail, key, cookie.value);
  }

  /** Nor does redeeming a magic link right after the logout, whoever's link
      it is. */
  lemma {:induction false} LoggedOutCookieStaysDeadAfterRedeem(db: Db, env: Env, cookie: Option<nat>, token: Option<string>, now: int)
    requires Valid(db) && CurrentSession(db, cookie).Some?
    ensures var out := Logout(db, cookie).db;
            var back := Redeem(out, env, token, now).db;
            CurrentSession(back, cookie).None? && Valid(back)
  {
    var out := Logout(db, cookie).db;
    LogoutRetiresCookie(db, cookie);
    RedeemKeepsValid(out, env, token, now);
    RedeemKeepsRetired(out, env, token, now, cookie.value);
  }
}
