/** `signUp`, `login` and `logout`. Validation comes first and its first issue
    is the answer; the store is written only once every check has passed.
    Errors other than Next.js redirects become "Something went wrong". */
module AuthActions {
  import opened Wrappers
  import opened Text
  import opened Store
  import opened Effects
  import opened Schemas

  /** How a server action ends: a returned `{ error }`, a redirect (thrown by
      `redirect()` and re-thrown past the catch), or another thrown error. */
  datatype ActionOutcome = Returned(error: string) | Redirected(path: string) | Threw(message: string)

  const UsernameTakenMessage := "Username is already taken"
  const EmailTakenMessage := "Email is already taken"
  const SomethingWrongMessage := "Something went wrong"
  const InvalidCredentialsMessage := "Invalid username or password"
  const UnauthorizedMessage := "Unauthorized"

  /** Some user's username equals `name` ignoring case. */
  ghost predicate UsernameTaken(db: Db, name: string)
  {
    exists i :: 0 <= i < |db.users| && Satisfies(db.users[i], UsernameLike(name))
  }

  /** Some user's e-mail equals `email` ignoring case. */
  ghost predicate EmailTaken(db: Db, email: string)
  {
    exists i :: 0 <= i < |db.users| && Satisfies(db.users[i], EmailLike(email))
  }

  /** After `db`, exactly one session more, belonging to `uid`; every other
      user's sessions as before. */
  ghost predicate OneNewSession(db: Db, after: Db, uid: UserId)
  {
    && |after.sessions| == |db.sessions| + 1 && after.sessions[..|db.sessions|] == db.sessions
    && after.sessions[|db.sessions|].userId == uid
    && db.issued <= after.sessions[|db.sessions|].id < after.issued
    && (forall i :: 0 <= i < |db.sessions| ==> db.sessions[i].id != after.sessions[|db.sessions|].id)
    && |Where(after.sessions, SessionOwner, uid)| == |Where(db.sessions, SessionOwner, uid)| + 1
    && (forall v :: v != uid ==> Where(after.sessions, SessionOwner, v) == Where(db.sessions, SessionOwner, v))
  }

  /** The part of `signUp` after validation and hashing, on trimmed values. */
  function CreateAccount(db: Db, username: string, email: string, hash: string): (r: Step<ActionOutcome>)
    ensures r.mail == None
    ensures r.outcome == Returned(UsernameTakenMessage) <==> UsernameTaken(db, username)
    ensures r.outcome == Returned(EmailTakenMessage) <==> !UsernameTaken(db, username) && EmailTaken(db, email)
    ensures r.outcome == Redirected("/") <==> !UsernameTaken(db, username) && !EmailTaken(db, email)
    ensures !r.outcome.Redirected? ==> r.db == db
    ensures r.outcome.Redirected? ==>
              && |r.db.users| == |db.users| + 1 && r.db.users[..|db.users|] == db.users
              && var u := r.db.users[|db.users|];
                 && u.username == Some(username) && u.email == Some(email) && u.hashedPassword == Some(hash) && !u.emailVerified
                 && (forall i :: 0 <= i < |db.users| ==> db.users[i].id != u.id)
                 && r.db.codes == db.codes && r.db.links == db.links
                 && OneNewSession(db, r.db, u.id)
  {
    if FindUser(db.users, UsernameLike(username)).Some? then Step(Returned(UsernameTakenMessage), db, None)
    else if FindUser(db.users, EmailLike(email)).Some? then Step(Returned(EmailTakenMessage), db, None)
    else
      var user := User(NewUserId(db), Some(username), Some(email), Some(hash), false);
      var withUser := db.(users := db.users + [user]);
      Step(Redirected("/"), CreateSession(withUser, user.id), None)
  }

  /** `signUp(values)`. `isEmail` is zod's e-mail format check, whose rules are
      not part of this model. The stored values are the trimmed ones. */
  function SignUp(db: Db, env: Env, v: SignUpValues, isEmail: string -> bool): (r: Step<ActionOutcome>)
    ensures r.mail == None
    ensures !r.outcome.Redirected? ==> r.db == db
    ensures !SignUpValid(v, isEmail) ==> r.outcome == Returned(SignUpIssues(v, isEmail)[0].message)
    ensures SignUpValid(v, isEmail) && env.hash(Trim(v.password)).Failure? ==> r.outcome == Returned(SomethingWrongMessage)
    ensures SignUpValid(v, isEmail) && env.hash(Trim(v.password)).Success? ==>
              r == CreateAccount(db, Trim(v.username), Trim(v.email), env.hash(Trim(v.password)).value)
  {
    var issues := SignUpIssues(v, isEmail);
    if issues != [] then Step(Returned(issues[0].message), db, None)
    else
      var p := Parsed(v);
      match env.hash(p.password)
      case Failure(_) => Step(Returned(SomethingWrongMessage), db, None)
      case Success(h) => CreateAccount(db, p.username, p.email, h)
  }

  /** Creating an account keeps usernames and e-mail addresses unique up to
      case, and the rest of the store invariant. */
  lemma CreateAccountKeepsValid(db: Db, username: string, email: string, hash: string)
    requires Valid(db)
    ensures Valid(CreateAccount(db, username, email, hash).db)
  {
    var r := CreateAccount(db, username, email, hash);
    if r.outcome.Redirected? {
      var nu := r.db.users[|db.users|];
      var withUser := db.(users := db.users + [nu]);
      assert r.db == CreateSession(withUser, nu.id);
      forall i | 0 <= i < |db.users| ensures !NamesClash(db.users[i], nu) && !EmailsClash(db.users[i], nu) {
        assert !Satisfies(db.users[i], UsernameLike(username));
        assert !Satisfies(db.users[i], EmailLike(email));
      }
      assert Valid(withUser);
      CreateSessionValid(withUser, nu.id);
    }
  }

  lemma SignUpKeepsValid(db: Db, env: Env, v: SignUpValues, isEmail: string -> bool)
    requires Valid(db)
    ensures Valid(SignUp(db, env, v, isEmail).db)
  {
    if SignUpValid(v, isEmail) && env.hash(Trim(v.password)).Success? {
      CreateAccountKeepsValid(db, Trim(v.username), Trim(v.email), env.hash(Trim(v.password)).value);
    }
  }

  /** The part of `login` after the lookup found user `i`. */
  function CheckCredentials(db: Db, env: Env, i: nat, password: string): (r: Step<ActionOutcome>)
    requires i < |db.users|
    ensures r.mail == None
    ensures !r.outcome.Redirected? ==> r.db == db
    ensures var stored := db.users[i].hashedPassword;
            && (stored.None? || stored.value == [] ==> r.outcome == Returned(InvalidCredentialsMessage))
            && (stored.Some? && stored.value != [] ==>
                  && (env.checkPassword(stored, password) == Success(false) ==> r.outcome == Returned(InvalidCredentialsMessage))
                  && (env.checkPassword(stored, password).Failure? ==> r.outcome == Returned(SomethingWrongMessage))
                  && (env.checkPassword(stored, password) == Success(true) ==> r.outcome == Redirected("/")))
    ensures r.outcome.Redirected? ==>
              && r.outcome == Redirected("/") && r.db.users == db.users && r.db.codes == db.codes && r.db.links == db.links
              && OneNewSession(db, r.db, db.users[i].id)
  {
    var user := db.users[i];
    if user.hashedPassword.None? || user.hashedPassword.value == [] then Step(Returned(InvalidCredentialsMessage), db, None)
    else
      match env.checkPassword(user.hashedPassword, password)
      case Failure(_) => Step(Returned(SomethingWrongMessage), db, None)
      case Success(ok) =>
        if !ok then Step(Returned(InvalidCredentialsMessage), db, None)
        else Step(Redirected("/"), CreateSession(db, user.id), None)
  }

  /** `login(values)` looking the user up by `key` ignoring case (the source
      reads the key from a field the login schema does not produce). A missing
      user, a user without a password hash, an empty hash and a wrong password
      all end in the same reply; a throwing `verify` ends in the generic one. */
  function Login(db: Db, env: Env, v: LoginValues, isEmail: string -> bool, key: string): (r: Step<ActionOutcome>)
    ensures LoginIssues(v, isEmail) != [] ==> r == Step(Returned(LoginIssues(v, isEmail)[0].message), db, None)
    ensures LoginIssues(v, isEmail) == [] && (forall i :: 0 <= i < |db.users| ==> !Satisfies(db.users[i], UsernameLike(key))) ==>
              r == Step(Returned(InvalidCredentialsMessage), db, None)
    ensures forall i :: LoginIssues(v, isEmail) == [] && FirstMatch(db.users, UsernameLike(key), i) ==>
              r == CheckCredentials(db, env, i, Trim(v.password))
  {
    var issues := LoginIssues(v, isEmail);
    if issues != [] then Step(Returned(issues[0].message), db, None)
    else
      match FindUser(db.users, UsernameLike(key))
      case None => Step(Returned(InvalidCredentialsMessage), db, None)
      case Some(i) => CheckCredentials(db, env, i, Trim(v.password))
  }

  /** `logout()`: without a valid session it throws; otherwise exactly the
      cookie's session is invalidated and the user is sent to the login page. */
  function Logout(db: Db, cookie: Option<nat>): (r: Step<ActionOutcome>)
    ensures r.mail == None
    ensures r.outcome == Threw(UnauthorizedMessage) <==> CurrentSession(db, cookie).None?
    ensures r.outcome.Threw? ==> r.db == db
    ensures !r.outcome.Threw? ==>
              && r.outcome == Redirected("/login")
              && r.db.users == db.users && r.db.codes == db.codes && r.db.links == db.links
              && r.db.issued == db.issued && r.db.sessions == WhereNot(db.sessions, SessionKey, cookie.value)
              && forall x :: x in r.db.sessions <==> x in db.sessions && x.id != cookie.value
  {
    match CurrentSession(db, cookie)
    case None => Step(Threw(UnauthorizedMessage), db, None)
    case Some(s) => Step(Redirected("/login"), db.(sessions := WhereNot(db.sessions, SessionKey, s.id)), None)
  }

  /** A login keeps the store invariant. */
  lemma LoginKeepsValid(db: Db, env: Env, v: LoginValues, isEmail: string -> bool, key: string)
    requires Valid(db)
    ensures Valid(Login(db, env, v, isEmail, key).db)
  {
    var r := Login(db, env, v, isEmail, key);
    if r.outcome.Redirected? {
      var i := FindUser(db.users, UsernameLike(key)).value;
      assert FirstMatch(db.users, UsernameLike(key), i);
      CreateSessionValid(db, db.users[i].id);
    }
  }

  /** A logout keeps the store invariant and retires the cookie for good:
      its id was issued, and no session carries it any more. */
  lemma LogoutRetiresCookie(db: Db, cookie: Option<nat>)
    requires Valid(db)
    ensures var r := Logout(db, cookie);
            && Valid(r.db)
            && (r.outcome.Redirected? ==> Retired(r.db, cookie.value))
  {
    var r := Logout(db, cookie);
    if r.outcome.Redirected? {
      var s := CurrentSession(db, cookie).value;
      DistinctAfterWhereNot(db.sessions, SessionKey, SessionKey, s.id);
      DeleteSessionsKeepsIssued(db, SessionKey, s.id);
      var j :| 0 <= j < |db.sessions| && db.sessions[j] == s;
    }
  }

  /** A login never revives a retired cookie. */
  lemma LoginKeepsRetired(db: Db, env: Env, v: LoginValues, isEmail: string -> bool, key: string, c: nat)
    requires Retired(db, c)
    ensures Retired(Login(db, env, v, isEmail, key).db, c)
  {
    var r := Login(db, env, v, isEmail, key);
    if r.outcome.Redirected? {
      var i := FindUser(db.users, UsernameLike(key)).value;
      assert FirstMatch(db.users, UsernameLike(key), i);
      CreateSessionKeepsRetired(db, db.users[i].id, c);
    }
  }
}
