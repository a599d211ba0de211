/** The two `resetPassword` actions. Both check the current password of the
    session's user, then store the new hash, delete every session of the user
    and open one new session. The older variant also refuses a new password
    equal to the current one before reading the store. */
module ResetPassword {
  import opened Wrappers
  import opened Store
  import opened Effects

  datatype PasswordChange = PasswordChange(password: string, newPassword: string)

  /** The `{ success, message }` object both actions return. */
  datatype Reply = Reply(success: bool, message: string)

  const UserNotFoundMessage := "User not found"
  const InvalidPasswordMessage := "Invalid password"
  const SamePasswordMessage := "New password must be different from the old password"
  const UpdatedMessage := "Password updated"

  /** `after` is `db` with user `i`'s hash replaced by `hash`, the user's
      sessions replaced by a single new one, and nothing else changed. */
  ghost predicate PasswordChanged(db: Db, after: Db, i: nat, hash: string)
    requires i < |db.users|
  {
    var uid := db.users[i].id;
    && |after.users| == |db.users|
    && after.users[i] == db.users[i].(hashedPassword := Some(hash))
    && (forall j :: 0 <= j < |db.users| && j != i ==> after.users[j] == db.users[j])
    && after.codes == db.codes && after.links == db.links
    && |after.sessions| >= 1 && Where(after.sessions, SessionOwner, uid) == [after.sessions[|after.sessions| - 1]]
    && db.issued <= after.sessions[|after.sessions| - 1].id < after.issued
    && (forall v :: v != uid ==> Where(after.sessions, SessionOwner, v) == Where(db.sessions, SessionOwner, v))
  }

  /** The three writes of a successful change: update the hash, `deleteMany`
      the user's sessions, create one session. */
  function CommitPasswordChange(db: Db, i: nat, hash: string): (r: Db)
    requires i < |db.users|
    ensures PasswordChanged(db, r, i, hash)
  {
    var uid := db.users[i].id;
    var updated := db.(users := db.users[i := db.users[i].(hashedPassword := Some(hash))]);
    var cleared := updated.(sessions := WhereNot(db.sessions, SessionOwner, uid));
    var r := CreateSession(cleared, uid);
    r
  }

  /** Everything after the stored user `i` is found: check the current
      password, hash the new one, commit. `verify` and `hash` errors are
      returned as their messages. */
  function ChangeForUser(db: Db, env: Env, i: nat, values: PasswordChange): (r: Step<Reply>)
    requires i < |db.users|
    ensures r.mail == None
    ensures !r.outcome.success ==> r.db == db
    ensures var checked := env.checkPassword(db.users[i].hashedPassword, values.password);
            && (checked.Failure? ==> r.outcome == Reply(false, checked.error))
            && (checked == Success(false) ==> r.outcome == Reply(false, InvalidPasswordMessage))
            && (checked == Success(true) && env.hash(values.newPassword).Failure? ==>
                  r.outcome == Reply(false, env.hash(values.newPassword).error))
            && (r.outcome.success <==> checked == Success(true) && env.hash(values.newPassword).Success?)
    ensures r.outcome.success ==>
              r.outcome.message == UpdatedMessage && PasswordChanged(db, r.db, i, env.hash(values.newPassword).value)
  {
    match env.checkPassword(db.users[i].hashedPassword, values.password)
    case Failure(m) => Step(Reply(false, m), db, None)
    case Success(ok) =>
      if !ok then Step(Reply(false, InvalidPasswordMessage), db, None)
      else
        match env.hash(values.newPassword)
        case Failure(m) => Step(Reply(false, m), db, None)
        case Success(h) => Step(Reply(true, UpdatedMessage), CommitPasswordChange(db, i, h), None)
  }

  /** A user without a password hash (one created by a magic link) cannot
      change a password: `verify` throws, its message is the reply, and
      nothing is written. */
  lemma PasswordlessUserCannotChange(db: Db, env: Env, i: nat, values: PasswordChange)
    requires i < |db.users| && db.users[i].hashedPassword.None? && RejectsMissingHash(env)
    ensures var r := ChangeForUser(db, env, i, values);
            && r.outcome == Reply(false, env.checkPassword(None, values.password).error)
            && r.db == db
  {
    assert env.checkPassword(db.users[i].hashedPassword, values.password).Failure?;
  }

  /** `resetPassword(values)` of the current form, for the request's session
      cookie. `schema` stands for the reset-password schema, whose rules are not
      part of this model: `Some(message)` is its first issue. Checks run in the
      order validate, session, stored user, current password. */
  function ResetPassword(db: Db, env: Env, schema: PasswordChange -> Option<string>, values: PasswordChange, cookie: Option<nat>): (r: Step<Reply>)
    ensures r.mail == None
    ensures !r.outcome.success ==> r.db == db
    ensures schema(values).Some? ==> r.outcome == Reply(false, schema(values).value)
    ensures schema(values).None? && CurrentSession(db, cookie).None? ==> r.outcome == Reply(false, UserNotFoundMessage)
    ensures schema(values).None? && CurrentSession(db, cookie).Some? &&
            (forall j :: 0 <= j < |db.users| ==> db.users[j].id != CurrentSession(db, cookie).value.userId) ==>
              r.outcome == Reply(false, UserNotFoundMessage)
    ensures forall i :: schema(values).None? && CurrentSession(db, cookie).Some? &&
                        FirstMatch(db.users, IdIs(CurrentSession(db, cookie).value.userId), i) ==>
              r == ChangeForUser(db, env, i, values)
  {
    if schema(values).Some? then Step(Reply(false, schema(values).value), db, None)
    else
      match CurrentSession(db, cookie)
      case None => Step(Reply(false, UserNotFoundMessage), db, None)
      case Some(session) =>
        match FindUser(db.users, IdIs(session.userId))
        case None => Step(Reply(false, UserNotFoundMessage), db, None)
        case Some(i) => ChangeForUser(db, env, i, values)
  }

  /** The older `resetPassword`: as above, but a new password equal to the
      current one is refused right after the session check, before any read of
      the user table. Here `schema` yields the reply for a failed `parse`,
      which is the thrown ZodError's `message` (a rendering of every issue),
      not the first issue's message. */
  function ResetPasswordLegacy(db: Db, env: Env, schema: PasswordChange -> Option<string>, values: PasswordChange, cookie: Option<nat>): (r: Step<Reply>)
    ensures r.mail == None
    ensures !r.outcome.success ==> r.db == db
    ensures schema(values).Some? ==> r.outcome == Reply(false, schema(values).value)
    ensures schema(values).None? && CurrentSession(db, cookie).None? ==> r.outcome == Reply(false, UserNotFoundMessage)
    ensures schema(values).None? && CurrentSession(db, cookie).Some? && values.password == values.newPassword ==>
              r.outcome == Reply(false, SamePasswordMessage)
    ensures schema(values).None? && CurrentSession(db, cookie).Some? && values.password != values.newPassword &&
            (forall j :: 0 <= j < |db.users| ==> db.users[j].id != CurrentSession(db, cookie).value.userId) ==>
              r.outcome == Reply(false, UserNotFoundMessage)
    ensures forall i :: schema(values).None? && CurrentSession(db, cookie).Some? && values.password != values.newPassword &&
                        FirstMatch(db.users, IdIs(CurrentSession(db, cookie).value.userId), i) ==>
              r == ChangeForUser(db, env, i, values)
  {
    if schema(values).Some? then Step(Reply(false, schema(values).value), db, None)
    else
      match CurrentSession(db, cookie)
      case None => Step(Reply(false, UserNotFoundMessage), db, None)
      case Some(session) =>
        if values.password == values.newPassword then Step(Reply(false, SamePasswordMessage), db, None)
        else
          match FindUser(db.users, IdIs(session.userId))
          case None => Step(Reply(false, UserNotFoundMessage), db, None)
          case Some(i) => ChangeForUser(db, env, i, values)
  }

  /** A password change keeps the store invariant. */
  lemma CommitKeepsValid(db: Db, i: nat, hash: string)
    requires i < |db.users| && Valid(db)
    ensures Valid(CommitPasswordChange(db, i, hash))
  {
    var uid := db.users[i].id;
    var updated := db.(users := db.users[i := db.users[i].(hashedPassword := Some(hash))]);
    var cleared := updated.(sessions := WhereNot(db.sessions, SessionOwner, uid));
    assert forall j :: 0 <= j < |db.users| ==>
      updated.users[j].id == db.users[j].id && updated.users[j].username == db.users[j].username && updated.users[j].email == db.users[j].email;
    assert DistinctBy(updated.users, UserKey) && UniqueIgnoringCase(updated.users);
    DistinctAfterWhereNot(db.sessions, SessionKey, SessionOwner, uid);
    DeleteSessionsKeepsIssued(updated, SessionOwner, uid);
    assert Valid(cleared);
    CreateSessionValid(cleared, uid);
  }

  /** Every session user `uid` held in `db` is retired in `after`: its id
      was issued, no session has it, so its cookie never validates again. */
  ghost predicate OldSessionsRetired(db: Db, after: Db, uid: UserId)
  {
    forall j :: 0 <= j < |db.sessions| && db.sessions[j].userId == uid ==> Retired(after, db.sessions[j].id)
  }

  /** A committed change retires all of the user's earlier sessions: the
      deleted ones are gone, and the new one carries a never-issued id. */
  lemma CommitRetiresOldSessions(db: Db, i: nat, hash: string)
    requires i < |db.users| && Valid(db)
    ensures OldSessionsRetired(db, CommitPasswordChange(db, i, hash), db.users[i].id)
  {
    var uid := db.users[i].id;
    var updated := db.(users := db.users[i := db.users[i].(hashedPassword := Some(hash))]);
    var kept := WhereNot(db.sessions, SessionOwner, uid);
    var after := CreateSession(updated.(sessions := kept), uid);
    assert after == CommitPasswordChange(db, i, hash);
    forall j, k | 0 <= j < |db.sessions| && db.sessions[j].userId == uid && 0 <= k < |after.sessions|
      ensures after.sessions[k].id != db.sessions[j].id
    {
      if k < |kept| {
        var x := kept[k];
        assert after.sessions[k] == x && x in db.sessions && x.userId != uid;
        var m :| 0 <= m < |db.sessions| && db.sessions[m] == x;
        assert m != j;
      }
    }
  }

  /** When the current password checks out and the new one hashes, the
      change succeeds, leaves the user with exactly one session, and keeps
      the store invariant. */
  lemma ChangeLeavesOneSession(db: Db, env: Env, i: nat, values: PasswordChange)
    requires i < |db.users| && Valid(db)
    requires env.checkPassword(db.users[i].hashedPassword, values.password) == Success(true)
    requires env.hash(values.newPassword).Success?
    ensures var r := ChangeForUser(db, env, i, values);
            && r.outcome == Reply(true, UpdatedMessage)
            && |Where(r.db.sessions, SessionOwner, db.users[i].id)| == 1
            && Valid(r.db)
            && OldSessionsRetired(db, r.db, db.users[i].id)
  {
    var h := env.hash(values.newPassword).value;
    CommitKeepsValid(db, i, h);
    CommitRetiresOldSessions(db, i, h);
  }

  /** The request reaches the password check: the form is valid, the cookie
      names a session, and `i` is the first user with that session's id. */
  ghost predicate ReachesUser(db: Db, schema: PasswordChange -> Option<string>, values: PasswordChange, cookie: Option<nat>, i: nat)
  {
    schema(values).None? && CurrentSession(db, cookie).Some? && FirstMatch(db.users, IdIs(CurrentSession(db, cookie).value.userId), i)
  }

  /** A request that reaches the session's user, with the right current
      password and a new one that hashes, succeeds; afterwards that user has
      exactly one session and the store invariant holds. */
  lemma ResetLeavesOneSession(db: Db, env: Env, schema: PasswordChange -> Option<string>, values: PasswordChange, cookie: Option<nat>, i: nat)
    requires Valid(db) && ReachesUser(db, schema, values, cookie, i)
    requires env.checkPassword(db.users[i].hashedPassword, values.password) == Success(true)
    requires env.hash(values.newPassword).Success?
    ensures var r := ResetPassword(db, env, schema, values, cookie);
            && r.outcome == Reply(true, UpdatedMessage)
            && |Where(r.db.sessions, SessionOwner, db.users[i].id)| == 1 && Valid(r.db)
            && OldSessionsRetired(db, r.db, db.users[i].id)
            && CurrentSession(r.db, cookie).None?
  {
    ChangeLeavesOneSession(db, env, i, values);
  }

  /** The same for the older action, which also needs the new password to
      differ from the current one. */
  lemma ResetLegacyLeavesOneSession(db: Db, env: Env, schema: PasswordChange -> Option<string>, values: PasswordChange, cookie: Option<nat>, i: nat)
    requires Valid(db) && ReachesUser(db, schema, values, cookie, i) && values.password != values.newPassword
    requires env.checkPassword(db.users[i].hashedPassword, values.password) == Success(true)
    requires env.hash(values.newPassword).Success?
    ensures var r := ResetPasswordLegacy(db, env, schema, values, cookie);
            && r.outcome == Reply(true, UpdatedMessage)
            && |Where(r.db.sessions, SessionOwner, db.users[i].id)| == 1 && Valid(r.db)
            && OldSessionsRetired(db, r.db, db.users[i].id)
            && CurrentSession(r.db, cookie).None?
  {
    ChangeLeavesOneSession(db, env, i, values);
  }
}
