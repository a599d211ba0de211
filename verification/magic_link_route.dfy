/** `GET /api/magic-link?token=…`: verify the token, require some link row for
    the token's user, delete all of that user's link rows, open a session and
    redirect home. Every failure is a 400 JSON error. */
module MagicLinkRoute {
  import opened Wrappers
  import opened Store
  import opened Effects

  datatype Response = Json(status: nat, error: string) | Redirect(status: nat, location: string)

  const MissingTokenMessage := "Token is not existed"
  const InvalidTokenMessage := "Invalid token"

  /** A row of user `uid` exists, whatever its token or expiry. */
  ghost predicate HasLinkRow(db: Db, uid: UserId)
  {
    exists i :: 0 <= i < |db.links| && db.links[i].userId == uid
  }

  /** The handler for the `token` query parameter (absent: `None`) at time `now`. */
  function Redeem(db: Db, env: Env, token: Option<string>, now: int): (r: Step<Response>)
    ensures r.mail == None
    ensures token.None? || token.value == [] ==> r.outcome == Json(400, MissingTokenMessage)
    ensures token.Some? && token.value != [] && Verify(env, token.value, now).Failure? ==>
              r.outcome == Json(400, Verify(env, token.value, now).error)
    ensures token.Some? && token.value != [] && Verify(env, token.value, now).Success? &&
            !HasLinkRow(db, Verify(env, token.value, now).value.userId) ==>
              r.outcome == Json(400, InvalidTokenMessage)
    ensures r.outcome.Redirect? <==>
              token.Some? && token.value != [] && Verify(env, token.value, now).Success? && HasLinkRow(db, Verify(env, token.value, now).value.userId)
    ensures r.outcome.Json? ==> r.outcome.status == 400 && r.db == db
    ensures r.outcome.Redirect? ==>
              var uid := Verify(env, token.value, now).value.userId;
              && r.outcome == Redirect(302, env.appName)
              && r.db.users == db.users && r.db.codes == db.codes
              && Where(r.db.links, LinkOwner, uid) == []
              && (forall v :: v != uid ==> Where(r.db.links, LinkOwner, v) == Where(db.links, LinkOwner, v))
              && |r.db.sessions| == |db.sessions| + 1 && r.db.sessions[..|db.sessions|] == db.sessions
              && r.db.sessions[|db.sessions|].userId == uid
              && db.issued <= r.db.sessions[|db.sessions|].id < r.db.issued
  {
    if token.None? || token.value == [] then Step(Json(400, MissingTokenMessage), db, None)
    else
      match Verify(env, token.value, now)
      case Failure(m) => Step(Json(400, m), db, None)
      case Success(claims) =>
        if FirstWhere(db.links, LinkOwner, claims.userId).None? then Step(Json(400, InvalidTokenMessage), db, None)
        else
          var cleared := db.(links := WhereNot(db.links, LinkOwner, claims.userId));
          Step(Redirect(302, env.appName), CreateSession(cleared, claims.userId), None)
  }

  /** A redeemed token cannot be redeemed again: the second attempt is a 400
      and writes nothing, whenever it happens. */
  lemma {:induction false} RedeemReplayRejected(db: Db, env: Env, token: Option<string>, now: int, later: int)
    requires Redeem(db, env, token, now).outcome.Redirect?
    ensures var first := Redeem(db, env, token, now);
            var second := Redeem(first.db, env, token, later);
            second.outcome.Json? && second.outcome.status == 400 && second.db == first.db
  {
    var first := Redeem(db, env, token, now);
    var uid := Verify(env, token.value, now).value.userId;
    assert env.decode(token.value).Success? && env.decode(token.value).value.userId == uid;
    forall i | 0 <= i < |first.db.links| ensures first.db.links[i].userId != uid {
      assert first.db.links[i] !in Where(first.db.links, LinkOwner, uid);
    }
  }

  /** The row that authorises a redemption is chosen by user alone: a row of
      the same user carrying another token and long expired suffices. */
  lemma RedeemIgnoresRowTokenAndExpiry(db: Db, env: Env, token: string, now: int, row: MagicLink)
    requires token != [] && Verify(env, token, now).Success?
    requires row in db.links && row.userId == Verify(env, token, now).value.userId
    requires row.token != token && row.expiresAt < now
    ensures Redeem(db, env, Some(token), now).outcome == Redirect(302, env.appName)
  {
    var i :| 0 <= i < |db.links| && db.links[i] == row;
  }

  /** A redemption never revives a retired cookie: its new session gets an
      id never issued before. */
  lemma RedeemKeepsRetired(db: Db, env: Env, token: Option<string>, now: int, c: nat)
    requires Retired(db, c)
    ensures Retired(Redeem(db, env, token, now).db, c)
  {
    var r := Redeem(db, env, token, now);
    if r.outcome.Redirect? {
      var uid := Verify(env, token.value, now).value.userId;
      var cleared := db.(links := WhereNot(db.links, LinkOwner, uid));
      CreateSessionKeepsRetired(cleared, uid, c);
    }
  }

  /** Redemption keeps the store invariant. */
  lemma RedeemKeepsValid(db: Db, env: Env, token: Option<string>, now: int)
    requires Valid(db)
    ensures Valid(Redeem(db, env, token, now).db)
  {
    var r := Redeem(db, env, token, now);
    if r.outcome.Redirect? {
      var uid := Verify(env, token.value, now).value.userId;
      var cleared := db.(links := WhereNot(db.links, LinkOwner, uid));
      DistinctAfterWhereNot(db.links, LinkKey, LinkOwner, uid);
      assert Valid(cleared);
      CreateSessionValid(cleared, uid);
    }
  }
}
