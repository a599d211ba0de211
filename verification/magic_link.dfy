/** `signIn` and `generateMagicLink`: look the user up by e-mail ignoring
    case, create one when there is none, refuse a second link within a minute,
    and otherwise append a five-minute link row and mail its URL. */
module MagicLinks {
  import opened Wrappers
  import opened Text
  import opened Cooldown
  import opened Store
  import opened Effects

  /** One minute between links, in milliseconds. */
  const LinkWindowMs := 60000
  /** The `expiresAt` a link row is given: five minutes after issue. */
  const LinkLifetimeMs := 300000

  const MagicLinkPath := "/api/magic-link?token="

  datatype Generated = Generated(token: string, url: string)

  /** `generateMagicLink(email, userId)`: sign `{email, userId}` and build the
      URL; a signing error propagates. The token can be read back off the URL. */
  function GenerateMagicLink(env: Env, email: string, uid: UserId): (r: Result<Generated, string>)
    ensures r.Failure? <==> env.sign(Claims(email, uid, None)).Failure?
    ensures r.Failure? ==> r.error == env.sign(Claims(email, uid, None)).error
    ensures r.Success? ==> env.sign(Claims(email, uid, None)) == Success(r.value.token)
    ensures r.Success? ==> |r.value.url| == |env.appName| + |MagicLinkPath| + |r.value.token|
    ensures r.Success? ==> r.value.url[..|env.appName|] == env.appName
    ensures r.Success? ==> r.value.url[|env.appName|..|env.appName| + |MagicLinkPath|] == MagicLinkPath
    ensures r.Success? ==> r.value.url[|env.appName| + |MagicLinkPath|..] == r.value.token
  {
    match env.sign(Claims(email, uid, None))
    case Failure(m) => Failure(m)
    case Success(token) => Success(Generated(token, env.appName + MagicLinkPath + token))
  }

  /** A link row of `uid` created at `t` in the tail is one in the whole table. */
  lemma RowInTail(links: seq<MagicLink>, uid: UserId, t: int)
    requires links != []
    requires exists j :: 0 <= j < |links[1..]| && links[1..][j].userId == uid && links[1..][j].createdAt == t
    ensures exists i :: 1 <= i < |links| && links[i].userId == uid && links[i].createdAt == t
  {
    var j :| 0 <= j < |links[1..]| && links[1..][j].userId == uid && links[1..][j].createdAt == t;
    assert links[j + 1] == links[1..][j];
  }

  /** The newest `createdAt` among user `uid`'s link rows created at or after
      `since` (`findFirst` with `gte` ordered by `createdAt` descending). */
  function LatestSince(links: seq<MagicLink>, uid: UserId, since: int): (r: Option<int>)
    ensures r.None? <==> forall i :: 0 <= i < |links| ==> !(links[i].userId == uid && links[i].createdAt >= since)
    ensures r.Some? ==> since <= r.value
    ensures r.Some? ==> exists i :: 0 <= i < |links| && links[i].userId == uid && links[i].createdAt == r.value
    ensures r.Some? ==> forall i :: 0 <= i < |links| && links[i].userId == uid ==> links[i].createdAt <= r.value || links[i].createdAt < since
  {
    if links == [] then None
    else
      var rest := LatestSince(links[1..], uid, since);
      assert forall i :: 1 <= i < |links| ==> links[i] == links[1..][i - 1];
      var head := links[0];
      if head.userId == uid && head.createdAt >= since && (rest.None? || head.createdAt > rest.value) then
        Some(head.createdAt)
      else if rest.Some? then
        RowInTail(links, uid, rest.value);
        rest
      else None
  }

  const WaitPrefix := "Magic link was already sent recently. Please wait "
  const WaitSuffix := " seconds before trying again."

  datatype SignInOutcome = Sent | RecentlySent(seconds: nat) | Failed(message: string)

  /** The response's `message`; `success` is true exactly for `Sent`. */
  function SignInMessage(o: SignInOutcome): string
  {
    match o
    case Sent => "Magic link sent successfully"
    case RecentlySent(s) => WaitPrefix + DecimalString(s) + WaitSuffix
    case Failed(m) => m
  }

  /** The wait reply carries the seconds in decimal between its fixed prefix
      and suffix, and reading those digits back gives the wait. */
  lemma WaitMessageShowsWait(seconds: nat)
    ensures var m := SignInMessage(RecentlySent(seconds));
            && |m| > |WaitPrefix| + |WaitSuffix|
            && m[..|WaitPrefix|] == WaitPrefix && m[|m| - |WaitSuffix|..] == WaitSuffix
            && AllDigits(m[|WaitPrefix|..|m| - |WaitSuffix|])
            && ParseDecimal(m[|WaitPrefix|..|m| - |WaitSuffix|]) == seconds
  {
    var m := SignInMessage(RecentlySent(seconds));
    assert m[|WaitPrefix|..|m| - |WaitSuffix|] == DecimalString(seconds);
    ParseDecimalString(seconds);
  }

  /** The success reply and the wait replies are pairwise different. A
      `Failed` reply is whatever message was thrown, so it can equal any of
      them. */
  lemma SignInMessageDistinct(a: SignInOutcome, b: SignInOutcome)
    requires !a.Failed? && !b.Failed?
    requires SignInMessage(a) == SignInMessage(b)
    ensures a == b
  {
    if a.RecentlySent? {
      WaitMessageShowsWait(a.seconds);
    }
    if b.RecentlySent? {
      WaitMessageShowsWait(b.seconds);
    }
  }

  /** The user row created for an unknown address: the e-mail and nothing else. */
  function NewEmailUser(db: Db, email: string): (u: User)
    ensures u.email == Some(email) && u.username.None? && u.hashedPassword.None? && !u.emailVerified
    ensures forall i :: 0 <= i < |db.users| ==> db.users[i].id != u.id
    ensures forall i :: 0 <= i < |db.links| ==> db.links[i].userId != u.id
  {
    User(NewUserId(db), None, Some(email), None, false)
  }

  /** Sign a link for `uid`, append its row and mail its URL to `email`. */
  function IssueLink(db: Db, env: Env, email: string, uid: UserId, now: int): (r: Step<SignInOutcome>)
    ensures r.db.users == db.users && r.db.codes == db.codes && r.db.sessions == db.sessions && r.db.issued == db.issued
    ensures r.outcome.Sent? || r.outcome.Failed?
    ensures r.outcome.Sent? <==> env.sign(Claims(email, uid, None)).Success?
    ensures r.outcome.Failed? ==> r.outcome.message == env.sign(Claims(email, uid, None)).error
    ensures r.outcome.Failed? ==> r.db == db && r.mail == None
    ensures r.outcome.Sent? ==>
              && |r.db.links| == |db.links| + 1 && r.db.links[..|db.links|] == db.links
              && var row := r.db.links[|db.links|];
                 && row.userId == uid && row.expiresAt == now + LinkLifetimeMs && row.createdAt == now
                 && (forall i :: 0 <= i < |db.links| ==> db.links[i].id != row.id)
                 && env.sign(Claims(email, uid, None)) == Success(row.token)
                 && r.mail == Some(Mail(email, env.appName + MagicLinkPath + row.token))
  {
    match GenerateMagicLink(env, email, uid)
    case Failure(m) => Step(Failed(m), db, None)
    case Success(g) =>
      var row := MagicLink(NewLinkId(db), uid, g.token, now + LinkLifetimeMs, now);
      Step(Sent, db.(links := db.links + [row]), Some(Mail(email, g.url)))
  }

  /** The action went on to issue a link for `uid`: it is sent exactly when
      signing `{email, uid}` succeeds, and otherwise fails with the signing
      error's message. */
  ghost predicate IssuedFor(db: Db, env: Env, email: string, uid: UserId, r: Step<SignInOutcome>)
  {
    var signed := env.sign(Claims(email, uid, None));
    && (r.outcome.Sent? <==> signed.Success?)
    && (signed.Failure? ==> r.outcome == Failed(signed.error))
    && (r.outcome.Sent? ==> |r.db.links| > |db.links| && r.db.links[|db.links|].userId == uid)
  }

  /** `signIn({ email })` at time `now`. `schema` stands for the magic-link form
      schema, whose rules are not part of this model: `Some(message)` is a parse
      error. The outcome for a known user is decided by their newest link of
      the last minute. */
  function SignIn(db: Db, env: Env, schema: string -> Option<string>, email: string, now: int): (r: Step<SignInOutcome>)
    ensures schema(email).Some? ==> r == Step(Failed(schema(email).value), db, None)
    ensures r.db.codes == db.codes && r.db.sessions == db.sessions && r.db.issued == db.issued
    ensures |db.users| <= |r.db.users| <= |db.users| + 1 && r.db.users[..|db.users|] == db.users
    ensures |db.links| <= |r.db.links| <= |db.links| + 1 && r.db.links[..|db.links|] == db.links
    ensures |r.db.links| == |db.links| + 1 <==> r.outcome.Sent?
    ensures r.outcome.Sent? ==> r.db.links[|db.links|].expiresAt == now + LinkLifetimeMs && r.db.links[|db.links|].createdAt == now
    ensures r.outcome.Sent? <==> r.mail.Some?
    ensures r.outcome.Sent? ==> r.mail.value.to == email
    ensures |r.db.users| == |db.users| + 1 <==>
              schema(email).None? && forall i :: 0 <= i < |db.users| ==> !Satisfies(db.users[i], EmailLike(email))
    ensures |r.db.users| == |db.users| + 1 ==>
              && r.db.users[|db.users|] == NewEmailUser(db, email)
              && (r.outcome.Sent? ==> r.db.links[|db.links|].userId == r.db.users[|db.users|].id)
    ensures forall i :: schema(email).None? && FirstMatch(db.users, EmailLike(email), i) ==>
              && (r.outcome.RecentlySent? <==> LatestSince(db.links, db.users[i].id, now - LinkWindowMs).Some?)
              && (r.outcome.RecentlySent? ==> r.db == db && r.mail == None)
              && (r.outcome.RecentlySent? ==>
                    var newest := LatestSince(db.links, db.users[i].id, now - LinkWindowMs).value;
                    1000 * r.outcome.seconds >= LinkWindowMs - (now - newest) > 1000 * (r.outcome.seconds - 1))
              && (r.outcome.Sent? ==> r.db.links[|db.links|].userId == db.users[i].id)
              && (LatestSince(db.links, db.users[i].id, now - LinkWindowMs).None? ==> IssuedFor(db, env, email, db.users[i].id, r))
    ensures schema(email).None? && (forall i :: 0 <= i < |db.users| ==> !Satisfies(db.users[i], EmailLike(email))) ==>
              IssuedFor(db, env, email, NewEmailUser(db, email).id, r)
    ensures r.outcome.Sent? ==>
              var row := r.db.links[|db.links|];
              && env.sign(Claims(email, row.userId, None)) == Success(row.token)
              && r.mail == Some(Mail(email, env.appName + MagicLinkPath + row.token))
  {
    if schema(email).Some? then Step(Failed(schema(email).value), db, None)
    else
      match FindUser(db.users, EmailLike(email))
      case Some(i) =>
        var uid := db.users[i].id;
        (match LatestSince(db.links, uid, now - LinkWindowMs)
         case Some(newest) => Step(RecentlySent(SecondsLeft(LinkWindowMs, now - newest)), db, None)
         case None => IssueLink(db, env, email, uid, now))
      case None =>
        var user := NewEmailUser(db, email);
        IssueLink(db.(users := db.users + [user]), env, email, user.id, now)
  }

  /** For a known user with a link row from the last minute, and no link
      rows dated in the future, the sign-in waits for 0 to 60 seconds, and it
      is 0 exactly when every such row is exactly one minute old: the window
      includes its boundary. */
  lemma {:induction false} SignInWaitBounds(db: Db, env: Env, schema: string -> Option<string>, email: string, now: int, i: nat, j: nat)
    requires schema(email).None? && FirstMatch(db.users, EmailLike(email), i)
    requires forall k :: 0 <= k < |db.links| ==> db.links[k].createdAt <= now
    requires j < |db.links| && db.links[j].userId == db.users[i].id && db.links[j].createdAt >= now - LinkWindowMs
    ensures SignIn(db, env, schema, email, now).outcome.RecentlySent?
    ensures var s := SignIn(db, env, schema, email, now).outcome.seconds;
            && 0 <= s <= 60
            && (s == 0 <==> forall k :: 0 <= k < |db.links| && db.links[k].userId == db.users[i].id && db.links[k].createdAt >= now - LinkWindowMs ==>
                              db.links[k].createdAt == now - LinkWindowMs)
  {
    var r := SignIn(db, env, schema, email, now);
    var latest := LatestSince(db.links, db.users[i].id, now - LinkWindowMs);
    assert latest.Some?;
    var newest := latest.value;
    var k :| 0 <= k < |db.links| && db.links[k].userId == db.users[i].id && db.links[k].createdAt == newest;
    var s := r.outcome.seconds;
    assert 1000 * s >= LinkWindowMs - (now - newest) > 1000 * (s - 1);
    assert 0 <= LinkWindowMs - (now - newest) <= LinkWindowMs;
  }

  /** The link rows after a successful sign-in: the old ones and one more,
      for the user the sign-in resolved to. */
  lemma SentLinkOwner(db: Db, env: Env, schema: string -> Option<string>, email: string, now: int) returns (i: nat)
    requires SignIn(db, env, schema, email, now).outcome.Sent?
    ensures var after := SignIn(db, env, schema, email, now).db;
            && FirstMatch(after.users, EmailLike(email), i)
            && after.links[|db.links|].userId == after.users[i].id
  {
    var r := SignIn(db, env, schema, email, now);
    match FindUser(db.users, EmailLike(email))
    case Some(j) =>
      i := j;
      assert r.db.users == db.users;
    case None =>
      i := |db.users|;
      assert r.db.users == db.users + [NewEmailUser(db, email)];
      assert Satisfies(r.db.users[i], EmailLike(email));
      assert forall j :: 0 <= j < i ==> r.db.users[j] == db.users[j];
  }

  /** After a link is sent, asking again for the same address within the
      next minute (boundary included) is refused with a wait and no writes. */
  lemma {:induction false} SignInTwiceWaits(db: Db, env: Env, schema: string -> Option<string>, email: string, now: int, later: int)
    requires SignIn(db, env, schema, email, now).outcome.Sent?
    requires now <= later <= now + LinkWindowMs
    ensures var first := SignIn(db, env, schema, email, now);
            var second := SignIn(first.db, env, schema, email, later);
            second.outcome.RecentlySent? && second.db == first.db && second.mail == None
  {
    var first := SignIn(db, env, schema, email, now);
    var i := SentLinkOwner(db, env, schema, email, now);
    var uid := first.db.users[i].id;
    var row := first.db.links[|db.links|];
    assert row.userId == uid && row.createdAt >= later - LinkWindowMs;
    assert LatestSince(first.db.links, uid, later - LinkWindowMs).Some?;
  }

  /** `signIn` never removes or rewrites a link row: no user's row count drops. */
  lemma SignInNeverShrinksLinks(db: Db, env: Env, schema: string -> Option<string>, email: string, now: int, u: UserId)
    ensures |Where(db.links, LinkOwner, u)| <= |Where(SignIn(db, env, schema, email, now).db.links, LinkOwner, u)|
  {
    var after := SignIn(db, env, schema, email, now).db.links;
    assert after == db.links + after[|db.links|..];
    WhereConcat(db.links, after[|db.links|..], LinkOwner, u);
  }

  /** `signIn` keeps the store invariant: a created user's address matches no
      existing one even ignoring case, and row ids are fresh. */
  lemma SignInKeepsValid(db: Db, env: Env, schema: string -> Option<string>, email: string, now: int)
    requires Valid(db)
    ensures Valid(SignIn(db, env, schema, email, now).db)
  {
    var r := SignIn(db, env, schema, email, now);
    if |r.db.users| == |db.users| + 1 {
      var nu := r.db.users[|db.users|];
      assert r.db.users == db.users + [nu];
      forall i | 0 <= i < |db.users| ensures !NamesClash(r.db.users[i], nu) && !EmailsClash(r.db.users[i], nu) {
        assert !Satisfies(db.users[i], EmailLike(email));
      }
    } else {
      assert r.db.users == db.users;
    }
    if r.outcome.Sent? {
      var row := r.db.links[|db.links|];
      assert r.db.links == db.links + [row];
    } else {
      assert r.db.links == db.links;
    }
  }
}
