/** `resendVerificationEmail`: look the user up by exact e-mail, refuse
    verified users and users without a code row, enforce a two-minute
    cooldown, then overwrite the code row in place and mail a signed link. */
module Email {
  import opened Wrappers
  import opened Text
  import opened Cooldown
  import opened Store
  import opened Effects

  /** Two minutes, in milliseconds. */
  const CooldownMs := 120000

  const VerifyEmailPath := "/api/verify-email?token="

  /** `Math.floor(Math.random() * 1000000).toString().padStart(6, '0')` for the
      drawn integer `n`. */
  function CodeText(n: nat): (code: string)
    requires n < 1000000
    ensures |code| == 6 && AllDigits(code)
    ensures ParseDecimal(code) == n
  {
    var d := DecimalString(n);
    DecimalStringLength(n, 6);
    var code := PadStart(d, 6, '0');
    assert code == code[..|code| - |d|] + d;
    ParseIgnoresLeadingZeros(code[..|code| - |d|], d);
    ParseDecimalString(n);
    code
  }

  datatype ResendOutcome = UserNotFound | AlreadyVerified | CodeNotFound | CoolingDown(seconds: nat) | Resent | Unexpected

  const WaitPrefix := "Please wait "
  const WaitSuffix := " seconds before requesting a new verification email."

  /** The text the action returns, as `error` or, for `Resent`, as `success`. */
  function ResendMessage(o: ResendOutcome): string
  {
    match o
    case UserNotFound => "User not found"
    case AlreadyVerified => "Email already verified"
    case CodeNotFound => "Code not found"
    case CoolingDown(s) => WaitPrefix + DecimalString(s) + WaitSuffix
    case Resent => "Verification email resent successfully"
    case Unexpected => "An unexpected error occurred. Please try again later."
  }

  /** The cooldown reply carries the wait in decimal between its fixed
      prefix and suffix, and reading those digits back gives the wait. */
  lemma CooldownMessageShowsWait(seconds: nat)
    ensures var m := ResendMessage(CoolingDown(seconds));
            && |m| > |WaitPrefix| + |WaitSuffix|
            && m[..|WaitPrefix|] == WaitPrefix && m[|m| - |WaitSuffix|..] == WaitSuffix
            && AllDigits(m[|WaitPrefix|..|m| - |WaitSuffix|])
            && ParseDecimal(m[|WaitPrefix|..|m| - |WaitSuffix|]) == seconds
  {
    var m := ResendMessage(CoolingDown(seconds));
    var d := DecimalString(seconds);
    assert m[|WaitPrefix|..|m| - |WaitSuffix|] == d;
    ParseDecimalString(seconds);
  }

  /** Different outcomes get different replies, so the reply alone tells the
      caller what happened, and how long to wait. */
  lemma ResendMessageDistinct(a: ResendOutcome, b: ResendOutcome)
    requires ResendMessage(a) == ResendMessage(b)
    ensures a == b
  {
    if a.CoolingDown? {
      CooldownMessageShowsWait(a.seconds);
    }
    if b.CoolingDown? {
      CooldownMessageShowsWait(b.seconds);
    }
  }

  /** `after` is `before` with code row `k` given a new code and creation time,
      and nothing else changed. */
  ghost predicate Rewrote(before: Db, after: Db, k: int, code: string, now: int)
  {
    && 0 <= k < |before.codes|
    && after.users == before.users && after.links == before.links && after.sessions == before.sessions
    && after.issued == before.issued
    && |after.codes| == |before.codes|
    && after.codes[k] == VerificationCode(before.codes[k].id, before.codes[k].userId, code, now)
    && forall j :: 0 <= j < |before.codes| && j != k ==> after.codes[j] == before.codes[j]
  }

  function VerifyEmailUrl(appName: string, token: string): string
  {
    appName + VerifyEmailPath + token
  }

  /** What the action does once it holds user `uid`'s code row `k`: wait while
      the row is younger than the cooldown (reporting the whole seconds left,
      rounded up), otherwise rewrite the row and mail the signed link. */
  ghost predicate CodeRowStep(db: Db, env: Env, email: string, uid: UserId, k: nat, now: int, n: nat, r: Step<ResendOutcome>)
    requires k < |db.codes| && n < 1000000
  {
    && (r.outcome.CoolingDown? <==> now - db.codes[k].createdAt < CooldownMs)
    && (r.outcome.CoolingDown? ==> 1000 * r.outcome.seconds >= CooldownMs - (now - db.codes[k].createdAt) > 1000 * (r.outcome.seconds - 1))
    && (r.outcome.CoolingDown? || r.outcome == Resent || r.outcome == Unexpected)
    && (r.outcome == Resent || r.outcome == Unexpected ==> Rewrote(db, r.db, k, CodeText(n), now))
    && (r.outcome == Resent <==> r.mail.Some?)
    && (r.outcome == Resent <==> env.sign(Claims(email, uid, Some(CodeText(n)))).Success? && !r.outcome.CoolingDown?)
    && (r.outcome == Resent ==> r.mail == Some(Mail(email, VerifyEmailUrl(env.appName, env.sign(Claims(email, uid, Some(CodeText(n)))).value))))
  }

  function ResendWithCode(db: Db, env: Env, email: string, uid: UserId, k: nat, now: int, n: nat): (r: Step<ResendOutcome>)
    requires k < |db.codes| && n < 1000000
    ensures CodeRowStep(db, env, email, uid, k, now, n, r)
    ensures r.outcome.CoolingDown? ==> r.db == db && r.mail == None
  {
    var row := db.codes[k];
    var elapsed := now - row.createdAt;
    if elapsed < CooldownMs then
      Step(CoolingDown(SecondsLeft(CooldownMs, elapsed)), db, None)
    else
      var code := CodeText(n);
      var written := db.(codes := db.codes[k := row.(code := code, createdAt := now)]);
      match env.sign(Claims(email, uid, Some(code)))
      case Failure(_) => Step(Unexpected, written, None)
      case Success(token) => Step(Resent, written, Some(Mail(email, VerifyEmailUrl(env.appName, token))))
  }

  function ResendToUser(db: Db, env: Env, email: string, i: nat, now: int, n: nat): (r: Step<ResendOutcome>)
    requires i < |db.users| && n < 1000000
    ensures r.outcome == AlreadyVerified <==> db.users[i].emailVerified
    ensures !db.users[i].emailVerified ==>
              (r.outcome == CodeNotFound <==> forall k :: 0 <= k < |db.codes| ==> db.codes[k].userId != db.users[i].id)
    ensures forall k :: !db.users[i].emailVerified && FirstRow(db.codes, CodeOwner, db.users[i].id, k) ==>
              CodeRowStep(db, env, email, db.users[i].id, k, now, n, r)
    ensures r.outcome != Resent && r.outcome != Unexpected ==> r.db == db && r.mail == None
  {
    var user := db.users[i];
    if user.emailVerified then Step(AlreadyVerified, db, None)
    else
      match FirstWhere(db.codes, CodeOwner, user.id)
      case None => Step(CodeNotFound, db, None)
      case Some(k) =>
        ResendWithCode(db, env, email, user.id, k, now, n)
  }

  /** The action at time `now` with random draw `n`. Signing is the one call
      that can throw; the mail sender catches its own errors. */
  function Resend(db: Db, env: Env, email: string, now: int, n: nat): (r: Step<ResendOutcome>)
    requires n < 1000000
    ensures r.outcome == UserNotFound <==> forall i :: 0 <= i < |db.users| ==> db.users[i].email != Some(email)
    ensures forall i :: FirstMatch(db.users, EmailIs(email), i) ==> (r.outcome == AlreadyVerified <==> db.users[i].emailVerified)
    ensures forall i :: FirstMatch(db.users, EmailIs(email), i) && !db.users[i].emailVerified ==>
              (r.outcome == CodeNotFound <==> forall k :: 0 <= k < |db.codes| ==> db.codes[k].userId != db.users[i].id)
    ensures forall i, k :: FirstMatch(db.users, EmailIs(email), i) && !db.users[i].emailVerified && FirstRow(db.codes, CodeOwner, db.users[i].id, k) ==>
              CodeRowStep(db, env, email, db.users[i].id, k, now, n, r)
    ensures r.outcome != Resent && r.outcome != Unexpected ==> r.db == db && r.mail == None
  {
    match FindUser(db.users, EmailIs(email))
    case None => Step(UserNotFound, db, None)
    case Some(i) =>
      ResendToUser(db, env, email, i, now, n)
  }

  /** The action gets as far as the cooldown check: user `i` is the first
      whose e-mail is exactly `email`, it is unverified, and `k` is its first
      code row. */
  ghost predicate ReachesCodeRow(db: Db, email: string, i: int, k: int)
  {
    FirstMatch(db.users, EmailIs(email), i) && !db.users[i].emailVerified && FirstRow(db.codes, CodeOwner, db.users[i].id, k)
  }

  /** While the row is younger than two minutes and not dated in the future,
      the action waits, and the reported wait is between 1 and 120 seconds. */
  lemma ResendWaitBounds(db: Db, env: Env, email: string, now: int, n: nat, i: nat, k: nat)
    requires n < 1000000 && ReachesCodeRow(db, email, i, k)
    requires db.codes[k].createdAt <= now < db.codes[k].createdAt + CooldownMs
    ensures Resend(db, env, email, now, n).outcome.CoolingDown?
    ensures 1 <= Resend(db, env, email, now, n).outcome.seconds <= 120
  {
    var s := Resend(db, env, email, now, n).outcome.seconds;
    CeilSecondsUnique(CooldownMs - (now - db.codes[k].createdAt), s);
    SecondsLeftWithinWindow(CooldownMs, now - db.codes[k].createdAt);
  }

  /** Asking again later, still inside the cooldown, never reports a longer
      wait. */
  lemma ResendWaitNonIncreasing(db: Db, env: Env, email: string, now: int, later: int, n: nat, m: nat, i: nat, k: nat)
    requires n < 1000000 && m < 1000000 && ReachesCodeRow(db, email, i, k)
    requires now <= later < db.codes[k].createdAt + CooldownMs
    ensures Resend(db, env, email, now, n).outcome.CoolingDown? && Resend(db, env, email, later, m).outcome.CoolingDown?
    ensures Resend(db, env, email, later, m).outcome.seconds <= Resend(db, env, email, now, n).outcome.seconds
  {
    var created := db.codes[k].createdAt;
    CeilSecondsUnique(CooldownMs - (now - created), Resend(db, env, email, now, n).outcome.seconds);
    CeilSecondsUnique(CooldownMs - (later - created), Resend(db, env, email, later, m).outcome.seconds);
    SecondsLeftNonIncreasing(CooldownMs, now - created, later - created);
  }

  /** Once the cooldown is over and signing works, the code is resent; asking
      again within the next two minutes then only reports the wait, counted
      from the rewrite, and changes nothing. */
  lemma {:induction false} ResendTwiceCoolsDown(db: Db, env: Env, email: string, now: int, later: int, n: nat, m: nat, i: nat, k: nat)
    requires n < 1000000 && m < 1000000 && ReachesCodeRow(db, email, i, k)
    requires now - db.codes[k].createdAt >= CooldownMs
    requires env.sign(Claims(email, db.users[i].id, Some(CodeText(n)))).Success?
    requires now <= later < now + CooldownMs
    ensures Resend(db, env, email, now, n).outcome == Resent
    ensures var first := Resend(db, env, email, now, n);
            var second := Resend(first.db, env, email, later, m);
            second.outcome == CoolingDown(SecondsLeft(CooldownMs, later - now)) && second.db == first.db && second.mail == None
  {
    var first := Resend(db, env, email, now, n);
    var uid := db.users[i].id;
    assert Rewrote(db, first.db, k, CodeText(n), now);
    assert FirstMatch(first.db.users, EmailIs(email), i);
    assert FirstRow(first.db.codes, CodeOwner, uid, k) by {
      assert first.db.codes[k].userId == uid;
      forall j | 0 <= j < k ensures first.db.codes[j].userId != uid {
        assert first.db.codes[j] == db.codes[j];
      }
    }
    var second := Resend(first.db, env, email, later, m);
    CeilSecondsUnique(CooldownMs - (later - now), second.outcome.seconds);
  }

  /** A resend keeps the store invariant and every user's number of code rows. */
  lemma ResendKeepsValid(db: Db, env: Env, email: string, now: int, n: nat)
    requires n < 1000000 && Valid(db)
    ensures var after := Resend(db, env, email, now, n).db;
            Valid(after) && forall u :: |Where(after.codes, CodeOwner, u)| == |Where(db.codes, CodeOwner, u)|
  {
    var r := Resend(db, env, email, now, n);
    if r.outcome == Resent || r.outcome == Unexpected {
      var i := FindUser(db.users, EmailIs(email)).value;
      var k := FirstWhere(db.codes, CodeOwner, db.users[i].id).value;
      assert Rewrote(db, r.db, k, CodeText(n), now);
      assert r.db.codes == db.codes[k := r.db.codes[k]];
      forall u ensures |Where(r.db.codes, CodeOwner, u)| == |Where(db.codes, CodeOwner, u)| {
        WhereCountUpdate(db.codes, k, r.db.codes[k], CodeOwner, u);
      }
      assert forall j :: 0 <= j < |db.codes| ==> r.db.codes[j].id == db.codes[j].id;
    }
  }
}
