/** The calls into libraries whose code is not part of this model, as values
    the actions receive, and the shape of an action's result. */
module Effects {
  import opened Wrappers
  import opened Store

  /** The payload of a signed token: `{email, userId}` for a magic link,
      `{email, userId, code}` for e-mail verification. */
  datatype Claims = Claims(email: string, userId: UserId, code: Option<string>)

  /** Configuration and library calls.
      - `appName`: `process.env.APP_NAME`.
      - `sign`: `jwt.sign(payload, JWT_SECRET, { expiresIn: '5m' })`; fails when it throws.
      - `decode`: the signature and payload check of `jwt.verify`; fails with the
        thrown message. `expired` is its expiry check at a given time.
      - `hash`, `checkPassword`: argon2 `hash` and `verify(hash, password)`; fail
        with the thrown message. Whether `verify` throws on a missing hash is
        the hypothesis `RejectsMissingHash`, not a property of every `Env`. */
  datatype Env = Env(
    appName: string,
    sign: Claims -> Result<string, string>,
    decode: string -> Result<Claims, string>,
    expired: (string, int) -> bool,
    hash: string -> Result<string, string>,
    checkPassword: (Option<string>, string) -> Result<bool, string>)

  /** argon2's `verify` throws when handed no hash at all (`null!`). */
  ghost predicate RejectsMissingHash(env: Env)
  {
    forall password: string :: env.checkPassword(None, password).Failure?
  }

  /** jsonwebtoken's message for a token past its expiry. */
  const ExpiredMessage := "jwt expired"

  /** `jwt.verify(token, JWT_SECRET)` at time `now`. */
  function Verify(env: Env, token: string, now: int): (r: Result<Claims, string>)
    ensures r.Success? ==> env.decode(token) == r && !env.expired(token, now)
  {
    match env.decode(token)
    case Failure(m) => Failure(m)
    case Success(c) => if env.expired(token, now) then Failure(ExpiredMessage) else Success(c)
  }

  /** An e-mail handed to the mail sender, which swallows its own errors. */
  datatype Mail = Mail(to: string, url: string)

  /** What an action returns, the store after it, and the mail it sent. */
  datatype Step<O> = Step(outcome: O, db: Db, mail: Option<Mail>)
}
