/** The database as the actions see it: four tables kept in table order, so
    that `findFirst` is "the first matching row". Ids are natural numbers; the
    id generators (cuid for rows, Lucia for sessions) are modelled as never
    handing out an id that appears anywhere in the store. */
module Store {
  import opened Wrappers
  import opened Text

  type UserId = nat

  /** A `User` row; `username`, `email` and `hashedPassword` are nullable. */
  datatype User = User(id: UserId, username: Option<string>, email: Option<string>,
                       hashedPassword: Option<string>, emailVerified: bool)

  /** A `VerificationEmail` row: the six-digit code last mailed to a user. */
  datatype VerificationCode = VerificationCode(id: nat, userId: UserId, code: string, createdAt: int)

  /** A `MagicLink` row; `createdAt` is the column's default, the time of insertion. */
  datatype MagicLink = MagicLink(id: nat, userId: UserId, token: string, expiresAt: int, createdAt: int)

  /** A session of the session library, reduced to its id and owner. */
  datatype Session = Session(id: nat, userId: UserId)

  /** The four tables, and `issued`: the session library's record of the ids
      it has handed out, all below `issued`. Lucia draws each session id at
      random from a space large enough that an id is never drawn twice, so an
      id once issued is never issued again, even after its session is
      deleted. */
  datatype Db = Db(users: seq<User>, codes: seq<VerificationCode>, links: seq<MagicLink>, sessions: seq<Session>, issued: nat)

  function UserKey(u: User): nat { u.id }
  function CodeKey(c: VerificationCode): nat { c.id }
  function CodeOwner(c: VerificationCode): nat { c.userId }
  function LinkKey(l: MagicLink): nat { l.id }
  function LinkOwner(l: MagicLink): nat { l.userId }
  function SessionKey(s: Session): nat { s.id }
  function SessionOwner(s: Session): nat { s.userId }

  /** `findFirst`: the position of the first row satisfying `p`. */
  function FindFirst<T>(rows: seq<T>, p: T -> bool): (r: Option<nat>)
    ensures r.None? <==> forall i :: 0 <= i < |rows| ==> !p(rows[i])
    ensures r.Some? ==> r.value < |rows| && p(rows[r.value]) && forall i :: 0 <= i < r.value ==> !p(rows[i])
  {
    if rows == [] then None
    else if p(rows[0]) then Some(0)
    else
      match FindFirst(rows[1..], p)
      case None => None
      case Some(k) => Some(k + 1)
  }

  /** Row `i` is the first row whose column is `k`. */
  ghost predicate FirstRow<T>(rows: seq<T>, column: T -> nat, k: nat, i: int)
  {
    0 <= i < |rows| && column(rows[i]) == k && forall j :: 0 <= j < i ==> column(rows[j]) != k
  }

  /** `findFirst({ where: { column: k } })` on a numeric column. */
  function FirstWhere<T>(rows: seq<T>, column: T -> nat, k: nat): (r: Option<nat>)
    ensures r.None? <==> forall i :: 0 <= i < |rows| ==> column(rows[i]) != k
    ensures forall i :: FirstRow(rows, column, k, i) <==> r == Some(i)
  {
    FindFirst(rows, x => column(x) == k)
  }

  /** The user filters the actions use: exact e-mail, e-mail or username
      compared case-insensitively (`mode: 'insensitive'`), and id. A null
      column matches no filter. */
  datatype UserQuery = EmailIs(email: string) | EmailLike(email: string) | UsernameLike(username: string) | IdIs(id: UserId)

  predicate Satisfies(u: User, q: UserQuery)
  {
    match q
    case EmailIs(e) => u.email == Some(e)
    case EmailLike(e) => u.email.Some? && EqualsIgnoringCase(u.email.value, e)
    case UsernameLike(n) => u.username.Some? && EqualsIgnoringCase(u.username.value, n)
    case IdIs(id) => u.id == id
  }

  /** Row `i` is the first user matching `q`. */
  ghost predicate FirstMatch(users: seq<User>, q: UserQuery, i: int)
  {
    0 <= i < |users| && Satisfies(users[i], q) && forall j :: 0 <= j < i ==> !Satisfies(users[j], q)
  }

  /** `db.user.findFirst({ where: q })`. */
  function FindUser(users: seq<User>, q: UserQuery): (r: Option<nat>)
    ensures r.None? <==> forall i :: 0 <= i < |users| ==> !Satisfies(users[i], q)
    ensures forall i :: FirstMatch(users, q, i) <==> r == Some(i)
  {
    FindFirst(users, u => Satisfies(u, q))
  }

  /** The rows whose column is `k`, in table order. */
  function Where<T(==,!new)>(rows: seq<T>, column: T -> nat, k: nat): (r: seq<T>)
    ensures |r| <= |rows|
    ensures forall x :: x in r <==> x in rows && column(x) == k
  {
    if rows == [] then []
    else (if column(rows[0]) == k then [rows[0]] else []) + Where(rows[1..], column, k)
  }

  /** `deleteMany({ where: { column: k } })`: every other row stays, in order. */
  function WhereNot<T(==,!new)>(rows: seq<T>, column: T -> nat, k: nat): (r: seq<T>)
    ensures forall x :: x in r <==> x in rows && column(x) != k
    ensures Where(r, column, k) == []
    ensures forall v :: v != k ==> Where(r, column, v) == Where(rows, column, v)
  {
    if rows == [] then []
    else
      var rest := WhereNot(rows[1..], column, k);
      var head := if column(rows[0]) != k then [rows[0]] else [];
      forall v
        ensures Where(head + rest, column, v) == Where(head, column, v) + Where(rest, column, v)
      {
        WhereConcat(head, rest, column, v);
      }
      head + rest
  }

  lemma {:induction false} WhereConcat<T(!new)>(a: seq<T>, b: seq<T>, column: T -> nat, k: nat)
    ensures Where(a + b, column, k) == Where(a, column, k) + Where(b, column, k)
  {
    if a == [] {
      assert a + b == b;
    } else {
      assert (a + b)[0] == a[0] && (a + b)[1..] == a[1..] + b;
      WhereConcat(a[1..], b, column, k);
    }
  }

  /** Appending a row extends the rows of its owner and of nobody else. */
  lemma {:induction false} WhereAppend<T(!new)>(rows: seq<T>, x: T, column: T -> nat, k: nat)
    ensures Where(rows + [x], column, k) == Where(rows, column, k) + (if column(x) == k then [x] else [])
  {
    if rows != [] {
      assert (rows + [x])[1..] == rows[1..] + [x];
      WhereAppend(rows[1..], x, column, k);
    }
  }

  /** Rewriting one row without moving it to another owner keeps every
      owner's row count. */
  lemma {:induction false} WhereCountUpdate<T(!new)>(rows: seq<T>, j: nat, x: T, column: T -> nat, k: nat)
    requires j < |rows| && column(x) == column(rows[j])
    ensures |Where(rows[j := x], column, k)| == |Where(rows, column, k)|
  {
    if j > 0 {
      assert rows[j := x][1..] == rows[1..][j - 1 := x];
      WhereCountUpdate(rows[1..], j - 1, x, column, k);
    } else {
      assert rows[j := x][1..] == rows[1..];
    }
  }

  /** The values of one column, in table order. */
  function Column<T>(rows: seq<T>, column: T -> nat): (r: seq<nat>)
    ensures |r| == |rows|
    ensures forall i :: 0 <= i < |rows| ==> r[i] == column(rows[i])
  {
    seq(|rows|, i requires 0 <= i < |rows| => column(rows[i]))
  }

  /** A number above every number in `ids`. */
  function Above(ids: seq<nat>): (r: nat)
    ensures forall i :: 0 <= i < |ids| ==> ids[i] < r
  {
    if ids == [] then 0
    else
      var rest := Above(ids[1..]);
      assert forall i :: 1 <= i < |ids| ==> ids[i] == ids[1..][i - 1];
      if ids[0] < rest then rest else ids[0] + 1
  }

  function Max(a: nat, b: nat): nat { if a < b then b else a }

  /** A fresh user id: no user, code row, link row or session refers to it. */
  function NewUserId(db: Db): (id: UserId)
    ensures forall i :: 0 <= i < |db.users| ==> db.users[i].id != id
    ensures forall i :: 0 <= i < |db.codes| ==> db.codes[i].userId != id
    ensures forall i :: 0 <= i < |db.links| ==> db.links[i].userId != id
    ensures forall i :: 0 <= i < |db.sessions| ==> db.sessions[i].userId != id
  {
    var a, b := Above(Column(db.users, UserKey)), Above(Column(db.codes, CodeOwner));
    var c, d := Above(Column(db.links, LinkOwner)), Above(Column(db.sessions, SessionOwner));
    Max(Max(a, b), Max(c, d))
  }

  /** A fresh magic-link row id. */
  function NewLinkId(db: Db): (id: nat)
    ensures forall i :: 0 <= i < |db.links| ==> db.links[i].id != id
  {
    Above(Column(db.links, LinkKey))
  }

  /** `lucia.createSession(userId)`: one session with a never-issued id is
      added for the user; nothing else changes. */
  function CreateSession(db: Db, uid: UserId): (r: Db)
    ensures r.users == db.users && r.codes == db.codes && r.links == db.links
    ensures |r.sessions| == |db.sessions| + 1 && r.sessions[..|db.sessions|] == db.sessions
    ensures r.sessions[|db.sessions|].userId == uid
    ensures db.issued <= r.sessions[|db.sessions|].id < r.issued
    ensures forall i :: 0 <= i < |db.sessions| ==> db.sessions[i].id != r.sessions[|db.sessions|].id
    ensures Where(r.sessions, SessionOwner, uid) == Where(db.sessions, SessionOwner, uid) + [r.sessions[|db.sessions|]]
    ensures forall v :: v != uid ==> Where(r.sessions, SessionOwner, v) == Where(db.sessions, SessionOwner, v)
  {
    var s := Session(Max(db.issued, Above(Column(db.sessions, SessionKey))), uid);
    WhereAppend(db.sessions, s, SessionOwner, uid);
    assert forall v :: Where(db.sessions + [s], SessionOwner, v) == Where(db.sessions, SessionOwner, v) + (if uid == v then [s] else []) by {
      forall v { WhereAppend(db.sessions, s, SessionOwner, v); }
    }
    db.(sessions := db.sessions + [s], issued := s.id + 1)
  }

  /** `validateRequest()`: the session the request's cookie names, when such
      a session exists. */
  function CurrentSession(db: Db, cookie: Option<nat>): (r: Option<Session>)
    ensures r.Some? <==> cookie.Some? && exists i :: 0 <= i < |db.sessions| && db.sessions[i].id == cookie.value
    ensures r.Some? ==> r.value in db.sessions && r.value.id == cookie.value
  {
    if cookie.None? then None
    else
      match FirstWhere(db.sessions, SessionKey, cookie.value)
      case None => None
      case Some(i) => Some(db.sessions[i])
  }

  /** The rows of one table carry pairwise different values in `key`. */
  predicate DistinctBy<T>(rows: seq<T>, key: T -> nat)
  {
    forall i, j :: 0 <= i < j < |rows| ==> key(rows[i]) != key(rows[j])
  }

  predicate NamesClash(a: User, b: User)
  {
    a.username.Some? && b.username.Some? && EqualsIgnoringCase(a.username.value, b.username.value)
  }

  predicate EmailsClash(a: User, b: User)
  {
    a.email.Some? && b.email.Some? && EqualsIgnoringCase(a.email.value, b.email.value)
  }

  /** No two users share a username or an e-mail address up to case. */
  predicate UniqueIgnoringCase(users: seq<User>)
  {
    forall i, j :: 0 <= i < j < |users| ==> !NamesClash(users[i], users[j]) && !EmailsClash(users[i], users[j])
  }

  /** Every session present was issued. */
  predicate SessionsIssued(db: Db)
  {
    forall i :: 0 <= i < |db.sessions| ==> db.sessions[i].id < db.issued
  }

  /** The store invariant the actions keep: ids are keys, every session was
      issued, and usernames and e-mail addresses are unique up to case. */
  predicate Valid(db: Db)
  {
    && SessionsIssued(db)
    && DistinctBy(db.users, UserKey)
    && DistinctBy(db.codes, CodeKey)
    && DistinctBy(db.links, LinkKey)
    && DistinctBy(db.sessions, SessionKey)
    && UniqueIgnoringCase(db.users)
  }

  /** Deleting rows keeps a key column distinct. */
  lemma {:induction false} DistinctAfterWhereNot<T(!new)>(rows: seq<T>, key: T -> nat, column: T -> nat, k: nat)
    requires DistinctBy(rows, key)
    ensures DistinctBy(WhereNot(rows, column, k), key)
  {
    if rows != [] {
      DistinctAfterWhereNot(rows[1..], key, column, k);
      var rest := WhereNot(rows[1..], column, k);
      forall x | x in rest
        ensures key(x) != key(rows[0])
      {
        var j :| 0 <= j < |rows[1..]| && rows[1..][j] == x;
        assert rows[j + 1] == x;
      }
    }
  }

  /** `CreateSession` keeps the store invariant. */
  lemma CreateSessionValid(db: Db, uid: UserId)
    requires Valid(db)
    ensures Valid(CreateSession(db, uid))
  {
    var r := CreateSession(db, uid);
    assert forall i :: 0 <= i < |db.sessions| ==> r.sessions[i] == db.sessions[i];
  }

  /** Deleting sessions keeps every remaining one issued. */
  lemma DeleteSessionsKeepsIssued(db: Db, column: Session -> nat, k: nat)
    requires SessionsIssued(db)
    ensures SessionsIssued(db.(sessions := WhereNot(db.sessions, column, k)))
  {
    var rest := WhereNot(db.sessions, column, k);
    forall i | 0 <= i < |rest| ensures rest[i].id < db.issued {
      assert rest[i] in db.sessions;
    }
  }

  /** Cookie `c` is dead for good: its id was issued, and no session has it. */
  ghost predicate Retired(db: Db, c: nat)
  {
    c < db.issued && forall i :: 0 <= i < |db.sessions| ==> db.sessions[i].id != c
  }

  /** A retired cookie stays retired when a session is created: new sessions
      never get an id that was issued before. */
  lemma CreateSessionKeepsRetired(db: Db, uid: UserId, c: nat)
    requires Retired(db, c)
    ensures Retired(CreateSession(db, uid), c)
    ensures CurrentSession(CreateSession(db, uid), Some(c)).None?
  {
    var r := CreateSession(db, uid);
    assert forall i :: 0 <= i < |db.sessions| ==> r.sessions[i] == db.sessions[i];
  }
}
