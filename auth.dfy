/** The authentication gate (`requireAuth`) and the read-only lookup of the
    current user (`getUser`). The identity provider's session is an input:
    None when the request carries no valid session. */
module Auth {
  import opened Model
  import opened Db

  datatype AuthOutcome =
    | LoginRedirect                               // `throw redirect("/login")`
    | Authenticated(user: User, session: Session)
    | AuthFailure                                 // the user insert was refused

  /** What `requireAuth` answers, with the user table it leaves behind. */
  datatype Resolution = Resolution(outcome: AuthOutcome, users: map<string, User>)

  /** Get-or-create of the session's user, keyed by email. */
  function Resolve(users: map<string, User>, session: Option<Session>): (r: Resolution)
    ensures r.outcome.LoginRedirect? <==> session.None?
    ensures session.None? ==> r.users == users
    ensures r.outcome.Authenticated? ==>
      && r.outcome.session == session.value
      && session.value.email in r.users
      && r.users[session.value.email] == r.outcome.user
    ensures UsersKeyedByEmail(users) && r.outcome.Authenticated? ==>
      r.outcome.user.email == session.value.email
    ensures session.Some? && session.value.email in users ==>
      r == Resolution(Authenticated(users[session.value.email], session.value), users)
    ensures session.Some? && session.value.email !in users && r.outcome.Authenticated? ==>
      && r.outcome.user == User(session.value.userId, session.value.email)
      && r.users == users[session.value.email := r.outcome.user]
    ensures r.outcome.AuthFailure? <==>
      && session.Some?
      && session.value.email !in users
      && exists e :: e in users && users[e].id == session.value.userId
    ensures !r.outcome.Authenticated? ==> r.users == users
  {
    match session
    case None => Resolution(LoginRedirect, users)
    case Some(s) =>
      if s.email in users then
        Resolution(Authenticated(users[s.email], s), users)
      else if exists e :: e in users && users[e].id == s.userId then
        Resolution(AuthFailure, users)
      else
        var u := User(s.userId, s.email);
        Resolution(Authenticated(u, s), users[s.email := u])
  }

  /** Resolve keeps both unique constraints of the user table. */
  lemma ResolveKeepsConstraints(users: map<string, User>, session: Option<Session>)
    requires UsersKeyedByEmail(users) && UserIdsUnique(users)
    ensures UsersKeyedByEmail(Resolve(users, session).users)
    ensures UserIdsUnique(Resolve(users, session).users)
  {
  }

  /** A second `requireAuth` with the same session returns the same user and
      creates nothing: there is never more than one user per email. */
  lemma {:induction false} ResolveIdempotent(users: map<string, User>, session: Option<Session>)
    ensures var first := Resolve(users, session);
            var second := Resolve(first.users, session);
            first.outcome.Authenticated? ==> second == first
  {
    var first := Resolve(users, session);
    if first.outcome.Authenticated? {
      assert session.value.email in first.users;
    }
  }

  /** `requireAuth`: redirects when there is no session, otherwise finds the
      user by the session's email and inserts one when there is none. */
  method RequireAuth(db: Store, session: Option<Session>) returns (r: AuthOutcome)
    requires db.Valid()
    modifies db`users
    ensures db.Valid()
    ensures Resolution(r, db.users) == Resolve(old(db.users), session)
  {
    if session.None? {
      return LoginRedirect;
    }
    var s := session.value;
    if s.email in db.users {
      r := Authenticated(db.users[s.email], s);
    } else {
      var u := User(s.userId, s.email);
      var ok := db.CreateUser(u);
      r := if ok then Authenticated(u, s) else AuthFailure;
    }
  }

  /** `getUser`: the session's user if there is one; never inserts. */
  function GetUser(users: map<string, User>, session: Option<Session>): (r: Option<User>)
    ensures r.Some? <==> session.Some? && session.value.email in users
    ensures UsersKeyedByEmail(users) && r.Some? ==> r.value.email == session.value.email
  {
    match session
    case None => None
    case Some(s) => if s.email in users then Some(users[s.email]) else None
  }

  /** Where `getUser` finds a user, `requireAuth` returns that same user and
      leaves the table as it was. */
  lemma GetUserAgreesWithResolve(users: map<string, User>, session: Option<Session>)
    requires GetUser(users, session).Some?
    ensures Resolve(users, session) == Resolution(Authenticated(GetUser(users, session).value, session.value), users)
  {
  }
}
