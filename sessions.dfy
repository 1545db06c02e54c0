/** The login session of the backend and the login decision.

    The session is a single optional user id (the `login` entry of the
    signed-cookie session); the user table is a sequence of rows in the
    order the database returns them, so that `fetchone` is "the first
    matching row". */
module Sessions {
  import opened Common

  type UserId = string

  /** None: nobody is logged in. */
  type Session = Option<UserId>

  datatype User = User(userId: UserId, password: string, email: string, lastAccessedChar: Option<int>)

  /** The two JSON fields `login` reads; a field may be absent. */
  datatype LoginRequest = LoginRequest(userId: Option<string>, password: Option<string>)

  datatype LoginOutcome = LoginOutcome(status: Status, session: Session, lastChar: Option<int>)

  /** The gate every protected handler applies before touching a table. */
  predicate LoggedIn(s: Session) {
    s.Some?
  }

  /** `WHERE user_id = %s OR email = %s`, with the same value in both places. */
  predicate MatchesKey(u: User, key: string) {
    u.userId == key || u.email == key
  }

  /** `not password or user_id is None`: an empty password counts as missing,
      an empty user id does not. */
  predicate MissingLoginArgs(req: LoginRequest) {
    !PresentString(req.password) || req.userId.None?
  }

  /** Index `i` is the row `fetchone` returns for `key`: the first match. */
  predicate FirstMatch(users: seq<User>, key: string, i: int) {
    0 <= i < |users| && MatchesKey(users[i], key) &&
    forall j :: 0 <= j < i ==> !MatchesKey(users[j], key)
  }

  /** At most one index is the first match. */
  lemma FirstMatchUnique(users: seq<User>, key: string, i: int, j: int)
    requires FirstMatch(users, key, i) && FirstMatch(users, key, j)
    ensures i == j
  {
  }

  /** The user lookup of `login`: the first row whose id or email equals `key`. */
  function FindUser(users: seq<User>, key: string): (r: Option<User>)
    ensures r.None? <==> forall i :: 0 <= i < |users| ==> !MatchesKey(users[i], key)
    ensures r.Some? ==> exists i :: FirstMatch(users, key, i) && users[i] == r.value
  {
    if users == [] then None
    else if MatchesKey(users[0], key) then
      assert FirstMatch(users, key, 0);
      Some(users[0])
    else
      var r := FindUser(users[1..], key);
      if r.Some? then
        var i :| FirstMatch(users[1..], key, i) && users[1..][i] == r.value;
        assert FirstMatch(users, key, i + 1);
        r
      else
        r
  }

  /** The decision `login` takes, in the order the handler tests it. */
  function Login(session: Session, req: LoginRequest, users: seq<User>): (r: LoginOutcome)
    ensures r.status == OK <==> session.None? && r.session.Some?
    ensures r.status != OK ==> r.session == session && r.lastChar.None?
  {
    if session.Some? then LoginOutcome(BadRequest, session, None)
    else if MissingLoginArgs(req) then LoginOutcome(BadRequest, session, None)
    else match FindUser(users, req.userId.value)
      case None => LoginOutcome(NotFound, session, None)
      case Some(row) =>
        if row.password != req.password.value then LoginOutcome(NotFound, session, None)
        else LoginOutcome(OK, Some(row.userId), row.lastAccessedChar)
  }

  /** A login succeeds exactly when nobody is logged in, both arguments are
      present and the first row matching the id-or-email has that password;
      the session then holds that row's own user id (not the email typed). */
  lemma {:induction false} LoginSucceedsIff(session: Session, req: LoginRequest, users: seq<User>)
    ensures Login(session, req, users).status == OK <==>
      session.None? && !MissingLoginArgs(req) &&
      exists i :: FirstMatch(users, req.userId.value, i) && users[i].password == req.password.value
    ensures Login(session, req, users).status == OK ==>
      exists i :: FirstMatch(users, req.userId.value, i) &&
        Login(session, req, users).session == Some(users[i].userId) &&
        Login(session, req, users).lastChar == users[i].lastAccessedChar
  {
    if session.None? && !MissingLoginArgs(req) {
      var key := req.userId.value;
      var r := FindUser(users, key);
      if r.Some? {
        var i :| FirstMatch(users, key, i) && users[i] == r.value;
        forall i' | FirstMatch(users, key, i') ensures i' == i {
          FirstMatchUnique(users, key, i, i');
        }
      }
    }
  }

  /** The rejections, in order: an existing login and missing arguments give
      400; an unknown user and a wrong password both give 404. A rejected
      login never changes the session. */
  lemma {:induction false} LoginRejections(session: Session, req: LoginRequest, users: seq<User>)
    ensures session.Some? ==> Login(session, req, users) == LoginOutcome(BadRequest, session, None)
    ensures session.None? && MissingLoginArgs(req) ==> Login(session, req, users).status == BadRequest
    ensures (session.None? && !MissingLoginArgs(req) &&
             forall i :: 0 <= i < |users| ==> !MatchesKey(users[i], req.userId.value)) ==>
      Login(session, req, users).status == NotFound
    ensures (session.None? && !MissingLoginArgs(req) &&
             exists i :: FirstMatch(users, req.userId.value, i) && users[i].password != req.password.value) ==>
      Login(session, req, users).status == NotFound
    ensures Login(session, req, users).status != OK ==> Login(session, req, users).session == session
  {
    if session.None? && !MissingLoginArgs(req) {
      var key := req.userId.value;
      if i :| FirstMatch(users, key, i) && users[i].password != req.password.value {
        var r := FindUser(users, key);
        var i' :| FirstMatch(users, key, i') && users[i'] == r.value;
        FirstMatchUnique(users, key, i, i');
      }
    }
  }

  /** Whoever the session names after `login` either was already logged in
      or is a user whose password is the one presented. */
  lemma LoginAuthentic(session: Session, req: LoginRequest, users: seq<User>)
    ensures var o := Login(session, req, users);
      o.session.Some? ==>
        o.session == session ||
        (req.password.Some? && exists u :: u in users && u.userId == o.session.value && u.password == req.password.value)
  {
    var o := Login(session, req, users);
    if o.status == OK {
      LoginSucceedsIff(session, req, users);
    }
  }
}
