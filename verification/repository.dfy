/** The newer persistence layer,
    user-service/internal/repository/postgres/user_repo.go, over the
    entities of user-service/internal/domain/user.go: a `users` table keyed
    by a text id (a UUID unless the caller supplies one) and a `sessions`
    table. Pointer fields of the Go structs are `Option`s; timestamps are
    seconds, `NOW()` is the parameter `now`. */
module Repository {
  import opened Common

  /** domain.User. */
  datatype User = User(
    id: string,
    username: Option<string>,
    email: Option<string>,
    passwordHash: string,
    fullName: Option<string>,
    avatarURL: Option<string>,
    language: Option<string>,
    platform: string,
    deviceID: string,
    registeredIP: Option<string>,
    userAgent: string,
    location: Option<string>,
    registeredAt: nat,
    updatedAt: nat)

  /** A row of the `sessions` table. */
  datatype SessionRow = SessionRow(userID: string, deviceID: string, platform: string, ipAddress: string, lastSeen: nat)

  /** domain.Session: a session row without its owner. */
  datatype Session = Session(deviceID: string, platform: string, ipAddress: string, lastSeen: nat)

  /** Both tables (sessions in storage order) and reachability. */
  datatype Repo = Repo(users: map<string, User>, sessions: seq<SessionRow>, up: bool)

  predicate EmailTaken(repo: Repo, email: string)
  {
    exists id :: id in repo.users && repo.users[id].email == Some(email)
  }

  /** The table constraints: rows are filed under their own id (the
      primary key) and no two rows share an email. */
  predicate Wf(repo: Repo)
  {
    && (forall id :: id in repo.users ==> repo.users[id].id == id)
    && (forall a, b ::
          (a in repo.users && b in repo.users && repo.users[a].email.Some? && repo.users[a].email == repo.users[b].email)
          ==> a == b)
  }

  // -----------------------------------------------------------------------
  // Users
  // -----------------------------------------------------------------------

  /** The caller's struct after Create: an empty id is replaced by the
      freshly drawn UUID; a caller-supplied id is kept. */
  function WithId(u: User, freshId: string): (r: User)
    ensures u.id != "" ==> r == u
    ensures u.id == "" ==> r == u.(id := freshId)
  {
    if u.id == "" then u.(id := freshId) else u
  }

  /** What Create returns: the error if any, and the caller's user struct
      (whose id Create has filled in either way). */
  datatype Created = Created(err: Option<Error>, user: User, repo: Repo)

  /** Create: inserts the row with both timestamps set to `now`; a taken id
      or email is a unique violation and nothing is written. */
  function Create(repo: Repo, u: User, freshId: string, now: nat): (r: Created)
    requires Wf(repo)
    ensures r.user == WithId(u, freshId)
    ensures Wf(r.repo) && r.repo.sessions == repo.sessions && r.repo.up == repo.up
    ensures r.err.None? <==>
              repo.up && r.user.id !in repo.users && !(r.user.email.Some? && EmailTaken(repo, r.user.email.value))
    ensures r.err.Some? ==> r.repo == repo
    ensures repo.up && r.err.Some? ==> r.err == Some(Db(PqError(UniqueViolation)))
    ensures r.err.None? ==>
              r.repo.users == repo.users[r.user.id := r.user.(registeredAt := now, updatedAt := now)]
  {
    var user := WithId(u, freshId);
    if !repo.up then Created(Some(Db(Unreachable)), user, repo)
    else if user.id in repo.users || (user.email.Some? && EmailTaken(repo, user.email.value)) then
      Created(Some(Db(PqError(UniqueViolation))), user, repo)
    else
      var users' := repo.users[user.id := user.(registeredAt := now, updatedAt := now)];
      assert forall a, b :: a in users' && b in users' && users'[a].email.Some? && users'[a].email == users'[b].email ==> a == b by {
        forall a, b | a in users' && b in users' && users'[a].email.Some? && users'[a].email == users'[b].email
          ensures a == b
        {
        }
      }
      Created(None, user, repo.(users := users'))
  }

  /** GetByID: no matching row is (nil, nil), not an error. */
  function GetByID(repo: Repo, id: string): (r: Result<Option<User>>)
    ensures r.Failure? <==> !repo.up
    ensures r.Success? ==> (r.value.Some? <==> id in repo.users)
    ensures r.Success? && r.value.Some? ==> r.value.value == repo.users[id]
  {
    if !repo.up then Failure(Db(Unreachable))
    else if id in repo.users then Success(Some(repo.users[id]))
    else Success(None)
  }

  /** GetByEmail: the row holding exactly that email, or (nil, nil). */
  function GetByEmail(repo: Repo, email: string): (r: Result<Option<User>>)
    requires Wf(repo)
    ensures r.Failure? <==> !repo.up
    ensures r.Success? ==> (r.value.Some? <==> EmailTaken(repo, email))
    ensures r.Success? && r.value.Some? ==>
              r.value.value.id in repo.users && repo.users[r.value.value.id] == r.value.value
              && r.value.value.email == Some(email)
  {
    if !repo.up then Failure(Db(Unreachable))
    else if EmailTaken(repo, email) then
      var id :| id in repo.users && repo.users[id].email == Some(email);
      Success(Some(repo.users[id]))
    else Success(None)
  }

  /** The columns UpdateField may write. */
  predicate UpdatableField(field: string)
  {
    field in {"username", "email", "full_name", "avatar_url", "language"}
  }

  /** The user with one whitelisted column set (NULL for `None`). */
  function SetColumn(u: User, field: string, value: Option<string>): (r: User)
    requires UpdatableField(field)
    ensures field == "username" ==> r == u.(username := value)
    ensures field == "email" ==> r == u.(email := value)
    ensures field == "full_name" ==> r == u.(fullName := value)
    ensures field == "avatar_url" ==> r == u.(avatarURL := value)
    ensures field == "language" ==> r == u.(language := value)
  {
    if field == "username" then u.(username := value)
    else if field == "email" then u.(email := value)
    else if field == "full_name" then u.(fullName := value)
    else if field == "avatar_url" then u.(avatarURL := value)
    else u.(language := value)
  }

  /** Whether writing `value` into `field` of user `id` would clash with
      another row's email. */
  predicate EmailClash(repo: Repo, id: string, field: string, value: Option<string>)
  {
    field == "email" && value.Some? && exists k :: k in repo.users && k != id && repo.users[k].email == value
  }

  /** UpdateField: a field outside the whitelist is refused before the
      database is touched; otherwise the column and `updated_at` of the
      matching row are written. An id matching no row is not an error. */
  function UpdateField(repo: Repo, userID: string, field: string, value: Option<string>, now: nat): (r: Result<Repo>)
    requires Wf(repo)
    ensures !UpdatableField(field) ==> r == Failure(Plain("invalid field name: " + field))
    ensures r.Success? ==> Wf(r.value) && r.value.sessions == repo.sessions && r.value.up
    ensures r.Success? && userID !in repo.users ==> r.value == repo
    ensures r.Success? && userID in repo.users ==>
              r.value.users == repo.users[userID := SetColumn(repo.users[userID], field, value).(updatedAt := now)]
    ensures r.Failure? <==> !UpdatableField(field) || !repo.up || (userID in repo.users && EmailClash(repo, userID, field, value))
  {
    if !UpdatableField(field) then Failure(Plain("invalid field name: " + field))
    else if !repo.up then Failure(Db(Unreachable))
    else if userID !in repo.users then Success(repo)
    else if EmailClash(repo, userID, field, value) then Failure(Db(PqError(UniqueViolation)))
    else
      var users' := repo.users[userID := SetColumn(repo.users[userID], field, value).(updatedAt := now)];
      assert forall a, b :: a in users' && b in users' && users'[a].email.Some? && users'[a].email == users'[b].email ==> a == b by {
        forall a, b | a in users' && b in users' && users'[a].email.Some? && users'[a].email == users'[b].email
          ensures a == b
        {
        }
      }
      Success(repo.(users := users'))
  }

  /** ChangePassword: the matching row's hash and `updated_at` are
      replaced; no matching row is not an error. */
  function ChangePassword(repo: Repo, id: string, newHash: string, now: nat): (r: Result<Repo>)
    requires Wf(repo)
    ensures r.Failure? <==> !repo.up
    ensures r.Success? ==> Wf(r.value) && r.value.sessions == repo.sessions && r.value.up
    ensures r.Success? ==> r.value.users.Keys == repo.users.Keys
    ensures r.Success? && id in repo.users ==>
              r.value.users == repo.users[id := repo.users[id].(passwordHash := newHash, updatedAt := now)]
    ensures r.Success? && id !in repo.users ==> r.value == repo
  {
    if !repo.up then Failure(Db(Unreachable))
    else if id !in repo.users then Success(repo)
    else Success(repo.(users := repo.users[id := repo.users[id].(passwordHash := newHash, updatedAt := now)]))
  }

  /** ResetPassword runs the same statement as ChangePassword. */
  function ResetPassword(repo: Repo, id: string, newHash: string, now: nat): (r: Result<Repo>)
    requires Wf(repo)
    ensures r == ChangePassword(repo, id, newHash, now)
  {
    if !repo.up then Failure(Db(Unreachable))
    else if id !in repo.users then Success(repo)
    else Success(repo.(users := repo.users[id := repo.users[id].(passwordHash := newHash, updatedAt := now)]))
  }

  /** Delete: the user row is removed; sessions are not touched. */
  function Delete(repo: Repo, id: string): (r: Result<Repo>)
    ensures r.Failure? <==> !repo.up
    ensures r.Success? ==> r.value == repo.(users := repo.users - {id})
    ensures Wf(repo) && r.Success? ==> Wf(r.value)
  {
    if !repo.up then Failure(Db(Unreachable)) else Success(repo.(users := repo.users - {id}))
  }

  // -----------------------------------------------------------------------
  // Sessions
  // -----------------------------------------------------------------------

  function AsSession(row: SessionRow): Session
  {
    Session(row.deviceID, row.platform, row.ipAddress, row.lastSeen)
  }

  /** The sessions of one user, in storage order. */
  function SessionsOf(rows: seq<SessionRow>, userID: string): (r: seq<Session>)
    ensures forall s :: s in r <==> exists row :: row in rows && row.userID == userID && AsSession(row) == s
    ensures (forall row :: row in rows ==> row.userID != userID) ==> r == []
    ensures |r| <= |rows|
  {
    if rows == [] then []
    else
      var rest := SessionsOf(rows[1..], userID);
      assert forall row :: row in rows[1..] ==> row in rows;
      assert forall row :: row in rows ==> row == rows[0] || row in rows[1..];
      if rows[0].userID == userID then [AsSession(rows[0])] + rest else rest
  }

  /** Selecting a user's sessions commutes with concatenating rows, so the
      result keeps the storage order and one session per matching row. */
  lemma {:induction false} SessionsOfConcat(a: seq<SessionRow>, b: seq<SessionRow>, userID: string)
    ensures SessionsOf(a + b, userID) == SessionsOf(a, userID) + SessionsOf(b, userID)
  {
    if a != [] {
      assert (a + b)[1..] == a[1..] + b;
      SessionsOfConcat(a[1..], b, userID);
    } else {
      assert a + b == b;
    }
  }

  /** The rows that do not satisfy `drop`, in order. */
  function Keep(rows: seq<SessionRow>, drop: SessionRow -> bool): (r: seq<SessionRow>)
    ensures forall row :: row in r <==> row in rows && !drop(row)
    ensures |r| <= |rows|
  {
    if rows == [] then []
    else
      var rest := Keep(rows[1..], drop);
      assert forall row :: row in rows[1..] ==> row in rows;
      assert forall row :: row in rows ==> row == rows[0] || row in rows[1..];
      if drop(rows[0]) then rest else [rows[0]] + rest
  }

  /** GetSessions: that user's sessions (none is an empty list). */
  function GetSessions(repo: Repo, userID: string): (r: Result<seq<Session>>)
    ensures r.Failure? <==> !repo.up
    ensures r.Success? ==>
              forall s :: s in r.value <==> exists row :: row in repo.sessions && row.userID == userID && AsSession(row) == s
  {
    if !repo.up then Failure(Db(Unreachable)) else Success(SessionsOf(repo.sessions, userID))
  }

  /** DeleteSession: removes exactly the rows of that user on that device. */
  function DeleteSession(repo: Repo, userID: string, deviceID: string): (r: Result<Repo>)
    ensures r.Failure? <==> !repo.up
    ensures r.Success? ==> r.value.users == repo.users && r.value.up
    ensures r.Success? ==>
              forall row :: row in r.value.sessions <==>
                row in repo.sessions && !(row.userID == userID && row.deviceID == deviceID)
  {
    if !repo.up then Failure(Db(Unreachable))
    else Success(repo.(sessions := Keep(repo.sessions, (row: SessionRow) => row.userID == userID && row.deviceID == deviceID)))
  }

  /** DeleteAllSessions: removes every row of that user and no other. */
  function DeleteAllSessions(repo: Repo, userID: string): (r: Result<Repo>)
    ensures r.Failure? <==> !repo.up
    ensures r.Success? ==> r.value.users == repo.users && r.value.up
    ensures r.Success? ==> forall row :: row in r.value.sessions <==> row in repo.sessions && row.userID != userID
  {
    if !repo.up then Failure(Db(Unreachable))
    else Success(repo.(sessions := Keep(repo.sessions, (row: SessionRow) => row.userID == userID)))
  }

  // -----------------------------------------------------------------------
  // Properties
  // -----------------------------------------------------------------------

  /** A created user is found by its email, exactly as stored. */
  lemma CreateThenGetByEmail(repo: Repo, u: User, freshId: string, now: nat)
    requires Wf(repo)
    requires Create(repo, u, freshId, now).err.None?
    requires u.email.Some?
    ensures var r := Create(repo, u, freshId, now);
            GetByEmail(r.repo, u.email.value) == Success(Some(r.user.(registeredAt := now, updatedAt := now)))
  {
    var r := Create(repo, u, freshId, now);
    assert r.repo.users[r.user.id].email == u.email;
  }

  /** After Delete the id reads as "no such user", not as an error. */
  lemma DeleteThenGetByID(repo: Repo, id: string)
    requires repo.up
    ensures GetByID(Delete(repo, id).value, id) == Success(None)
  {
  }

  /** Writing NULL through UpdateField leaves the column absent. */
  lemma UpdateFieldNullClears(repo: Repo, userID: string, field: string, now: nat)
    requires Wf(repo) && repo.up && userID in repo.users && UpdatableField(field)
    ensures UpdateField(repo, userID, field, None, now).Success?
    ensures var u := UpdateField(repo, userID, field, None, now).value.users[userID];
            match field
            case "username" => u.username.None?
            case "email" => u.email.None?
            case "full_name" => u.fullName.None?
            case "avatar_url" => u.avatarURL.None?
            case _ => u.language.None?
  {
  }

  /** After DeleteSession the user has no session on that device left, and
      every other user's sessions are as before. */
  lemma DeleteSessionEffect(repo: Repo, userID: string, deviceID: string, other: string)
    requires repo.up && other != userID
    ensures var repo' := DeleteSession(repo, userID, deviceID).value;
            && (forall s :: s in GetSessions(repo', userID).value ==> s.deviceID != deviceID)
            && (forall s :: s in GetSessions(repo', other).value <==> s in GetSessions(repo, other).value)
  {
  }

  /** After DeleteAllSessions the user has no sessions, and every other
      user's sessions are as before. */
  lemma DeleteAllSessionsEffect(repo: Repo, userID: string, other: string)
    requires repo.up && other != userID
    ensures var repo' := DeleteAllSessions(repo, userID).value;
            && GetSessions(repo', userID) == Success([])
            && (forall s :: s in GetSessions(repo', other).value <==> s in GetSessions(repo, other).value)
  {
  }
}
