/** The older gRPC service, user-service/internal/service/user-service.go:
    registration and login over the integer-id `users` table, a
    per-username login throttle kept in the key-value store, profile
    updates, and a cache-aside profile read.

    `utils.GenerateJWT` is called by this code but defined nowhere in the
    repository; it appears here as the parameter `generateJWT`. */
module LegacyService {
  import opened Common
  import KV = KeyValue
  import S = LegacyStorage

  datatype State = State(db: S.Table, kv: KV.Store)

  /** A call's result together with the state it leaves behind. */
  datatype Out<T> = Out(res: Result<T>, st: State)

  /** The Update* replies: Go returns a message and an error side by side
      (either may be nil). */
  datatype UpdateOut = UpdateOut(message: Option<string>, err: Option<Error>, st: State)

  datatype RegisterRes = RegisterRes(message: string, token: string)

  const LoginLimit: int := 5
  const ThrottleWindow: nat := 60
  const ProfileCacheTTL: nat := 10 * 60

  const ErrNotAuthenticated: Error := Status(Unauthenticated, "user not authenticated")
  const ErrTooManyAttempts: Error := Status(ResourceExhausted, "Too many login attempts. Try again later.")
  const ErrRedis: Error := Status(Internal, "redis error")

  function ThrottleKey(username: string): string
  {
    "login_attempts:" + username
  }

  function ProfileKey(userID: string): string
  {
    "user:" + userID
  }

  // -----------------------------------------------------------------------
  // Register
  // -----------------------------------------------------------------------

  /** Register: the three fields are required in order; the password is
      hashed before the insert (a password bcrypt refuses is Internal); an
      insert failure is returned unchanged; a token failure is reported
      only after the row exists. */
  function Register(st: State, req: S.RegisterReq, generateJWT: string -> Result<string>): (r: Out<RegisterRes>)
    requires S.Wf(st.db)
    ensures S.Wf(r.st.db) && r.st.kv == st.kv
    ensures req.username == "" ==> r == Out(Failure(Status(InvalidArgument, "username cannot be empty")), st)
    ensures req.username != "" && req.email == "" ==>
              r == Out(Failure(Status(InvalidArgument, "email cannot be empty")), st)
    ensures req.username != "" && req.email != "" && req.password == "" ==>
              r == Out(Failure(Status(InvalidArgument, "password cannot be empty")), st)
    ensures r.res.Success? ==>
              && r.res.value.message == "registration successful"
              && Utf8Length(req.password) <= MaxPasswordBytes
              && exists id :: id !in st.db.rows
                   && r.st.db.rows == st.db.rows[id := S.Row(req.username, req.email, Hash(req.password))]
                   && generateJWT(S.FormatId(id)) == Success(r.res.value.token)
    ensures req.password != "" && Utf8Length(req.password) > MaxPasswordBytes && r.res.Failure? ==> r.st == st
    ensures st.db.up && req.username != "" && req.email != "" && req.password != ""
            && Utf8Length(req.password) <= MaxPasswordBytes && S.UsernameTaken(st.db, req.username) ==>
              r.res == Failure(Status(AlreadyExists, "username already exists")) && r.st.db.rows == st.db.rows
    ensures st.db.up && req.username != "" && req.email != "" && req.password != ""
            && Utf8Length(req.password) <= MaxPasswordBytes && !S.UsernameTaken(st.db, req.username) ==>
              var token := generateJWT(S.FormatId(st.db.nextId));
              && (r.res.Success? <==> token.Success?)
              && (token.Failure? ==> r.res == Failure(Wrapped(Internal, "failed to generate token: ", token.error)))
    ensures !st.db.up ==> r.res.Failure? && r.st == st
  {
    if req.username == "" then Out(Failure(Status(InvalidArgument, "username cannot be empty")), st)
    else if req.email == "" then Out(Failure(Status(InvalidArgument, "email cannot be empty")), st)
    else if req.password == "" then Out(Failure(Status(InvalidArgument, "password cannot be empty")), st)
    else if HashPassword(req.password).Failure? then
      Out(Failure(Wrapped(Internal, "failed to hash password: ", HashPassword(req.password).error)), st)
    else
      var ins := S.InsertUser(st.db, req.(password := HashPassword(req.password).value));
      var st' := st.(db := ins.db);
      match ins.id
      case Failure(e) => Out(Failure(e), st')
      case Success(id) =>
        match generateJWT(S.FormatId(id))
        case Failure(e) => Out(Failure(Wrapped(Internal, "failed to generate token: ", e)), st')
        case Success(t) => Out(Success(RegisterRes("registration successful", t)), st')
  }

  // -----------------------------------------------------------------------
  // Login and its throttle
  // -----------------------------------------------------------------------

  datatype ThrottleStep = ThrottleStep(err: Option<Error>, kv: KV.Store)

  /** The throttle step at the head of Login: the attempt is counted
      first (refused attempts count too), the first attempt opens a
      60-second window, and an attempt beyond the fifth is refused. The
      key is the username, whatever the caller's address. */
  function Throttle(kv: KV.Store, username: string, now: nat): (r: ThrottleStep)
    ensures !kv.up ==> r == ThrottleStep(Some(ErrRedis), kv)
    ensures r.kv.up == kv.up
    ensures kv.up && KV.Lookup(kv, ThrottleKey(username), now).None? ==>
              && r.err.None?
              && r.kv.entries == kv.entries[ThrottleKey(username) := KV.Entry(KV.Counter(1), Some(now + ThrottleWindow))]
    ensures kv.up && KV.Lookup(kv, ThrottleKey(username), now).Some? && !KV.Lookup(kv, ThrottleKey(username), now).value.Counter? ==>
              r == ThrottleStep(Some(ErrRedis), kv)
    ensures (&& kv.up && KV.Lookup(kv, ThrottleKey(username), now).Some?
             && KV.Lookup(kv, ThrottleKey(username), now).value.Counter?
             && KV.Lookup(kv, ThrottleKey(username), now).value.n >= 1) ==>
              var n := KV.Lookup(kv, ThrottleKey(username), now).value.n;
              var key := ThrottleKey(username);
              && r.kv.entries == kv.entries[key := kv.entries[key].(value := KV.Counter(n + 1))]
              && r.err == (if n + 1 > LoginLimit then Some(ErrTooManyAttempts) else None)
  {
    var key := ThrottleKey(username);
    var inc := KV.Incr(kv, key, now);
    match inc.count
    case Failure(_) => ThrottleStep(Some(ErrRedis), inc.store)
    case Success(attempts) =>
      var kv' := if attempts == 1 then KV.Expire(inc.store, key, ThrottleWindow, now) else inc.store;
      if attempts > LoginLimit then ThrottleStep(Some(ErrTooManyAttempts), kv')
      else ThrottleStep(None, kv')
  }

  /** Login: throttle, then check the credentials, then issue a token for
      the row's id. Only the throttle counter changes state. */
  function Login(st: State, req: S.LoginReq, now: nat, generateJWT: string -> Result<string>): (r: Out<string>)
    requires S.Wf(st.db)
    ensures r.st == st.(kv := Throttle(st.kv, req.username, now).kv)
    ensures Throttle(st.kv, req.username, now).err.Some? ==> r.res == Failure(Throttle(st.kv, req.username, now).err.value)
    ensures r.res.Success? ==>
              && Throttle(st.kv, req.username, now).err.None?
              && exists id :: id in st.db.rows && st.db.rows[id].username == req.username
                   && CheckHash(req.password, st.db.rows[id].password)
                   && generateJWT(S.FormatId(id)) == Success(r.res.value)
    ensures Throttle(st.kv, req.username, now).err.None? && (!st.db.up || !S.UsernameTaken(st.db, req.username)) ==>
              r.res == Failure(Status(NotFound, "user not found"))
    ensures forall id :: Throttle(st.kv, req.username, now).err.None? && st.db.up
                         && id in st.db.rows && st.db.rows[id].username == req.username ==>
              r.res == if CheckHash(req.password, st.db.rows[id].password) then generateJWT(S.FormatId(id))
                       else Failure(Status(Unauthenticated, "invalid password"))
  {
    var th := Throttle(st.kv, req.username, now);
    var st' := st.(kv := th.kv);
    if th.err.Some? then Out(Failure(th.err.value), st')
    else
      match S.LoginSql(st.db, req)
      case Failure(e) => Out(Failure(e), st')
      case Success(found) =>
        match generateJWT(S.FormatId(found.0))
        case Failure(e) => Out(Failure(e), st')
        case Success(token) => Out(Success(token), st')
  }

  datatype Run = Run(errs: seq<Option<Error>>, kv: KV.Store)

  /** Successive login attempts for one username at the given times: the
      throttle verdict of each, and the store afterwards. */
  function ThrottleRun(kv: KV.Store, username: string, times: seq<nat>): (r: Run)
    ensures |r.errs| == |times|
    ensures r.kv.up == kv.up
    decreases |times|
  {
    if times == [] then Run([], kv)
    else
      var step := Throttle(kv, username, times[0]);
      var rest := ThrottleRun(step.kv, username, times[1..]);
      Run([step.err] + rest.errs, rest.kv)
  }

  /** Inside an open window whose counter stands at c, the i-th further
      attempt is refused exactly when c + i + 1 exceeds the limit. */
  lemma {:induction false} ThrottleWithinWindow(kv: KV.Store, username: string, times: seq<nat>, c: int, e: nat)
    requires kv.up && c >= 1
    requires ThrottleKey(username) in kv.entries
    requires kv.entries[ThrottleKey(username)] == KV.Entry(KV.Counter(c), Some(e))
    requires forall i :: 0 <= i < |times| ==> times[i] < e
    ensures forall i :: 0 <= i < |times| ==>
              ThrottleRun(kv, username, times).errs[i] == (if c + i + 1 > LoginLimit then Some(ErrTooManyAttempts) else None)
    decreases |times|
  {
    if times != [] {
      var key := ThrottleKey(username);
      var step := Throttle(kv, username, times[0]);
      assert KV.Lookup(kv, key, times[0]) == Some(KV.Counter(c));
      assert step.kv.entries[key] == KV.Entry(KV.Counter(c + 1), Some(e));
      ThrottleWithinWindow(step.kv, username, times[1..], c + 1, e);
      var r := ThrottleRun(kv, username, times);
      var rest := ThrottleRun(step.kv, username, times[1..]);
      forall i | 0 <= i < |times|
        ensures r.errs[i] == (if c + i + 1 > LoginLimit then Some(ErrTooManyAttempts) else None)
      {
        if i > 0 {
          assert r.errs[i] == rest.errs[i - 1];
        }
      }
    }
  }

  /** Starting from no counter, within one 60-second window the first five
      attempts pass the throttle and every later one is refused with
      ResourceExhausted. */
  lemma FirstFiveAttemptsAllowed(kv: KV.Store, username: string, t0: nat, later: seq<nat>)
    requires kv.up
    requires KV.Lookup(kv, ThrottleKey(username), t0).None?
    requires forall i :: 0 <= i < |later| ==> later[i] < t0 + ThrottleWindow
    ensures var r := ThrottleRun(kv, username, [t0] + later);
            forall i :: 0 <= i < |r.errs| ==>
              r.errs[i] == (if i < LoginLimit then None else Some(ErrTooManyAttempts))
  {
    var times := [t0] + later;
    var step := Throttle(kv, username, t0);
    assert times[1..] == later;
    ThrottleWithinWindow(step.kv, username, later, 1, t0 + ThrottleWindow);
    var r := ThrottleRun(kv, username, times);
    var rest := ThrottleRun(step.kv, username, later);
    forall i | 0 <= i < |r.errs|
      ensures r.errs[i] == (if i < LoginLimit then None else Some(ErrTooManyAttempts))
    {
      if i > 0 {
        assert r.errs[i] == rest.errs[i - 1];
      }
    }
  }

  /** Once the window's expiry time is reached the counter is gone, so the
      next attempt passes and opens a new window, however many attempts
      were refused before. */
  lemma WindowExpiryResetsThrottle(kv: KV.Store, username: string, c: int, e: nat, t: nat)
    requires kv.up
    requires ThrottleKey(username) in kv.entries
    requires kv.entries[ThrottleKey(username)] == KV.Entry(KV.Counter(c), Some(e))
    requires e <= t
    ensures Throttle(kv, username, t).err.None?
    ensures var kv' := Throttle(kv, username, t).kv;
            KV.Lookup(kv', ThrottleKey(username), t) == Some(KV.Counter(1))
            && kv'.entries[ThrottleKey(username)].expiresAt == Some(t + ThrottleWindow)
  {
  }

  /** A freshly registered user can log in with the same username and
      password and receives the token minted for the new row's id. */
  lemma RegisterThenLogin(st: State, req: S.RegisterReq, now: nat, generateJWT: string -> Result<string>)
    requires S.Wf(st.db)
    requires Register(st, req, generateJWT).res.Success?
    requires Throttle(st.kv, req.username, now).err.None?
    ensures var st' := Register(st, req, generateJWT).st;
            Login(st', S.LoginReq(req.username, req.password), now, generateJWT).res
            == Success(Register(st, req, generateJWT).res.value.token)
  {
    var r := Register(st, req, generateJWT);
    var id :| id !in st.db.rows
              && r.st.db.rows == st.db.rows[id := S.Row(req.username, req.email, Hash(req.password))]
              && generateJWT(S.FormatId(id)) == Success(r.res.value.token);
    assert r.st.db.rows[id].username == req.username;
    assert S.UsernameTaken(r.st.db, req.username);
    CheckHashIff(req.password, req.password);
  }

  // -----------------------------------------------------------------------
  // Updates
  // -----------------------------------------------------------------------

  /** DEL of the cached profile; a failure is ignored. */
  function DropCachedProfile(kv: KV.Store, userID: string): (r: KV.Store)
    ensures kv.up ==> KV.Lookup(r, ProfileKey(userID), 0).None? && r.entries.Keys == kv.entries.Keys - {ProfileKey(userID)}
    ensures !kv.up ==> r == kv
  {
    match KV.Del(kv, ProfileKey(userID))
    case Success(kv') => kv'
    case Failure(_) => kv
  }

  /** UpdateUserName: an empty name is refused before authentication is
      looked at; on success the cached profile is dropped. */
  function UpdateUserName(st: State, ctx: Ctx, newName: string): (r: UpdateOut)
    ensures newName == "" ==>
              r == UpdateOut(Some("enter new username"), Some(Status(InvalidArgument, "username cannot be empty")), st)
    ensures newName != "" && CtxString(ctx, "userID").None? ==> r == UpdateOut(None, Some(ErrNotAuthenticated), st)
    ensures r.err.Some? ==> r.st == st
    ensures newName != "" && CtxString(ctx, "userID").Some? ==>
              var s := S.UpdateUserName(st.db, CtxString(ctx, "userID").value, newName);
              && (r.err.None? <==> s.Success?)
              && (s.Failure? ==> r == UpdateOut(Some("failed update"), Some(s.error), st))
    ensures r.err.None? ==>
              && newName != "" && CtxString(ctx, "userID").Some?
              && var uid := CtxString(ctx, "userID").value;
              && S.UpdateUserName(st.db, uid, newName) == Success(r.st.db)
              && r.st.kv == DropCachedProfile(st.kv, uid)
              && r.message == Some("update user name successful")
  {
    if newName == "" then
      UpdateOut(Some("enter new username"), Some(Status(InvalidArgument, "username cannot be empty")), st)
    else
      match CtxString(ctx, "userID")
      case None => UpdateOut(None, Some(ErrNotAuthenticated), st)
      case Some(uid) =>
        match S.UpdateUserName(st.db, uid, newName)
        case Failure(e) => UpdateOut(Some("failed update"), Some(e), st)
        case Success(db') => UpdateOut(Some("update user name successful"), None, State(db', DropCachedProfile(st.kv, uid)))
  }

  /** UpdatePassword: an empty new password is refused before
      authentication is looked at; the cache is not touched. */
  function UpdatePassword(st: State, ctx: Ctx, currentPassword: string, newPassword: string): (r: UpdateOut)
    ensures newPassword == "" ==>
              r == UpdateOut(Some("enter new password"), Some(Status(InvalidArgument, "password cannot be empty")), st)
    ensures newPassword != "" && CtxString(ctx, "userID").None? ==> r == UpdateOut(None, Some(ErrNotAuthenticated), st)
    ensures r.err.Some? ==> r.st == st
    ensures r.st.kv == st.kv
    ensures newPassword != "" && CtxString(ctx, "userID").Some? ==>
              var s := S.UpdatePassword(st.db, CtxString(ctx, "userID").value, currentPassword, newPassword);
              && (r.err.None? <==> s.Success?)
              && (s.Failure? ==> r == UpdateOut(Some("error in storage"), Some(s.error), st))
    ensures r.err.None? ==>
              && newPassword != "" && CtxString(ctx, "userID").Some?
              && S.UpdatePassword(st.db, CtxString(ctx, "userID").value, currentPassword, newPassword) == Success(r.st.db)
              && r.message == Some("update password successful")
  {
    if newPassword == "" then
      UpdateOut(Some("enter new password"), Some(Status(InvalidArgument, "password cannot be empty")), st)
    else
      match CtxString(ctx, "userID")
      case None => UpdateOut(None, Some(ErrNotAuthenticated), st)
      case Some(uid) =>
        match S.UpdatePassword(st.db, uid, currentPassword, newPassword)
        case Failure(e) => UpdateOut(Some("error in storage"), Some(e), st)
        case Success(db') => UpdateOut(Some("update password successful"), None, st.(db := db'))
  }

  /** UpdateEmail: an empty email is refused before authentication is
      looked at; on success the cached profile is dropped. */
  function UpdateEmail(st: State, ctx: Ctx, newEmail: string): (r: UpdateOut)
    ensures newEmail == "" ==>
              r == UpdateOut(Some("The email field is required."), Some(Status(InvalidArgument, "email cannot be empty")), st)
    ensures newEmail != "" && CtxString(ctx, "userID").None? ==> r == UpdateOut(None, Some(ErrNotAuthenticated), st)
    ensures r.err.Some? ==> r.st == st
    ensures newEmail != "" && CtxString(ctx, "userID").Some? ==>
              var s := S.UpdateEmail(st.db, CtxString(ctx, "userID").value, newEmail);
              && (r.err.None? <==> s.Success?)
              && (s.Failure? ==> r == UpdateOut(Some("error in storage"), Some(s.error), st))
    ensures r.err.None? ==>
              && newEmail != "" && CtxString(ctx, "userID").Some?
              && var uid := CtxString(ctx, "userID").value;
              && S.UpdateEmail(st.db, uid, newEmail) == Success(r.st.db)
              && r.st.kv == DropCachedProfile(st.kv, uid)
              && r.message == Some("update email successful")
  {
    if newEmail == "" then
      UpdateOut(Some("The email field is required."), Some(Status(InvalidArgument, "email cannot be empty")), st)
    else
      match CtxString(ctx, "userID")
      case None => UpdateOut(None, Some(ErrNotAuthenticated), st)
      case Some(uid) =>
        match S.UpdateEmail(st.db, uid, newEmail)
        case Failure(e) => UpdateOut(Some("error in storage"), Some(e), st)
        case Success(db') => UpdateOut(Some("update email successful"), None, State(db', DropCachedProfile(st.kv, uid)))
  }

  // -----------------------------------------------------------------------
  // Profile read through the cache
  // -----------------------------------------------------------------------

  /** json.Unmarshal of a cached value into a profile, its error ignored:
      anything but profile JSON leaves both fields empty. */
  function DecodeCached(v: KV.Value): (p: S.Profile)
    ensures v.ProfileJson? ==> p == S.Profile(v.username, v.email)
    ensures !v.ProfileJson? ==> p == S.Profile("", "")
  {
    match v
    case ProfileJson(u, e) => S.Profile(u, e)
    case _ => S.Profile("", "")
  }

  /** GetProfile, cache-aside: a live cached entry is answered without
      touching the table; a miss, or an unreachable cache, reads the table
      and caches the row for ten minutes (a failed write is ignored). */
  function GetProfile(st: State, ctx: Ctx, now: nat): (r: Out<S.Profile>)
    ensures CtxString(ctx, "userID").None? ==> r == Out(Failure(ErrNotAuthenticated), st)
    ensures r.st.db == st.db
    ensures (&& CtxString(ctx, "userID").Some? && st.kv.up
             && KV.Lookup(st.kv, ProfileKey(CtxString(ctx, "userID").value), now).Some?) ==>
              r == Out(Success(DecodeCached(KV.Lookup(st.kv, ProfileKey(CtxString(ctx, "userID").value), now).value)), st)
    ensures (&& CtxString(ctx, "userID").Some?
             && (!st.kv.up || KV.Lookup(st.kv, ProfileKey(CtxString(ctx, "userID").value), now).None?)) ==>
              var uid := CtxString(ctx, "userID").value;
              match S.GetUserByID(st.db, uid)
              case Failure(e) => r == Out(Failure(Wrapped(Internal, "failed to get user: ", e)), st)
              case Success(p) =>
                && r.res == Success(p)
                && (st.kv.up ==>
                      r.st.kv == st.kv.(entries := st.kv.entries[ProfileKey(uid) := KV.Entry(KV.ProfileJson(p.username, p.email), Some(now + ProfileCacheTTL))]))
                && (!st.kv.up ==> r.st == st)
  {
    match CtxString(ctx, "userID")
    case None => Out(Failure(ErrNotAuthenticated), st)
    case Some(uid) =>
      var key := ProfileKey(uid);
      match KV.Get(st.kv, key, now)
      case Success(Some(v)) => Out(Success(DecodeCached(v)), st)
      case _ =>
        match S.GetUserByID(st.db, uid)
        case Failure(e) => Out(Failure(Wrapped(Internal, "failed to get user: ", e)), st)
        case Success(p) =>
          var kv' := match KV.Set(st.kv, key, KV.ProfileJson(p.username, p.email), ProfileCacheTTL, now)
                     case Success(s) => s
                     case Failure(_) => st.kv;
          Out(Success(p), st.(kv := kv'))
  }

  /** A profile read from the table is served from the cache for the next
      ten minutes, even if the table changes meanwhile. */
  lemma CachedProfileServedUntilExpiry(st: State, ctx: Ctx, now: nat, later: nat, db2: S.Table)
    requires CtxString(ctx, "userID").Some? && st.kv.up
    requires KV.Lookup(st.kv, ProfileKey(CtxString(ctx, "userID").value), now).None?
    requires GetProfile(st, ctx, now).res.Success?
    requires now <= later < now + ProfileCacheTTL
    ensures var st' := GetProfile(st, ctx, now).st;
            GetProfile(st'.(db := db2), ctx, later).res == GetProfile(st, ctx, now).res
  {
    var uid := CtxString(ctx, "userID").value;
    var p := S.GetUserByID(st.db, uid).value;
    assert KV.Lookup(GetProfile(st, ctx, now).st.kv, ProfileKey(uid), later) == Some(KV.ProfileJson(p.username, p.email));
  }

  /** After a successful username change, the next profile read of that
      user reflects the new name: the update dropped the cached copy. */
  lemma ProfileReflectsUsernameUpdate(st: State, ctx: Ctx, newName: string, now: nat)
    requires st.kv.up
    requires UpdateUserName(st, ctx, newName).err.None?
    ensures var st' := UpdateUserName(st, ctx, newName).st;
            GetProfile(st', ctx, now).res.Success?
            && GetProfile(st', ctx, now).res.value.username == newName
  {
    var uid := CtxString(ctx, "userID").value;
    var st' := UpdateUserName(st, ctx, newName).st;
    assert KV.Lookup(st'.kv, ProfileKey(uid), now).None?;
  }

  /** Likewise for an email change. */
  lemma ProfileReflectsEmailUpdate(st: State, ctx: Ctx, newEmail: string, now: nat)
    requires st.kv.up
    requires UpdateEmail(st, ctx, newEmail).err.None?
    ensures var st' := UpdateEmail(st, ctx, newEmail).st;
            GetProfile(st', ctx, now).res.Success?
            && GetProfile(st', ctx, now).res.value.email == newEmail
  {
    var uid := CtxString(ctx, "userID").value;
    var st' := UpdateEmail(st, ctx, newEmail).st;
    assert KV.Lookup(st'.kv, ProfileKey(uid), now).None?;
  }
}
