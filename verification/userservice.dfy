/** The current service layer, user-service/internal/service/user/user-service.go:
    registration, login, token refresh, profile updates, password change
    and session management over the repository of
    user-service/internal/repository/postgres/user_repo.go and the token
    provider of user-service/internal/utils/jwt.go.

    Each operation takes the state (both tables and the key-value store)
    and the values the Go code draws from its environment: the current
    time `now`, the UUID `freshId` for a new user, and the `jti` a token
    issue draws. The Kafka event published after registration is not
    modelled; its failure is only logged. */
module UserService {
  import opened Common
  import R = Repository
  import T = Tokens
  import KV = KeyValue

  datatype State = State(repo: R.Repo, kv: KV.Store)

  predicate Wf(st: State)
  {
    R.Wf(st.repo)
  }

  datatype Out<T> = Out(res: Result<T>, st: State)

  /** domain.AuthResult. */
  datatype AuthResult = AuthResult(accessToken: string, refreshToken: string, user: Option<R.User>)

  /** domain.RegisterDTO. */
  datatype RegisterDTO = RegisterDTO(
    username: string,
    email: string,
    password: string,
    fullName: Option<string>,
    avatarURL: Option<string>,
    language: Option<string>,
    platform: string,
    deviceID: string,
    registeredIP: Option<string>,
    userAgent: string,
    location: Option<string>)

  const ErrEmailRegistered: Error := Plain("email already registered")
  const ErrBadCredentials: Error := Plain("invalid email or password")
  const ErrTokens: Error := Plain("failed to generate tokens")
  const ErrUserNotFound: Error := Plain("user not found")

  /** strings.ToLower(strings.TrimSpace(email)); blank exactly when the
      input is all white space. */
  function NormalizeEmail(email: string): (r: string)
    ensures r == [] <==> AllSpace(email)
  {
    ToLower(TrimSpace(email))
  }

  /** A normalised email has no white space at either end and no
      upper-case ASCII letter. */
  lemma NormalizedEmailShape(email: string)
    ensures var r := NormalizeEmail(email);
            && (r != [] ==> !IsSpace(r[0]) && !IsSpace(r[|r| - 1]))
            && forall k :: 0 <= k < |r| ==> !('A' <= r[k] <= 'Z')
  {
    var t := TrimSpace(email);
    var r := NormalizeEmail(email);
    forall k | 0 <= k < |r|
      ensures !('A' <= r[k] <= 'Z')
    {
      LowerCharFacts(t[k]);
    }
    if r != [] {
      LowerCharFacts(t[0]);
      LowerCharFacts(t[|t| - 1]);
    }
  }

  /** Normalising twice is normalising once, so a stored email is found
      again by the normalised form of itself. */
  lemma NormalizeEmailIdempotent(email: string)
    ensures NormalizeEmail(NormalizeEmail(email)) == NormalizeEmail(email)
  {
    var n := NormalizeEmail(email);
    NormalizedEmailShape(email);
    TrimSpaceOfTrimmed(n);
    forall k | 0 <= k < |n|
      ensures LowerChar(n[k]) == n[k]
    {
    }
  }

  // -----------------------------------------------------------------------
  // Register and login
  // -----------------------------------------------------------------------

  /** The user struct Register builds (before Create assigns its id). */
  function NewUser(req: RegisterDTO, passwordHash: string, now: nat): R.User
  {
    R.User("", Some(req.username), Some(NormalizeEmail(req.email)), passwordHash,
           req.fullName, req.avatarURL, req.language, req.platform, req.deviceID,
           req.registeredIP, req.userAgent, req.location, now, now)
  }

  /** Register: refused when the normalised email already belongs to a
      user (a failed lookup counts as "not found"); otherwise the user is
      created under a fresh id and a token pair is issued for it. A token
      failure is reported after the user has been created. */
  function Register(st: State, p: T.Provider, req: RegisterDTO, now: nat, freshId: string, jti: string): (r: Out<AuthResult>)
    requires Wf(st)
    ensures Wf(r.st)
    ensures st.repo.up && R.EmailTaken(st.repo, NormalizeEmail(req.email)) ==> r == Out(Failure(ErrEmailRegistered), st)
    ensures r.res.Failure? && r.res.error != ErrTokens ==> r.st == st
    ensures r.res.Success? ==>
              && !R.EmailTaken(st.repo, NormalizeEmail(req.email))
              && r.res.value.user.Some?
              && var u := r.res.value.user.value;
              && u.id == freshId && freshId !in st.repo.users
              && u.username == Some(req.username) && u.email == Some(NormalizeEmail(req.email))
              && CheckHash(req.password, u.passwordHash)
              && r.st.repo == st.repo.(users := st.repo.users[u.id := u])
    ensures r.res == Failure(ErrTokens) ==>
              && !st.kv.up && r.st.kv == st.kv
              && exists u: R.User :: u.id == freshId && r.st.repo.users == st.repo.users[freshId := u]
    ensures (!st.repo.up || !R.EmailTaken(st.repo, NormalizeEmail(req.email))) && Utf8Length(req.password) > MaxPasswordBytes ==>
              r == Out(Failure(Plain("failed to hash password")), st)
    ensures !st.repo.up ==> r.res.Failure? && r.st == st
    ensures st.repo.up && !R.EmailTaken(st.repo, NormalizeEmail(req.email)) && freshId !in st.repo.users
            && Utf8Length(req.password) <= MaxPasswordBytes ==>
              && (r.res.Success? <==> st.kv.up)
              && (!st.kv.up ==> r.res == Failure(ErrTokens))
  {
    var email := NormalizeEmail(req.email);
    var found := R.GetByEmail(st.repo, email);
    if found.Success? && found.value.Some? then Out(Failure(ErrEmailRegistered), st)
    else
      match HashPassword(req.password)
      case Failure(_) => Out(Failure(Plain("failed to hash password")), st)
      case Success(hash) =>
        var c := R.Create(st.repo, NewUser(req, hash, now), freshId, now);
        if c.err.Some? then Out(Failure(c.err.value), st)
        else
          var st' := st.(repo := c.repo);
          var issued := T.GenerateTokens(p, c.user.id, now, jti, st.kv);
          if issued.err.Some? then Out(Failure(ErrTokens), st')
          else Out(Success(AuthResult(issued.access, issued.refresh, Some(c.user))), st'.(kv := issued.store))
  }

  /** Login: the user with the normalised email whose stored hash matches
      the password gets a fresh token pair. An unknown email, a failed
      lookup and a wrong password are the same error. The platform and
      device id are accepted and not used. */
  function Login(st: State, p: T.Provider, email: string, password: string, platform: string, deviceID: string,
                 now: nat, jti: string): (r: Out<AuthResult>)
    requires Wf(st)
    ensures r.st.repo == st.repo
    ensures r.res.Failure? ==> r.st == st
    ensures r.res.Failure? ==> r.res.error == ErrBadCredentials || r.res.error == ErrTokens
    ensures (!st.repo.up || !R.EmailTaken(st.repo, NormalizeEmail(email))) ==> r.res == Failure(ErrBadCredentials)
    ensures r.res.Success? ==>
              && r.res.value.user.Some?
              && var u := r.res.value.user.value;
              && u.id in st.repo.users && st.repo.users[u.id] == u
              && u.email == Some(NormalizeEmail(email))
              && CheckHash(password, u.passwordHash)
    ensures st.repo.up && st.kv.up
            && (exists id :: id in st.repo.users && st.repo.users[id].email == Some(NormalizeEmail(email))
                             && CheckHash(password, st.repo.users[id].passwordHash))
            ==> r.res.Success?
    ensures r.res == Failure(ErrTokens) ==>
              && st.repo.up && !st.kv.up
              && exists id :: id in st.repo.users && st.repo.users[id].email == Some(NormalizeEmail(email))
                              && CheckHash(password, st.repo.users[id].passwordHash)
    ensures r.res.Success? ==>
              var issued := T.GenerateTokens(p, r.res.value.user.value.id, now, jti, st.kv);
              && issued.err.None?
              && r.res.value.accessToken == issued.access && r.res.value.refreshToken == issued.refresh
              && r.st.kv == issued.store
              && r.st.kv.entries == st.kv.entries[T.RefreshKey(jti) := KV.Entry(KV.Text(r.res.value.user.value.id),
                                                                                KV.ExpiryAfter(p.refreshTTL, now))]
  {
    match R.GetByEmail(st.repo, NormalizeEmail(email))
    case Failure(_) => Out(Failure(ErrBadCredentials), st)
    case Success(None) => Out(Failure(ErrBadCredentials), st)
    case Success(Some(user)) =>
      if !CheckHash(password, user.passwordHash) then Out(Failure(ErrBadCredentials), st)
      else
        var issued := T.GenerateTokens(p, user.id, now, jti, st.kv);
        if issued.err.Some? then Out(Failure(ErrTokens), st)
        else Out(Success(AuthResult(issued.access, issued.refresh, Some(user))), st.(kv := issued.store))
  }

  /** The two kinds of wrong credentials are indistinguishable to the
      caller. */
  lemma LoginDoesNotRevealAccounts(st: State, p: T.Provider, email: string, password: string,
                                   platform: string, deviceID: string, now: nat, jti: string)
    requires Wf(st) && st.repo.up
    requires !R.EmailTaken(st.repo, NormalizeEmail(email))
             || (exists id :: id in st.repo.users && st.repo.users[id].email == Some(NormalizeEmail(email))
                              && !CheckHash(password, st.repo.users[id].passwordHash))
    ensures Login(st, p, email, password, platform, deviceID, now, jti) == Out(Failure(ErrBadCredentials), st)
  {
  }

  /** A freshly registered user logs in with the same email, however it is
      spaced or cased, and password, and gets back the stored record. */
  lemma RegisterThenLogin(st: State, p: T.Provider, req: RegisterDTO, now: nat, freshId: string, jti: string,
                          email: string, later: nat, jti2: string)
    requires Wf(st) && st.kv.up
    requires Register(st, p, req, now, freshId, jti).res.Success?
    requires NormalizeEmail(email) == NormalizeEmail(req.email)
    ensures var reg := Register(st, p, req, now, freshId, jti);
            var log := Login(reg.st, p, email, req.password, "", "", later, jti2);
            log.res.Success? && log.res.value.user == reg.res.value.user
  {
    var reg := Register(st, p, req, now, freshId, jti);
    var u := reg.res.value.user.value;
    assert reg.st.repo.users[u.id] == u;
    assert R.EmailTaken(reg.st.repo, NormalizeEmail(email));
  }

  /** The access token handed out at registration names the new user for
      the whole access lifetime. */
  lemma RegisteredAccessTokenNamesUser(st: State, p: T.Provider, req: RegisterDTO, now: nat, freshId: string,
                                       jti: string, t: nat)
    requires Wf(st) && T.Lossless(p.codec)
    requires Register(st, p, req, now, freshId, jti).res.Success?
    requires t < now + p.accessTTL
    ensures var res := Register(st, p, req, now, freshId, jti).res.value;
            T.ValidateAccessToken(p, res.accessToken, t) == Success(freshId)
  {
    T.AccessTokenLifetime(p, freshId, now, jti, st.kv, t);
  }

  /** The pair handed out at login names the user: the access token
      validates to its id for the access lifetime, and the refresh token
      validates to it, against the store the login leaves behind, for the
      refresh lifetime. */
  lemma LoginTokensNameUser(st: State, p: T.Provider, email: string, password: string, now: nat, jti: string, t: nat)
    requires Wf(st) && T.Lossless(p.codec)
    requires Login(st, p, email, password, "", "", now, jti).res.Success?
    ensures var l := Login(st, p, email, password, "", "", now, jti);
            var id := l.res.value.user.value.id;
            && (t < now + p.accessTTL ==> T.ValidateAccessToken(p, l.res.value.accessToken, t) == Success(id))
            && (now <= t < now + p.refreshTTL ==> T.ValidateRefreshToken(p, l.res.value.refreshToken, t, l.st.kv) == Success(id))
  {
    var l := Login(st, p, email, password, "", "", now, jti);
    var id := l.res.value.user.value.id;
    T.AccessTokenLifetime(p, id, now, jti, st.kv, t);
    if now <= t < now + p.refreshTTL {
      T.RefreshTokenValidAfterIssue(p, id, now, jti, st.kv, t);
    }
  }

  // -----------------------------------------------------------------------
  // Profile
  // -----------------------------------------------------------------------

  /** GetProfile: the repository read, unknown id giving no user. */
  function GetProfile(st: State, userID: string): (r: Result<Option<R.User>>)
    ensures r.Failure? <==> !st.repo.up
    ensures r.Success? ==> (r.value.Some? <==> userID in st.repo.users)
    ensures r.Success? && r.value.Some? ==> r.value.value == st.repo.users[userID]
  {
    R.GetByID(st.repo, userID)
  }

  /** One column write followed by a re-read of the user. */
  function WriteAndReload(st: State, userID: string, field: string, value: Option<string>, now: nat): (r: Out<Option<R.User>>)
    requires Wf(st) && R.UpdatableField(field)
    ensures Wf(r.st) && r.st.kv == st.kv
    ensures r.res.Failure? ==> r.st == st
    ensures r.res.Failure? <==> R.UpdateField(st.repo, userID, field, value, now).Failure?
    ensures r.res.Failure? ==> r.res.error == R.UpdateField(st.repo, userID, field, value, now).error
    ensures r.res.Success? ==>
              && R.UpdateField(st.repo, userID, field, value, now) == Success(r.st.repo)
              && r.res.value == (if userID in r.st.repo.users then Some(r.st.repo.users[userID]) else None)
  {
    match R.UpdateField(st.repo, userID, field, value, now)
    case Failure(e) => Out(Failure(e), st)
    case Success(repo') =>
      var st' := st.(repo := repo');
      match R.GetByID(repo', userID)
      case Failure(e) => Out(Failure(e), st')
      case Success(u) => Out(Success(u), st')
  }

  /** UpdateUsername: an empty name is refused without a write. */
  function UpdateUsername(st: State, userID: string, username: string, now: nat): (r: Out<Option<R.User>>)
    requires Wf(st)
    ensures username == "" ==> r == Out(Failure(Plain("username cannot be empty")), st)
    ensures username != "" ==> (r.res.Success? <==> st.repo.up)
    ensures username != "" && r.res.Success? && userID in st.repo.users ==>
              r.res.value.Some? && r.res.value.value.username == Some(username)
  {
    if username == "" then Out(Failure(Plain("username cannot be empty")), st)
    else WriteAndReload(st, userID, "username", Some(username), now)
  }

  /** UpdateEmail: the email is normalised first, so a blank one is refused
      without a write; the stored email is the normalised form. */
  function UpdateEmail(st: State, userID: string, email: string, now: nat): (r: Out<Option<R.User>>)
    requires Wf(st)
    ensures AllSpace(email) ==> r == Out(Failure(Plain("email cannot be empty")), st)
    ensures !AllSpace(email) ==>
              (r.res.Success? <==> st.repo.up
                                   && !(userID in st.repo.users && R.EmailClash(st.repo, userID, "email", Some(NormalizeEmail(email)))))
    ensures !AllSpace(email) && st.repo.up && userID in st.repo.users
            && R.EmailClash(st.repo, userID, "email", Some(NormalizeEmail(email))) ==>
              r == Out(Failure(Db(PqError(UniqueViolation))), st)
    ensures r.res.Success? && userID in st.repo.users ==>
              r.res.value.Some? && r.res.value.value.email == Some(NormalizeEmail(email))
  {
    var normalized := NormalizeEmail(email);
    if normalized == "" then Out(Failure(Plain("email cannot be empty")), st)
    else WriteAndReload(st, userID, "email", Some(normalized), now)
  }

  /** UpdateFullName: an empty name is refused without a write. */
  function UpdateFullName(st: State, userID: string, fullName: string, now: nat): (r: Out<Option<R.User>>)
    requires Wf(st)
    ensures fullName == "" ==> r == Out(Failure(Plain("full_name cannot be empty")), st)
    ensures fullName != "" ==> (r.res.Success? <==> st.repo.up)
    ensures fullName != "" && r.res.Success? && userID in st.repo.users ==>
              r.res.value.Some? && r.res.value.value.fullName == Some(fullName)
  {
    if fullName == "" then Out(Failure(Plain("full_name cannot be empty")), st)
    else WriteAndReload(st, userID, "full_name", Some(fullName), now)
  }

  /** UpdateAvatar: a blank URL clears the avatar; any other URL is stored
      as given, untrimmed. */
  function UpdateAvatar(st: State, userID: string, avatarURL: string, now: nat): (r: Out<Option<R.User>>)
    requires Wf(st)
    ensures r.res.Success? <==> st.repo.up
    ensures r.res.Success? && userID in st.repo.users ==>
              r.res.value.Some?
              && r.res.value.value.avatarURL == (if AllSpace(avatarURL) then None else Some(avatarURL))
  {
    var value := if TrimSpace(avatarURL) != "" then Some(avatarURL) else None;
    WriteAndReload(st, userID, "avatar_url", value, now)
  }

  /** UpdateLanguage: an empty language is refused without a write. */
  function UpdateLanguage(st: State, userID: string, language: string, now: nat): (r: Out<Option<R.User>>)
    requires Wf(st)
    ensures language == "" ==> r == Out(Failure(Plain("language cannot be empty")), st)
    ensures language != "" ==> (r.res.Success? <==> st.repo.up)
    ensures language != "" && r.res.Success? && userID in st.repo.users ==>
              r.res.value.Some? && r.res.value.value.language == Some(language)
  {
    if language == "" then Out(Failure(Plain("language cannot be empty")), st)
    else WriteAndReload(st, userID, "language", Some(language), now)
  }

  /** An update changes only the column it names (and the update time). */
  lemma UpdateTouchesOneColumn(st: State, userID: string, username: string, now: nat)
    requires Wf(st) && userID in st.repo.users
    requires UpdateUsername(st, userID, username, now).res.Success?
    ensures var u := st.repo.users[userID];
            var u' := UpdateUsername(st, userID, username, now).st.repo.users[userID];
            u' == u.(username := Some(username), updatedAt := now)
  {
  }

  // -----------------------------------------------------------------------
  // Tokens
  // -----------------------------------------------------------------------

  /** RefreshToken: an invalid refresh token, or one naming a user who is
      gone, is refused; otherwise a new pair is issued for that user. The
      presented token is not revoked. */
  function RefreshToken(st: State, p: T.Provider, refreshToken: string, now: nat, jti: string): (r: Out<AuthResult>)
    requires Wf(st)
    ensures r.st.repo == st.repo
    ensures r.res.Failure? ==> r.st == st
    ensures T.ValidateRefreshToken(p, refreshToken, now, st.kv).Failure? ==> r.res == Failure(Plain("invalid refresh token"))
    ensures (&& T.ValidateRefreshToken(p, refreshToken, now, st.kv).Success?
             && (!st.repo.up || T.ValidateRefreshToken(p, refreshToken, now, st.kv).value !in st.repo.users)) ==>
              r.res == Failure(ErrUserNotFound)
    ensures (&& T.ValidateRefreshToken(p, refreshToken, now, st.kv).Success?
             && st.repo.up && T.ValidateRefreshToken(p, refreshToken, now, st.kv).value in st.repo.users) ==>
              r.res.Success?
    ensures r.res.Success? ==>
              && T.ValidateRefreshToken(p, refreshToken, now, st.kv).Success?
              && var uid := T.ValidateRefreshToken(p, refreshToken, now, st.kv).value;
              && uid in st.repo.users
              && r.res.value.user == Some(st.repo.users[uid])
              && r.st.kv.entries == st.kv.entries[T.RefreshKey(jti) := KV.Entry(KV.Text(uid), KV.ExpiryAfter(p.refreshTTL, now))]
  {
    match T.ValidateRefreshToken(p, refreshToken, now, st.kv)
    case Failure(_) => Out(Failure(Plain("invalid refresh token")), st)
    case Success(uid) =>
      match R.GetByID(st.repo, uid)
      case Failure(_) => Out(Failure(ErrUserNotFound), st)
      case Success(None) => Out(Failure(ErrUserNotFound), st)
      case Success(Some(user)) =>
        var issued := T.GenerateTokens(p, user.id, now, jti, st.kv);
        if issued.err.Some? then Out(Failure(ErrTokens), st)
        else Out(Success(AuthResult(issued.access, issued.refresh, Some(user))), st.(kv := issued.store))
  }

  /** Refreshing does not retire the presented refresh token: it still
      validates against the store the refresh leaves behind. */
  lemma RefreshDoesNotRevoke(st: State, p: T.Provider, refreshToken: string, now: nat, jti: string)
    requires Wf(st)
    requires RefreshToken(st, p, refreshToken, now, jti).res.Success?
    ensures var st' := RefreshToken(st, p, refreshToken, now, jti).st;
            T.ValidateRefreshToken(p, refreshToken, now, st'.kv) == T.ValidateRefreshToken(p, refreshToken, now, st.kv)
  {
    var uid := T.ValidateRefreshToken(p, refreshToken, now, st.kv).value;
    var st' := RefreshToken(st, p, refreshToken, now, jti).st;
    var oldJti := p.codec.decode(refreshToken).value.claims.jti.value;
    assert KV.Lookup(st'.kv, T.RefreshKey(oldJti), now) == Some(KV.Text(uid));
  }

  // -----------------------------------------------------------------------
  // Security
  // -----------------------------------------------------------------------

  /** ChangePassword as written: a lookup that finds no row returns no
      error and a nil user, whose hash is then read. */
  function ChangePasswordAsWritten(st: State, userID: string, oldPassword: string, newPassword: string, now: nat): (r: Out<()>)
    requires Wf(st)
    ensures st.repo.up && userID !in st.repo.users ==> r.res.Failure? && r.res.error.Panic?
  {
    match R.GetByID(st.repo, userID)
    case Failure(_) => Out(Failure(ErrUserNotFound), st)
    case Success(None) => Out(Failure(Panic("invalid memory address or nil pointer dereference")), st)
    case Success(Some(user)) => ChangeVerifiedPassword(st, user, oldPassword, newPassword, now)
  }

  /** The part of ChangePassword after the user has been found. */
  function ChangeVerifiedPassword(st: State, user: R.User, oldPassword: string, newPassword: string, now: nat): (r: Out<()>)
    requires Wf(st)
    ensures r.res.Failure? ==> r.st.repo.users == st.repo.users
    ensures r.st.kv == st.kv && Wf(r.st)
  {
    if !CheckHash(oldPassword, user.passwordHash) then Out(Failure(Plain("old password is incorrect")), st)
    else
      match HashPassword(newPassword)
      case Failure(_) => Out(Failure(Plain("failed to hash new password")), st)
      case Success(hash) =>
        match R.ChangePassword(st.repo, user.id, hash, now)
        case Failure(e) => Out(Failure(e), st)
        case Success(repo') => Out(Success(()), st.(repo := repo'))
  }

  /** ChangePassword: an unknown user is "user not found", as in
      RefreshToken; a wrong old password is refused with no write; on
      success only that user's hash (and update time) change. */
  function ChangePassword(st: State, userID: string, oldPassword: string, newPassword: string, now: nat): (r: Out<()>)
    requires Wf(st)
    ensures r.st.kv == st.kv && Wf(r.st)
    ensures r.res.Failure? ==> r.st == st || r.st.repo.users == st.repo.users
    ensures (!st.repo.up || userID !in st.repo.users) ==> r == Out(Failure(ErrUserNotFound), st)
    ensures st.repo.up && userID in st.repo.users && !CheckHash(oldPassword, st.repo.users[userID].passwordHash) ==>
              r == Out(Failure(Plain("old password is incorrect")), st)
    ensures st.repo.up && userID in st.repo.users && CheckHash(oldPassword, st.repo.users[userID].passwordHash) ==>
              && (r.res.Success? <==> Utf8Length(newPassword) <= MaxPasswordBytes)
              && (Utf8Length(newPassword) > MaxPasswordBytes ==> r == Out(Failure(Plain("failed to hash new password")), st))
    ensures r.res.Success? ==>
              && userID in st.repo.users
              && CheckHash(oldPassword, st.repo.users[userID].passwordHash)
              && r.st.repo.users == st.repo.users[userID := st.repo.users[userID].(passwordHash := Hash(newPassword), updatedAt := now)]
  {
    match R.GetByID(st.repo, userID)
    case Failure(_) => Out(Failure(ErrUserNotFound), st)
    case Success(None) => Out(Failure(ErrUserNotFound), st)
    case Success(Some(user)) => ChangeVerifiedPassword(st, user, oldPassword, newPassword, now)
  }

  /** The corrected ChangePassword agrees with the code as written
      wherever the latter does not crash. */
  lemma ChangePasswordAgreesWhereNoPanic(st: State, userID: string, oldPassword: string, newPassword: string, now: nat)
    requires Wf(st)
    requires !(ChangePasswordAsWritten(st, userID, oldPassword, newPassword, now).res.Failure?
               && ChangePasswordAsWritten(st, userID, oldPassword, newPassword, now).res.error.Panic?)
    ensures ChangePassword(st, userID, oldPassword, newPassword, now) == ChangePasswordAsWritten(st, userID, oldPassword, newPassword, now)
  {
  }

  /** After a password change the new password logs in, and the old one
      logs in exactly when bcrypt cannot tell it from the new one (for a
      user whose stored email is in normalised form, as Register and
      UpdateEmail store it). */
  lemma ChangePasswordThenLogin(st: State, p: T.Provider, userID: string, oldPassword: string, newPassword: string,
                                now: nat, later: nat, jti: string)
    requires Wf(st) && st.kv.up
    requires ChangePassword(st, userID, oldPassword, newPassword, now).res.Success?
    requires st.repo.users[userID].email.Some?
    requires NormalizeEmail(st.repo.users[userID].email.value) == st.repo.users[userID].email.value
    ensures var st' := ChangePassword(st, userID, oldPassword, newPassword, now).st;
            var email := st.repo.users[userID].email.value;
            && Login(st', p, email, newPassword, "", "", later, jti).res.Success?
            && (Login(st', p, email, oldPassword, "", "", later, jti).res.Success?
                <==> BcryptKey(oldPassword) == BcryptKey(newPassword))
            && (BcryptKey(oldPassword) != BcryptKey(newPassword) ==>
                  Login(st', p, email, oldPassword, "", "", later, jti).res == Failure(ErrBadCredentials))
  {
    var st' := ChangePassword(st, userID, oldPassword, newPassword, now).st;
    var email := st.repo.users[userID].email.value;
    CheckHashIff(newPassword, newPassword);
    CheckHashIff(oldPassword, newPassword);
    assert st'.repo.users[userID].email == Some(email);
    assert st'.repo.users[userID].passwordHash == Hash(newPassword);
    assert R.EmailTaken(st'.repo, NormalizeEmail(email));
  }

  /** Below bcrypt's byte limit the old password is always refused after
      a change to a different one. */
  lemma ChangePasswordRefusesShortOld(st: State, p: T.Provider, userID: string, oldPassword: string, newPassword: string,
                                      now: nat, later: nat, jti: string)
    requires Wf(st) && st.kv.up
    requires ChangePassword(st, userID, oldPassword, newPassword, now).res.Success?
    requires st.repo.users[userID].email.Some?
    requires NormalizeEmail(st.repo.users[userID].email.value) == st.repo.users[userID].email.value
    requires oldPassword != newPassword
    requires Utf8Length(oldPassword) < MaxPasswordBytes && Utf8Length(newPassword) < MaxPasswordBytes
    ensures var st' := ChangePassword(st, userID, oldPassword, newPassword, now).st;
            Login(st', p, st.repo.users[userID].email.value, oldPassword, "", "", later, jti).res == Failure(ErrBadCredentials)
  {
    ChangePasswordThenLogin(st, p, userID, oldPassword, newPassword, now, later, jti);
    ShortPasswordMatchesOnlyItself(oldPassword, newPassword);
    CheckHashIff(oldPassword, newPassword);
  }

  /** ForgotPassword: accepts any email, changes nothing and never fails. */
  function ForgotPassword(st: State, email: string): (r: Out<()>)
    ensures r == Out(Success(()), st)
  {
    Out(Success(()), st)
  }

  /** ResetPassword: the token and the new password are ignored; the reset
      targets the empty id with the empty hash, which matches no user
      created with a generated id. */
  function ResetPassword(st: State, token: string, newPassword: string, now: nat): (r: Out<()>)
    requires Wf(st)
    ensures r.res.Failure? <==> !st.repo.up
    ensures "" !in st.repo.users ==> r.st == st
    ensures forall id :: id in st.repo.users && id != "" ==> id in r.st.repo.users && r.st.repo.users[id] == st.repo.users[id]
  {
    match R.ResetPassword(st.repo, "", "", now)
    case Failure(e) => Out(Failure(e), st)
    case Success(repo') => Out(Success(()), st.(repo := repo'))
  }

  // -----------------------------------------------------------------------
  // Account and sessions
  // -----------------------------------------------------------------------

  /** Logout: deletes the session of that user on that device. */
  function Logout(st: State, userID: string, deviceID: string): (r: Out<()>)
    ensures r.res.Failure? <==> !st.repo.up
    ensures r.st.kv == st.kv && r.st.repo.users == st.repo.users
    ensures r.res.Success? ==>
              forall row :: row in r.st.repo.sessions <==>
                row in st.repo.sessions && !(row.userID == userID && row.deviceID == deviceID)
  {
    match R.DeleteSession(st.repo, userID, deviceID)
    case Failure(e) => Out(Failure(e), st)
    case Success(repo') => Out(Success(()), st.(repo := repo'))
  }

  /** DeleteAccount: removes the user row. */
  function DeleteAccount(st: State, userID: string): (r: Out<()>)
    ensures r.res.Failure? <==> !st.repo.up
    ensures r.res.Success? ==> r.st.repo.users == st.repo.users - {userID} && r.st.repo.sessions == st.repo.sessions
  {
    match R.Delete(st.repo, userID)
    case Failure(e) => Out(Failure(e), st)
    case Success(repo') => Out(Success(()), st.(repo := repo'))
  }

  /** After DeleteAccount a refresh token that still validates for the
      deleted user is refused with "user not found". */
  lemma DeletedUserCannotRefresh(st: State, p: T.Provider, userID: string, refreshToken: string, now: nat, jti: string)
    requires Wf(st) && st.repo.up
    requires T.ValidateRefreshToken(p, refreshToken, now, st.kv) == Success(userID)
    ensures var st' := DeleteAccount(st, userID).st;
            RefreshToken(st', p, refreshToken, now, jti).res == Failure(ErrUserNotFound)
  {
  }

  /** GetSessions: the user's sessions. */
  function GetSessions(st: State, userID: string): (r: Result<seq<R.Session>>)
    ensures r.Failure? <==> !st.repo.up
    ensures r.Success? ==>
              forall s :: s in r.value <==> exists row :: row in st.repo.sessions && row.userID == userID && R.AsSession(row) == s
  {
    R.GetSessions(st.repo, userID)
  }

  /** DeleteSession: as Logout. */
  function DeleteSession(st: State, userID: string, deviceID: string): (r: Out<()>)
    ensures r == Logout(st, userID, deviceID)
  {
    match R.DeleteSession(st.repo, userID, deviceID)
    case Failure(e) => Out(Failure(e), st)
    case Success(repo') => Out(Success(()), st.(repo := repo'))
  }

  /** DeleteAllSessions: removes every session of the user and no other. */
  function DeleteAllSessions(st: State, userID: string): (r: Out<()>)
    ensures r.res.Failure? <==> !st.repo.up
    ensures r.st.kv == st.kv && r.st.repo.users == st.repo.users
    ensures r.res.Success? ==>
              forall row :: row in r.st.repo.sessions <==> row in st.repo.sessions && row.userID != userID
  {
    match R.DeleteAllSessions(st.repo, userID)
    case Failure(e) => Out(Failure(e), st)
    case Success(repo') => Out(Success(()), st.(repo := repo'))
  }
}
