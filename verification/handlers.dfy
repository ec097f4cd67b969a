/** The gRPC handlers of user-service/internal/handler/grpc/user_server.go:
    request/response conversion, the `userID` guard every protected
    handler repeats, and the calls into the service layer. */
module Handlers {
  import opened Common
  import R = Repository
  import U = UserService
  import T = Tokens
  import RI = RequestInfo
  import Gate

  /** helpers.go's ErrUnauthenticated: a plain error, not a gRPC status. */
  const ErrUnauthenticated: Error := Plain("unauthenticated")

  /** The guard at the top of every protected handler: the context must
      carry a non-empty string under "userID". */
  function CallerID(ctx: Ctx): (r: Result<string>)
    ensures r.Success? <==> CtxString(ctx, "userID").Some? && CtxString(ctx, "userID").value != ""
    ensures r.Success? ==> r.value == CtxString(ctx, "userID").value
    ensures r.Failure? ==> r.error == ErrUnauthenticated
  {
    match CtxString(ctx, "userID")
    case Some(uid) => if uid == "" then Failure(ErrUnauthenticated) else Success(uid)
    case None => Failure(ErrUnauthenticated)
  }

  // -----------------------------------------------------------------------
  // Conversions
  // -----------------------------------------------------------------------

  /** toPtr: the empty string becomes nil. */
  function ToPtr(s: string): (r: Option<string>)
    ensures r.None? <==> s == ""
    ensures r.Some? ==> r.value == s
  {
    if s == "" then None else Some(s)
  }

  /** getStr: nil becomes the empty string. */
  function GetStr(p: Option<string>): (r: string)
    ensures p.None? ==> r == ""
    ensures p.Some? ==> r == p.value
  {
    match p
    case None => ""
    case Some(s) => s
  }

  /** getStr undoes toPtr on every string. */
  lemma GetStrToPtr(s: string)
    ensures GetStr(ToPtr(s)) == s
  {
  }

  /** toPtr undoes getStr except on a pointer to the empty string, which
      comes back as nil. */
  lemma ToPtrGetStr(p: Option<string>)
    ensures ToPtr(GetStr(p)) == (if p == Some("") then None else p)
  {
  }

  /** userpb.User: every optional field flattened to a string. */
  datatype UserPB = UserPB(
    id: string,
    username: string,
    email: string,
    fullName: string,
    avatarUrl: string,
    language: string,
    platform: string,
    deviceId: string,
    registeredIp: string,
    userAgent: string,
    location: string,
    registeredAt: nat,
    updatedAt: nat)

  /** toUserPB: nil stays nil; absent optional fields become "". */
  function ToUserPB(u: Option<R.User>): (r: Option<UserPB>)
    ensures r.None? <==> u.None?
    ensures u.Some? ==>
              && r.value.id == u.value.id
              && r.value.username == GetStr(u.value.username)
              && r.value.email == GetStr(u.value.email)
              && r.value.fullName == GetStr(u.value.fullName)
              && r.value.avatarUrl == GetStr(u.value.avatarURL)
              && r.value.language == GetStr(u.value.language)
              && r.value.platform == u.value.platform
              && r.value.deviceId == u.value.deviceID
              && r.value.registeredIp == GetStr(u.value.registeredIP)
              && r.value.userAgent == u.value.userAgent
              && r.value.location == GetStr(u.value.location)
              && r.value.registeredAt == u.value.registeredAt
              && r.value.updatedAt == u.value.updatedAt
  {
    match u
    case None => None
    case Some(u) =>
      Some(UserPB(u.id, GetStr(u.username), GetStr(u.email), GetStr(u.fullName), GetStr(u.avatarURL),
                  GetStr(u.language), u.platform, u.deviceID, GetStr(u.registeredIP), u.userAgent,
                  GetStr(u.location), u.registeredAt, u.updatedAt))
  }

  /** Reading a message back into a user, with "" as nil (the password
      hash is not part of the message). */
  function FromUserPB(pb: UserPB, passwordHash: string): R.User
  {
    R.User(pb.id, ToPtr(pb.username), ToPtr(pb.email), passwordHash, ToPtr(pb.fullName), ToPtr(pb.avatarUrl),
           ToPtr(pb.language), pb.platform, pb.deviceId, ToPtr(pb.registeredIp), pb.userAgent,
           ToPtr(pb.location), pb.registeredAt, pb.updatedAt)
  }

  /** No optional field holds a pointer to "". */
  predicate NoEmptyPointers(u: R.User)
  {
    && u.username != Some("") && u.email != Some("") && u.fullName != Some("") && u.avatarURL != Some("")
    && u.language != Some("") && u.registeredIP != Some("") && u.location != Some("")
  }

  /** toUserPB loses nothing but the password hash and the difference
      between nil and a pointer to "". */
  lemma UserPBRoundTrip(u: R.User)
    requires NoEmptyPointers(u)
    ensures FromUserPB(ToUserPB(Some(u)).value, u.passwordHash) == u
  {
    ToPtrGetStr(u.username);
    ToPtrGetStr(u.email);
    ToPtrGetStr(u.fullName);
    ToPtrGetStr(u.avatarURL);
    ToPtrGetStr(u.language);
    ToPtrGetStr(u.registeredIP);
    ToPtrGetStr(u.location);
  }

  datatype AuthResponse = AuthResponse(accessToken: string, refreshToken: string, user: Option<UserPB>)

  function ToAuthResponse(a: U.AuthResult): (r: AuthResponse)
    ensures r.accessToken == a.accessToken && r.refreshToken == a.refreshToken && r.user == ToUserPB(a.user)
  {
    AuthResponse(a.accessToken, a.refreshToken, ToUserPB(a.user))
  }

  datatype SessionPB = SessionPB(deviceId: string, platform: string, ipAddress: string, lastSeen: nat)

  function ToSessionPBs(ss: seq<R.Session>): (r: seq<SessionPB>)
    ensures |r| == |ss|
    ensures forall i :: 0 <= i < |ss| ==>
              r[i] == SessionPB(ss[i].deviceID, ss[i].platform, ss[i].ipAddress, ss[i].lastSeen)
  {
    seq(|ss|, i requires 0 <= i < |ss| => SessionPB(ss[i].deviceID, ss[i].platform, ss[i].ipAddress, ss[i].lastSeen))
  }

  // -----------------------------------------------------------------------
  // Public handlers
  // -----------------------------------------------------------------------

  datatype RegisterRequest = RegisterRequest(username: string, email: string, password: string, fullName: string,
                                             avatarUrl: string, language: string, platform: string, deviceId: string)

  /** The RegisterDTO the Register handler builds. The client address is
      dereferenced unconditionally, which crashes when the context has
      neither a forwarded-for header nor a peer; `locate` stands for the
      geolocation lookup, "" on failure. Empty optional fields become nil. */
  function RegisterDTOFor(req: RegisterRequest, ctx: Ctx, locate: string -> string): (r: Result<U.RegisterDTO>)
    ensures r.Failure? <==> RI.GetIPFromCtx(ctx).None?
    ensures r.Failure? ==> r.error.Panic?
    ensures r.Success? ==>
              && r.value.username == req.username && r.value.email == req.email && r.value.password == req.password
              && r.value.registeredIP == RI.GetIPFromCtx(ctx)
              && r.value.userAgent == RI.GetUserAgentFromCtx(ctx)
              && r.value.location == ToPtr(locate(RI.GetIPFromCtx(ctx).value))
              && r.value.fullName == ToPtr(req.fullName)
              && r.value.avatarURL == ToPtr(req.avatarUrl)
              && r.value.language == ToPtr(req.language)
              && r.value.platform == req.platform && r.value.deviceID == req.deviceId
  {
    match RI.GetIPFromCtx(ctx)
    case None => Failure(Panic("invalid memory address or nil pointer dereference"))
    case Some(ip) =>
      Success(U.RegisterDTO(req.username, req.email, req.password, ToPtr(req.fullName), ToPtr(req.avatarUrl),
                            ToPtr(req.language), req.platform, req.deviceId, Some(ip),
                            RI.GetUserAgentFromCtx(ctx), ToPtr(locate(ip))))
  }

  /** Register handler. */
  function Register(st: U.State, p: T.Provider, ctx: Ctx, req: RegisterRequest, locate: string -> string,
                    now: nat, freshId: string, jti: string): (r: U.Out<AuthResponse>)
    requires U.Wf(st)
    ensures U.Wf(r.st)
    ensures RegisterDTOFor(req, ctx, locate).Failure? ==> r == U.Out(Failure(RegisterDTOFor(req, ctx, locate).error), st)
    ensures r.res.Success? ==>
              && RegisterDTOFor(req, ctx, locate).Success?
              && var reg := U.Register(st, p, RegisterDTOFor(req, ctx, locate).value, now, freshId, jti);
              && reg.res.Success? && r.res.value == ToAuthResponse(reg.res.value) && r.st == reg.st
    ensures RegisterDTOFor(req, ctx, locate).Success? ==>
              var reg := U.Register(st, p, RegisterDTOFor(req, ctx, locate).value, now, freshId, jti);
              && r.st == reg.st
              && (r.res.Success? <==> reg.res.Success?)
              && (r.res.Failure? ==> r.res == Failure(reg.res.error))
  {
    match RegisterDTOFor(req, ctx, locate)
    case Failure(e) => U.Out(Failure(e), st)
    case Success(dto) =>
      var reg := U.Register(st, p, dto, now, freshId, jti);
      match reg.res
      case Failure(e) => U.Out(Failure(e), reg.st)
      case Success(a) => U.Out(Success(ToAuthResponse(a)), reg.st)
  }

  /** Login handler. */
  function Login(st: U.State, p: T.Provider, email: string, password: string, platform: string, deviceId: string,
                 now: nat, jti: string): (r: U.Out<AuthResponse>)
    requires U.Wf(st)
    ensures var l := U.Login(st, p, email, password, platform, deviceId, now, jti);
            r.st == l.st && (r.res.Success? <==> l.res.Success?)
            && (r.res.Success? ==> r.res.value == ToAuthResponse(l.res.value))
            && (r.res.Failure? ==> r.res == Failure(l.res.error))
  {
    var l := U.Login(st, p, email, password, platform, deviceId, now, jti);
    match l.res
    case Failure(e) => U.Out(Failure(e), l.st)
    case Success(a) => U.Out(Success(ToAuthResponse(a)), l.st)
  }

  /** RefreshToken handler. */
  function RefreshToken(st: U.State, p: T.Provider, refreshToken: string, now: nat, jti: string): (r: U.Out<AuthResponse>)
    requires U.Wf(st)
    ensures var l := U.RefreshToken(st, p, refreshToken, now, jti);
            r.st == l.st && (r.res.Success? <==> l.res.Success?)
            && (r.res.Success? ==> r.res.value == ToAuthResponse(l.res.value))
            && (r.res.Failure? ==> r.res == Failure(l.res.error))
  {
    var l := U.RefreshToken(st, p, refreshToken, now, jti);
    match l.res
    case Failure(e) => U.Out(Failure(e), l.st)
    case Success(a) => U.Out(Success(ToAuthResponse(a)), l.st)
  }

  // -----------------------------------------------------------------------
  // Protected handlers
  // -----------------------------------------------------------------------

  /** The protected calls and their request fields. */
  datatype Call =
    | GetProfileCall
    | LogoutCall
    | DeleteAccountCall
    | GetSessionsCall
    | UpdateUsernameCall(username: string)
    | UpdateEmailCall(email: string)
    | UpdateFullNameCall(fullName: string)
    | UpdateAvatarCall(avatarUrl: string)
    | UpdateLanguageCall(language: string)
    | ChangePasswordCall(oldPassword: string, newPassword: string)

  datatype Reply = UserReply(user: Option<UserPB>) | EmptyReply | SessionsReply(sessions: seq<SessionPB>)

  /** Lifts a service result carrying a user into a handler reply. */
  function UserOut(o: U.Out<Option<R.User>>): (r: U.Out<Reply>)
    ensures r.st == o.st
    ensures o.res.Failure? ==> r.res == Failure(o.res.error)
    ensures o.res.Success? ==> r.res == Success(UserReply(ToUserPB(o.res.value)))
  {
    match o.res
    case Failure(e) => U.Out(Failure(e), o.st)
    case Success(u) => U.Out(Success(UserReply(ToUserPB(u))), o.st)
  }

  /** Lifts a service result carrying nothing into a handler reply. */
  function EmptyOut(o: U.Out<()>): (r: U.Out<Reply>)
    ensures r.st == o.st
    ensures o.res.Failure? ==> r.res == Failure(o.res.error)
    ensures o.res.Success? ==> r.res == Success(EmptyReply)
  {
    match o.res
    case Failure(e) => U.Out(Failure(e), o.st)
    case Success(_) => U.Out(Success(EmptyReply), o.st)
  }

  /** Logout handler as written: the device is taken from the stored user,
      which is dereferenced even when the lookup found no row. */
  function LogoutAsWritten(st: U.State, userID: string): (r: U.Out<Reply>)
    requires U.Wf(st)
    ensures st.repo.up && userID !in st.repo.users ==> r.res.Failure? && r.res.error.Panic? && r.st == st
  {
    match U.GetProfile(st, userID)
    case Failure(e) => U.Out(Failure(e), st)
    case Success(None) => U.Out(Failure(Panic("invalid memory address or nil pointer dereference")), st)
    case Success(Some(user)) => EmptyOut(U.Logout(st, userID, user.deviceID))
  }

  /** Logout handler: the session of the device recorded on the user row
      is deleted; a user who no longer exists is "user not found". */
  function Logout(st: U.State, userID: string): (r: U.Out<Reply>)
    requires U.Wf(st)
    ensures st.repo.up && userID !in st.repo.users ==> r == U.Out(Failure(U.ErrUserNotFound), st)
    ensures !st.repo.up ==> r.res.Failure? && r.st == st
    ensures st.repo.up && userID in st.repo.users ==> r.res.Success?
    ensures r.res.Success? ==>
              && userID in st.repo.users
              && r.st.repo.users == st.repo.users
              && forall row :: row in r.st.repo.sessions <==>
                   row in st.repo.sessions && !(row.userID == userID && row.deviceID == st.repo.users[userID].deviceID)
  {
    match U.GetProfile(st, userID)
    case Failure(e) => U.Out(Failure(e), st)
    case Success(None) => U.Out(Failure(U.ErrUserNotFound), st)
    case Success(Some(user)) => EmptyOut(U.Logout(st, userID, user.deviceID))
  }

  /** The corrected Logout agrees with the code as written wherever the
      latter does not crash. */
  lemma LogoutAgreesWhereNoPanic(st: U.State, userID: string)
    requires U.Wf(st)
    requires !(LogoutAsWritten(st, userID).res.Failure? && LogoutAsWritten(st, userID).res.error.Panic?)
    ensures Logout(st, userID) == LogoutAsWritten(st, userID)
  {
  }

  /** The crash is reachable: after DeleteAccount the caller's access
      token is still valid, and a Logout with it dereferences nil; the
      corrected handler reports the missing user instead. */
  lemma LogoutAfterDeleteAccount(st: U.State, userID: string)
    requires U.Wf(st) && st.repo.up
    ensures var st' := U.DeleteAccount(st, userID).st;
            && U.Wf(st')
            && LogoutAsWritten(st', userID).res.Failure? && LogoutAsWritten(st', userID).res.error.Panic?
            && Logout(st', userID) == U.Out(Failure(U.ErrUserNotFound), st')
  {
    assert U.DeleteAccount(st, userID).res.Success?;
  }

  /** Every session in a GetSessions reply comes from one of the
      caller's own session rows. */
  lemma SessionPBsFromRows(st: U.State, userID: string, ss: seq<R.Session>)
    requires U.GetSessions(st, userID) == Success(ss)
    ensures forall pb :: pb in ToSessionPBs(ss) ==>
              exists row :: row in st.repo.sessions && row.userID == userID
                            && pb == SessionPB(row.deviceID, row.platform, row.ipAddress, row.lastSeen)
  {
    forall pb | pb in ToSessionPBs(ss)
      ensures exists row :: row in st.repo.sessions && row.userID == userID
                            && pb == SessionPB(row.deviceID, row.platform, row.ipAddress, row.lastSeen)
    {
      var i :| 0 <= i < |ss| && ToSessionPBs(ss)[i] == pb;
      assert ss[i] in ss;
      var row :| row in st.repo.sessions && row.userID == userID && R.AsSession(row) == ss[i];
    }
  }

  /** The call behind a passed guard. */
  function Dispatch(st: U.State, userID: string, call: Call, now: nat): (r: U.Out<Reply>)
    requires U.Wf(st)
    ensures U.Wf(r.st) && r.st.kv == st.kv
    ensures r.res.Failure? ==> r.st.repo.users == st.repo.users
    ensures call.GetProfileCall? || call.GetSessionsCall? ==> r.st == st
    ensures call.GetProfileCall? && st.repo.up ==>
              r.res == Success(UserReply(ToUserPB(if userID in st.repo.users then Some(st.repo.users[userID]) else None)))
    ensures call.GetSessionsCall? && r.res.Success? ==>
              && r.res.value.SessionsReply?
              && forall pb :: pb in r.res.value.sessions ==>
                   exists row :: row in st.repo.sessions && row.userID == userID
                                 && pb == SessionPB(row.deviceID, row.platform, row.ipAddress, row.lastSeen)
  {
    match call
    case GetProfileCall =>
      (match U.GetProfile(st, userID)
       case Failure(e) => U.Out(Failure(e), st)
       case Success(u) => U.Out(Success(UserReply(ToUserPB(u))), st))
    case LogoutCall => Logout(st, userID)
    case DeleteAccountCall => EmptyOut(U.DeleteAccount(st, userID))
    case GetSessionsCall =>
      (match U.GetSessions(st, userID)
       case Failure(e) => U.Out(Failure(e), st)
       case Success(ss) =>
         SessionPBsFromRows(st, userID, ss);
         U.Out(Success(SessionsReply(ToSessionPBs(ss))), st))
    case UpdateUsernameCall(username) => UserOut(U.UpdateUsername(st, userID, username, now))
    case UpdateEmailCall(email) => UserOut(U.UpdateEmail(st, userID, email, now))
    case UpdateFullNameCall(fullName) => UserOut(U.UpdateFullName(st, userID, fullName, now))
    case UpdateAvatarCall(avatarUrl) => UserOut(U.UpdateAvatar(st, userID, avatarUrl, now))
    case UpdateLanguageCall(language) => UserOut(U.UpdateLanguage(st, userID, language, now))
    case ChangePasswordCall(oldPassword, newPassword) =>
      EmptyOut(U.ChangePassword(st, userID, oldPassword, newPassword, now))
  }

  /** A protected handler: the guard first; if it fails the service is
      never reached and nothing changes. */
  function Serve(st: U.State, ctx: Ctx, call: Call, now: nat): (r: U.Out<Reply>)
    requires U.Wf(st)
    ensures CallerID(ctx).Failure? ==> r == U.Out(Failure(ErrUnauthenticated), st)
    ensures CallerID(ctx).Success? ==> r == Dispatch(st, CallerID(ctx).value, call, now)
    ensures U.Wf(r.st)
  {
    match CallerID(ctx)
    case Failure(e) => U.Out(Failure(e), st)
    case Success(uid) => Dispatch(st, uid, call, now)
  }

  /** ForgotPassword handler: always succeeds, changes nothing. */
  function ForgotPassword(st: U.State, email: string): (r: U.Out<Reply>)
    ensures r == U.Out(Success(EmptyReply), st)
  {
    EmptyOut(U.ForgotPassword(st, email))
  }

  /** ResetPassword handler: no user created with a generated id is
      affected, whatever the token and password. */
  function ResetPassword(st: U.State, token: string, newPassword: string, now: nat): (r: U.Out<Reply>)
    requires U.Wf(st)
    ensures r.res.Failure? <==> !st.repo.up
    ensures forall id :: id in st.repo.users && id != "" ==> id in r.st.repo.users && r.st.repo.users[id] == st.repo.users[id]
  {
    EmptyOut(U.ResetPassword(st, token, newPassword, now))
  }

  // -----------------------------------------------------------------------
  // Gate and guard together
  // -----------------------------------------------------------------------

  /** A call the interceptor lets through because its name merely contains
      "Login" or "Register" still reaches no protected handler's service:
      such a context carries no caller id. */
  lemma ExemptMethodsStillGuarded(st: U.State, fullMethod: string, ctx: Ctx, validate: string -> Result<string>,
                                  call: Call, now: nat)
    requires U.Wf(st)
    requires Gate.IsExempt(fullMethod)
    requires "userID" !in ctx.values
    ensures Gate.AuthInterceptor(fullMethod, ctx, validate) == Gate.Forward(ctx)
    ensures Serve(st, ctx, call, now) == U.Out(Failure(ErrUnauthenticated), st)
  {
  }

  /** A token the validator accepts for a non-empty user id reaches the
      handler as exactly that caller; one that names the empty user id
      passes the interceptor but is stopped by the handler's guard. */
  lemma GateThenGuard(st: U.State, fullMethod: string, ctx: Ctx, validate: string -> Result<string>, call: Call, now: nat)
    requires U.Wf(st)
    requires !Gate.IsExempt(fullMethod)
    requires Gate.AuthInterceptor(fullMethod, ctx, validate).Forward?
    ensures var fwd := Gate.AuthInterceptor(fullMethod, ctx, validate).ctx;
            var uid := validate(Gate.BearerCredential(MdGet(ctx.md.value, "authorization")[0])).value;
            && (uid != "" ==> CallerID(fwd) == Success(uid))
            && (uid == "" ==> Serve(st, fwd, call, now) == U.Out(Failure(ErrUnauthenticated), st))
  {
  }
}
