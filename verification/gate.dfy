/** The wiring of the token provider in user-service/cmd/main.go and the
    unary interceptor `authInterceptor` that every gRPC call passes
    through before its handler runs. */
module Gate {
  import opened Common
  import Tokens

  /** Lifetimes handed to NewJWTProvider, in seconds. */
  const AccessTTL: nat := 15 * 60
  const RefreshTTL: nat := 7 * 24 * 60 * 60

  /** The provider built in main(): 15-minute access tokens and 7-day
      refresh tokens. */
  function NewProvider(accessSecret: string, refreshSecret: string, codec: Tokens.Codec): (p: Tokens.Provider)
    ensures p.accessTTL == 900 && p.refreshTTL == 604800
    ensures p.accessSecret == accessSecret && p.refreshSecret == refreshSecret && p.codec == codec
  {
    Tokens.Provider(accessSecret, refreshSecret, AccessTTL, RefreshTTL, codec)
  }

  /** The one error the interceptor ever returns. */
  const ErrUnauthenticated: Error := Status(Unauthenticated, "unauthenticated")

  /** Context key under which the interceptor stores the caller's id. */
  const UserIDKey: string := "userID"

  /** Either the call is refused, or the handler runs with the given context. */
  datatype Decision = Reject(err: Error) | Forward(ctx: Ctx)

  /** Methods let through without credentials: any full method name that
      merely contains "Login" or "Register". */
  predicate IsExempt(fullMethod: string)
  {
    Contains(fullMethod, "Login") || Contains(fullMethod, "Register")
  }

  /** The credential extracted from an authorization value: one leading
      "Bearer " is removed if present (section 2.1 of RFC 6750); any other
      value is used verbatim. */
  function BearerCredential(value: string): string
  {
    TrimPrefix(value, "Bearer ")
  }

  /** authInterceptor with `validate` standing for
      tokenProvider.ValidateAccessToken. */
  function AuthInterceptor(fullMethod: string, ctx: Ctx, validate: string -> Result<string>): (d: Decision)
    ensures IsExempt(fullMethod) ==> d == Forward(ctx)
    ensures d.Reject? ==> d.err == ErrUnauthenticated
    ensures !IsExempt(fullMethod) && (ctx.md.None? || MdGet(ctx.md.value, "authorization") == []) ==>
              d == Reject(ErrUnauthenticated)
    ensures !IsExempt(fullMethod) && d.Forward? ==>
              && ctx.md.Some?
              && var auth := MdGet(ctx.md.value, "authorization");
              && auth != []
              && validate(BearerCredential(auth[0])).Success?
              && d.ctx == ctx.(values := ctx.values[UserIDKey := Str(validate(BearerCredential(auth[0])).value)])
    ensures (&& !IsExempt(fullMethod) && ctx.md.Some? && MdGet(ctx.md.value, "authorization") != []
             && validate(BearerCredential(MdGet(ctx.md.value, "authorization")[0])).Success?) ==> d.Forward?
  {
    if IsExempt(fullMethod) then Forward(ctx)
    else
      match ctx.md
      case None => Reject(ErrUnauthenticated)
      case Some(md) =>
        var tokens := MdGet(md, "authorization");
        if |tokens| == 0 then Reject(ErrUnauthenticated)
        else
          match validate(BearerCredential(tokens[0]))
          case Failure(_) => Reject(ErrUnauthenticated)
          case Success(userID) => Forward(ctx.(values := ctx.values[UserIDKey := Str(userID)]))
  }

  /** The bearer prefix is removed once only: whatever credential follows
      it reaches the validator unchanged. */
  lemma BearerPrefixStrippedOnce(credential: string)
    ensures BearerCredential("Bearer " + credential) == credential
  {
    assert HasPrefix("Bearer " + credential, "Bearer ");
  }

  /** Only the first authorization value matters: two calls whose lists
      start alike get the same decision. */
  lemma OnlyFirstAuthorizationValueCounts(fullMethod: string, ctx: Ctx, rest1: seq<string>, rest2: seq<string>,
                                          first: string, validate: string -> Result<string>)
    requires ctx.md.Some?
    ensures var c1 := ctx.(md := Some(ctx.md.value["authorization" := [first] + rest1]));
            var c2 := ctx.(md := Some(ctx.md.value["authorization" := [first] + rest2]));
            var d1 := AuthInterceptor(fullMethod, c1, validate);
            var d2 := AuthInterceptor(fullMethod, c2, validate);
            d1.Reject? == d2.Reject? && (d1.Reject? ==> d1 == d2)
            && (d1.Forward? && !IsExempt(fullMethod) ==> d1.ctx.values == d2.ctx.values)
  {
  }

  /** The exemption is a substring test, not an exact method match: a
      protected-sounding method such as "GetLoginHistory" is let through
      without any credential. */
  lemma SubstringExemption(ctx: Ctx, validate: string -> Result<string>)
    ensures AuthInterceptor("/user.UserService/GetLoginHistory", ctx, validate) == Forward(ctx)
  {
    var m := "/user.UserService/GetLoginHistory";
    assert OccursAt(m, "Login", 21);
    ContainsIff(m, "Login");
  }

  /** A fresh access token from the configured provider, presented as
      "Bearer <token>" on a protected method, reaches the handler with
      exactly the issued user id bound in the context, for the whole
      15-minute lifetime; at and after expiry the call is refused. */
  lemma IssuedAccessTokenPassesGate(accessSecret: string, refreshSecret: string, codec: Tokens.Codec,
                                    userID: string, now: nat, jti: string, kv: Tokens.KV.Store,
                                    fullMethod: string, ctx: Ctx, t: nat)
    requires Tokens.Lossless(codec)
    requires !IsExempt(fullMethod)
    requires var p := NewProvider(accessSecret, refreshSecret, codec);
             Tokens.GenerateTokens(p, userID, now, jti, kv).err.None?
    requires ctx.md.Some?
    ensures var p := NewProvider(accessSecret, refreshSecret, codec);
            var access := Tokens.GenerateTokens(p, userID, now, jti, kv).access;
            var call := ctx.(md := Some(ctx.md.value["authorization" := ["Bearer " + access]]));
            AuthInterceptor(fullMethod, call, s => Tokens.ValidateAccessToken(p, s, t))
            == if t < now + 900
               then Forward(call.(values := call.values[UserIDKey := Str(userID)]))
               else Reject(ErrUnauthenticated)
  {
    var p := NewProvider(accessSecret, refreshSecret, codec);
    var access := Tokens.GenerateTokens(p, userID, now, jti, kv).access;
    BearerPrefixStrippedOnce(access);
    Tokens.AccessTokenLifetime(p, userID, now, jti, kv, t);
  }
}
