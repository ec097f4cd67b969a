/** The JWT provider of user-service/internal/utils/jwt.go: access and
    refresh tokens (RFC 7519) signed with HS256 (section 3.2 of RFC 7518)
    under two different secrets, and a revocation record
    `refresh:<jti> -> userID` kept in the key-value store for every issued
    refresh token.

    A token is modelled as the algorithm it names, the key it was signed
    with and its claims; the string form is produced and read back by a
    `Codec`, whose byte-level details (base64url, JSON, the HMAC itself)
    are not modelled. Verification succeeds exactly when the algorithm is in
    the HMAC family, the signing key is the expected secret and the `exp`
    claim is absent, zero, or a time the current time is before; an `exp`
    that is not a number fails verification (golang-jwt v5's MapClaims
    rules). */
module Tokens {
  import opened Common
  import KV = KeyValue

  datatype Alg = HS256 | HS384 | HS512 | RS256 | ES256 | PS256 | EdDSA | NoneAlg

  /** The *jwt.SigningMethodHMAC family. */
  predicate IsHmac(a: Alg)
  {
    a == HS256 || a == HS384 || a == HS512
  }

  /** The `exp` claim as golang-jwt v5 reads it: absent, a number of
      seconds since the epoch, or a value of another JSON type. */
  datatype ExpClaim = NoExp | ExpAt(seconds: int) | BadExp

  /** The claims the provider reads. A `userID` or `jti` that is absent, or
      present with a type other than string, is `None`. */
  datatype Claims = Claims(userID: Option<string>, exp: ExpClaim, iat: Option<int>, jti: Option<string>)

  datatype Token = Token(alg: Alg, key: string, claims: Claims)

  /** Serialisation of tokens; `decode` returns `None` for a string that
      does not even parse as a JWT (jwt.Parse returns a nil token). */
  datatype Codec = Codec(encode: Token -> string, decode: string -> Option<Token>)

  /** Decoding gives back exactly what was encoded. */
  ghost predicate Lossless(c: Codec)
  {
    forall t :: c.decode(c.encode(t)) == Some(t)
  }

  /** Construction parameters of JWTProvider (TTLs in seconds). */
  datatype Provider = Provider(accessSecret: string, refreshSecret: string,
                               accessTTL: nat, refreshTTL: nat, codec: Codec)

  /** Whether the `exp` claim lets a token through at `now`: a missing
      claim and the number 0 both count as "no expiry", a value of the
      wrong type is an error. */
  predicate ExpAccepts(exp: ExpClaim, now: nat)
  {
    match exp
    case NoExp => true
    case ExpAt(s) => s == 0 || now < s
    case BadExp => false
  }

  /** What jwt.Parse with a key function accepts as a valid token. */
  predicate Verifies(t: Token, secret: string, now: nat)
  {
    IsHmac(t.alg) && t.key == secret && ExpAccepts(t.claims.exp, now)
  }

  /** Revocation-record key of a refresh token. */
  function RefreshKey(jti: string): string
  {
    "refresh:" + jti
  }

  function AccessToken(p: Provider, userID: string, now: nat): Token
  {
    Token(HS256, p.accessSecret, Claims(Some(userID), ExpAt(now + p.accessTTL), Some(now), None))
  }

  function RefreshToken(p: Provider, userID: string, now: nat, jti: string): Token
  {
    Token(HS256, p.refreshSecret, Claims(Some(userID), ExpAt(now + p.refreshTTL), Some(now), Some(jti)))
  }

  /** The three results of GenerateTokens and the store after the call. */
  datatype Issued = Issued(access: string, refresh: string, err: Option<Error>, store: KV.Store)

  /** GenerateTokens(userID) at time `now`, with `jti` the fresh UUID the
      call draws. Signing with an HMAC byte key cannot fail, so the only
      failure is the write of the revocation record; then no token is handed
      out and the store is untouched. On success the store holds the record
      with the refresh token's lifetime, and nothing else changed. */
  function GenerateTokens(p: Provider, userID: string, now: nat, jti: string, kv: KV.Store): (r: Issued)
    ensures r.err.Some? <==> !kv.up
    ensures r.err.Some? ==> r.access == "" && r.refresh == "" && r.store == kv
    ensures r.err.None? ==>
              && r.store.up
              && r.store.entries == kv.entries[RefreshKey(jti) := KV.Entry(KV.Text(userID), KV.ExpiryAfter(p.refreshTTL, now))]
  {
    var access := p.codec.encode(AccessToken(p, userID, now));
    var refresh := p.codec.encode(RefreshToken(p, userID, now, jti));
    match KV.Set(kv, RefreshKey(jti), KV.Text(userID), p.refreshTTL, now)
    case Failure(e) => Issued("", "", Some(e), kv)
    case Success(kv') => Issued(access, refresh, None, kv')
  }

  const InvalidToken: Error := Plain("invalid token")
  const InvalidUserID: Error := Plain("invalid userID")
  const JtiMissing: Error := Plain("jti missing")
  const RevokedOrNotFound: Error := Plain("revoked or not found")
  const TokenMismatch: Error := Plain("token mismatch")

  /** ValidateAccessToken: decoding and verification only; the key-value
      store is not a parameter, so it is neither read nor written. Every
      parse or verification failure is the one "invalid token" error. */
  function ValidateAccessToken(p: Provider, tokenStr: string, now: nat): (r: Result<string>)
    ensures r == Failure(InvalidToken) <==>
              p.codec.decode(tokenStr).None? || !Verifies(p.codec.decode(tokenStr).value, p.accessSecret, now)
    ensures r.Success? ==>
              && p.codec.decode(tokenStr).Some?
              && Verifies(p.codec.decode(tokenStr).value, p.accessSecret, now)
              && p.codec.decode(tokenStr).value.claims.userID == Some(r.value)
    ensures p.codec.decode(tokenStr).Some? && Verifies(p.codec.decode(tokenStr).value, p.accessSecret, now)
            && p.codec.decode(tokenStr).value.claims.userID.Some? ==>
              r == Success(p.codec.decode(tokenStr).value.claims.userID.value)
    ensures r.Failure? ==> r.error == InvalidToken || r.error == InvalidUserID
  {
    match p.codec.decode(tokenStr)
    case None => Failure(InvalidToken)
    case Some(t) =>
      if !Verifies(t, p.accessSecret, now) then Failure(InvalidToken)
      else
        match t.claims.userID
        case None => Failure(InvalidUserID)
        case Some(u) => Success(u)
  }

  /** ValidateRefreshToken: like the access check under the refresh secret,
      then the token must carry a `jti` whose revocation record is live and
      names the same user. A store failure is passed through. */
  function ValidateRefreshToken(p: Provider, tokenStr: string, now: nat, kv: KV.Store): (r: Result<string>)
    ensures r.Success? ==>
              && p.codec.decode(tokenStr).Some?
              && var t := p.codec.decode(tokenStr).value;
              && Verifies(t, p.refreshSecret, now)
              && t.claims.userID == Some(r.value)
              && t.claims.jti.Some?
              && KV.Lookup(kv, RefreshKey(t.claims.jti.value), now) == Some(KV.Text(r.value))
    ensures (p.codec.decode(tokenStr).None? || !Verifies(p.codec.decode(tokenStr).value, p.refreshSecret, now))
              ==> r == Failure(InvalidToken)
  {
    match p.codec.decode(tokenStr)
    case None => Failure(InvalidToken)
    case Some(t) =>
      if !Verifies(t, p.refreshSecret, now) then Failure(InvalidToken)
      else
        match t.claims.userID
        case None => Failure(InvalidUserID)
        case Some(u) =>
          match t.claims.jti
          case None => Failure(JtiMissing)
          case Some(jti) =>
            match KV.Get(kv, RefreshKey(jti), now)
            case Failure(e) => Failure(e)
            case Success(None) => Failure(RevokedOrNotFound)
            case Success(Some(v)) => if v != KV.Text(u) then Failure(TokenMismatch) else Success(u)
  }

  /** The outcome of a call that returns only an error, with the store after it. */
  datatype Done = Done(err: Option<Error>, store: KV.Store)

  /** RevokeRefreshToken as written: the parse error is discarded, so only
      an unparseable string is refused, and the `jti` claim is read with an
      unchecked type assertion, which crashes on a token that has none. */
  function RevokeRefreshTokenAsWritten(p: Provider, tokenStr: string, kv: KV.Store): (r: Done)
    ensures p.codec.decode(tokenStr).None? ==> r == Done(Some(InvalidToken), kv)
    ensures p.codec.decode(tokenStr).Some? && p.codec.decode(tokenStr).value.claims.jti.None? ==>
              r.err.Some? && r.err.value.Panic?
  {
    match p.codec.decode(tokenStr)
    case None => Done(Some(InvalidToken), kv)
    case Some(t) =>
      match t.claims.jti
      case None => Done(Some(Panic("interface conversion: interface {} is nil, not string")), kv)
      case Some(jti) =>
        match KV.Del(kv, RefreshKey(jti))
        case Failure(e) => Done(Some(e), kv)
        case Success(kv') => Done(None, kv')
  }

  /** RevokeRefreshToken with the `jti` read checked: a token without one is
      refused with "jti missing" instead of crashing. Signature, algorithm
      and expiry are still ignored, so an expired token can be revoked; only
      its revocation record is deleted. */
  function RevokeRefreshToken(p: Provider, tokenStr: string, kv: KV.Store): (r: Done)
    ensures r.err.None? <==>
              p.codec.decode(tokenStr).Some? && p.codec.decode(tokenStr).value.claims.jti.Some? && kv.up
    ensures r.err.Some? ==> r.store == kv && !r.err.value.Panic?
    ensures r.err.None? ==>
              r.store.up && r.store.entries == kv.entries - {RefreshKey(p.codec.decode(tokenStr).value.claims.jti.value)}
  {
    match p.codec.decode(tokenStr)
    case None => Done(Some(InvalidToken), kv)
    case Some(t) =>
      match t.claims.jti
      case None => Done(Some(JtiMissing), kv)
      case Some(jti) =>
        match KV.Del(kv, RefreshKey(jti))
        case Failure(e) => Done(Some(e), kv)
        case Success(kv') => Done(None, kv')
  }

  // -----------------------------------------------------------------------
  // Properties
  // -----------------------------------------------------------------------

  /** The access token carries userID, exp = iat + accessTTL and iat, and no
      jti; the refresh token adds the drawn jti and lives refreshTTL. */
  lemma IssuedClaims(p: Provider, userID: string, now: nat, jti: string, kv: KV.Store)
    requires Lossless(p.codec)
    requires GenerateTokens(p, userID, now, jti, kv).err.None?
    ensures var r := GenerateTokens(p, userID, now, jti, kv);
            && p.codec.decode(r.access)
               == Some(Token(HS256, p.accessSecret, Claims(Some(userID), ExpAt(now + p.accessTTL), Some(now), None)))
            && p.codec.decode(r.refresh)
               == Some(Token(HS256, p.refreshSecret, Claims(Some(userID), ExpAt(now + p.refreshTTL), Some(now), Some(jti))))
  {
    var r := GenerateTokens(p, userID, now, jti, kv);
    assert p.codec.decode(p.codec.encode(AccessToken(p, userID, now))) == Some(AccessToken(p, userID, now));
    assert p.codec.decode(p.codec.encode(RefreshToken(p, userID, now, jti))) == Some(RefreshToken(p, userID, now, jti));
  }

  /** An issued access token yields its user until iat + accessTTL and is
      "invalid token" from then on; an `exp` that comes out as 0 means the
      token never expires. */
  lemma AccessTokenLifetime(p: Provider, userID: string, now: nat, jti: string, kv: KV.Store, t: nat)
    requires Lossless(p.codec)
    requires GenerateTokens(p, userID, now, jti, kv).err.None?
    ensures var access := GenerateTokens(p, userID, now, jti, kv).access;
            ValidateAccessToken(p, access, t)
            == if now + p.accessTTL == 0 || t < now + p.accessTTL then Success(userID) else Failure(InvalidToken)
  {
    IssuedClaims(p, userID, now, jti, kv);
  }

  /** An issued refresh token yields its user, against the store the issue
      left behind, until iat + refreshTTL. */
  lemma RefreshTokenValidAfterIssue(p: Provider, userID: string, now: nat, jti: string, kv: KV.Store, t: nat)
    requires Lossless(p.codec)
    requires GenerateTokens(p, userID, now, jti, kv).err.None?
    requires now <= t < now + p.refreshTTL
    ensures var r := GenerateTokens(p, userID, now, jti, kv);
            ValidateRefreshToken(p, r.refresh, t, r.store) == Success(userID)
  {
    var r := GenerateTokens(p, userID, now, jti, kv);
    IssuedClaims(p, userID, now, jti, kv);
    assert KV.Lookup(r.store, RefreshKey(jti), t) == Some(KV.Text(userID));
  }

  /** An access token is never accepted as a refresh token, whatever the
      store holds and even when both secrets are the same: it has no jti. */
  lemma AccessTokenIsNotRefreshToken(p: Provider, userID: string, now: nat, jti: string, kv: KV.Store,
                                     t: nat, kv2: KV.Store)
    requires Lossless(p.codec)
    requires GenerateTokens(p, userID, now, jti, kv).err.None?
    ensures ValidateRefreshToken(p, GenerateTokens(p, userID, now, jti, kv).access, t, kv2).Failure?
  {
    IssuedClaims(p, userID, now, jti, kv);
  }

  /** A token whose `exp` is not a number is refused as "invalid token" by
      both validations, and an access token whose `exp` is 0 is accepted at
      any time. */
  lemma ExpClaimEdgeCases(p: Provider, tokenStr: string, now: nat, kv: KV.Store)
    requires p.codec.decode(tokenStr).Some?
    ensures p.codec.decode(tokenStr).value.claims.exp == BadExp ==>
              && ValidateAccessToken(p, tokenStr, now) == Failure(InvalidToken)
              && ValidateRefreshToken(p, tokenStr, now, kv) == Failure(InvalidToken)
    ensures var t := p.codec.decode(tokenStr).value;
            t.claims.exp == ExpAt(0) && IsHmac(t.alg) && t.key == p.accessSecret && t.claims.userID.Some? ==>
              forall later: nat :: ValidateAccessToken(p, tokenStr, later) == Success(t.claims.userID.value)
  {
  }

  /** The three store-dependent outcomes of refresh validation for a token
      that passes verification and names a user and a jti. */
  lemma RefreshRecordCases(p: Provider, tokenStr: string, now: nat, kv: KV.Store)
    requires kv.up
    requires p.codec.decode(tokenStr).Some?
    requires var t := p.codec.decode(tokenStr).value;
             Verifies(t, p.refreshSecret, now) && t.claims.userID.Some? && t.claims.jti.Some?
    ensures var t := p.codec.decode(tokenStr).value;
            var rec := KV.Lookup(kv, RefreshKey(t.claims.jti.value), now);
            ValidateRefreshToken(p, tokenStr, now, kv)
            == if rec.None? then Failure(RevokedOrNotFound)
               else if rec.value != KV.Text(t.claims.userID.value) then Failure(TokenMismatch)
               else Success(t.claims.userID.value)
  {
  }

  /** After a successful revocation the token no longer validates as a
      refresh token, at any time. */
  lemma RevokeThenRefreshFails(p: Provider, tokenStr: string, kv: KV.Store, t: nat)
    requires RevokeRefreshToken(p, tokenStr, kv).err.None?
    ensures ValidateRefreshToken(p, tokenStr, t, RevokeRefreshToken(p, tokenStr, kv).store).Failure?
  {
  }

  /** Revoking twice leaves the store as revoking once. */
  lemma RevokeIdempotent(p: Provider, tokenStr: string, kv: KV.Store)
    requires RevokeRefreshToken(p, tokenStr, kv).err.None?
    ensures var s1 := RevokeRefreshToken(p, tokenStr, kv).store;
            RevokeRefreshToken(p, tokenStr, s1) == Done(None, s1)
  {
    var jti := p.codec.decode(tokenStr).value.claims.jti.value;
    assert (kv.entries - {RefreshKey(jti)}) - {RefreshKey(jti)} == kv.entries - {RefreshKey(jti)};
  }

  /** Revocation does not depend on the token still being valid: an issued
      refresh token can be revoked after it expired. */
  lemma ExpiredRefreshTokenCanBeRevoked(p: Provider, userID: string, now: nat, jti: string, kv: KV.Store)
    requires Lossless(p.codec)
    requires GenerateTokens(p, userID, now, jti, kv).err.None?
    ensures var r := GenerateTokens(p, userID, now, jti, kv);
            (now + p.refreshTTL != 0 ==> !Verifies(p.codec.decode(r.refresh).value, p.refreshSecret, now + p.refreshTTL))
            && RevokeRefreshToken(p, r.refresh, r.store).err.None?
  {
    IssuedClaims(p, userID, now, jti, kv);
  }

  /** The discrepancy in the code as written: revoking an issued access
      token (which parses, but has no jti) crashes. */
  lemma RevokeAsWrittenPanicsOnAccessToken(p: Provider, userID: string, now: nat, jti: string, kv: KV.Store)
    requires Lossless(p.codec)
    requires GenerateTokens(p, userID, now, jti, kv).err.None?
    ensures var r := GenerateTokens(p, userID, now, jti, kv);
            RevokeRefreshTokenAsWritten(p, r.access, r.store).err.value.Panic?
  {
    IssuedClaims(p, userID, now, jti, kv);
  }

  /** The corrected revocation agrees with the code as written wherever the
      latter does not crash. */
  lemma RevokeAgreesWhereNoPanic(p: Provider, tokenStr: string, kv: KV.Store)
    requires !(RevokeRefreshTokenAsWritten(p, tokenStr, kv).err.Some?
               && RevokeRefreshTokenAsWritten(p, tokenStr, kv).err.value.Panic?)
    ensures RevokeRefreshToken(p, tokenStr, kv) == RevokeRefreshTokenAsWritten(p, tokenStr, kv)
  {
  }
}
