# user-service: authentication and session core

A Dafny model of the authentication and session core of `user-service`, a Go
gRPC micro-service of a chat application. The model covers:

- **JWT provider** (`Tokens`):
  - issues an HS256 access token (15 minutes) and a refresh token (7 days);
  - the refresh token's `jti` is recorded in Redis under `refresh:<jti>`;
  - validates both token kinds and revokes refresh tokens.
- **Authentication interceptor** (`Gate`): exempts every method whose name
  contains `Login` or `Register`. Otherwise it validates the first
  `authorization` value, minus one `Bearer ` prefix, and puts the user id into
  the request context.
- **Client address and user agent**, read from gRPC metadata, the peer, or an
  HTTP request (`RequestInfo`).
- **Legacy service and storage** (`LegacyService`, `LegacyStorage`):
  - integer ids, rendered as decimal text;
  - the username is unique;
  - a five-attempts-per-minute login throttle kept in Redis;
  - a ten-minute profile cache.
- **Newer stack** (`Repository`, `UserService`, `Handlers`):
  - uuid ids and a unique, normalised email;
  - sessions;
  - the gRPC handlers, each of which repeats a `userID` guard.

How things are represented:

- Redis is a map from keys to values, each with an optional expiry instant.
- PostgreSQL tables are maps, and the sessions table is a sequence of rows.
- Time is a natural number of seconds.
- Each Go error is a value of the `Error` datatype. A nil dereference or a
  failed type assertion becomes `Panic`.
- bcrypt is a deterministic stand-in whose digest records the password.
  Hashing fails when the password is longer than 72 UTF-8 bytes, as
  `bcrypt.GenerateFromPassword` does. A comparison matches when the two
  passwords give the same Blowfish key: the UTF-8 bytes and a NUL, cut at
  72 bytes. Below 72 bytes a password matches only itself. A stored
  password of 72 bytes or more is also matched by every extension of it.
- The signed token string is produced by an abstract codec. Lemmas that
  decode what was encoded assume the codec is lossless.
- Every operation takes its state and returns a new state with its result:
  the Redis store, the tables, the clock reading, the fresh uuid and the
  fresh `jti`.

Where the code does something other than what it evidently means, the model
follows the code:

- The comment at `cmd/main.go:100` names the Login and Register endpoints as
  the ones exempt from the token check. The test is a substring match on the
  full method name, so every method whose name contains either word is
  skipped. `Gate.SubstringExemption` shows a method that is skipped only
  because of this.
- `storage/user-storage.go` negates the result of `utils.CheckPasswordHash`,
  which returns an `error`, as if it were a boolean. The model reads that
  test as "the password does not match the stored hash", which is what the
  surrounding code means.

## Model

| member | source | states |
|---|---|---|
| Common.HashPassword | user-service/internal/utils/password.go:8-11 | hashing succeeds exactly when the password is at most 72 UTF-8 bytes long, and then yields a non-empty hash |
| Common.Utf8BytesInjective | user-service/internal/utils/password.go:14 | the UTF-8 bytes of a password determine it |
| Common.BcryptKey | user-service/internal/utils/password.go:14 | the key is the password's bytes and a NUL below 72 bytes, and the first 72 bytes otherwise |
| Common.CheckHashIff | user-service/internal/utils/password.go:13-19 | a password matches the digest of another exactly when the two give the same 72-byte key |
| Common.ShortPasswordMatchesOnlyItself | user-service/internal/utils/password.go:13-19 | between passwords under 72 bytes, a match means the two are equal |
| Common.ExtensionPastLimitMatches | user-service/internal/utils/password.go:13-19 | any extension of a stored password of 72 bytes or more matches its digest |
| Common.TrimSpace | user-service/internal/service/user/user-service.go:32 | the result is the contiguous middle of the input: empty exactly when the input is all white space, otherwise starting and ending with a non-space |
| Common.TrimSpaceIdempotent | user-service/internal/service/user/user-service.go:32 | trimming twice equals trimming once |
| Common.ToLower | user-service/internal/service/user/user-service.go:32 | same length, each character lowered |
| Common.LowerCharFacts | user-service/internal/service/user/user-service.go:32 | a lowered character is never an upper-case ASCII letter, lowering is idempotent, and lowering keeps white space white |
| Common.TrimPrefix | user-service/cmd/main.go:116 | with the prefix present, prefix plus result is the input; without it, the input is unchanged |
| Common.ContainsIff | user-service/cmd/main.go:101-102 | the substring test holds exactly when the pattern occurs at some position |
| Common.IndexOf | user-service/internal/utils/request_info.go:23 | none exactly when the character is absent, otherwise the position of its first occurrence |
| Common.LastIndexOf | user-service/internal/handler/grpc/helpers.go:38 | none exactly when the character is absent, otherwise the position of its last occurrence |
| Common.FirstField | user-service/internal/handler/grpc/helpers.go:28-29 | the longest prefix without the separator, followed in the input by the separator unless it is the whole input |
| Common.CtxString | user-service/internal/handler/grpc/user_server.go:69 | the context's value under a key only when that value is a string |
| KeyValue.Get | user-service/internal/utils/jwt.go:117-123 | fails only when Redis is down, otherwise returns the live value, with expired keys reading as absent |
| KeyValue.Set | user-service/internal/utils/jwt.go:61 | writes the key with its expiry and leaves every other key as it was |
| KeyValue.Del | user-service/internal/utils/jwt.go:138 | removes exactly that key |
| KeyValue.Incr | user-service/internal/service/user-service.go:74-77 | a missing key counts 1; a counter goes up by one; a non-counter or a down server is an error that changes nothing |
| KeyValue.Expire | user-service/internal/service/user-service.go:79-81 | a positive ttl sets the expiry of a live key; an absent key is left alone |
| KeyValue.SetThenLookup | user-service/internal/utils/jwt.go:57-63 | a value set with a ttl is visible until the ttl elapses, and absent afterwards |
| KeyValue.DelThenLookup | user-service/internal/utils/jwt.go:138 | a deleted key reads as absent |
| KeyValue.DelIdempotent | user-service/internal/utils/jwt.go:138 | deleting twice equals deleting once |
| Tokens.GenerateTokens | user-service/internal/utils/jwt.go:32-67 | fails with no token exactly when Redis is down; otherwise records `refresh:<jti>` to the user id with the refresh ttl and changes nothing else |
| Tokens.ValidateAccessToken | user-service/internal/utils/jwt.go:69-89 | "invalid token" exactly when the string does not decode or does not verify under the access secret; on success, the token's userID claim |
| Tokens.ValidateRefreshToken | user-service/internal/utils/jwt.go:91-128 | success only for a verified refresh token with userID and jti claims whose Redis record holds that same user id |
| Tokens.RevokeRefreshTokenAsWritten | user-service/internal/utils/jwt.go:130-139 | a token that decodes without a jti claim crashes the type assertion |
| Tokens.RevokeRefreshToken | user-service/internal/utils/jwt.go:130-139 | succeeds exactly for a decodable token with a jti while Redis is up, and then deletes only its record; never crashes |
| Tokens.IssuedClaims | user-service/internal/utils/jwt.go:34-50 | the issued tokens decode to HS256 tokens under the two secrets, with iat = now, exp = now + ttl, and a jti on the refresh token only |
| Tokens.AccessTokenLifetime | user-service/internal/utils/jwt.go:36 | an issued access token validates to its user before its expiry and is rejected from then on, unless its `exp` is 0, which never expires |
| Tokens.ExpClaimEdgeCases | user-service/internal/utils/jwt.go:69-80 | an `exp` that is not a number is "invalid token" for both validations; an access token with `exp` 0 validates at every time |
| Tokens.RefreshTokenValidAfterIssue | user-service/internal/utils/jwt.go:45-63 | an issued refresh token validates to its user throughout its lifetime |
| Tokens.AccessTokenIsNotRefreshToken | user-service/internal/utils/jwt.go:91-113 | an access token is never accepted as a refresh token |
| Tokens.RefreshRecordCases | user-service/internal/utils/jwt.go:115-127 | for a verified refresh token the result depends only on its Redis record: missing, holding another user, or matching |
| Tokens.RevokeThenRefreshFails | user-service/internal/utils/jwt.go:130-139 | a revoked refresh token no longer validates |
| Tokens.RevokeIdempotent | user-service/internal/utils/jwt.go:130-139 | revoking twice equals revoking once |
| Tokens.ExpiredRefreshTokenCanBeRevoked | user-service/internal/utils/jwt.go:132 | revocation ignores the parse error, so an issued refresh token can still be revoked after it expires |
| Tokens.RevokeAsWrittenPanicsOnAccessToken | user-service/internal/utils/jwt.go:136-137 | the code as written crashes when given an access token |
| Tokens.RevokeAgreesWhereNoPanic | user-service/internal/utils/jwt.go:130-139 | the corrected revocation agrees with the code as written wherever the latter does not crash |
| Gate.NewProvider | user-service/cmd/main.go:53-59 | the provider is built with a 900 s access ttl and a 604800 s refresh ttl |
| Gate.AuthInterceptor | user-service/cmd/main.go:92-123 | exempt methods pass untouched; otherwise missing metadata, a missing authorization value or a rejected token gives Unauthenticated, and acceptance binds exactly the validated user id |
| Gate.BearerPrefixStrippedOnce | user-service/cmd/main.go:116 | the credential is the value after one `Bearer ` prefix |
| Gate.OnlyFirstAuthorizationValueCounts | user-service/cmd/main.go:111-116 | authorization values after the first never change the decision |
| Gate.SubstringExemption | user-service/cmd/main.go:101-104 | a method that merely contains "Login" in its name skips authentication |
| Gate.IssuedAccessTokenPassesGate | user-service/cmd/main.go:92-123 | a freshly issued access token, sent as a bearer credential, passes for 900 seconds and binds its user id; afterwards it is rejected |
| RequestInfo.FirstForwarded | user-service/internal/handler/grpc/helpers.go:27-30 | the result holds no comma and has no surrounding white space |
| RequestInfo.FirstForwardedPicksFirstEntry | user-service/internal/handler/grpc/helpers.go:27-30 | the result is the first comma-separated entry, trimmed, whatever follows it |
| RequestInfo.StripPort | user-service/internal/handler/grpc/helpers.go:35-41 | everything before the last colon, or the whole address when there is none |
| RequestInfo.GetIPFromCtx | user-service/internal/handler/grpc/helpers.go:24-45 | the first forwarded-for entry wins; otherwise the peer address minus its port; otherwise nil |
| RequestInfo.GetUserAgentFromCtx | user-service/internal/handler/grpc/helpers.go:47-56 | the first user-agent value, or "" |
| RequestInfo.ForwardedHeaderWins | user-service/internal/handler/grpc/helpers.go:26-31 | with a forwarded-for header present, the peer does not matter |
| RequestInfo.SplitHostPort | user-service/internal/utils/request_info.go:23 | a successful split yields a port with no colon and host and port with no brackets |
| RequestInfo.SplitJoinRoundTrip | user-service/internal/utils/request_info.go:23 | splitting a joined host and port gives them back |
| RequestInfo.GetIP | user-service/internal/utils/request_info.go:10-28 | X-Forwarded-For's first entry, else X-Real-IP, else the host part of the remote address, else the raw remote address |
| RequestInfo.GetUserAgent | user-service/internal/utils/request_info.go:31-33 | the User-Agent header |
| RequestInfo.GetIPFromRemoteAddr | user-service/internal/utils/request_info.go:23-27 | without proxy headers, the host of a host:port remote address |
| RequestInfo.Ipv6PeerKeepsBracketsInCtx | user-service/internal/handler/grpc/helpers.go:38-40 | an IPv6 peer keeps its brackets in the gRPC path |
| RequestInfo.Ipv6RemoteAddrLosesBrackets | user-service/internal/utils/request_info.go:23 | the same address loses its brackets in the HTTP path |
| LegacyStorage.FormatId | user-service/internal/service/user-service.go:52 | the decimal rendering of an id is a non-empty string of digits |
| LegacyStorage.ParseFormatRoundTrip | user-service/internal/service/user-service.go:52 | parsing the decimal rendering of an id gives the id back |
| LegacyStorage.InsertError | user-service/internal/storage/user-storage.go:37-43 | a unique violation becomes AlreadyExists "username already exists"; other errors pass through |
| LegacyStorage.InsertUser | user-service/internal/storage/user-storage.go:33-45 | fails exactly when the username is taken or the database is down; on success, adds one row under the id the sequence draws next |
| LegacyStorage.LoginSql | user-service/internal/storage/user-storage.go:47-63 | an unknown username or a failed query is NotFound, a mismatching password is Unauthenticated; a matching password always succeeds, and success returns the matching row's id and email |
| LegacyStorage.SelectRow | user-service/internal/storage/user-storage.go:67 | finds the row exactly when the text id parses to a stored id |
| LegacyStorage.UpdateUserName | user-service/internal/storage/user-storage.go:65-78 | a failed row lookup passes its error on; renaming to the current name is AlreadyExists; otherwise it succeeds exactly when no row holds the new name, a held name is a unique violation, and success changes only that row's username |
| LegacyStorage.PasswordChangeCheck | user-service/internal/storage/user-storage.go:80-93 | passes exactly when the old password matches the stored hash and the new one does not; each refusal is FailedPrecondition |
| LegacyStorage.UpdatePasswordAsWritten | user-service/internal/storage/user-storage.go:94-96 | when hashing fails, the empty string is stored as the hash |
| LegacyStorage.UpdatePasswordAsWrittenLocksOut | user-service/internal/storage/user-storage.go:94-96 | after a change to a 73-byte password, the user cannot log in with any password |
| LegacyStorage.UpdatePassword | user-service/internal/storage/user-storage.go:80-98 | succeeds exactly when the checks pass and the new password can be hashed, and then replaces only that row's hash |
| LegacyStorage.UpdatePasswordAgreesWithinLimit | user-service/internal/storage/user-storage.go:80-98 | for passwords bcrypt accepts, the corrected update equals the code as written |
| LegacyStorage.UpdateEmail | user-service/internal/storage/user-storage.go:100-113 | the current email again is AlreadyExists; success changes only that row's email |
| LegacyStorage.GetUserByID | user-service/internal/storage/user-storage.go:115-122 | the row's username and email exactly when the id is found |
| LegacyStorage.UpdateUserNamePreservesWf | user-service/internal/storage/user-storage.go:65-78 | a rename keeps usernames unique |
| LegacyStorage.InsertedRowReachableByFormattedId | user-service/internal/service/user-service.go:47-52 | the id handed to the token generator, as decimal text, finds the inserted row |
| LegacyStorage.PasswordChangeTakesEffect | user-service/internal/storage/user-storage.go:80-98 | after a change, login works with the new password and is refused with the old |
| LegacyService.Register | user-service/internal/service/user-service.go:30-69 | empty username, email or password are refused in that order; a taken username is AlreadyExists; success stores the hash and returns the token for the new id; with valid fields, a password of at most 72 bytes, a free username and the database up, it succeeds exactly when token generation for the decimal form of the next id succeeds, and otherwise fails with "failed to generate token"; a down database fails with no change |
| LegacyService.Throttle | user-service/internal/service/user-service.go:72-85 | the first attempt starts a 60 s window; later attempts count up; the sixth and later attempts are ResourceExhausted; a Redis failure is Internal |
| LegacyService.Login | user-service/internal/service/user-service.go:71-106 | the throttle runs first and its outcome is kept; past it, a row with that username yields the token for its id when the password matches and Unauthenticated when not, and no such row is NotFound |
| LegacyService.ThrottleRun | user-service/internal/service/user-service.go:72-85 | a run of attempts gives one outcome per attempt and keeps Redis's availability |
| LegacyService.ThrottleWithinWindow | user-service/internal/service/user-service.go:79-85 | inside one window, attempt k after count c is refused exactly when c + k exceeds 5 |
| LegacyService.FirstFiveAttemptsAllowed | user-service/internal/service/user-service.go:79-85 | from a fresh window, the first five attempts pass and every later one within the minute is refused |
| LegacyService.WindowExpiryResetsThrottle | user-service/internal/service/user-service.go:79-81 | once the window has expired, the next attempt counts 1 again and opens a new window |
| LegacyService.RegisterThenLogin | user-service/internal/service/user-service.go:30-106 | a registered user who is not throttled logs in with the same credentials |
| LegacyService.DropCachedProfile | user-service/internal/service/user-service.go:121 | the cached profile is gone and nothing else is removed |
| LegacyService.UpdateUserName | user-service/internal/service/user-service.go:108-123 | an empty name is InvalidArgument and a missing caller is Unauthenticated, both before any write; with a name and a caller, it succeeds exactly when the storage rename succeeds, and a storage error is returned as "failed update" with no change; success renames the row and drops the cached profile |
| LegacyService.UpdatePassword | user-service/internal/service/user-service.go:125-141 | the same validation order; with a new password and a caller, it succeeds exactly when the storage update succeeds, and a storage error is returned as "error in storage" with no change; success is the storage password update; the cache is never touched |
| LegacyService.UpdateEmail | user-service/internal/service/user-service.go:143-158 | the same validation order; with an email and a caller, it succeeds exactly when the storage update succeeds, and a storage error is returned as "error in storage" with no change; success changes the email and drops the cached profile |
| LegacyService.DecodeCached | user-service/internal/service/user-service.go:170-177 | a cached entry that is not a profile reads as an empty profile, because the unmarshal error is ignored |
| LegacyService.GetProfile | user-service/internal/service/user-service.go:160-194 | a cache hit is served as is; a miss reads the database, wraps its failure as Internal and caches a hit for ten minutes |
| LegacyService.CachedProfileServedUntilExpiry | user-service/internal/service/user-service.go:166-188 | within ten minutes of caching, later reads return the cached profile whatever the database now holds |
| LegacyService.ProfileReflectsUsernameUpdate | user-service/internal/service/user-service.go:117-121 | because the update drops the cache, the next profile read shows the new username |
| LegacyService.ProfileReflectsEmailUpdate | user-service/internal/service/user-service.go:152-156 | because the update drops the cache, the next profile read shows the new email |
| Repository.WithId | user-service/internal/repository/postgres/user_repo.go:35-37 | an empty id is replaced by the fresh uuid; any other id is kept |
| Repository.Create | user-service/internal/repository/postgres/user_repo.go:23-54 | succeeds exactly when the id and the email are both new, and then stores the user with both timestamps set to now; a clash is a unique violation with no write |
| Repository.GetByID | user-service/internal/repository/postgres/user_repo.go:57-91 | no rows is (nil, nil) rather than an error; a found row is returned as stored |
| Repository.GetByEmail | user-service/internal/repository/postgres/user_repo.go:94-128 | found exactly when some user has that email, and then that user |
| Repository.SetColumn | user-service/internal/repository/postgres/user_repo.go:146 | each allowed column name sets its own field and nothing else |
| Repository.UpdateField | user-service/internal/repository/postgres/user_repo.go:132-149 | a field outside the allow-list is refused; an unknown id updates nothing without error; otherwise sets one column and the update time |
| Repository.ChangePassword | user-service/internal/repository/postgres/user_repo.go:152-161 | sets only that user's hash and update time; an unknown id is not an error |
| Repository.ResetPassword | user-service/internal/repository/postgres/user_repo.go:163-172 | behaves exactly as ChangePassword |
| Repository.Delete | user-service/internal/repository/postgres/user_repo.go:175-178 | removes exactly that user |
| Repository.SessionsOf | user-service/internal/repository/postgres/user_repo.go:181-203 | exactly the sessions of rows with that user id |
| Repository.SessionsOfConcat | user-service/internal/repository/postgres/user_repo.go:181-203 | the selection commutes with concatenating rows: storage order is kept, one session per matching row |
| Repository.Keep | user-service/internal/repository/postgres/user_repo.go:205-213 | exactly the rows not matched by the delete condition |
| Repository.GetSessions | user-service/internal/repository/postgres/user_repo.go:181-203 | exactly the user's sessions, unless the database is down |
| Repository.DeleteSession | user-service/internal/repository/postgres/user_repo.go:205-208 | removes exactly the rows of that user and device |
| Repository.DeleteAllSessions | user-service/internal/repository/postgres/user_repo.go:210-213 | removes exactly the rows of that user |
| Repository.CreateThenGetByEmail | user-service/internal/repository/postgres/user_repo.go:23-128 | a created user is found by its email |
| Repository.DeleteThenGetByID | user-service/internal/repository/postgres/user_repo.go:57-91 | a deleted user is not found |
| Repository.UpdateFieldNullClears | user-service/internal/repository/postgres/user_repo.go:131 | a nil value sets the column to NULL |
| Repository.DeleteSessionEffect | user-service/internal/repository/postgres/user_repo.go:205-208 | afterwards the user has no session for that device, and other users' sessions are unchanged |
| Repository.DeleteAllSessionsEffect | user-service/internal/repository/postgres/user_repo.go:210-213 | afterwards the user has no sessions, and other users' sessions are unchanged |
| UserService.NormalizeEmail | user-service/internal/service/user/user-service.go:32 | empty exactly when the input is all white space |
| UserService.NormalizedEmailShape | user-service/internal/service/user/user-service.go:32 | no surrounding white space and no upper-case ASCII letter |
| UserService.NormalizeEmailIdempotent | user-service/internal/service/user/user-service.go:32 | normalising twice equals normalising once |
| UserService.Register | user-service/internal/service/user/user-service.go:31-84 | a down database fails with no change; a taken normalised email is refused with no write; a password over 72 bytes is "failed to hash password" with no write; with the email free, a fresh id and the database up, it succeeds exactly when Redis is up, and otherwise the token failure comes after the user was created; success creates the user under the fresh id with the normalised email and a matching hash |
| UserService.Login | user-service/internal/service/user/user-service.go:87-107 | never writes to the database; success means the stored user with that normalised email matches the password, and such a match succeeds whenever Redis is up; a token failure happens only on a match with Redis down; success hands out the pair issued for that user and records its refresh:<jti> |
| UserService.LoginDoesNotRevealAccounts | user-service/internal/service/user/user-service.go:88-95 | an unknown email and a wrong password give the same error |
| UserService.RegisterThenLogin | user-service/internal/service/user/user-service.go:31-107 | after registering, logging in with any spelling of the email that normalises the same way returns the same user |
| UserService.RegisteredAccessTokenNamesUser | user-service/internal/service/user/user-service.go:74-83 | the access token from Register validates to the new user's id |
| UserService.LoginTokensNameUser | user-service/internal/service/user/user-service.go:97-106 | the access token from Login validates to the user's id for its lifetime, and the refresh token does so against the store Login leaves |
| UserService.GetProfile | user-service/internal/service/user/user-service.go:110-112 | the stored user or nil |
| UserService.WriteAndReload | user-service/internal/service/user/user-service.go:119-122 | fails exactly when the column update fails, with its error; on success, a fresh read of the same user |
| UserService.UpdateUsername | user-service/internal/service/user/user-service.go:115-123 | an empty name is refused with no write; otherwise it succeeds exactly when the database is up, and the returned user has the new name |
| UserService.UpdateEmail | user-service/internal/service/user/user-service.go:125-134 | an email that is all white space is refused; otherwise it succeeds exactly when the database is up and no other user holds the normalised email, a clash being a unique violation, and the stored email is the normalised one |
| UserService.UpdateFullName | user-service/internal/service/user/user-service.go:136-144 | an empty name is refused; otherwise it succeeds exactly when the database is up, and the returned user has it |
| UserService.UpdateAvatar | user-service/internal/service/user/user-service.go:146-155 | succeeds exactly when the database is up; a blank URL clears the avatar; any other URL is stored verbatim |
| UserService.UpdateLanguage | user-service/internal/service/user/user-service.go:157-165 | an empty language is refused; otherwise it succeeds exactly when the database is up, and the returned user has it |
| UserService.UpdateTouchesOneColumn | user-service/internal/repository/postgres/user_repo.go:146 | a username update changes only the username and the update time |
| UserService.RefreshToken | user-service/internal/service/user/user-service.go:168-189 | an invalid refresh token and a missing user are distinct errors; a valid token of a stored user always gets a new pair; success issues new tokens for the stored user and records the new jti |
| UserService.RefreshDoesNotRevoke | user-service/internal/service/user/user-service.go:168-189 | refreshing leaves the presented refresh token valid |
| UserService.ChangePasswordAsWritten | user-service/internal/service/user/user-service.go:197-213 | an unknown user crashes on a nil dereference |
| UserService.ChangePassword | user-service/internal/service/user/user-service.go:197-213 | an unknown user is "user not found" and a wrong old password is refused, neither writing; with the old password right it succeeds exactly when the new one is at most 72 bytes, and is "failed to hash new password" otherwise; success replaces only that user's hash |
| UserService.ChangePasswordAgreesWhereNoPanic | user-service/internal/service/user/user-service.go:197-213 | the corrected function equals the code as written wherever the latter does not crash |
| UserService.ChangePasswordThenLogin | user-service/internal/service/user/user-service.go:197-213 | after a change, login accepts the new password, and accepts the old one exactly when bcrypt gives both the same key |
| UserService.ChangePasswordRefusesShortOld | user-service/internal/service/user/user-service.go:197-213 | after a change to a different password, an old password under 72 bytes is refused |
| UserService.ForgotPassword | user-service/internal/service/user/user-service.go:216-218 | always succeeds and changes nothing |
| UserService.ResetPassword | user-service/internal/service/user/user-service.go:221-224 | whatever the token and password, only a user with the empty id could be affected |
| UserService.Logout | user-service/internal/service/user/user-service.go:192-194 | deletes exactly that device's session rows of the user |
| UserService.DeleteAccount | user-service/internal/service/user/user-service.go:227-229 | removes the user and leaves the sessions table as it was |
| UserService.DeletedUserCannotRefresh | user-service/internal/service/user/user-service.go:174-177 | after account deletion a still-valid refresh token yields "user not found" |
| UserService.GetSessions | user-service/internal/service/user/user-service.go:232-234 | exactly the user's sessions |
| UserService.DeleteSession | user-service/internal/service/user/user-service.go:237-239 | the same effect as Logout |
| UserService.DeleteAllSessions | user-service/internal/service/user/user-service.go:242-244 | removes exactly the user's session rows |
| Handlers.CallerID | user-service/internal/handler/grpc/user_server.go:69-72 | the caller passes exactly when the context holds a non-empty string under "userID" |
| Handlers.ToPtr | user-service/internal/handler/grpc/user_server.go:297-302 | nil exactly for the empty string |
| Handlers.GetStr | user-service/internal/handler/grpc/user_server.go:304-309 | "" for nil, the pointee otherwise |
| Handlers.GetStrToPtr | user-service/internal/handler/grpc/user_server.go:297-309 | getStr undoes toPtr |
| Handlers.ToPtrGetStr | user-service/internal/handler/grpc/user_server.go:297-309 | toPtr undoes getStr except on a pointer to "" |
| Handlers.ToUserPB | user-service/internal/handler/grpc/user_server.go:266-286 | nil maps to nil; each optional field becomes its string or "" |
| Handlers.UserPBRoundTrip | user-service/internal/handler/grpc/user_server.go:266-286 | the message loses only the password hash and the nil versus "" distinction |
| Handlers.ToAuthResponse | user-service/internal/handler/grpc/user_server.go:288-294 | the tokens are copied and the user is converted |
| Handlers.ToSessionPBs | user-service/internal/handler/grpc/user_server.go:126-134 | one message per session, in order, with the same fields |
| Handlers.RegisterDTOFor | user-service/internal/handler/grpc/user_server.go:28-43 | crashes exactly when no client address can be found; otherwise empty optional fields become nil and the address, agent and location come from the context |
| Handlers.Register | user-service/internal/handler/grpc/user_server.go:27-51 | a DTO that cannot be built is a crash with no effect; otherwise the state is the service's, it succeeds exactly when the service does, with the converted result, and a service error passes through unchanged |
| Handlers.Login | user-service/internal/handler/grpc/user_server.go:56-62 | succeeds exactly when the service does, with the converted result; a service error passes through unchanged |
| Handlers.RefreshToken | user-service/internal/handler/grpc/user_server.go:142-148 | succeeds exactly when the service does, with the converted result; a service error passes through unchanged |
| Handlers.UserOut | user-service/internal/handler/grpc/user_server.go:158-162 | a service error passes through; a user is converted |
| Handlers.EmptyOut | user-service/internal/handler/grpc/user_server.go:108-111 | a service error passes through; success is an empty reply |
| Handlers.LogoutAsWritten | user-service/internal/handler/grpc/user_server.go:84-98 | for a user with no row, the handler crashes on the nil user |
| Handlers.Logout | user-service/internal/handler/grpc/user_server.go:84-98 | a down database fails with no effect; a missing user is "user not found"; a stored user always succeeds, deleting the session of the device stored on the user row, not one named by the client |
| Handlers.LogoutAgreesWhereNoPanic | user-service/internal/handler/grpc/user_server.go:84-98 | the corrected handler equals the code as written wherever the latter does not crash |
| Handlers.LogoutAfterDeleteAccount | user-service/internal/handler/grpc/user_server.go:84-112 | Logout after DeleteAccount crashes as written, and is "user not found" when corrected |
| Handlers.SessionPBsFromRows | user-service/internal/handler/grpc/user_server.go:117-136 | every session reported belongs to the caller |
| Handlers.Dispatch | user-service/internal/handler/grpc/user_server.go:67-240 | no protected call touches Redis; a failed call changes no user; profile and session reads change nothing and report the caller's own data |
| Handlers.Serve | user-service/internal/handler/grpc/user_server.go:67-240 | a failed guard is "unauthenticated" with no effect; otherwise the call runs for the caller id |
| Handlers.ForgotPassword | user-service/internal/handler/grpc/user_server.go:245-250 | always succeeds and changes nothing |
| Handlers.ResetPassword | user-service/internal/handler/grpc/user_server.go:256-261 | fails exactly when the database is down, and affects no user with a generated id |
| Handlers.ExemptMethodsStillGuarded | user-service/cmd/main.go:101-104 | a method exempted by the substring rule passes the interceptor with no caller id, so every protected handler refuses it |
| Handlers.GateThenGuard | user-service/cmd/main.go:116-121 | the user id bound by the interceptor is what the handler sees; an empty one passes the interceptor but fails the guard |

## Left out

- Kafka publishing (both services): fire-and-forget, and its errors are only logged.
- GetLocationFromIP: an HTTP call to a geolocation service. It is the parameter `locate`, which returns "" when the call fails.
- The bytes of a JWT (header, payload, HMAC): the codec is abstract. Verification is the algorithm, the secret and `exp`; `nbf` and clock leeway are not modelled.
- Tokens.Verifies: a numeric `exp` is a whole number of seconds. A fractional `exp` is not modelled.
- bcrypt's salt, cost and Blowfish rounds: the digest records the password, and a comparison compares keys.
- Common.BcryptKey: Blowfish's key schedule repeats a key shorter than 72 bytes cyclically. The model cuts the key at 72 bytes without that repetition. The two differ only for passwords that contain a NUL character.
- `utils.GenerateJWT` of the legacy service is not part of this model. It is the parameter `generateJWT`.
- Connection setup, configuration, `main`'s wiring and listener, reflection, and `utils/ctx.go`.
- Concurrency: each operation is atomic, so the gap between INCR and EXPIRE in the throttle is not modelled.
- 64-bit integer ranges: ids, counters and timestamps are unbounded naturals. Timestamps are seconds, and `toProtoTime` is the identity.
- Common.ToLower: lowers ASCII letters only. Go's `strings.ToLower` also lowers other Unicode letters.
- LegacyStorage.Wf: only the username is unique. The schema of the legacy `users` table is not part of this model.
- Repository.Wf: ids and emails are unique. This is assumed to be the table's primary key and a UNIQUE(email) constraint, whose schema is not part of this model. The code does not ensure it: Register checks the email first, but UpdateEmail writes without a check.
- UserService.ResetPassword and Handlers.ResetPassword: the UPDATE's `WHERE id = ''` is taken to compare text ids, so it matches no generated id and fails only when the database is down. The schema is not part of this model; if `id` is a `uuid` column, PostgreSQL refuses the empty string (22P02) and every call fails.
- Repository.Delete: the database is assumed to have no foreign-key cascade, so session rows outlive their user.
- LegacyStorage.ParseId: accepts only plain decimal digits. PostgreSQL's text-to-integer cast also allows signs and surrounding blanks.
- UserService.Register: in the success case, fields other than the id, username, email and hash are not restated. They are copied from the DTO as NewUser builds them.
- The `Call`/`Serve` form gives the ten protected handlers one shared guard. Each Go handler repeats that guard verbatim.
- LegacyService.UpdatePassword: calls the corrected LegacyStorage.UpdatePassword. The code as written stores an empty hash for an over-long password; LegacyStorage.UpdatePasswordAsWritten models that (see Findings).
- Handlers.Dispatch: routes Logout and ChangePassword to the corrected Handlers.Logout and UserService.ChangePassword. The code as written crashes for a caller with no user row; Handlers.LogoutAsWritten and UserService.ChangePasswordAsWritten model that (see Findings).

## Findings

| source | as written | input that shows it | evidently intended | confidence | as-written member | corrected member |
|---|---|---|---|---|---|---|
| user-service/internal/utils/jwt.go:136-137 | the `jti` claim is asserted to be a string without a check | revoking an access token, which has no `jti` | return an error, as ValidateRefreshToken does ("jti missing") | high, not executed | Tokens.RevokeRefreshTokenAsWritten, Tokens.RevokeAsWrittenPanicsOnAccessToken | Tokens.RevokeRefreshToken |
| user-service/internal/service/user/user-service.go:198-203 | GetByID returns (nil, nil) for a missing row; only the error is checked, then `user.PasswordHash` is read | ChangePassword for a user id with no row | "user not found" | high, not executed | UserService.ChangePasswordAsWritten | UserService.ChangePassword |
| user-service/internal/handler/grpc/user_server.go:89-94 | the same nil user is dereferenced through `user.DeviceID` | Logout with a still-valid access token after DeleteAccount | report the missing user | high, not executed | Handlers.LogoutAsWritten, Handlers.LogoutAfterDeleteAccount | Handlers.Logout |
| user-service/internal/storage/user-storage.go:94-96 | the hashing error is overwritten by the UPDATE's error, so the empty hash is stored | changing to a 73-character ASCII password | refuse the change and keep the old hash | high, not executed | LegacyStorage.UpdatePasswordAsWritten, LegacyStorage.UpdatePasswordAsWrittenLocksOut | LegacyStorage.UpdatePassword |
