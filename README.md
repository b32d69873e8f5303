# go-blog: sessions, revocation and ownership checks, in Dafny

This project models the authentication and session layer of the go-blog HTTP service, and
the blog's ownership-checked comment and post services.

The session layer has these parts:

- **Token service.** It issues and checks JWTs. Session tokens carry `user_id` and `exp`;
  email-verification and password-reset tokens carry `email` and `exp`.
- **Revocation store.** A Redis blacklist of logged-out tokens.
- **Middleware chain.** `Auth` binds the caller's identity; `RequireLogin` and `GuestOnly`
  gate routes on it.
- **User service.** Register, login and logout.

The model also covers the context decoder (`GetUserIDFromContext`), the DTO mappers and the
route table the server runs.

## How the model reads

- **Tokens.** The token library and its compact encoding are a symbolic codec
  (`JwtCodec`). A decoded token is a `Jws` value carrying the header's signing method, the
  claim set and a signature. A signature is the symbolic value
  `Mac(method, key, claims)`, so "signed with the same secret" is equality of MACs.
- **The one assumption.** `Faithful(codec)` says that decoding an encoded token gives it
  back. Lemmas about issued tokens take it as a precondition.
- **Claims.** A claim set is a map from names to `Str`, `Num` or `Other`, so the type
  assertions in the source stay visible.
- **Time.** Time `now` is an integer number of seconds, passed to every operation that reads
  the clock.
- **Faults and randomness.** A failure of the database or of the Redis server is a
  `fault: Option<Error>` parameter. So are the random id (`uuid.New`) and the salt that the
  repositories draw.
- **Error returns.** A Go `(T, error)` pair whose value matters on error is `Ret(value, err)`.
  A `(*T, error)` pair is `Result<T>`.
- **Stores.** The revocation store is `Revocation.RedisService`, a class over a
  `map<string, Entry>`; an entry holds the value and the instant it lapses. The users,
  comments and posts tables are `map<UUID, …>` fields of the service classes, and their
  methods carry `modifies` clauses.
- **Comment columns.** The comments table is declared (id, content, post_id, user_id), but the
  repository's scans read it into (ID, Content, UserID, PostID) (see Findings). Every method of the
  `CommentService` class reads each column into its own field, as intended: `CreateComment`,
  `GetCommentById`, `GetAllComments`, `UpdateComment` and `DeleteComment` all return and compare
  the true author and post. The code as written is `ScanAsWritten`, `GetByIdAsWritten` and
  `UpdateCommentAsWritten`.
- **Routes.** `Routes.Serve` applies the table of `cmd/main.go` to a request. Everything
  goes through `Auth` first, because `Auth` wraps the whole multiplexer.
- **Session scenario.** `Session.RegisterLoginLogout` runs register, login, a gated request
  and logout on fresh services, and shows that the token is then refused.

Three inconsistencies in the source are each modelled as the one thing they evidently are:

- `userService.LogoutUser` calls `ParseTokenClaims` (internal/services/user.go:62). The token
  service defines it as `parseTokenClaims` (internal/services/jwt.go:96), and the interface
  does not list it. They are one operation, `Jwt.ParseTokenClaims`.
- `GetUserIDFromContext` reads `middlewares.UserIDKey` (pkg/utils/http.go:19), but only the
  unexported `userIDKey` exists (internal/middlewares/auth.go:13). They are one context slot,
  `Request.userId`.
- The post interface declares `DeletePost(userId, postId)`, but the implementation is
  `DeletePost(id)` (internal/services/post.go:62). The implementation is modelled.

The user repository's `FindByUsernameOrEmail` returns `(nil, nil)` when no row matches
(internal/repository/user.go:80-82). That is why the service tests for `nil`. The model
reads this as `Ok(None)`.

## Model

| member | source | states |
|---|---|---|
| `JwtCodec.CheckExpiry` | internal/services/jwt.go:103 | the library's `exp` rule: a token passes exactly when it has no `exp` or a numeric `exp` strictly after `now`; any other `exp` type fails |
| `JwtCodec.Sign` | internal/services/jwt.go:91-94 | under a faithful codec, the token decodes to an HS256 header, exactly the given claims and the HS256 MAC of those claims under the key |
| `JwtCodec.Parse` | internal/services/jwt.go:96-105 | an undecodable text is "token is malformed" and a non-HMAC header "unexpected signing method"; whatever it accepts is authentic and unexpired (`Accepts`) |
| `JwtCodec.ParseSound` | internal/services/jwt.go:96-105 | parsing succeeds exactly when the token decodes to claims signed with the service key by an HMAC method and unexpired; the claims returned are those claims |
| `JwtCodec.SignThenParse` | internal/services/jwt.go:91-105 | a token signed with the same key parses back to its claims while the claims are unexpired |
| `JwtCodec.SignedExpiredRejected` | internal/services/jwt.go:103-104 | a signed token whose claims fail the expiry rule is refused |
| `JwtCodec.OtherKeyRejected` | internal/services/jwt.go:97-104 | a token signed with any other key is refused |
| `JwtCodec.NonHmacRejected` | internal/services/jwt.go:97-100 | a token whose header names a non-HMAC method (RSA, ECDSA, PSS, EdDSA, none) is refused as "unexpected signing method", whatever its signature |
| `JwtCodec.ExpiryIsFinal` | internal/services/jwt.go:103-104 | once the `exp` of an accepted token has passed, the token is accepted with no claim set at that instant or any later one |
| `Jwt.ParseTokenClaims` | internal/services/jwt.go:96-113 | every failure is "invalid token"; it succeeds exactly when some claim set is accepted, and then returns the accepted one |
| `Jwt.GenerateToken` | internal/services/jwt.go:28-34 | under a faithful codec, the token decodes to HS256 claims {`user_id`: the id's text, `exp`: now plus the session lifetime}, signed with the service secret |
| `Jwt.GenerateEmailVerificationToken` | internal/services/jwt.go:36-42 | the same with claims {`email`, `exp`: now plus the verification lifetime} |
| `Jwt.GeneratePasswordResetToken` | internal/services/jwt.go:44-50 | the same with claims {`email`, `exp`: now plus the reset lifetime} |
| `Jwt.StringClaim` | internal/services/jwt.go:58-62 | the string type assertion: succeeds exactly when the claim is present and a string, and returns it; otherwise ("", "invalid token payload") |
| `Jwt.ValidateClaim` | internal/services/jwt.go:52-89 | the shared validator shape: a token accepted with no claim set gives ("", "invalid token"); an accepted claim set without a string under the key gives ("", "invalid token payload"); success holds exactly when an accepted claim set carries a string under the key, which is returned |
| `Jwt.ValidateToken` | internal/services/jwt.go:52-63 | a refused token gives ("", "invalid token") and an accepted one without a string `user_id` gives ("", "invalid token payload"); it succeeds exactly when an accepted claim set has a string `user_id`, and returns it |
| `Jwt.ValidateEmailVerificationToken` | internal/services/jwt.go:65-76 | the same two errors and the same success condition, for a string `email` |
| `Jwt.ValidatePasswordResetToken` | internal/services/jwt.go:78-89 | the same two errors and the same success condition, for a string `email` |
| `Jwt.AcceptedClaimsUnique` | internal/services/jwt.go:96-105 | a token is accepted with at most one claim set |
| `Jwt.IssuedClaims` | internal/services/jwt.go:28-50 | each issued token parses to exactly its claim map {`user_id` or `email`, `exp`}, whose `exp` is the issuing instant plus the duration configured for that purpose (session, verification, reset), for as long as it is unexpired |
| `Jwt.SessionRoundTrip` | internal/services/jwt.go:28-63 | before its `exp`, `ValidateToken` of a session token returns the user's id as text; afterwards it returns ("", "invalid token") |
| `Jwt.EmailTokensAreNotSessions` | internal/services/jwt.go:36-61 | a verification or reset token has no `user_id`, so `ValidateToken` answers "invalid token payload" (or "invalid token" once it has expired) |
| `Jwt.SessionTokensAreNotEmailTokens` | internal/services/jwt.go:28-89 | a session token has no `email`, so both email validators reject it the same way |
| `Jwt.EmailTokensInterchangeable` | internal/services/jwt.go:36-89 | verification and reset tokens have the same shape, so each email validator accepts the other's unexpired token and returns its email |
| `Jwt.ForeignSecretRejected` | internal/services/jwt.go:91-105 | a token issued under a different secret is ("", "invalid token") |
| `Jwt.NonHmacTokensRejected` | internal/services/jwt.go:97-104 | a token naming a non-HMAC method is ("", "invalid token") for all three validators |
| `Revocation.Get` | internal/services/redis.go:31-33 | GET returns a value exactly for a key that is present and has not lapsed |
| `Revocation.Set` | internal/services/redis.go:26 | SET adds or replaces only its key; afterwards GET of that key gives the value until the expiration has elapsed, and for ever when the expiration is zero or negative |
| `Revocation.Query` | internal/services/redis.go:29-39 | never true together with an error; a store error is (false, err); otherwise the answer is true exactly when the live value is "1" |
| `Revocation.RedisService.BlacklistToken` | internal/services/redis.go:24-27 | on success the store is SET with that expiration; on a store error it is unchanged and the error is returned |
| `Revocation.RedisService.IsBlacklistedToken` | internal/services/redis.go:29-39 | answers `Query` over the current store |
| `Revocation.BlacklistedUntilExpiry` | internal/services/redis.go:24-38 | after a SET of "1" with expiration d > 0 the token reads as (true, nil) exactly until d has elapsed, and the raw value reads back as "1" |
| `Revocation.AbsentIsNotBlacklisted` | internal/services/redis.go:31-33 | a key never set, or lapsed, reads as (false, nil): not-found is not an error |
| `Revocation.OtherValueIsNotBlacklisted` | internal/services/redis.go:38 | a live key holding anything but "1" reads as not blacklisted |
| `Revocation.SetOnlyTouchesItsKey` | internal/services/redis.go:26 | setting one key leaves every other token's answer unchanged, at every instant and for every fault |
| `Revocation.BlacklistAgain` | internal/services/redis.go:26 | blacklisting again overwrites the entry, the later expiration winning, and the token stays blacklisted |
| `Middleware.TrimPrefix` | internal/middlewares/auth.go:35 | removes a leading prefix when present and is the identity otherwise |
| `Middleware.BearerToken` | internal/middlewares/auth.go:35 | a header that starts with "Bearer " is that prefix followed by the token; any other header is the token itself |
| `Middleware.Auth` | internal/middlewares/auth.go:27-54 | always forwards exactly one request; binds an identity exactly when the header is non-empty, the blacklist answered (false, nil) and validation succeeded, and then binds validation's value as a string; consults the blacklist first, and the validator exactly when the blacklist answered (false, nil) |
| `Middleware.RequireLogin` | internal/middlewares/auth.go:56-64 | invokes the handler with the same request exactly when an identity is bound; otherwise answers 401 |
| `Middleware.GuestOnly` | internal/middlewares/auth.go:66-74 | invokes the handler with the same request exactly when no identity is bound; otherwise answers 403 |
| `Middleware.RevokedOrUnknownIsAnonymous` | internal/middlewares/auth.go:37-41 | a store error or a blacklisted token leaves the request anonymous, and the validator is not consulted |
| `Middleware.ExactlyOneGatePasses` | internal/middlewares/auth.go:58-68 | every request passes exactly one of the two gates |
| `HttpUtils.GetUserIdFromContext` | pkg/utils/http.go:18-32 | a UUID value comes back unchanged; a string goes through `uuid.Parse`; nil or any other type gives the zero UUID with "invalid user ID format in context"; every error comes with the zero UUID |
| `HttpUtils.DecodeAuthIdentity` | pkg/utils/http.go:27-29 | the identity `Auth` binds is a string, so decoding goes through `uuid.Parse`, and the text of a UUID decodes back to that UUID; an anonymous request decodes to the format error |
| `Uuid.Parse` | pkg/utils/http.go:28 | succeeds exactly for the four layouts of `UuidText`: 36 characters of 8-4-4-4-12 hex digits joined by dashes; `urn:uuid:` in any case before that; that layout after one character (the library does not check the braces' characters); or 32 hex digits. Anything else, a misplaced dash or a non-hex digit included, is an error with the zero UUID. On success the UUID's canonical text is the lower-cased input layout, and for the bare form its hex is the lower-cased input |
| `Uuid.ToString` | internal/services/jwt.go:30 | the canonical text: 36 characters with dashes at positions 8, 13, 18 and 23 |
| `Uuid.ParseToString` | internal/services/jwt.go:30 | parsing the canonical text of a UUID, as a session token carries it, gives the UUID back without error |
| `Uuid.ToStringInjective` | internal/services/jwt.go:30 | distinct users have distinct `user_id` texts |
| `Table.Rows` | internal/repository/comment.go:29-47 | a full-table read returns every row exactly once, in some order |
| `Table.DistinctRows` | internal/repository/comment.go:29-47 | when every value carries its own key, the rows of a full read are pairwise distinct |
| `UserService.LoginDecision` | internal/services/user.go:45-59 | a token is issued exactly when the lookup found a row whose stored hash is `HashPassword(password, salt)`, and it is that row's session token; a lookup error or no row gives "invalid username or email", a wrong hash gives "invalid password", and no token is issued in either case |
| `UserService.HashDeterminesSaltAndPassword` | pkg/utils/hash.go:10-24 | with a collision-free digest and salts of one length (32 hex digits, as `GenerateSalt` draws), equal hashes come from the same salt and the same password |
| `UserService.LogoutPlan` | internal/services/user.go:61-74 | a token `ParseTokenClaims` refuses gives "invalid token"; parsed claims with a missing or non-numeric `exp` give "token expiration failed"; it fails exactly in those cases; on success the lifetime is positive and `exp` is exactly `now` plus it |
| `UserService.LogoutPlanOfSessionToken` | internal/services/user.go:61-76 | for a session token, logout plans to blacklist it for exactly its remaining validity, and refuses it as "invalid token" once it has expired |
| `UserService.UserService.FindByUsernameOrEmail` | internal/repository/user.go:75-87 | returns a stored row that matches on username or email, or none exactly when no row matches; a fault is the error |
| `UserService.UserService.Create` | internal/repository/user.go:21-37 | inserts the request's fields, with the salted digest as password and the fresh id and salt, exactly when the salt was drawn, the database did not fail and no id, username or email clashes; takes a 32-character salt, as `GenerateSalt` draws, and keeps usernames and emails unique and every stored salt 32 characters long |
| `UserService.UserService.RegisterUser` | internal/services/user.go:29-43 | a lookup error propagates and a matching username or email gives "username or email already taken", both leaving the table unchanged; otherwise the result is `Create`'s |
| `UserService.UserService.LoginUser` | internal/services/user.go:45-59 | a token is issued only for a row matching the text as username or email whose hash matches, and it is that row's session token; unknown users or a lookup error give "invalid username or email", all-wrong hashes give "invalid password"; all-right hashes give success |
| `UserService.UserService.LogoutUser` | internal/services/user.go:61-77 | a refused token leaves the store unchanged with `LogoutPlan`'s error; otherwise the result is the store's, and on success the token is SET to "1" for exactly its remaining lifetime |
| `UserService.UserService.GetAllUsers` | internal/services/user.go:79-85 | on a table keyed by id: as many rows as users, each the public projection of a stored user, every projection present, and no two rows equal, so every user exactly once, with password and salt blank |
| `UserService.PublicRows` | internal/repository/user.go:39-60 | the rows of a full read of the users table are each user's public projection, each exactly once |
| `UserService.UserService.GetUserById` | internal/services/user.go:87-93 | the user without password or salt, or "user not found" |
| `CommentService.ScanAsWritten` | internal/repository/comment.go:53 | as written, reading a row back swaps the user and post ids |
| `CommentService.OwnerCheckAsWritten` | internal/services/comment.go:51 | as written, the owner check passes exactly for a caller whose id is the comment's post id |
| `CommentService.GetByIdAsWritten` | internal/repository/comment.go:49-60 | as written, a lookup finds exactly the stored ids, and the row it returns has the stored post id as its user id and the stored user id as its post id |
| `CommentService.AuthorRefusedAsWritten` | internal/services/comment.go:63-69 | as written, the author of a comment on another user's post fails the owner check, and a caller whose id is the post id passes it |
| `CommentService.AuthorRefusedExample` | internal/services/comment.go:51-53 | a concrete comment whose author is refused as written |
| `CommentService.UpdateCommentAsWritten` | internal/services/comment.go:46-60 | as written (swapped scan, then the unparsable update): a failed lookup gives "comment not found", a caller other than the post's id gives "unauthorized", and the post's id reaches the syntax error; the table never changes |
| `CommentService.NoUpdateSucceedsAsWritten` | internal/repository/comment.go:63 | as written, no call of `UpdateComment` succeeds or changes the table, and the real author of a comment on another user's post is told "unauthorized" |
| `CommentService.CommentService.CreateComment` | internal/services/comment.go:21-28 | stores the comment under a fresh id and the caller's user id, whatever the input carried; a fault or id clash leaves the table unchanged; columns are read into their own fields, as intended (see Findings) |
| `CommentService.CommentService.GetCommentById` | internal/services/comment.go:30-36 | the stored comment, "comment not found", or the fault; columns are read into their own fields, as intended (see Findings) |
| `CommentService.CommentService.GetAllComments` | internal/services/comment.go:38-44 | on a table keyed by id: as many rows as comments, exactly the stored comments, no two rows equal, so each exactly once; or the fault; columns are read into their own fields, as intended (see Findings) |
| `CommentService.CommentService.UpdateComment` | internal/services/comment.go:46-60 | a failed lookup gives "comment not found" and a non-owner "unauthorized", both leaving the table unchanged; success occurs exactly for the owner and changes only that comment's content, keeping its owner |
| `CommentService.CommentService.DeleteComment` | internal/services/comment.go:62-74 | a lookup error propagates and a non-owner gets "unauthorized", both leaving the comment in place; the owner removes exactly that comment |
| `PostService.PostService.CreatePost` | internal/services/post.go:21-28 | stores title and content under a fresh id and the caller's user id; the returned post keeps the input's comments, which are not stored |
| `PostService.PostService.GetPostById` | internal/services/post.go:30-36 | the stored post, "post not found", or the fault |
| `PostService.PostService.GetAllPosts` | internal/services/post.go:38-44 | on a table keyed by id: as many rows as posts, exactly the stored posts, no two rows equal, so each exactly once; or the fault |
| `PostService.PostService.UpdatePost` | internal/services/post.go:46-60 | a failed lookup gives "post not found" and a non-owner "unauthorized user", both leaving the table unchanged; success occurs exactly for the owner and replaces only title and content, keeping the owner |
| `PostService.PostService.DeletePost` | internal/services/post.go:62-67 | no owner check: any existing post is removed at anyone's request; a missing id gives "post not found" and a fault propagates, both leaving the table unchanged |
| `UserDto.Valid` | internal/dto/user.go:9-13 | the validation tags: names of 2-50 characters, a username of 3-30 ASCII letters and digits, an email, a password of at least 8 characters; every field is present |
| `UserDto.UsernameNeverAnEmail` | internal/dto/user.go:11-12 | since every address contains an '@', no valid username equals a valid email |
| `UserDto.ToModel` | internal/dto/user.go:26-34 | copies the five request fields; id and salt stay zero |
| `UserDto.UserResponseFromModel` | internal/dto/user.go:36-44 | copies id, names, username and email |
| `UserDto.ResponseHidesSecrets` | internal/dto/user.go:36-44 | the response never depends on password or salt |
| `UserDto.ResponseDeterminesPublicFields` | internal/dto/user.go:36-44 | users with equal responses differ at most in password and salt |
| `UserDto.RequestToResponse` | internal/dto/user.go:26-44 | the response of a freshly built model is the request without its password, with the zero id |
| `UserDto.UserListResponse` | internal/dto/user.go:46-52 | preserves length; element i is the response of user i |
| `CommentDto.Valid` | internal/dto/comment.go:9-10 | the `required` tags: a non-empty content and a post id other than the zero UUID (the validator's `required` on a 16-byte array) |
| `CommentDto.ToModel` | internal/dto/comment.go:20-24 | copies only the content; id, user id and post id are zero |
| `CommentDto.ModelLosesPost` | internal/dto/comment.go:9-24 | even for a valid request (non-empty content, non-zero post id), the model names no post |
| `CommentDto.CommentResponseFromModel` | internal/dto/comment.go:26-33 | copies id, content, user id and post id |
| `CommentDto.ResponseInjective` | internal/dto/comment.go:26-33 | the response loses nothing: equal responses come from equal comments |
| `CommentDto.CommentListResponse` | internal/dto/comment.go:35-41 | preserves length and maps element-wise in order |
| `PostDto.Valid` | internal/dto/post.go:10-11 | title of 5-50 and content of 5-1000 characters, both present |
| `PostDto.ToModel` | internal/dto/post.go:32-37 | copies title and content; id, owner and comments stay zero or empty |
| `PostDto.FromPost` | internal/dto/post.go:40-47 | copies id, title, content and owner |
| `PostDto.FromPostDetail` | internal/dto/post.go:50-58 | copies the same and the comments unchanged |
| `PostDto.ResponsesAgree` | internal/dto/post.go:40-58 | the short response ignores comments; the detailed one loses nothing |
| `PostDto.RequestToResponse` | internal/dto/post.go:32-47 | a request's title and content reach the response unchanged, with zero id and owner and no comments |
| `PostDto.FromPostList` | internal/dto/post.go:61-67 | preserves length; element i is the detailed response of post i |
| `Routes.Find` | cmd/main.go:40-44 | exact-path pattern matching: a route whose path and method match (a GET pattern also serves HEAD); 405 when only the path matches, 404 when no path does |
| `Routes.Gatekeep` | cmd/main.go:40-44 | the wrapper a route is registered with: the handler runs on the same request exactly when a guest route sees no identity or a login route sees one; otherwise 403 or 401 respectively |
| `Routes.TableLookups` | cmd/main.go:40-44 | each served pattern finds its own route and gate |
| `Routes.Serve` | cmd/main.go:38-44 | 404 and 405 as dispatch says; otherwise the handler runs, on the request `Auth` forwarded, exactly when the route's gate admits the bound identity; login routes answer 401 to anonymous requests and guest routes 403 to logged-in ones |
| `Routes.AnonymousVisitor` | cmd/main.go:40-44 | without a header, register and login run, and logout and post creation answer 401 |
| `Routes.SessionIsLoggedIn` | cmd/main.go:40-44 | a live, unrevoked session token reaches the login routes with the user's id bound as text, and the guest routes answer 403 |
| `Routes.LoggedOutStaysAnonymous` | internal/services/user.go:61-76 | after `LogoutUser` blacklists a token, every later request carrying it is anonymous: the blacklist refuses it until its `exp`, and the validator after |
| `Routes.LoggedOutIsRefused` | cmd/main.go:42 | so `GET /users/logout` answers 401 to a logged-out token at every later instant |
| `Routes.StoreOutageIsAnonymous` | internal/middlewares/auth.go:37-41 | while the store errs on a token, any served route runs for it exactly when it is a guest route |
| `Session.RegisterLoginLogout` | internal/services/user.go:29-77 | on fresh services, a registered user's login token reaches `GET /users/logout` with the user's id bound; after logging out, the same request answers 401 at that instant and later |

## Left out

- Signing failures (`createTokenWithClaims`). `SignedString` cannot fail for HS256 with a byte key, so token generation is total. The error path at internal/services/user.go:54-57 is not modelled.
- The "invalid token claims" branch (internal/services/jwt.go:107-110). `jwt.Parse` always yields map claims, so the branch cannot be taken.
- Claim checks other than `exp`. The library's `nbf`, `iat`, `aud`, `iss` checks and its leeway are not modelled, and the service never sets those claims.
- Encoding details. HMAC, base64url and JSON encoding are replaced by the symbolic codec. `Faithful` is the only property assumed of them.
- The library's parse error texts are simplified. Every failure is mapped to "invalid token" before any caller sees it.
- JwtCodec.CheckExpiry: golang-jwt v5 reads a numeric `exp` of exactly 0 as an absent `exp`; the model reads it as an instant like any other. An issued token's `exp` is the issuing instant plus a configured lifetime, so it is 0 only on a clock set before 1970.
- Token texts that decode alike. The codec may map several texts to one token, as a lenient base64 decoder does; the blacklist is keyed by the exact text (internal/services/redis.go:26, 31), so `Revocation.SetOnlyTouchesItsKey` leaves such a variant unrevoked. Whether the library's decoder admits variants is not part of this model.
- Float `exp`. `exp` arrives as a `float64` (internal/services/user.go:66) and is modelled as an integer number of seconds.
- Go durations. They are nanosecond values; the model counts whole seconds. A sub-second remaining lifetime is not distinguished.
- Revocation.Get: the model lapses a key at the instant `now + expiration` itself; Redis keeps it through that instant and expires it only once the clock is past it, so the model's blacklisting ends one tick early.
- UserService.UserService.LogoutUser: the third refusal, "remaining lifetime ≤ 0" (internal/services/user.go:72-73), is kept in the code but cannot be reached. With one clock, parsing already demands `now < exp`.
- go-redis's `KeepTTL` (an expiration of exactly -1ns) is not modelled. Every expiration ≤ 0 is a plain SET without expiry.
- Revocation.RedisService.BlacklistToken: the stored value is written as "1", which is what go-redis sends for Go's `true`. Redis's own eviction and persistence are not modelled.
- Uuid.Parse: on an error the library returns whatever bytes it had decoded; the model returns the zero UUID. Error texts are simplified.
- Uuid.Parse: non-ASCII input is rejected outright. The library works on bytes, and it cannot accept such input either.
- Hashing. SHA-256 and hex encoding inside `HashPassword` are an uninterpreted `digest` function of the salt followed by the password. Collision freedom is assumed only where `HashDeterminesSaltAndPassword` requires it. `GenerateSalt`'s randomness is a parameter; only its length, 32 characters, is modelled.
- Concurrency. Goroutines per request and the store and database clients' thread safety are not modelled; each request is one sequential step.
- In-place updates and aliasing. The services assign `comment.UserID` and `post.UserID` on the caller's struct, and the repositories scan into it. The model passes and returns values, so that this aliasing is not captured.
- UserService.UserService.FindByUsernameOrEmail: the row a single-row query returns is left open among the matching rows, since the query has no order.
- Table.Rows: the order of rows from a full-table read is left open.
- Repositories. They are modelled only as maps behind the services. Their user `Update` and `Delete` are not used by the core and are left out.
- Handlers. JSON decoding, the validator library's engine and response writing (`ResJSON`) are HTTP plumbing and are left out. The email syntax check is an abstract predicate `isEmail`.
- Superseded files. internal/handlers/auth_middleware.go and pkg/utils/jwt.go are superseded duplicates. The server does not wire them, and they are not part of this model.
- Logging, configuration and startup. Logging, environment loading and database setup are left out. The configured default expirations (config/config.go:69-71: 15, 60 and 1440 minutes) are the constants `Jwt.DefaultTokenExpiration`, `Jwt.DefaultResetTokenExpiration` and `Jwt.DefaultVerificationTokenExpiration`.
- Routes.Find: ServeMux's path cleaning, redirects and host patterns are not modelled. No served pattern uses them.

## Findings

| source | as written | input that shows it | evidently intended | confidence | as-written member | corrected member |
|---|---|---|---|---|---|---|
| internal/repository/comment.go:53 | `SELECT *` over the comments table, whose columns are (id, content, post_id, user_id) (config/database/sqlite.go:44-51), scanned into (ID, Content, UserID, PostID); the same order is used at lines 23, 38 and 65 | a comment by user …01 on post …02: `UpdateComment` and `DeleteComment` by its author answer "unauthorized", while a caller with id …02 passes the owner check | read each column into its own field, so that the owner check compares the comment's author | not executed | `CommentService.AuthorRefusedAsWritten` | `CommentService.CommentService.DeleteComment`, `CommentService.CommentService.UpdateComment`, `CommentService.CommentService.CreateComment`, `CommentService.CommentService.GetCommentById`, `CommentService.CommentService.GetAllComments` |
| internal/repository/comment.go:63 | `UPDATE comments SET content = ? WHERE id = ? RETURNONG *` | any `UpdateComment` by the owner: the statement does not parse, so the call fails with a syntax error | `RETURNING *`, which returns the updated row | not executed | `CommentService.UpdateCommentAsWritten` | `CommentService.CommentService.UpdateComment` |
