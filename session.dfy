/** A whole session against the served routes: a visitor registers, logs in, reaches a
    login-only route with the issued token, logs out, and is refused with that token from then
    on (internal/services/user.go, internal/middlewares/auth.go, cmd/main.go:38-44). */
module Session {
  import opened Base
  import opened Uuid
  import opened Models
  import opened Middleware
  import JwtCodec
  import Jwt
  import Revocation
  import UserService
  import Routes

  /** Runs that session on fresh services at `now` and asks again at `later`; the store and
      the database do not fail. `before` and `after` are the server's answers to
      `GET /users/logout` carrying the issued token, before and after the logout. */
  method RegisterLoginLogout(jwt: Jwt.JwtService, digest: string -> string, visitor: User, id: UUID,
                             salt: string, now: int, later: int)
    returns (token: string, before: Routes.Response, after: Routes.Response)
    requires JwtCodec.Faithful(jwt.codec)
    requires jwt.tokenExpiration > 0
    requires |salt| == UserService.SaltLength
    requires now <= later
    ensures before == Routes.Handled(Routes.LogoutHandler,
                                     Request(BearerPrefix + token, StrValue(Uuid.ToString(id))))
    ensures after.Answer? && after.status == StatusUnauthorized
  {
    var redis := new Revocation.RedisService();
    var users := new UserService.UserService(jwt, digest, redis);
    var registered := users.RegisterUser(visitor, id, Ok(salt), None, None);
    assert registered.Ok?;
    var row := registered.value;
    assert users.users == map[id := row];

    var login := users.LoginUser(visitor.username, visitor.password, now, None);
    assert users.users[id] == row && UserService.Matches(row, visitor.username, visitor.username);
    assert login.err.None?;
    token := login.value;
    assert token == Jwt.GenerateToken(jwt, now, row);

    var header := BearerPrefix + token;
    assert header[|BearerPrefix|..] == token;
    assert BearerToken(header) == token;
    Routes.SessionIsLoggedIn(jwt, redis.store, now, now, row);
    before := Routes.Serve("GET", "/users/logout", header, Routes.StoreAnswers(redis.store, now), Routes.Validator(jwt, now));

    UserService.LogoutPlanOfSessionToken(jwt, now, now, row);
    var store := redis.store;
    var err := users.LogoutUser(token, now, None);
    assert redis.store == Revocation.Set(store, now, token, Revocation.Sentinel,
                                         UserService.LogoutPlan(jwt, now, token).value);
    Routes.LoggedOutIsRefused(jwt, store, now, header, later);
    after := Routes.Serve("GET", "/users/logout", header, Routes.StoreAnswers(redis.store, later), Routes.Validator(jwt, later));
  }
}
