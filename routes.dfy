/** The served route table (cmd/main.go:38-44): `Auth` wraps the whole multiplexer, so it
    runs on every request before the pattern is matched and before the route's gate. */
module Routes {
  import opened Base
  import opened Middleware
  import Uuid
  import Models
  import JwtCodec
  import Jwt
  import Revocation
  import UserService

  datatype Gate = GuestOnlyGate | RequireLoginGate

  /** The handlers behind the routes, which are not part of this model. */
  datatype Handler = RegisterHandler | LoginHandler | LogoutHandler | CreatePostHandler

  datatype Route = Route(verb: string, path: string, gate: Gate, handler: Handler)

  const RouteTable: seq<Route> := [
    Route("POST", "/users/register", GuestOnlyGate, RegisterHandler),
    Route("POST", "/users/login", GuestOnlyGate, LoginHandler),
    Route("GET", "/users/logout", RequireLoginGate, LogoutHandler),
    Route("POST", "/posts", RequireLoginGate, CreatePostHandler)
  ]

  const StatusNotFound := 404
  const StatusMethodNotAllowed := 405

  /** A pattern's method admits the request's method; a GET pattern also serves HEAD. */
  predicate VerbMatches(pattern: string, verb: string)
  {
    pattern == verb || (pattern == "GET" && verb == "HEAD")
  }

  datatype Dispatched = Found(route: Route) | NotFound | MethodNotAllowed

  /** Pattern matching on exact paths: a route whose path and method match; otherwise 405
      when only the path matches, 404 when nothing does. */
  function Find(routes: seq<Route>, verb: string, path: string): (d: Dispatched)
    ensures d.Found? ==> d.route in routes && d.route.path == path && VerbMatches(d.route.verb, verb)
    ensures d.Found? <==> exists r :: r in routes && r.path == path && VerbMatches(r.verb, verb)
    ensures d == NotFound <==> forall r :: r in routes ==> r.path != path
  {
    if routes == [] then NotFound
    else
      var rest := Find(routes[1..], verb, path);
      if routes[0].path == path && VerbMatches(routes[0].verb, verb) then Found(routes[0])
      else if rest.Found? then rest
      else if routes[0].path == path then MethodNotAllowed
      else rest
  }

  /** The wrapper a route is registered with: the handler runs on the request itself exactly
      when the gate's condition on the bound identity holds; otherwise 403 or 401. */
  function Gatekeep(g: Gate, r: Request): (o: Outcome)
    ensures o.Invoke? <==> (g == GuestOnlyGate <==> r.userId == Nil)
    ensures o.Invoke? ==> o.request == r
    ensures o.Reject? ==> o.status == if g == GuestOnlyGate then StatusForbidden else StatusUnauthorized
  {
    match g
    case GuestOnlyGate => GuestOnly(r)
    case RequireLoginGate => RequireLogin(r)
  }

  /** What the server does with a request: the handler runs on the request `Auth` forwarded,
      or the server answers with a status. */
  datatype Response = Handled(handler: Handler, request: Request) | Answer(status: int, message: string)

  /** One request with the given Authorization header; its context starts out empty. */
  function Serve(verb: string, path: string, header: string,
                 isBlacklisted: string -> Ret<bool>, validate: string -> Ret<string>): (resp: Response)
    ensures var run := Auth(Request(header, Nil), isBlacklisted, validate);
      var d := Find(RouteTable, verb, path);
      && (d == NotFound ==> resp.Answer? && resp.status == StatusNotFound)
      && (d == MethodNotAllowed ==> resp.Answer? && resp.status == StatusMethodNotAllowed)
      && (resp.Handled? <==> d.Found? && (d.route.gate == GuestOnlyGate <==> run.bound.None?))
      && (resp.Handled? ==> resp.handler == d.route.handler && resp.request == run.forwarded)
      && (d.Found? && d.route.gate == RequireLoginGate && run.bound.None? ==> resp.Answer? && resp.status == StatusUnauthorized)
      && (d.Found? && d.route.gate == GuestOnlyGate && run.bound.Some? ==> resp.Answer? && resp.status == StatusForbidden)
  {
    var run := Auth(Request(header, Nil), isBlacklisted, validate);
    match Find(RouteTable, verb, path)
    case NotFound => Answer(StatusNotFound, "404 page not found")
    case MethodNotAllowed => Answer(StatusMethodNotAllowed, "Method Not Allowed")
    case Found(route) =>
      match Gatekeep(route.gate, run.forwarded)
      case Invoke(q) => Handled(route.handler, q)
      case Reject(status, message) => Answer(status, message)
  }

  lemma FindsRegister()
    ensures Find(RouteTable, "POST", "/users/register") == Found(RouteTable[0])
  {
  }

  lemma FindsLogin()
    ensures Find(RouteTable, "POST", "/users/login") == Found(RouteTable[1])
  {
    assert RouteTable[0].path != "/users/login" by {
      assert |RouteTable[0].path| != |"/users/login"|;
    }
    assert Find(RouteTable[1..], "POST", "/users/login") == Found(RouteTable[1]);
  }

  lemma FindsLogout()
    ensures Find(RouteTable, "GET", "/users/logout") == Found(RouteTable[2])
  {
    var t := RouteTable[1..];
    assert t[1..] == RouteTable[2..];
    assert Find(RouteTable[2..], "GET", "/users/logout") == Found(RouteTable[2]);
    assert RouteTable[1].verb == "POST" && !VerbMatches("POST", "GET");
    assert Find(t, "GET", "/users/logout") == Found(RouteTable[2]);
    assert !VerbMatches(RouteTable[0].verb, "GET");
  }

  lemma FindsPosts()
    ensures Find(RouteTable, "POST", "/posts") == Found(RouteTable[3])
  {
    var t1 := RouteTable[1..];
    var t2 := t1[1..];
    var t3 := t2[1..];
    assert t3 == [RouteTable[3]];
    assert Find(t3, "POST", "/posts") == Found(RouteTable[3]);
    assert RouteTable[2].path != "/posts" by {
      assert RouteTable[2].path[1] != "/posts"[1];
    }
    assert Find(t2, "POST", "/posts") == Found(RouteTable[3]);
    assert RouteTable[1].path != "/posts" by {
      assert RouteTable[1].path[1] != "/posts"[1];
    }
    assert Find(t1, "POST", "/posts") == Found(RouteTable[3]);
    assert RouteTable[0].path != "/posts" by {
      assert RouteTable[0].path[1] != "/posts"[1];
    }
  }

  /** Each served pattern finds its own route. */
  lemma TableLookups()
    ensures Find(RouteTable, "POST", "/users/register") == Found(RouteTable[0])
    ensures Find(RouteTable, "POST", "/users/login") == Found(RouteTable[1])
    ensures Find(RouteTable, "GET", "/users/logout") == Found(RouteTable[2])
    ensures Find(RouteTable, "POST", "/posts") == Found(RouteTable[3])
  {
    FindsRegister();
    FindsLogin();
    FindsLogout();
    FindsPosts();
  }

  /** The blacklist answers of a healthy store at `now`, as `Auth` consults them. */
  function StoreAnswers(store: Revocation.Store, now: int): string -> Ret<bool>
  {
    t => Revocation.Query(store, now, t, None)
  }

  /** The session validator of `jwt` at `now`. */
  function Validator(jwt: Jwt.JwtService, now: int): string -> Ret<string>
  {
    t => Jwt.ValidateToken(jwt, now, t)
  }

  /** A visitor without a header may register and log in, and is refused with 401 by the
      routes that need a login. */
  lemma AnonymousVisitor(isBlacklisted: string -> Ret<bool>, validate: string -> Ret<string>)
    ensures Serve("POST", "/users/register", "", isBlacklisted, validate) == Handled(RegisterHandler, Request("", Nil))
    ensures Serve("POST", "/users/login", "", isBlacklisted, validate) == Handled(LoginHandler, Request("", Nil))
    ensures Serve("GET", "/users/logout", "", isBlacklisted, validate).Answer?
    ensures Serve("GET", "/users/logout", "", isBlacklisted, validate).status == StatusUnauthorized
    ensures Serve("POST", "/posts", "", isBlacklisted, validate).Answer?
    ensures Serve("POST", "/posts", "", isBlacklisted, validate).status == StatusUnauthorized
  {
    TableLookups();
  }

  /** A live session token that is not blacklisted logs its holder in: the login routes run
      with the user's id bound as a string, and the guest routes answer 403. */
  lemma SessionIsLoggedIn(jwt: Jwt.JwtService, store: Revocation.Store, issued: int, now: int, user: Models.User)
    requires JwtCodec.Faithful(jwt.codec)
    requires now < issued + jwt.tokenExpiration
    requires !Revocation.Blacklisted(store, now, Jwt.GenerateToken(jwt, issued, user))
    ensures var header := BearerPrefix + Jwt.GenerateToken(jwt, issued, user);
      && Serve("GET", "/users/logout", header, StoreAnswers(store, now), Validator(jwt, now))
         == Handled(LogoutHandler, Request(header, StrValue(Uuid.ToString(user.id))))
      && Serve("POST", "/posts", header, StoreAnswers(store, now), Validator(jwt, now))
         == Handled(CreatePostHandler, Request(header, StrValue(Uuid.ToString(user.id))))
      && Serve("POST", "/users/login", header, StoreAnswers(store, now), Validator(jwt, now)).Answer?
      && Serve("POST", "/users/login", header, StoreAnswers(store, now), Validator(jwt, now)).status == StatusForbidden
  {
    var token := Jwt.GenerateToken(jwt, issued, user);
    var header := BearerPrefix + token;
    assert header[|BearerPrefix|..] == token;
    assert BearerToken(header) == token;
    Jwt.SessionRoundTrip(jwt, issued, now, user);
    TableLookups();
  }

  /** The point of logging out: once `LogoutUser` has blacklisted a token at `now`, that
      token leaves every later request anonymous. Before its `exp` the blacklist entry turns it
      away; from its `exp` on, the entry has lapsed but the validator refuses it. */
  lemma {:induction false} LoggedOutStaysAnonymous(jwt: Jwt.JwtService, store: Revocation.Store, now: int,
                                                   header: string, later: int)
    requires header != ""
    requires UserService.LogoutPlan(jwt, now, BearerToken(header)).Ok?
    requires now <= later
    ensures var after := Revocation.Set(store, now, BearerToken(header), Revocation.Sentinel,
                                        UserService.LogoutPlan(jwt, now, BearerToken(header)).value);
      Auth(Request(header, Nil), StoreAnswers(after, later), Validator(jwt, later)).bound.None?
  {
    var token := BearerToken(header);
    var lifetime := UserService.LogoutPlan(jwt, now, token).value;
    var after := Revocation.Set(store, now, token, Revocation.Sentinel, lifetime);
    Revocation.BlacklistedUntilExpiry(store, now, token, lifetime, later);
    if now + lifetime <= later {
      var claims: JwtCodec.ClaimSet :| JwtCodec.Accepts(jwt.codec, jwt.secretKey, now, token, claims)
        && "exp" in claims && claims["exp"] == JwtCodec.Num(now + lifetime);
      JwtCodec.ExpiryIsFinal(jwt.codec, jwt.secretKey, now, token, claims, later);
    }
  }

  /** ... so the routes that need a login answer 401 to it. */
  lemma LoggedOutIsRefused(jwt: Jwt.JwtService, store: Revocation.Store, now: int, header: string, later: int)
    requires header != ""
    requires UserService.LogoutPlan(jwt, now, BearerToken(header)).Ok?
    requires now <= later
    ensures var after := Revocation.Set(store, now, BearerToken(header), Revocation.Sentinel,
                                        UserService.LogoutPlan(jwt, now, BearerToken(header)).value);
      var resp := Serve("GET", "/users/logout", header, StoreAnswers(after, later), Validator(jwt, later));
      resp.Answer? && resp.status == StatusUnauthorized
  {
    LoggedOutStaysAnonymous(jwt, store, now, header, later);
    TableLookups();
  }

  /** Fail-open to anonymous: while the store errs on a token, its holder is refused by every
      login route and let through by every guest route, however valid the token. */
  lemma StoreOutageIsAnonymous(verb: string, path: string, header: string,
                               isBlacklisted: string -> Ret<bool>, validate: string -> Ret<string>)
    requires header != "" && isBlacklisted(BearerToken(header)).err.Some?
    requires Find(RouteTable, verb, path).Found?
    ensures var resp := Serve(verb, path, header, isBlacklisted, validate);
      resp.Handled? <==> Find(RouteTable, verb, path).route.gate == GuestOnlyGate
  {
    RevokedOrUnknownIsAnonymous(Request(header, Nil), isBlacklisted, validate);
  }
}
