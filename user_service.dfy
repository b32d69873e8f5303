/** The user service (internal/services/user.go) over a users table keyed by id, the token
    service and the revocation store. Failures of the database or of the store are `fault`
    parameters; the fresh id and salt the repository draws at random are parameters too. */
module UserService {
  import opened Base
  import opened Uuid
  import opened Models
  import opened Jwt
  import opened Revocation
  import opened Table
  import JwtCodec

  const UsernameOrEmailTaken := Error("username or email already taken")
  const InvalidUsernameOrEmail := Error("invalid username or email")
  const InvalidPassword := Error("invalid password")
  const TokenExpirationFailed := Error("token expiration failed")
  const UniqueConstraintFailed := Error("UNIQUE constraint failed")
  const UserNotFound := Error("user not found")

  /** `utils.HashPassword`: `digest` (SHA-256 then hex) of the salt followed by the password. */
  function HashPassword(digest: string -> string, password: string, salt: string): string
  {
    digest(salt + password)
  }

  /** `utils.GenerateSalt` draws 16 random bytes and hex-encodes them: every salt has 32 characters. */
  const SaltLength := 32

  /** With a collision-free digest and salts of one length, a stored hash determines both the
      salt and the password it was computed from. */
  lemma HashDeterminesSaltAndPassword(digest: string -> string, p1: string, s1: string, p2: string, s2: string)
    requires forall a, b :: digest(a) == digest(b) ==> a == b
    requires |s1| == |s2|
    requires HashPassword(digest, p1, s1) == HashPassword(digest, p2, s2)
    ensures s1 == s2 && p1 == p2
  {
    assert s1 + p1 == s2 + p2;
    assert s1 == (s1 + p1)[..|s1|] && s2 == (s2 + p2)[..|s2|];
    assert p1 == (s1 + p1)[|s1|..] && p2 == (s2 + p2)[|s2|..];
  }

  /** The `WHERE username = ? OR email = ?` condition. */
  predicate Matches(u: User, username: string, email: string)
  {
    u.username == username || u.email == email
  }

  /** A user as `GetByID` and `GetAll` select it: the password and salt columns are not read. */
  function Public(u: User): User
  {
    u.(password := "", salt := "")
  }

  /** What `LoginUser` answers once the lookup has produced `lookup`. */
  function LoginDecision(jwt: JwtService, digest: string -> string, now: int,
                         lookup: Result<Option<User>>, password: string): (r: Ret<string>)
    ensures r.err.Some? ==> r.value == ""
    ensures r.err.None? <==> lookup.Ok? && lookup.value.Some?
                             && HashPassword(digest, password, lookup.value.value.salt) == lookup.value.value.password
    ensures r.err.None? ==> r.value == GenerateToken(jwt, now, lookup.value.value)
    ensures (lookup.Err? || lookup.value.None?) ==> r.err == Some(InvalidUsernameOrEmail)
    ensures lookup.Ok? && lookup.value.Some? && r.err.Some? ==> r.err == Some(InvalidPassword)
  {
    match lookup
    case Err(_) => Ret("", Some(InvalidUsernameOrEmail))
    case Ok(None) => Ret("", Some(InvalidUsernameOrEmail))
    case Ok(Some(user)) =>
      if HashPassword(digest, password, user.salt) != user.password then Ret("", Some(InvalidPassword))
      else Ret(GenerateToken(jwt, now, user), None)
  }

  /** The lifetime `LogoutUser` blacklists a token for, or why it refuses. */
  function LogoutPlan(jwt: JwtService, now: int, token: string): (r: Result<int>)
    ensures r.Ok? ==> r.value > 0 && exists claims: JwtCodec.ClaimSet ::
      JwtCodec.Accepts(jwt.codec, jwt.secretKey, now, token, claims) && "exp" in claims && claims["exp"] == JwtCodec.Num(now + r.value)
    ensures ParseTokenClaims(jwt, now, token).Err? ==> r == Err(InvalidToken)
    ensures ParseTokenClaims(jwt, now, token).Ok?
            && ("exp" !in ParseTokenClaims(jwt, now, token).value || !ParseTokenClaims(jwt, now, token).value["exp"].Num?)
            ==> r == Err(TokenExpirationFailed)
    ensures r.Err? <==> ParseTokenClaims(jwt, now, token).Err?
                         || "exp" !in ParseTokenClaims(jwt, now, token).value
                         || !ParseTokenClaims(jwt, now, token).value["exp"].Num?
  {
    match ParseTokenClaims(jwt, now, token)
    case Err(_) => Err(InvalidToken)
    case Ok(claims) =>
      if "exp" !in claims || !claims["exp"].Num? then Err(TokenExpirationFailed)
      else
        var expiration := claims["exp"].n - now;
        if expiration <= 0 then Err(TokenExpirationFailed) else Ok(expiration)
  }

  /** For a session token issued at `issued`, logout at `now` plans to blacklist it for exactly
      its remaining validity, and refuses it as "invalid token" once it has expired. */
  lemma LogoutPlanOfSessionToken(jwt: JwtService, issued: int, now: int, user: User)
    requires JwtCodec.Faithful(jwt.codec)
    ensures LogoutPlan(jwt, now, GenerateToken(jwt, issued, user))
      == if now < issued + jwt.tokenExpiration then Ok(issued + jwt.tokenExpiration - now) else Err(InvalidToken)
  {
    IssuedClaims(jwt, issued, now, user, "");
    if now >= issued + jwt.tokenExpiration {
      JwtCodec.SignedExpiredRejected(jwt.codec, jwt.secretKey,
        SessionClaims(Uuid.ToString(user.id), issued + jwt.tokenExpiration), now);
    }
  }

  /** The rows `GetAll` reads from a table keyed by id: each public projection exactly once. */
  lemma PublicRows(users: map<UUID, User>, projected: map<UUID, User>, rows: seq<User>, order: seq<UUID>)
    requires forall k :: k in users ==> users[k].id == k
    requires projected == map k | k in users :: Public(users[k])
    requires |rows| == |order| == |projected|
    requires forall i :: 0 <= i < |order| ==> order[i] in projected && rows[i] == projected[order[i]]
    requires forall i, j :: 0 <= i < j < |order| ==> order[i] != order[j]
    requires forall k :: k in projected ==> k in order
    ensures |rows| == |users|
    ensures forall u :: u in rows <==> exists k :: k in users && u == Public(users[k])
    ensures forall i, j :: 0 <= i < j < |rows| ==> rows[i] != rows[j]
  {
    assert |projected| == |users| by {
      assert projected.Keys == users.Keys;
    }
    forall u ensures u in rows <==> exists k :: k in users && u == Public(users[k]) {
      if u in rows {
        var i :| 0 <= i < |rows| && rows[i] == u;
        assert order[i] in users;
      }
      if exists k :: k in users && u == Public(users[k]) {
        var k :| k in users && u == Public(users[k]);
        assert k in order;
        var i :| 0 <= i < |order| && order[i] == k;
        assert rows[i] == u;
      }
    }
    DistinctRows(projected, rows, order, (u: User) => u.id);
  }

  class UserService {
    var users: map<UUID, User>
    const jwt: JwtService
    const digest: string -> string
    const revocation: RedisService

    /** Rows are keyed by their id and carry a generated salt; usernames and emails are
        UNIQUE columns. */
    ghost predicate Valid()
      reads this
    {
      && (forall k :: k in users ==> users[k].id == k && |users[k].salt| == SaltLength)
      && (forall a, b :: a in users && b in users && a != b ==>
            users[a].username != users[b].username && users[a].email != users[b].email)
    }

    constructor (jwt: JwtService, digest: string -> string, revocation: RedisService)
      ensures Valid() && users == map[]
      ensures this.jwt == jwt && this.digest == digest && this.revocation == revocation
    {
      users := map[];
      this.jwt := jwt;
      this.digest := digest;
      this.revocation := revocation;
    }

    /** `FindByUsernameOrEmail`: one row matching either column (a single-row query over an
        unordered result, so which one is left open), `nil` when none does. */
    method FindByUsernameOrEmail(username: string, email: string, fault: Option<Error>) returns (r: Result<Option<User>>)
      requires Valid()
      ensures fault.Some? ==> r == Err(fault.value)
      ensures fault.None? ==> r.Ok?
      ensures r.Ok? && r.value.Some? ==> var u := r.value.value; u.id in users && users[u.id] == u && Matches(u, username, email)
      ensures r.Ok? && r.value.None? ==> forall k :: k in users ==> !Matches(users[k], username, email)
    {
      if fault.Some? {
        return Err(fault.value);
      }
      if k :| k in users && Matches(users[k], username, email) {
        r := Ok(Some(users[k]));
      } else {
        r := Ok(None);
      }
    }

    /** The repository's `Create`: hashes the password with the fresh salt and inserts the row;
        the UNIQUE and PRIMARY KEY constraints refuse a clashing row. */
    method Create(user: User, newId: UUID, salt: Result<string>, fault: Option<Error>) returns (r: Result<User>)
      requires Valid()
      requires salt.Ok? ==> |salt.value| == SaltLength
      modifies this
      ensures Valid()
      ensures r.Ok? <==> salt.Ok? && fault.None? && newId !in old(users)
                         && forall k :: k in old(users) ==> old(users)[k].username != user.username && old(users)[k].email != user.email
      ensures r.Ok? ==> r.value == User(newId, user.firstName, user.lastName, user.username, user.email,
                                        HashPassword(digest, user.password, salt.value), salt.value)
                        && users == old(users)[newId := r.value]
      ensures r.Err? ==> users == old(users)
    {
      if salt.Err? {
        return Err(salt.error);
      }
      if fault.Some? {
        return Err(fault.value);
      }
      if newId in users || exists k :: k in users && (users[k].username == user.username || users[k].email == user.email) {
        return Err(UniqueConstraintFailed);
      }
      var row := User(newId, user.firstName, user.lastName, user.username, user.email,
                      HashPassword(digest, user.password, salt.value), salt.value);
      users := users[newId := row];
      r := Ok(row);
    }

    method RegisterUser(user: User, newId: UUID, salt: Result<string>, lookupFault: Option<Error>,
                        insertFault: Option<Error>) returns (r: Result<User>)
      requires Valid()
      requires salt.Ok? ==> |salt.value| == SaltLength
      modifies this
      ensures Valid()
      ensures r.Err? ==> users == old(users)
      ensures lookupFault.Some? ==> r == Err(lookupFault.value)
      ensures lookupFault.None? && (exists k :: k in old(users) && Matches(old(users)[k], user.username, user.email))
              ==> r == Err(UsernameOrEmailTaken)
      ensures r.Ok? <==> lookupFault.None? && salt.Ok? && insertFault.None? && newId !in old(users)
                         && forall k :: k in old(users) ==> !Matches(old(users)[k], user.username, user.email)
      ensures r.Ok? ==> r.value == User(newId, user.firstName, user.lastName, user.username, user.email,
                                        HashPassword(digest, user.password, salt.value), salt.value)
                        && users == old(users)[newId := r.value]
    {
      var existing := FindByUsernameOrEmail(user.username, user.email, lookupFault);
      if existing.Err? {
        return Err(existing.error);
      }
      if existing.value.Some? {
        return Err(UsernameOrEmailTaken);
      }
      r := Create(user, newId, salt, insertFault);
    }

    /** Issues a session token only for a stored user, matched on username or email with the
        same text, whose stored digest is the digest of the given password with its salt. */
    method LoginUser(usernameOrEmail: string, password: string, now: int, lookupFault: Option<Error>) returns (r: Ret<string>)
      requires Valid()
      ensures r.err.Some? ==> r.value == ""
      ensures r.err.None? ==> exists k :: k in users && Matches(users[k], usernameOrEmail, usernameOrEmail)
                                && HashPassword(digest, password, users[k].salt) == users[k].password
                                && r.value == GenerateToken(jwt, now, users[k])
      ensures (lookupFault.Some? || forall k :: k in users ==> !Matches(users[k], usernameOrEmail, usernameOrEmail))
              ==> r == Ret("", Some(InvalidUsernameOrEmail))
      ensures lookupFault.None? && (exists k :: k in users && Matches(users[k], usernameOrEmail, usernameOrEmail))
              && (forall k :: k in users && Matches(users[k], usernameOrEmail, usernameOrEmail) ==>
                    HashPassword(digest, password, users[k].salt) != users[k].password)
              ==> r == Ret("", Some(InvalidPassword))
      ensures lookupFault.None? && (exists k :: k in users && Matches(users[k], usernameOrEmail, usernameOrEmail))
              && (forall k :: k in users && Matches(users[k], usernameOrEmail, usernameOrEmail) ==>
                    HashPassword(digest, password, users[k].salt) == users[k].password)
              ==> r.err.None?
    {
      var lookup := FindByUsernameOrEmail(usernameOrEmail, usernameOrEmail, lookupFault);
      r := LoginDecision(jwt, digest, now, lookup, password);
    }

    /** Blacklists the token for exactly its remaining lifetime; refused tokens leave the store
        as it was, and the store's own failure is the result. */
    method LogoutUser(token: string, now: int, storeFault: Option<Error>) returns (err: Option<Error>)
      modifies revocation
      ensures LogoutPlan(jwt, now, token).Err? ==>
                err == Some(LogoutPlan(jwt, now, token).error) && revocation.store == old(revocation.store)
      ensures LogoutPlan(jwt, now, token).Ok? ==> err == storeFault
      ensures LogoutPlan(jwt, now, token).Ok? && storeFault.None? ==>
                revocation.store == Set(old(revocation.store), now, token, Sentinel, LogoutPlan(jwt, now, token).value)
      ensures storeFault.Some? ==> revocation.store == old(revocation.store)
    {
      var claims := ParseTokenClaims(jwt, now, token);
      if claims.Err? {
        return Some(InvalidToken);
      }
      if "exp" !in claims.value || !claims.value["exp"].Num? {
        return Some(TokenExpirationFailed);
      }
      var expiration := claims.value["exp"].n - now;
      if expiration <= 0 {
        return Some(TokenExpirationFailed);
      }
      err := revocation.BlacklistToken(token, expiration, now, storeFault);
    }

    /** `GetAllUsers`: every user once, without password or salt, in no fixed order. */
    method GetAllUsers(fault: Option<Error>) returns (r: Result<seq<User>>)
      requires Valid()
      ensures fault.Some? ==> r == Err(fault.value)
      ensures fault.None? ==> r.Ok? && |r.value| == |users|
      ensures r.Ok? ==> forall u :: u in r.value <==> exists k :: k in users && u == Public(users[k])
      ensures r.Ok? ==> forall i, j :: 0 <= i < j < |r.value| ==> r.value[i] != r.value[j]
    {
      if fault.Some? {
        return Err(fault.value);
      }
      var projected := map k | k in users :: Public(users[k]);
      var rows, order := Rows(projected);
      PublicRows(users, projected, rows, order);
      r := Ok(rows);
    }

    /** `GetUserByID`: the user without password or salt, or "user not found". */
    method GetUserById(id: UUID, fault: Option<Error>) returns (r: Result<User>)
      ensures fault.Some? ==> r == Err(fault.value)
      ensures fault.None? && id !in users ==> r == Err(UserNotFound)
      ensures fault.None? && id in users ==> r == Ok(Public(users[id]))
    {
      if fault.Some? {
        return Err(fault.value);
      }
      if id !in users {
        return Err(UserNotFound);
      }
      r := Ok(Public(users[id]));
    }
  }
}
