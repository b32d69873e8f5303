/** The token service (internal/services/jwt.go): purpose-specific claim sets, signing and
    validation over the symbolic codec of module JwtCodec. Time is an explicit clock in
    Unix seconds; durations are whole seconds. */
module Jwt {
  import opened Base
  import Uuid
  import opened Models
  import opened JwtCodec

  /** The `jwtService` struct: read-only configuration, plus the token library it calls. */
  datatype JwtService = JwtService(secretKey: string, tokenExpiration: int, resetTokenExpiration: int,
                                   verificationTokenExpiration: int, codec: Codec)

  /** The defaults used when the environment does not set them: 15m, 60m and 1440m. */
  const DefaultTokenExpiration := 15 * 60
  const DefaultResetTokenExpiration := 60 * 60
  const DefaultVerificationTokenExpiration := 1440 * 60

  const InvalidToken := Error("invalid token")
  const InvalidPayload := Error("invalid token payload")

  /** Claim shape of a session token. */
  function SessionClaims(userId: string, exp: int): ClaimSet
  {
    map["user_id" := Str(userId), "exp" := Num(exp)]
  }

  /** Claim shape shared by verification and reset tokens. */
  function EmailClaims(email: string, exp: int): ClaimSet
  {
    map["email" := Str(email), "exp" := Num(exp)]
  }

  /** A session token: HS256 over {`user_id`, `exp`}, signed with the service secret. */
  function GenerateToken(s: JwtService, now: int, user: User): (t: string)
    ensures Faithful(s.codec) ==> var claims := SessionClaims(Uuid.ToString(user.id), now + s.tokenExpiration);
      s.codec.decode(t) == Some(Jws(HS256, claims, Mac(HS256, s.secretKey, claims)))
  {
    Sign(s.codec, s.secretKey, SessionClaims(Uuid.ToString(user.id), now + s.tokenExpiration))
  }

  /** A verification token: HS256 over {`email`, `exp`} with the verification lifetime. */
  function GenerateEmailVerificationToken(s: JwtService, now: int, email: string): (t: string)
    ensures Faithful(s.codec) ==> var claims := EmailClaims(email, now + s.verificationTokenExpiration);
      s.codec.decode(t) == Some(Jws(HS256, claims, Mac(HS256, s.secretKey, claims)))
  {
    Sign(s.codec, s.secretKey, EmailClaims(email, now + s.verificationTokenExpiration))
  }

  /** A reset token: HS256 over {`email`, `exp`} with the reset lifetime. */
  function GeneratePasswordResetToken(s: JwtService, now: int, email: string): (t: string)
    ensures Faithful(s.codec) ==> var claims := EmailClaims(email, now + s.resetTokenExpiration);
      s.codec.decode(t) == Some(Jws(HS256, claims, Mac(HS256, s.secretKey, claims)))
  {
    Sign(s.codec, s.secretKey, EmailClaims(email, now + s.resetTokenExpiration))
  }

  /** `parseTokenClaims` (also reached as `ParseTokenClaims` from the user service): every
      library failure collapses to "invalid token". */
  function ParseTokenClaims(s: JwtService, now: int, token: string): (r: Result<ClaimSet>)
    ensures r.Err? ==> r.error == InvalidToken
    ensures r.Ok? <==> exists claims: ClaimSet :: Accepts(s.codec, s.secretKey, now, token, claims)
    ensures r.Ok? ==> Accepts(s.codec, s.secretKey, now, token, r.value)
  {
    ParseSound(s.codec, s.secretKey, now, token);
    match Parse(s.codec, s.secretKey, now, token)
    case Ok(claims) => Ok(claims)
    case Err(_) => Err(InvalidToken)
  }

  /** The `claims[key].(string)` assertion of a validator. */
  function StringClaim(claims: ClaimSet, key: string): (r: Ret<string>)
    ensures r.err.None? <==> key in claims && claims[key].Str?
    ensures r.err.None? ==> claims[key] == Str(r.value)
    ensures r.err.Some? ==> r == Ret("", Some(InvalidPayload))
  {
    if key in claims && claims[key].Str? then Ret(claims[key].s, None) else Ret("", Some(InvalidPayload))
  }

  /** The result of a validator that extracts string claim `key`. */
  function ValidateClaim(s: JwtService, now: int, token: string, key: string): (r: Ret<string>)
    ensures r.err.Some? ==> r.value == ""
    ensures (forall claims: ClaimSet :: !Accepts(s.codec, s.secretKey, now, token, claims))
            ==> r == Ret("", Some(InvalidToken))
    ensures (exists claims: ClaimSet :: Accepts(s.codec, s.secretKey, now, token, claims)
                                        && !(key in claims && claims[key].Str?))
            ==> r == Ret("", Some(InvalidPayload))
    ensures r.err.None? <==> exists claims: ClaimSet :: Accepts(s.codec, s.secretKey, now, token, claims)
                                             && key in claims && claims[key].Str?
    ensures r.err.None? ==> exists claims: ClaimSet :: Accepts(s.codec, s.secretKey, now, token, claims)
                                            && key in claims && claims[key] == Str(r.value)
  {
    AcceptedClaimsUnique(s.codec, s.secretKey, now, token);
    match ParseTokenClaims(s, now, token)
    case Err(e) => Ret("", Some(e))
    case Ok(claims) => StringClaim(claims, key)
  }

  function ValidateToken(s: JwtService, now: int, token: string): (r: Ret<string>)
    ensures r.err.Some? ==> r.value == ""
    ensures r.err.None? <==> exists claims: ClaimSet :: Accepts(s.codec, s.secretKey, now, token, claims)
                                             && "user_id" in claims && claims["user_id"].Str?
    ensures r.err.None? ==> exists claims: ClaimSet :: Accepts(s.codec, s.secretKey, now, token, claims)
                                            && "user_id" in claims && claims["user_id"] == Str(r.value)
    ensures (forall claims: ClaimSet :: !Accepts(s.codec, s.secretKey, now, token, claims))
            ==> r == Ret("", Some(InvalidToken))
    ensures (exists claims: ClaimSet :: Accepts(s.codec, s.secretKey, now, token, claims)
                                        && !("user_id" in claims && claims["user_id"].Str?))
            ==> r == Ret("", Some(InvalidPayload))
  {
    ValidateClaim(s, now, token, "user_id")
  }

  function ValidateEmailVerificationToken(s: JwtService, now: int, token: string): (r: Ret<string>)
    ensures r.err.Some? ==> r.value == ""
    ensures r.err.None? <==> exists claims: ClaimSet :: Accepts(s.codec, s.secretKey, now, token, claims)
                                             && "email" in claims && claims["email"].Str?
    ensures r.err.None? ==> exists claims: ClaimSet :: Accepts(s.codec, s.secretKey, now, token, claims)
                                            && "email" in claims && claims["email"] == Str(r.value)
    ensures (forall claims: ClaimSet :: !Accepts(s.codec, s.secretKey, now, token, claims))
            ==> r == Ret("", Some(InvalidToken))
    ensures (exists claims: ClaimSet :: Accepts(s.codec, s.secretKey, now, token, claims)
                                        && !("email" in claims && claims["email"].Str?))
            ==> r == Ret("", Some(InvalidPayload))
  {
    ValidateClaim(s, now, token, "email")
  }

  function ValidatePasswordResetToken(s: JwtService, now: int, token: string): (r: Ret<string>)
    ensures r.err.Some? ==> r.value == ""
    ensures r.err.None? <==> exists claims: ClaimSet :: Accepts(s.codec, s.secretKey, now, token, claims)
                                             && "email" in claims && claims["email"].Str?
    ensures r.err.None? ==> exists claims: ClaimSet :: Accepts(s.codec, s.secretKey, now, token, claims)
                                            && "email" in claims && claims["email"] == Str(r.value)
    ensures (forall claims: ClaimSet :: !Accepts(s.codec, s.secretKey, now, token, claims))
            ==> r == Ret("", Some(InvalidToken))
    ensures (exists claims: ClaimSet :: Accepts(s.codec, s.secretKey, now, token, claims)
                                        && !("email" in claims && claims["email"].Str?))
            ==> r == Ret("", Some(InvalidPayload))
  {
    ValidateClaim(s, now, token, "email")
  }

  /** A token text is accepted with at most one claim set. */
  lemma AcceptedClaimsUnique(c: Codec, key: string, now: int, token: string)
    ensures forall c1, c2 :: Accepts(c, key, now, token, c1) && Accepts(c, key, now, token, c2) ==> c1 == c2
  {
    forall c1, c2 | Accepts(c, key, now, token, c1) && Accepts(c, key, now, token, c2) ensures c1 == c2 {
      var m1 :| IsHmac(m1) && c.decode(token) == Some(Jws(m1, c1, Mac(m1, key, c1))) && CheckExpiry(c1, now).None?;
      var m2 :| IsHmac(m2) && c.decode(token) == Some(Jws(m2, c2, Mac(m2, key, c2))) && CheckExpiry(c2, now).None?;
    }
  }

  /** Each issued token carries exactly its purpose's claim set, whose `exp` is the issuing
      time plus the duration configured for that purpose. */
  lemma IssuedClaims(s: JwtService, issued: int, now: int, user: User, email: string)
    requires Faithful(s.codec)
    ensures now < issued + s.tokenExpiration ==>
      ParseTokenClaims(s, now, GenerateToken(s, issued, user))
        == Ok(map["user_id" := Str(Uuid.ToString(user.id)), "exp" := Num(issued + s.tokenExpiration)])
    ensures now < issued + s.verificationTokenExpiration ==>
      ParseTokenClaims(s, now, GenerateEmailVerificationToken(s, issued, email))
        == Ok(map["email" := Str(email), "exp" := Num(issued + s.verificationTokenExpiration)])
    ensures now < issued + s.resetTokenExpiration ==>
      ParseTokenClaims(s, now, GeneratePasswordResetToken(s, issued, email))
        == Ok(map["email" := Str(email), "exp" := Num(issued + s.resetTokenExpiration)])
  {
    if now < issued + s.tokenExpiration {
      SignThenParse(s.codec, s.secretKey, SessionClaims(Uuid.ToString(user.id), issued + s.tokenExpiration), now);
    }
    if now < issued + s.verificationTokenExpiration {
      SignThenParse(s.codec, s.secretKey, EmailClaims(email, issued + s.verificationTokenExpiration), now);
    }
    if now < issued + s.resetTokenExpiration {
      SignThenParse(s.codec, s.secretKey, EmailClaims(email, issued + s.resetTokenExpiration), now);
    }
  }

  /** Session round trip: before expiry, validating an issued session token yields the
      user's id as text; from the expiry instant on it is "invalid token". */
  lemma SessionRoundTrip(s: JwtService, issued: int, now: int, user: User)
    requires Faithful(s.codec)
    ensures ValidateToken(s, now, GenerateToken(s, issued, user))
      == if now < issued + s.tokenExpiration then Ret(Uuid.ToString(user.id), None) else Ret("", Some(InvalidToken))
  {
    var claims := SessionClaims(Uuid.ToString(user.id), issued + s.tokenExpiration);
    if now < issued + s.tokenExpiration {
      SignThenParse(s.codec, s.secretKey, claims, now);
    } else {
      SignedExpiredRejected(s.codec, s.secretKey, claims, now);
    }
  }

  /** A verification or reset token has no `user_id`: the session validator refuses it, with
      "invalid token payload" while it is unexpired. */
  lemma EmailTokensAreNotSessions(s: JwtService, issued: int, now: int, email: string)
    requires Faithful(s.codec)
    ensures ValidateToken(s, now, GenerateEmailVerificationToken(s, issued, email))
      == Ret("", Some(if now < issued + s.verificationTokenExpiration then InvalidPayload else InvalidToken))
    ensures ValidateToken(s, now, GeneratePasswordResetToken(s, issued, email))
      == Ret("", Some(if now < issued + s.resetTokenExpiration then InvalidPayload else InvalidToken))
  {
    var cv := EmailClaims(email, issued + s.verificationTokenExpiration);
    var cr := EmailClaims(email, issued + s.resetTokenExpiration);
    if now < issued + s.verificationTokenExpiration {
      SignThenParse(s.codec, s.secretKey, cv, now);
    } else {
      SignedExpiredRejected(s.codec, s.secretKey, cv, now);
    }
    if now < issued + s.resetTokenExpiration {
      SignThenParse(s.codec, s.secretKey, cr, now);
    } else {
      SignedExpiredRejected(s.codec, s.secretKey, cr, now);
    }
  }

  /** A session token has no `email`: both email validators refuse it. */
  lemma SessionTokensAreNotEmailTokens(s: JwtService, issued: int, now: int, user: User)
    requires Faithful(s.codec)
    ensures var t := GenerateToken(s, issued, user);
      var expected := Ret("", Some(if now < issued + s.tokenExpiration then InvalidPayload else InvalidToken));
      ValidateEmailVerificationToken(s, now, t) == expected && ValidatePasswordResetToken(s, now, t) == expected
  {
    var claims := SessionClaims(Uuid.ToString(user.id), issued + s.tokenExpiration);
    if now < issued + s.tokenExpiration {
      SignThenParse(s.codec, s.secretKey, claims, now);
    } else {
      SignedExpiredRejected(s.codec, s.secretKey, claims, now);
    }
  }

  /** Verification and reset tokens share one claim shape, so each email validator accepts
      the other purpose's unexpired token and returns its email. */
  lemma EmailTokensInterchangeable(s: JwtService, issued: int, now: int, email: string)
    requires Faithful(s.codec)
    ensures now < issued + s.verificationTokenExpiration ==>
      ValidatePasswordResetToken(s, now, GenerateEmailVerificationToken(s, issued, email)) == Ret(email, None)
    ensures now < issued + s.resetTokenExpiration ==>
      ValidateEmailVerificationToken(s, now, GeneratePasswordResetToken(s, issued, email)) == Ret(email, None)
  {
    if now < issued + s.verificationTokenExpiration {
      SignThenParse(s.codec, s.secretKey, EmailClaims(email, issued + s.verificationTokenExpiration), now);
    }
    if now < issued + s.resetTokenExpiration {
      SignThenParse(s.codec, s.secretKey, EmailClaims(email, issued + s.resetTokenExpiration), now);
    }
  }

  /** A token issued by a service with another secret is "invalid token" to every validator. */
  lemma ForeignSecretRejected(s: JwtService, other: JwtService, issued: int, now: int, user: User)
    requires Faithful(s.codec) && other.codec == s.codec && other.secretKey != s.secretKey
    ensures ValidateToken(s, now, GenerateToken(other, issued, user)) == Ret("", Some(InvalidToken))
  {
    OtherKeyRejected(s.codec, s.secretKey, other.secretKey,
                     SessionClaims(Uuid.ToString(user.id), issued + other.tokenExpiration), now);
  }

  /** Whatever it carries, a token whose header names a non-HMAC method is "invalid token". */
  lemma NonHmacTokensRejected(s: JwtService, now: int, token: string)
    requires s.codec.decode(token).Some? && !IsHmac(s.codec.decode(token).value.alg)
    ensures ValidateToken(s, now, token) == Ret("", Some(InvalidToken))
    ensures ValidateEmailVerificationToken(s, now, token) == Ret("", Some(InvalidToken))
    ensures ValidatePasswordResetToken(s, now, token) == Ret("", Some(InvalidToken))
  {
    NonHmacRejected(s.codec, s.secretKey, now, token);
  }
}
