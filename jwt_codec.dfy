/** The token library (golang-jwt v5, RFC 7519 tokens with HS256 signatures from section 3.2
    of RFC 7518) as a symbolic codec: a token is the compact text of a header naming the
    signing method, a claim set and a signature. The signature is a symbolic MAC: two MACs are
    equal exactly when they were computed with the same method, key and claims. */
module JwtCodec {
  import opened Base

  /** A JSON claim value after decoding: a string, a number, or anything else. */
  datatype ClaimValue = Str(s: string) | Num(n: int) | Other

  type ClaimSet = map<string, ClaimValue>

  datatype SigningMethod = HS256 | HS384 | HS512 | RS256 | RS384 | RS512
                         | ES256 | ES384 | ES512 | PS256 | PS384 | PS512 | EdDSA | NoneMethod

  /** `*jwt.SigningMethodHMAC`. */
  predicate IsHmac(m: SigningMethod)
  {
    m == HS256 || m == HS384 || m == HS512
  }

  datatype Mac = Mac(alg: SigningMethod, key: string, claims: ClaimSet)

  /** A decoded token: header method, claim set and signature. */
  datatype Jws = Jws(alg: SigningMethod, claims: ClaimSet, signature: Mac)

  /** The compact serialisation (base64url JSON segments) and its parser. */
  datatype Codec = Codec(encode: Jws -> string, decode: string -> Option<Jws>)

  /** The one assumption made about the serialisation: decoding an encoded token recovers it. */
  ghost predicate Faithful(c: Codec)
  {
    forall j :: c.decode(c.encode(j)) == Some(j)
  }

  /** Why the library rejects a token. */
  datatype ParseError = Malformed | UnexpectedSigningMethod | SignatureInvalid | InvalidClaimType | Expired

  /** `jwt.NewWithClaims(jwt.SigningMethodHS256, claims).SignedString(key)`. */
  function Sign(c: Codec, key: string, claims: ClaimSet): (t: string)
    ensures Faithful(c) ==> c.decode(t) == Some(Jws(HS256, claims, Mac(HS256, key, claims)))
  {
    c.encode(Jws(HS256, claims, Mac(HS256, key, claims)))
  }

  /** The standard `exp` check: absent is accepted, a number must lie strictly in the future,
      anything else is a type error. */
  function CheckExpiry(claims: ClaimSet, now: int): (r: Option<ParseError>)
    ensures r.None? <==> ("exp" !in claims || (claims["exp"].Num? && now < claims["exp"].n))
  {
    if "exp" !in claims then None
    else match claims["exp"]
      case Num(e) => if now < e then None else Some(Expired)
      case _ => Some(InvalidClaimType)
  }

  /** `jwt.Parse` with the key function of the token service: non-HMAC methods are refused,
      HMAC methods are verified with `key`, then the claims are validated at time `now`. */
  function Parse(c: Codec, key: string, now: int, token: string): (r: Result<ClaimSet>)
    ensures c.decode(token).None? ==> r == Err(Error("token is malformed"))
    ensures c.decode(token).Some? && !IsHmac(c.decode(token).value.alg) ==> r == Err(Error("unexpected signing method"))
    ensures r.Ok? ==> Accepts(c, key, now, token, r.value)
  {
    match c.decode(token)
    case None => Err(Error("token is malformed"))
    case Some(j) =>
      if !IsHmac(j.alg) then Err(Error("unexpected signing method"))
      else if j.signature != Mac(j.alg, key, j.claims) then Err(Error("signature is invalid"))
      else if CheckExpiry(j.claims, now).Some? then Err(Error("token has invalid claims"))
      else Ok(j.claims)
  }

  /** Authentic: `token` decodes to a token carrying `claims` that was signed with `key` by an
      HMAC method, and is unexpired at `now`. */
  ghost predicate Accepts(c: Codec, key: string, now: int, token: string, claims: ClaimSet)
  {
    exists m: SigningMethod :: IsHmac(m) && c.decode(token) == Some(Jws(m, claims, Mac(m, key, claims)))
      && CheckExpiry(claims, now).None?
  }

  lemma ParseSound(c: Codec, key: string, now: int, token: string)
    ensures Parse(c, key, now, token).Ok? <==> exists claims :: Accepts(c, key, now, token, claims)
    ensures Parse(c, key, now, token).Ok? ==> Accepts(c, key, now, token, Parse(c, key, now, token).value)
  {
    var r := Parse(c, key, now, token);
    if r.Ok? {
      var j := c.decode(token).value;
      assert c.decode(token) == Some(Jws(j.alg, j.claims, Mac(j.alg, key, j.claims)));
      assert Accepts(c, key, now, token, j.claims);
    }
    forall claims | Accepts(c, key, now, token, claims) ensures r.Ok? {
      var m :| IsHmac(m) && c.decode(token) == Some(Jws(m, claims, Mac(m, key, claims)))
        && CheckExpiry(claims, now).None?;
    }
  }

  /** First axiom of the codec: a token signed with the same key parses back to its claims
      while it is unexpired. */
  lemma SignThenParse(c: Codec, key: string, claims: ClaimSet, now: int)
    requires Faithful(c)
    requires CheckExpiry(claims, now).None?
    ensures Parse(c, key, now, Sign(c, key, claims)) == Ok(claims)
  {
    var j := Jws(HS256, claims, Mac(HS256, key, claims));
    assert c.decode(c.encode(j)) == Some(j);
  }

  /** Second axiom: an expired signed token is refused. */
  lemma SignedExpiredRejected(c: Codec, key: string, claims: ClaimSet, now: int)
    requires Faithful(c)
    requires CheckExpiry(claims, now).Some?
    ensures Parse(c, key, now, Sign(c, key, claims)).Err?
  {
    var j := Jws(HS256, claims, Mac(HS256, key, claims));
    assert c.decode(c.encode(j)) == Some(j);
  }

  /** ... and so is a token signed with any other key. */
  lemma OtherKeyRejected(c: Codec, key: string, other: string, claims: ClaimSet, now: int)
    requires Faithful(c)
    requires key != other
    ensures Parse(c, key, now, Sign(c, other, claims)).Err?
  {
    var j := Jws(HS256, claims, Mac(HS256, other, claims));
    assert c.decode(c.encode(j)) == Some(j);
  }

  /** ... and so is every token whose header names a method outside the HMAC family,
      whatever its signature (in particular `none`). */
  lemma NonHmacRejected(c: Codec, key: string, now: int, token: string)
    requires c.decode(token).Some? && !IsHmac(c.decode(token).value.alg)
    ensures Parse(c, key, now, token) == Err(Error("unexpected signing method"))
  {
  }

  /** Expiry is final: once the `exp` of an accepted token has passed, the token is accepted
      with no claim set at all, at that instant or any later one. */
  lemma ExpiryIsFinal(c: Codec, key: string, now: int, token: string, claims: ClaimSet, later: int)
    requires Accepts(c, key, now, token, claims)
    requires "exp" in claims && claims["exp"].Num? && claims["exp"].n <= later
    ensures forall other: ClaimSet :: !Accepts(c, key, later, token, other)
  {
  }
}
