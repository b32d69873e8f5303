/** The session middleware chain (internal/middlewares/auth.go). A request carries its
    Authorization header and the value its context holds under the user-id key; `Auth`
    derives the request handed to the next handler, and the two gates decide whether the
    wrapped handler runs. */
module Middleware {
  import opened Base
  import opened Uuid

  /** The value found under the user-id key of a request context (`nil` when unset). */
  datatype CtxValue = Nil | UuidValue(id: UUID) | StrValue(s: string) | OtherValue

  datatype Request = Request(authorization: string, userId: CtxValue)

  const BearerPrefix := "Bearer "

  /** `strings.TrimPrefix`. */
  function TrimPrefix(s: string, prefix: string): (r: string)
    ensures prefix <= s ==> s == prefix + r
    ensures !(prefix <= s) ==> r == s
  {
    if prefix <= s then s[|prefix|..] else s
  }

  /** The token in an Authorization header: the header without a leading "Bearer ", or the
      whole header. The logout handler extracts its key the same way. */
  function BearerToken(header: string): (t: string)
    ensures BearerPrefix <= header ==> header == BearerPrefix + t
    ensures !(BearerPrefix <= header) ==> t == header
  {
    TrimPrefix(header, BearerPrefix)
  }

  /** The dependencies `Auth` consults, in the order it consults them. */
  datatype Consult = BlacklistCheck(token: string) | Validation(token: string)

  /** One run of `Auth`: the identity it bound (if any), the request it passed on (there is
      always exactly one: `Auth` has no way to reject) and what it consulted. */
  datatype AuthRun = AuthRun(bound: Option<string>, forwarded: Request, consulted: seq<Consult>)

  function Auth(r: Request, isBlacklisted: string -> Ret<bool>, validate: string -> Ret<string>): (run: AuthRun)
    ensures var t := BearerToken(r.authorization);
      run.bound.Some? <==> (r.authorization != "" && isBlacklisted(t) == Ret(false, None) && validate(t).err.None?)
    ensures run.bound.Some? ==> run.bound.value == validate(BearerToken(r.authorization)).value
    ensures run.forwarded == if run.bound.Some? then r.(userId := StrValue(run.bound.value)) else r
    ensures r.authorization == "" <==> run.consulted == []
    ensures r.authorization != "" ==> run.consulted[0] == BlacklistCheck(BearerToken(r.authorization))
    ensures var t := BearerToken(r.authorization);
      Validation(t) in run.consulted <==> (r.authorization != "" && isBlacklisted(t) == Ret(false, None))
  {
    if r.authorization == "" then AuthRun(None, r, [])
    else
      var token := BearerToken(r.authorization);
      var blacklisted := isBlacklisted(token);
      if blacklisted.err.Some? || blacklisted.value then AuthRun(None, r, [BlacklistCheck(token)])
      else
        var userId := validate(token);
        if userId.err.Some? then AuthRun(None, r, [BlacklistCheck(token), Validation(token)])
        else AuthRun(Some(userId.value), r.(userId := StrValue(userId.value)), [BlacklistCheck(token), Validation(token)])
  }

  /** What a gate does with a request: run the wrapped handler on it, or answer itself. */
  datatype Outcome = Invoke(request: Request) | Reject(status: int, message: string)

  const StatusUnauthorized := 401
  const StatusForbidden := 403

  function RequireLogin(r: Request): (o: Outcome)
    ensures o.Invoke? <==> r.userId != Nil
    ensures o.Invoke? ==> o.request == r
    ensures o.Reject? ==> o.status == StatusUnauthorized
  {
    if r.userId == Nil then Reject(StatusUnauthorized, "You must be logged in to access this resource")
    else Invoke(r)
  }

  function GuestOnly(r: Request): (o: Outcome)
    ensures o.Invoke? <==> r.userId == Nil
    ensures o.Invoke? ==> o.request == r
    ensures o.Reject? ==> o.status == StatusForbidden
  {
    if r.userId != Nil then Reject(StatusForbidden, "This resource is only accessible to guests")
    else Invoke(r)
  }

  /** Fail-open: a store error or a blacklisted token leaves the request anonymous, and the
      token validator is never consulted. */
  lemma RevokedOrUnknownIsAnonymous(r: Request, isBlacklisted: string -> Ret<bool>, validate: string -> Ret<string>)
    requires r.authorization != ""
    requires isBlacklisted(BearerToken(r.authorization)).err.Some? || isBlacklisted(BearerToken(r.authorization)).value
    ensures Auth(r, isBlacklisted, validate) == AuthRun(None, r, [BlacklistCheck(BearerToken(r.authorization))])
  {
  }

  /** Every request passes exactly one of the two gates. */
  lemma ExactlyOneGatePasses(r: Request)
    ensures RequireLogin(r).Invoke? != GuestOnly(r).Invoke?
  {
  }
}
