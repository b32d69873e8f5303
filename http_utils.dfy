/** `GetUserIDFromContext` (pkg/utils/http.go): the type dispatch that turns the context
    value bound by the middleware into a UUID. */
module HttpUtils {
  import opened Base
  import opened Uuid
  import opened Middleware

  const InvalidUserIdFormat := Error("invalid user ID format in context")

  function GetUserIdFromContext(r: Request): (id: Ret<UUID>)
    ensures r.userId.UuidValue? ==> id == Ret(r.userId.id, None)
    ensures r.userId.StrValue? ==> id == Uuid.Parse(r.userId.s)
    ensures (r.userId.Nil? || r.userId.OtherValue?) ==> id == Ret(Zero, Some(InvalidUserIdFormat))
    ensures id.err.Some? ==> id.value == Zero
  {
    match r.userId
    case UuidValue(u) => Ret(u, None)
    case StrValue(s) => Uuid.Parse(s)
    case _ => Ret(Zero, Some(InvalidUserIdFormat))
  }

  /** The middleware binds a string, so downstream decoding always goes through `uuid.Parse`;
      when the bound string is a UUID's text, the handler gets that UUID back. An anonymous
      request that arrived without a context value decodes to an error. */
  lemma DecodeAuthIdentity(r: Request, isBlacklisted: string -> Ret<bool>, validate: string -> Ret<string>, u: UUID)
    requires r.userId == Nil
    ensures var run := Auth(r, isBlacklisted, validate);
      && (run.bound.Some? ==> GetUserIdFromContext(run.forwarded) == Uuid.Parse(run.bound.value))
      && (run.bound.None? ==> GetUserIdFromContext(run.forwarded) == Ret(Zero, Some(InvalidUserIdFormat)))
      && (run.bound == Some(Uuid.ToString(u)) ==> GetUserIdFromContext(run.forwarded) == Ret(u, None))
  {
    ParseToString(u);
  }
}
