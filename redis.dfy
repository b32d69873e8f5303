/** The revocation store client (internal/services/redis.go) over a modelled key-value
    server with per-key expiry. A key set with a positive expiration lapses at the instant
    `now + expiration`; a lapsed key reads exactly like an absent one. */
module Revocation {
  import opened Base

  /** A stored value and, when it was set with a positive expiration, the instant it lapses. */
  datatype Entry = Entry(value: string, expiresAt: Option<int>)

  type Store = map<string, Entry>

  /** The value the client stores: go-redis sends Go's `true` as "1". */
  const Sentinel := "1"

  predicate Live(e: Entry, now: int)
  {
    e.expiresAt.None? || now < e.expiresAt.value
  }

  /** GET: the value of a live key, `None` standing for `redis.Nil`. */
  function Get(store: Store, now: int, key: string): (r: Option<string>)
    ensures r.Some? <==> key in store && Live(store[key], now)
    ensures r.Some? ==> r.value == store[key].value
  {
    if key in store && Live(store[key], now) then Some(store[key].value) else None
  }

  /** SET with an expiration: a positive one lapses after that many seconds; go-redis sends a
      zero or negative one as a plain SET, which never lapses. */
  function Set(store: Store, now: int, key: string, value: string, expiration: int): (r: Store)
    ensures r.Keys == store.Keys + {key}
    ensures forall k :: k in store && k != key ==> r[k] == store[k]
    ensures forall t :: Get(r, t, key) == if expiration <= 0 || t < now + expiration then Some(value) else None
  {
    store[key := Entry(value, if expiration > 0 then Some(now + expiration) else None)]
  }

  /** What a healthy store says about `token` at `now`. */
  predicate Blacklisted(store: Store, now: int, token: string)
  {
    Get(store, now, token) == Some(Sentinel)
  }

  /** The answer of `IsBlacklistedToken` when the round trip to the server yields `fault`. */
  function Query(store: Store, now: int, token: string, fault: Option<Error>): (r: Ret<bool>)
    ensures !(r.value && r.err.Some?)
    ensures r.err == fault
    ensures r.err.None? ==> (r.value <==> Blacklisted(store, now, token))
  {
    match fault
    case Some(e) => Ret(false, Some(e))
    case None =>
      match Get(store, now, token)
      case None => Ret(false, None)
      case Some(v) => Ret(v == Sentinel, None)
  }

  class RedisService {
    var store: Store

    constructor ()
      ensures store == map[]
    {
      store := map[];
    }

    /** SET token "1" with the given expiration; a failed round trip writes nothing. */
    method BlacklistToken(token: string, expiration: int, now: int, fault: Option<Error>) returns (err: Option<Error>)
      modifies this
      ensures err == fault
      ensures store == if fault.None? then Set(old(store), now, token, Sentinel, expiration) else old(store)
    {
      err := fault;
      if fault.None? {
        store := store[token := Entry(Sentinel, if expiration > 0 then Some(now + expiration) else None)];
      }
    }

    method IsBlacklistedToken(token: string, now: int, fault: Option<Error>) returns (r: Ret<bool>)
      ensures r == Query(store, now, token, fault)
    {
      if fault.Some? {
        return Ret(false, fault);
      }
      var val := Get(store, now, token);
      if val.None? {
        return Ret(false, None);
      }
      r := Ret(val.value == Sentinel, None);
    }
  }

  /** After a successful blacklisting with a positive expiration the token reads as
      blacklisted exactly until the expiration has elapsed, then as absent. */
  lemma BlacklistedUntilExpiry(store: Store, now: int, token: string, expiration: int, later: int)
    requires expiration > 0
    ensures Query(Set(store, now, token, Sentinel, expiration), later, token, None)
      == Ret(later < now + expiration, None)
    ensures Get(Set(store, now, token, Sentinel, expiration), later, token)
      == if later < now + expiration then Some("1") else None
  {
  }

  /** Not-found is not an error: a key never set, or lapsed, reads as not blacklisted. */
  lemma AbsentIsNotBlacklisted(store: Store, now: int, token: string)
    requires token !in store || !Live(store[token], now)
    ensures Query(store, now, token, None) == Ret(false, None)
  {
  }

  /** A live key holding anything but the sentinel is not a blacklisting. */
  lemma OtherValueIsNotBlacklisted(store: Store, now: int, token: string)
    requires token in store && store[token].value != Sentinel
    ensures Query(store, now, token, None) == Ret(false, None)
  {
  }

  /** Setting one key leaves every other key's answer as it was, at every instant. */
  lemma SetOnlyTouchesItsKey(store: Store, now: int, token: string, value: string, expiration: int,
                             other: string, later: int, fault: Option<Error>)
    requires other != token
    ensures Query(Set(store, now, token, value, expiration), later, other, fault) == Query(store, later, other, fault)
  {
  }

  /** Blacklisting again overwrites the entry (the later expiration wins) and keeps the
      token blacklisted. */
  lemma BlacklistAgain(store: Store, now: int, token: string, e1: int, later: int, e2: int)
    ensures Set(Set(store, now, token, Sentinel, e1), later, token, Sentinel, e2) == Set(store, later, token, Sentinel, e2)
    ensures Blacklisted(Set(Set(store, now, token, Sentinel, e1), later, token, Sentinel, e2), later, token)
  {
  }
}
