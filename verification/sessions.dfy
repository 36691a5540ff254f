/** The session registry kept in the cache: `session:<user id>` holds the
    user's current token and `token:<sha256 of the token>` points back to
    the user. Both entries of a session are written with the same time to
    live; the passage of time itself is not modelled, so an entry is present
    until it is deleted. */
module Sessions {
  import opened Wrappers
  import opened Crypto

  /** A cache entry: the stored value and the seconds it was given to live. */
  datatype Entry<T> = Entry(value: T, ttl: int)

  /** The two key families. The prefixes "session:" and "token:" differ, so a
      key of one family never names an entry of the other; the token family
      is keyed by the digest, never by the token itself. */
  datatype Registry = Registry(sessions: map<string, Entry<Token>>, tokens: map<TokenDigest, Entry<string>>)

  const Empty: Registry := Registry(map[], map[])

  /** `_get_token_key`: the digest that names a token's reverse entry. */
  function TokenKey(token: Token): (d: TokenDigest)
    ensures d.token == token
  {
    Sha256OfToken(token)
  }

  /** Two tokens share a reverse entry only when they are the same token. */
  lemma TokenKeyInjective(a: Token, b: Token)
    ensures TokenKey(a) == TokenKey(b) <==> a == b
  {
    TokenDigestInjective(a, b);
  }

  /** `SETEX`: a time to live that is not positive is refused. */
  predicate ValidTtl(ttl: int) { ttl > 0 }

  /** `store_session`. The reverse entry of the user's previous token is
      deleted first; then the session entry and the reverse entry of the new
      token are written with the same time to live. When the cache refuses
      the time to live, the deletion has already happened. */
  function StoreSession(reg: Registry, userId: string, token: Token, ttl: int): (r: (Registry, Result<(), Error>))
    ensures r.1.Ok? <==> ValidTtl(ttl)
    ensures r.1.Ok? ==> r.0.sessions == reg.sessions[userId := Entry(token, ttl)]
    ensures r.1.Ok? ==> r.0.tokens == Cleared(reg, userId)[TokenKey(token) := Entry(userId, ttl)]
    ensures r.1.Err? ==> r.0 == reg.(tokens := Cleared(reg, userId))
  {
    var cleared := reg.(tokens := Cleared(reg, userId));
    if !ValidTtl(ttl) then (cleared, Err(ResponseError("invalid expire time in 'setex' command")))
    else
      (Registry(cleared.sessions[userId := Entry(token, ttl)], cleared.tokens[TokenKey(token) := Entry(userId, ttl)]), Ok(()))
  }

  /** The reverse entries left after deleting the one of the user's current
      token, if the user has a session. */
  function Cleared(reg: Registry, userId: string): (t: map<TokenDigest, Entry<string>>)
    ensures userId !in reg.sessions ==> t == reg.tokens
    ensures userId in reg.sessions ==> t == reg.tokens - {TokenKey(reg.sessions[userId].value)}
  {
    if userId in reg.sessions then reg.tokens - {TokenKey(reg.sessions[userId].value)} else reg.tokens
  }

  /** `is_token_valid`: the reverse entry exists. */
  predicate IsTokenValid(reg: Registry, token: Token) {
    TokenKey(token) in reg.tokens
  }

  /** `invalidate_session`: both entries of the user's session are deleted;
      nothing happens when the user has none. */
  function InvalidateSession(reg: Registry, userId: string): (r: Registry)
    ensures userId !in reg.sessions ==> r == reg
    ensures userId in reg.sessions ==>
              && r.sessions == reg.sessions - {userId}
              && r.tokens == reg.tokens - {TokenKey(reg.sessions[userId].value)}
  {
    if userId in reg.sessions then
      Registry(reg.sessions - {userId}, reg.tokens - {TokenKey(reg.sessions[userId].value)})
    else reg
  }

  /** `invalidate_token`: both entries are deleted when the token's reverse
      entry names a user. A stored empty user id reads as false and leaves
      the registry as it is. */
  function InvalidateToken(reg: Registry, token: Token): (r: Registry)
    ensures GetUserIdFromToken(reg, token).None? ==> r == reg
    ensures GetUserIdFromToken(reg, token).Some? ==>
              && r.sessions == reg.sessions - {GetUserIdFromToken(reg, token).value}
              && r.tokens == reg.tokens - {TokenKey(token)}
  {
    match GetUserIdFromToken(reg, token)
    case None => reg
    case Some(userId) => Registry(reg.sessions - {userId}, reg.tokens - {TokenKey(token)})
  }

  /** `get_user_id_from_token`: the user the reverse entry names; an empty
      stored value reads as false. */
  function GetUserIdFromToken(reg: Registry, token: Token): (u: Option<string>)
    ensures u.Some? <==> TokenKey(token) in reg.tokens && reg.tokens[TokenKey(token)].value != ""
    ensures u.Some? ==> u.value == reg.tokens[TokenKey(token)].value
  {
    var key := TokenKey(token);
    if key in reg.tokens && reg.tokens[key].value != "" then Some(reg.tokens[key].value) else None
  }

  /** `get_token_expiration_seconds`, given the decoded payload (`None` when
      decoding fails) and the current time in whole seconds: the seconds
      left, never negative, or the configured default when there is no
      usable `exp`. */
  function TokenExpirationSeconds(decoded: Option<Payload>, now: int, expireMinutes: int): (s: int)
    ensures decoded.Some? && decoded.value.exp.Some? && decoded.value.exp.value != 0 ==>
              s == if decoded.value.exp.value - now > 0 then decoded.value.exp.value - now else 0
    ensures decoded.None? || decoded.value.exp.None? || decoded.value.exp.value == 0 ==> s == expireMinutes * 60
  {
    match decoded
    case None => expireMinutes * 60
    case Some(p) =>
      if p.exp.Some? && p.exp.value != 0 then
        var delta := p.exp.value - now;
        if delta > 0 then delta else 0
      else expireMinutes * 60
  }

  lemma ExpirationNeverNegative(decoded: Option<Payload>, now: int, expireMinutes: nat)
    ensures TokenExpirationSeconds(decoded, now, expireMinutes) >= 0
  {
  }

  // ---------------------------------------------------------------------
  // The registry invariant
  // ---------------------------------------------------------------------

  /** Every session has its reverse entry naming the user, with the same time
      to live, and every reverse entry belongs to the session holding that
      token. */
  ghost predicate Consistent(reg: Registry) {
    && (forall u :: u in reg.sessions ==>
          && TokenKey(reg.sessions[u].value) in reg.tokens
          && reg.tokens[TokenKey(reg.sessions[u].value)] == Entry(u, reg.sessions[u].ttl))
    && (forall d :: d in reg.tokens ==>
          && reg.tokens[d].value in reg.sessions
          && TokenKey(reg.sessions[reg.tokens[d].value].value) == d)
  }

  /** Under the invariant a token is valid exactly when some user's session
      holds it, and it then names that user. */
  lemma ValidIffHeld(reg: Registry, token: Token)
    requires Consistent(reg)
    ensures IsTokenValid(reg, token) <==> exists u :: u in reg.sessions && reg.sessions[u].value == token
    ensures forall u :: u in reg.sessions && reg.sessions[u].value == token ==> reg.tokens[TokenKey(token)].value == u
  {
    if IsTokenValid(reg, token) {
      var u := reg.tokens[TokenKey(token)].value;
      assert u in reg.sessions && reg.sessions[u].value == token;
    }
  }

  lemma EmptyConsistent()
    ensures Consistent(Empty)
  {
  }

  /** Storing a session keeps the invariant, provided the token is not
      already another user's. */
  lemma StorePreservesConsistent(reg: Registry, userId: string, token: Token, ttl: int)
    requires Consistent(reg) && ValidTtl(ttl)
    requires forall u :: u in reg.sessions && reg.sessions[u].value == token ==> u == userId
    ensures Consistent(StoreSession(reg, userId, token, ttl).0)
  {
    var r := StoreSession(reg, userId, token, ttl).0;
    forall u | u in r.sessions
      ensures TokenKey(r.sessions[u].value) in r.tokens && r.tokens[TokenKey(r.sessions[u].value)] == Entry(u, r.sessions[u].ttl)
    {
      if u != userId {
        var t := reg.sessions[u].value;
        assert t != token;
        if userId in reg.sessions {
          assert TokenKey(t) != TokenKey(reg.sessions[userId].value);
        }
      }
    }
    forall d | d in r.tokens
      ensures r.tokens[d].value in r.sessions && TokenKey(r.sessions[r.tokens[d].value].value) == d
    {
    }
  }

  lemma InvalidateSessionPreservesConsistent(reg: Registry, userId: string)
    requires Consistent(reg)
    ensures Consistent(InvalidateSession(reg, userId))
  {
    var r := InvalidateSession(reg, userId);
    if userId in reg.sessions {
      var gone := TokenKey(reg.sessions[userId].value);
      forall u | u in r.sessions
        ensures TokenKey(r.sessions[u].value) in r.tokens
      {
        assert TokenKey(reg.sessions[u].value) != gone;
      }
    }
  }

  lemma InvalidateTokenPreservesConsistent(reg: Registry, token: Token)
    requires Consistent(reg)
    ensures Consistent(InvalidateToken(reg, token))
  {
    var r := InvalidateToken(reg, token);
    match GetUserIdFromToken(reg, token)
    case None =>
    case Some(userId) =>
      forall u | u in r.sessions
        ensures TokenKey(r.sessions[u].value) in r.tokens
      {
        assert TokenKey(reg.sessions[u].value) != TokenKey(token);
      }
  }

  // ---------------------------------------------------------------------
  // What a caller observes
  // ---------------------------------------------------------------------

  /** After `store_session(u, t)` the token is valid and names `u` (read back
      as false when `u` is empty). */
  lemma StoredTokenValid(reg: Registry, userId: string, token: Token, ttl: int)
    requires ValidTtl(ttl)
    ensures var r := StoreSession(reg, userId, token, ttl).0;
            && IsTokenValid(r, token)
            && GetUserIdFromToken(r, token) == (if userId == "" then None else Some(userId))
  {
  }

  /** One live token per user: storing a new session makes the user's
      previous token invalid, whether or not the write then succeeds. */
  lemma PreviousTokenInvalidated(reg: Registry, userId: string, token: Token, ttl: int)
    requires userId in reg.sessions && reg.sessions[userId].value != token
    ensures !IsTokenValid(StoreSession(reg, userId, token, ttl).0, reg.sessions[userId].value)
  {
  }

  /** The session entry and the reverse entry are written with the same time
      to live. */
  lemma SameTtl(reg: Registry, userId: string, token: Token, ttl: int)
    requires ValidTtl(ttl)
    ensures var r := StoreSession(reg, userId, token, ttl).0;
            r.sessions[userId].ttl == r.tokens[TokenKey(token)].ttl == ttl
  {
  }

  /** After invalidating a user's session its token is no longer valid and
      the user has no session. */
  lemma InvalidatedSessionGone(reg: Registry, userId: string)
    requires Consistent(reg) && userId in reg.sessions
    ensures var r := InvalidateSession(reg, userId);
            userId !in r.sessions && !IsTokenValid(r, reg.sessions[userId].value)
  {
  }

  /** A time to live the cache refuses leaves the session entry pointing at a
      token whose reverse entry is already gone: the invariant breaks. */
  lemma RefusedTtlBreaksConsistency()
    ensures var t0 := Jwt(Payload(Some("u"), None, None));
            var reg := Registry(map["u" := Entry(t0, 60)], map[TokenKey(t0) := Entry("u", 60)]);
            && Consistent(reg)
            && !Consistent(StoreSession(reg, "u", Jwt(Payload(Some("u"), None, Some(1))), 0).0)
  {
    var t0 := Jwt(Payload(Some("u"), None, None));
    var reg := Registry(map["u" := Entry(t0, 60)], map[TokenKey(t0) := Entry("u", 60)]);
    var r := StoreSession(reg, "u", Jwt(Payload(Some("u"), None, Some(1))), 0).0;
    assert "u" in r.sessions && TokenKey(r.sessions["u"].value) !in r.tokens;
  }
}
