/** The bearer-token middleware: public routes pass untouched, every other
    request needs `Authorization: Bearer <jwt>` whose payload names a
    subject and has not expired. */
module AuthMiddleware {
  import opened Wrappers
  import opened Crypto
  import Text

  /** What the middleware attaches to the request state. */
  datatype Identity = Identity(userId: string, payload: Payload)

  datatype Decision =
    | Forward(identity: Option<Identity>)   // `call_next`, with the state set when authenticated
    | Unauthorized(detail: string)          // a 401 JSON response with this detail

  /** `exp and datetime.fromtimestamp(exp) < datetime.now()`: a zero or
      missing expiry never expires. */
  predicate Expired(p: Payload, now: int) {
    p.exp.Some? && p.exp.value != 0 && p.exp.value < now
  }

  /** The checks after a successful split of the header. `decode` is
      `jwt.decode` with the configured key and algorithm: the payload, or
      the text of the `JWTError`. */
  function CheckToken(scheme: string, token: string, decode: string -> Result<Payload, string>, now: int): (d: Decision)
    ensures d.Forward? <==> (Text.Lower(scheme) == "bearer" && decode(token).Ok? &&
      decode(token).value.sub.Some? && !Expired(decode(token).value, now))
    ensures d.Forward? ==> d.identity == Some(Identity(decode(token).value.sub.value, decode(token).value))
    ensures Text.Lower(scheme) != "bearer" ==> d == Unauthorized("Invalid authentication scheme")
    ensures Text.Lower(scheme) == "bearer" && decode(token).Err? ==> d == Unauthorized("Invalid token: " + decode(token).error)
    ensures Text.Lower(scheme) == "bearer" && decode(token).Ok? && decode(token).value.sub.None? ==>
              d == Unauthorized("Invalid token payload")
    ensures Text.Lower(scheme) == "bearer" && decode(token).Ok? && decode(token).value.sub.Some? && Expired(decode(token).value, now) ==>
              d == Unauthorized("Token has expired")
    ensures d == Unauthorized("Token has expired") ==> decode(token).Ok? && Expired(decode(token).value, now)
  {
    if Text.Lower(scheme) != "bearer" then Unauthorized("Invalid authentication scheme")
    else match decode(token)
      case Err(e) => DecodeErrorIsNotExpiry(e); Unauthorized("Invalid token: " + e)
      case Ok(p) =>
        if p.sub.None? then Unauthorized("Invalid token payload")
        else if Expired(p, now) then Unauthorized("Token has expired")
        else Forward(Some(Identity(p.sub.value, p)))
  }

  /** A decoding error is reported under its own prefix. */
  lemma DecodeErrorIsNotExpiry(e: string)
    ensures "Invalid token: " + e != "Token has expired"
  {
    assert ("Invalid token: " + e)[0] == 'I';
  }

  /** `AuthMiddleware.dispatch`. */
  function Dispatch(path: string, publicRoutes: seq<string>, header: Option<string>,
                    decode: string -> Result<Payload, string>, now: int): (d: Decision)
    ensures path in publicRoutes <==> d == Forward(None)
    ensures path !in publicRoutes && (header.None? || header == Some("")) ==>
      d == Unauthorized("Authorization header missing")
    ensures path !in publicRoutes && header.Some? && header.value != "" && |Text.SplitWhitespace(header.value)| != 2 ==>
      d == Unauthorized("Invalid Authorization header format")
    ensures path !in publicRoutes && header.Some? && header.value != "" && |Text.SplitWhitespace(header.value)| == 2 ==>
      d == CheckToken(Text.SplitWhitespace(header.value)[0], Text.SplitWhitespace(header.value)[1], decode, now)
    ensures d.Forward? && d.identity.Some? ==>
      path !in publicRoutes && header.Some? && |Text.SplitWhitespace(header.value)| == 2
  {
    if path in publicRoutes then Forward(None)
    else match header
      case None => Unauthorized("Authorization header missing")
      case Some(h) =>
        if h == "" then Unauthorized("Authorization header missing")
        else
          var parts := Text.SplitWhitespace(h);
          if |parts| != 2 then Unauthorized("Invalid Authorization header format")
          else CheckToken(parts[0], parts[1], decode, now)
  }

  /** A token the decoder accepts, naming a subject and not yet expired,
      passes under any spelling of the scheme that lower-cases to
      "bearer". */
  lemma BearerAccepted(path: string, publicRoutes: seq<string>, scheme: string, token: string,
                       decode: string -> Result<Payload, string>, now: int)
    requires path !in publicRoutes
    requires Text.IsWord(scheme) && Text.Lower(scheme) == "bearer"
    requires Text.IsWord(token)
    requires decode(token).Ok? && decode(token).value.sub.Some? && !Expired(decode(token).value, now)
    ensures Dispatch(path, publicRoutes, Some(scheme + " " + token), decode, now) ==
      Forward(Some(Identity(decode(token).value.sub.value, decode(token).value)))
  {
    Text.SplitTwoWords(scheme, token);
  }

  /** A token this service issued for a user, presented before its expiry,
      authenticates that user. */
  lemma IssuedTokenAccepted(path: string, publicRoutes: seq<string>, text: string, userId: string,
                            role: string, exp: int, decode: string -> Result<Payload, string>, now: int)
    requires path !in publicRoutes
    requires Text.IsWord(text)
    requires decode(text) == Ok(JwtDecode(JwtEncode(Payload(Some(userId), Some(role), Some(exp)))))
    requires now <= exp
    ensures Dispatch(path, publicRoutes, Some("Bearer " + text), decode, now) ==
      Forward(Some(Identity(userId, Payload(Some(userId), Some(role), Some(exp)))))
  {
    assert Text.Lower("Bearer") == "bearer";
    assert Text.IsWord("Bearer");
    assert "Bearer " + text == "Bearer" + " " + text;
    BearerAccepted(path, publicRoutes, "Bearer", text, decode, now);
  }

  /** `jwt.decode` already refuses a payload whose expiry has passed. */
  ghost predicate DecoderChecksExpiry(decode: string -> Result<Payload, string>, now: int) {
    forall t :: decode(t).Ok? ==> !Expired(decode(t).value, now)
  }

  /** With such a decoder, and the clock read in whole seconds, the
      middleware's own expiry branch is never taken. */
  lemma ExpiryBranchShadowed(path: string, publicRoutes: seq<string>, header: Option<string>,
                             decode: string -> Result<Payload, string>, now: int)
    requires DecoderChecksExpiry(decode, now)
    ensures Dispatch(path, publicRoutes, header, decode, now) != Unauthorized("Token has expired")
  {
    if path !in publicRoutes && header.Some? && header.value != "" {
      var parts := Text.SplitWhitespace(header.value);
      if |parts| == 2 {
        assert decode(parts[1]).Ok? ==> !Expired(decode(parts[1]).value, now);
      }
    }
  }

  /** A request is forwarded with an identity only when its token decoded
      to a payload whose subject is that identity. */
  lemma ForwardedIdentityDecoded(path: string, publicRoutes: seq<string>, header: Option<string>,
                                 decode: string -> Result<Payload, string>, now: int)
    requires Dispatch(path, publicRoutes, header, decode, now).Forward?
    requires Dispatch(path, publicRoutes, header, decode, now).identity.Some?
    ensures var id := Dispatch(path, publicRoutes, header, decode, now).identity.value;
      exists t :: decode(t) == Ok(id.payload) && id.payload.sub == Some(id.userId) && !Expired(id.payload, now)
  {
    var parts := Text.SplitWhitespace(header.value);
    assert decode(parts[1]).Ok?;
  }
}
