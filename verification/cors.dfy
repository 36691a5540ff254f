/** `add_cors_headers`: the CORS response headers chosen from the request's
    `Origin` and the configured origin list. */
module Cors {
  import opened Wrappers
  import Settings

  type Headers = map<string, string>

  /** The configured entry that allows every origin. */
  const Wildcard := "*"

  const AllowOrigin := "Access-Control-Allow-Origin"
  const AllowCredentials := "Access-Control-Allow-Credentials"
  const AllowMethods := "Access-Control-Allow-Methods"
  const AllowHeaders := "Access-Control-Allow-Headers"
  const ExposeHeaders := "Access-Control-Expose-Headers"
  const MaxAge := "Access-Control-Max-Age"

  const Methods := "GET, POST, PUT, DELETE, PATCH, OPTIONS"
  const RequestHeaders := "Content-Type, Authorization, Accept, X-Requested-With"

  /** The header names this function may write. */
  predicate IsCorsHeader(k: string) {
    k == AllowOrigin || k == AllowCredentials || k == AllowMethods
    || k == AllowHeaders || k == ExposeHeaders || k == MaxAge
  }

  /** A present, non-empty `Origin` header. */
  predicate Truthy(origin: Option<string>) {
    origin.Some? && origin.value != ""
  }

  /** The origin is echoed back with credentials. */
  predicate Echoes(origin: Option<string>, allowed: seq<string>) {
    Truthy(origin) && (origin.value in allowed || allowed == [])
  }

  function AddCorsHeaders(headers: Headers, origin: Option<string>, allowed: seq<string>): (r: Headers)
    ensures Echoes(origin, allowed) ==> AllowOrigin in r && AllowCredentials in r && r[AllowOrigin] == origin.value && r[AllowCredentials] == "true"
    ensures !Echoes(origin, allowed) && Wildcard in allowed ==>
      AllowOrigin in r && r[AllowOrigin] == Wildcard && (AllowCredentials in r <==> AllowCredentials in headers) &&
      (AllowCredentials in headers ==> r[AllowCredentials] == headers[AllowCredentials])
    ensures !Echoes(origin, allowed) && Wildcard !in allowed ==>
      forall k :: k == AllowOrigin || k == AllowCredentials ==> (k in r <==> k in headers) && (k in headers ==> r[k] == headers[k])
    ensures AllowMethods in r && r[AllowMethods] == Methods
    ensures AllowHeaders in r && r[AllowHeaders] == RequestHeaders
    ensures ExposeHeaders in r && r[ExposeHeaders] == "*"
    ensures MaxAge in r && r[MaxAge] == "3600"
    ensures forall k :: !IsCorsHeader(k) ==> (k in r <==> k in headers) && (k in headers ==> r[k] == headers[k])
  {
    var chosen :=
      if Truthy(origin) && origin.value in allowed then
        headers[AllowOrigin := origin.value][AllowCredentials := "true"]
      else if Wildcard in allowed then headers[AllowOrigin := Wildcard]
      else if allowed == [] && Truthy(origin) then
        headers[AllowOrigin := origin.value][AllowCredentials := "true"]
      else headers;
    chosen[AllowMethods := Methods][AllowHeaders := RequestHeaders][ExposeHeaders := "*"][MaxAge := "3600"]
  }

  /** Section 3.2.3 of the WHATWG Fetch Standard: a credentialed response
      must not allow every origin. This function only pairs "*" with
      credentials when the configured list itself holds "*" and the caller
      sends that literal as its origin, or when an earlier handler already
      set the credentials header. */
  lemma WildcardNotCredentialed(headers: Headers, origin: Option<string>, allowed: seq<string>)
    requires AllowCredentials !in headers
    requires origin != Some(Wildcard)
    ensures var r := AddCorsHeaders(headers, origin, allowed);
      AllowOrigin in r && r[AllowOrigin] == Wildcard ==> AllowCredentials !in r
  {
  }

  /** A browser origin that is not configured gets no grant when a list is
      configured without the wildcard. */
  lemma UnlistedOriginNotGranted(headers: Headers, origin: string, allowed: seq<string>)
    requires origin !in allowed && Wildcard !in allowed && allowed != []
    requires AllowOrigin !in headers
    ensures AllowOrigin !in AddCorsHeaders(headers, Some(origin), allowed)
  {
  }

  /** Adding the headers a second time changes nothing. */
  lemma AddCorsHeadersIdempotent(headers: Headers, origin: Option<string>, allowed: seq<string>)
    ensures var once := AddCorsHeaders(headers, origin, allowed);
      AddCorsHeaders(once, origin, allowed) == once
  {
    var once := AddCorsHeaders(headers, origin, allowed);
    var twice := AddCorsHeaders(once, origin, allowed);
    assert twice.Keys == once.Keys;
  }

  /** With no origins configured, each of the three local development
      origins is echoed with credentials. */
  lemma DefaultOriginsEchoed(headers: Headers, k: nat)
    requires k < |Settings.DefaultOrigins|
    ensures var o := Settings.DefaultOrigins[k];
      var r := AddCorsHeaders(headers, Some(o), Settings.ParseAllowedOrigins(Settings.Unset));
      AllowOrigin in r && AllowCredentials in r && r[AllowOrigin] == o && r[AllowCredentials] == "true"
  {
    var o := Settings.DefaultOrigins[k];
    assert o != [] by { assert |o| > 0; }
  }
}
