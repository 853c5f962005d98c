/** The CORS header choice of the edge functions (supabase/functions/_shared/cors.ts). */
module Cors {
  import opened Wrappers

  const AllowedOrigins: seq<string> := ["http://localhost:5173", "https://ppa-records.vercel.app"]
  const AllowMethods: string := "GET, POST, OPTIONS"
  const AllowHeaders: string := "authorization, x-client-info, apikey, content-type"

  datatype CorsHeaders = CorsHeaders(allowOrigin: string, allowMethods: string, allowHeaders: string)

  /** `list.some(o => o.startsWith(origin))`: the origin is a prefix of some listed origin. */
  function SomeStartsWith(list: seq<string>, origin: string): (b: bool)
    ensures b <==> exists k :: 0 <= k < |list| && origin <= list[k]
  {
    if list == [] then false
    else origin <= list[0] || SomeStartsWith(list[1..], origin)
  }

  /** The origin is allowed when it is non-empty and a prefix of an allowed origin. */
  predicate IsAllowedOrigin(origin: Option<string>)
  {
    origin.Some? && origin.value != "" && SomeStartsWith(AllowedOrigins, origin.value)
  }

  /** The response headers for a request from `origin` (`None` when the request has no Origin header). */
  function GetCorsHeaders(origin: Option<string>): (h: CorsHeaders)
    ensures origin.None? || origin.value == "" ==> h.allowOrigin == AllowedOrigins[0]
    ensures origin.Some? && origin.value != "" &&
            (exists k :: 0 <= k < |AllowedOrigins| && origin.value <= AllowedOrigins[k]) ==>
            h.allowOrigin == origin.value
    ensures origin.Some? && !(exists k :: 0 <= k < |AllowedOrigins| && origin.value <= AllowedOrigins[k]) ==>
            h.allowOrigin == AllowedOrigins[0]
    ensures h.allowOrigin == "http://localhost:5173" || (origin.Some? && h.allowOrigin == origin.value)
    ensures h.allowMethods == AllowMethods && h.allowHeaders == AllowHeaders
  {
    CorsHeaders(
      if IsAllowedOrigin(origin) then origin.value else AllowedOrigins[0],
      AllowMethods,
      AllowHeaders)
  }

  /** Both configured origins are echoed back. */
  lemma ConfiguredOriginsEchoed()
    ensures GetCorsHeaders(Some("http://localhost:5173")).allowOrigin == "http://localhost:5173"
    ensures GetCorsHeaders(Some("https://ppa-records.vercel.app")).allowOrigin == "https://ppa-records.vercel.app"
  {
    assert "http://localhost:5173" <= AllowedOrigins[0];
    assert "https://ppa-records.vercel.app" <= AllowedOrigins[1];
  }

  /** The prefix test also admits a truncated origin, such as the one of a page served on port 517. */
  lemma TruncatedOriginEchoed()
    ensures GetCorsHeaders(Some("http://localhost:517")).allowOrigin == "http://localhost:517"
  {
    assert "http://localhost:517" <= AllowedOrigins[0];
  }

  /** An origin that extends an allowed one is not a prefix of it and is not echoed. */
  lemma ExtendedOriginRejected()
    ensures GetCorsHeaders(Some("http://localhost:5173.example.com")).allowOrigin == "http://localhost:5173"
  {
    var o := "http://localhost:5173.example.com";
    assert !(o <= AllowedOrigins[0]) by { assert |o| > |AllowedOrigins[0]|; }
    assert !(o <= AllowedOrigins[1]) by { assert o[4] != AllowedOrigins[1][4]; }
  }
}
