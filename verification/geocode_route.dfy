/** The server-side geocoding proxy (`GET /api/geocode?query=…`): query and
    configuration checks, the forward/reverse heuristic, the provider
    endpoint with its result limit, the redacted log line, and how the
    provider's answer becomes the reply. */
module GeocodeRoute {
  import opened Wrappers
  import opened JsNumbers
  import opened JsValues
  import opened Text

  // ---------------------------------------------------------------------------
  // encodeURIComponent
  // ---------------------------------------------------------------------------

  /** The characters `encodeURIComponent` leaves as they are. */
  predicate Unreserved(c: char) {
    ('A' <= c <= 'Z') || ('a' <= c <= 'z') || ('0' <= c <= '9')
    || c == '-' || c == '_' || c == '.' || c == '!' || c == '~'
    || c == '*' || c == '\'' || c == '(' || c == ')'
  }

  /** The UTF-8 encoding of one character. */
  function Utf8(c: char): (bytes: seq<nat>)
    ensures 1 <= |bytes| <= 4
    ensures forall k :: 0 <= k < |bytes| ==> bytes[k] < 256
  {
    var cp := c as int;
    if cp < 0x80 then [cp]
    else if cp < 0x800 then [0xC0 + cp / 64, 0x80 + cp % 64]
    else if cp < 0x1_0000 then [0xE0 + cp / 4096, 0x80 + (cp / 64) % 64, 0x80 + cp % 64]
    else [0xF0 + cp / 262144, 0x80 + (cp / 4096) % 64, 0x80 + (cp / 64) % 64, 0x80 + cp % 64]
  }

  function HexDigit(d: nat): (c: char)
    requires d < 16
    ensures Unreserved(c)
  {
    "0123456789ABCDEF"[d]
  }

  /** `%XY` with upper-case hexadecimal digits. */
  function PercentBytes(bytes: seq<nat>): (r: string)
    requires forall k :: 0 <= k < |bytes| ==> bytes[k] < 256
    ensures |r| == 3 * |bytes|
    ensures forall c :: c in r ==> Unreserved(c) || c == '%'
  {
    if |bytes| == 0 then ""
    else ['%', HexDigit(bytes[0] / 16), HexDigit(bytes[0] % 16)] + PercentBytes(bytes[1..])
  }

  /** `encodeURIComponent(s)`: the result holds only unreserved characters
      and `%`, so it can never add a path segment, a query parameter or a
      fragment to the URL it is placed in. */
  function EncodeUriComponent(s: string): (r: string)
    ensures |r| >= |s|
    ensures forall c :: c in r ==> Unreserved(c) || c == '%'
  {
    if |s| == 0 then ""
    else if Unreserved(s[0]) then [s[0]] + EncodeUriComponent(s[1..])
    else PercentBytes(Utf8(s[0])) + EncodeUriComponent(s[1..])
  }

  /** A string of unreserved characters is placed in the URL unchanged. */
  lemma {:induction false} EncodeUnreserved(s: string)
    requires forall c :: c in s ==> Unreserved(c)
    ensures EncodeUriComponent(s) == s
    decreases |s|
  {
    if |s| > 0 {
      assert s[0] in s;
      assert forall c :: c in s[1..] ==> c in s;
      EncodeUnreserved(s[1..]);
      assert [s[0]] + s[1..] == s;
    }
  }

  // ---------------------------------------------------------------------------
  // Classification and endpoint
  // ---------------------------------------------------------------------------

  /** A query is read as coordinates when it contains a comma and the first
      two comma-separated pieces both start with something `parseFloat`
      accepts. */
  predicate IsReverseQuery(q: string) {
    var parts := Split(q, ',');
    Contains(q, ",") && !ParseFloat(parts[0]).NaN?
    && |parts| >= 2 && !ParseFloat(parts[1]).NaN?
  }

  /** How many results the provider is asked for. */
  function Limit(q: string): (n: nat)
    ensures IsReverseQuery(q) <==> n == 1
    ensures !IsReverseQuery(q) <==> n == 5
  {
    if IsReverseQuery(q) then 1 else 5
  }

  const EndpointBase: string := "https://api.mapbox.com/geocoding/v5/mapbox.places/"
  const TokenParameter: string := ".json?access_token="

  /** Everything before the token, and everything after it. */
  function BeforeToken(q: string): string {
    EndpointBase + EncodeUriComponent(q) + TokenParameter
  }

  function AfterToken(q: string): string {
    "&limit=" + NatToString(Limit(q))
  }

  function Endpoint(q: string, token: string): string {
    BeforeToken(q) + token + AfterToken(q)
  }

  /** The endpoint as it is logged: the first occurrence of the token is
      replaced by `REDACTED`. */
  function LoggedEndpoint(q: string, token: string): string {
    ReplaceFirst(Endpoint(q, token), token, "REDACTED")
  }

  /** When the token occurs nowhere before its own parameter, the log line
      shows `REDACTED` in its place and everything else as sent. */
  lemma LoggedEndpointRedacted(q: string, token: string)
    requires forall j :: 0 <= j < |BeforeToken(q)| ==> !OccursAt(Endpoint(q, token), token, j)
    ensures LoggedEndpoint(q, token) == BeforeToken(q) + "REDACTED" + AfterToken(q)
  {
    ReplaceFirstSpec(Endpoint(q, token), token, "REDACTED", BeforeToken(q), AfterToken(q));
  }

  // ---------------------------------------------------------------------------
  // The handler
  // ---------------------------------------------------------------------------

  /** What the provider call produced: a response with its status and its
      body when that parses as JSON, or a thrown network error. */
  datatype Upstream = Responded(status: int, json: Option<JsValue>) | NetworkError

  /** A JSON reply with its status. */
  datatype Reply = Reply(status: int, body: JsValue)

  function ErrorReply(status: int, message: string): (r: Reply)
    ensures r.status == status && Get(r.body, "error") == Str(message)
  {
    Reply(status, Obj(map["error" := Str(message)]))
  }

  /** `response.ok`. */
  predicate IsOk(status: int) {
    200 <= status <= 299
  }

  /** One request: the endpoint fetched (if any), the line logged (if any),
      and the reply. */
  datatype RouteRun = RouteRun(fetched: Option<string>, logged: Option<string>, reply: Reply)

  /** `GET(request)`, given the `query` parameter, the configured token and
      what the provider call produces. */
  function HandleGet(query: Option<string>, token: Option<string>, upstream: Upstream): (run: RouteRun)
    ensures run.fetched.Some? <==> query.Some? && |query.value| > 0 && token.Some? && |token.value| > 0
    ensures (query.None? || query == Some("")) ==> run.reply == ErrorReply(400, "Query parameter is required")
    ensures run.fetched.None? && query.Some? && |query.value| > 0 ==> run.reply == ErrorReply(500, "Configuration error")
    ensures run.fetched.Some? ==>
              run.fetched == Some(Endpoint(query.value, token.value))
              && run.logged == Some(LoggedEndpoint(query.value, token.value))
    ensures run.fetched.Some? && upstream.Responded? && !IsOk(upstream.status) ==>
              run.reply == ErrorReply(upstream.status, "Geocoding service returned status " + IntToString(upstream.status))
    ensures run.fetched.Some? && upstream.Responded? && IsOk(upstream.status) && upstream.json.Some? ==>
              run.reply == Reply(200, upstream.json.value)
    ensures run.fetched.Some? && (upstream.NetworkError? || (IsOk(upstream.status) && upstream.json.None?)) ==>
              run.reply == ErrorReply(500, "Failed to geocode location")
    ensures run.reply.status == 200 ==> run.fetched.Some? && upstream.Responded? && upstream.json.Some?
  {
    if query.None? || query.value == "" then
      RouteRun(None, None, ErrorReply(400, "Query parameter is required"))
    else if token.None? || token.value == "" then
      RouteRun(None, None, ErrorReply(500, "Configuration error"))
    else
      var endpoint := Endpoint(query.value, token.value);
      var logged := LoggedEndpoint(query.value, token.value);
      var reply :=
        match upstream
        case NetworkError => ErrorReply(500, "Failed to geocode location")
        case Responded(status, json) =>
          if !IsOk(status) then
            ErrorReply(status, "Geocoding service returned status " + IntToString(status))
          else if json.None? then ErrorReply(500, "Failed to geocode location")
          else Reply(200, json.value);
      RouteRun(Some(endpoint), Some(logged), reply)
  }
}
