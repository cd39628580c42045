/** The response record the test runner hands to a request's continuation,
    reduced to the three parts the helpers read, and the helpers that read
    them: the `location` header of the first recorded exchange, the
    `auth_verification` cookie, the first redirect line and the whole
    `set-cookie` list. */
module Response {

  import opened Wrappers
  import opened JsStrings
  import opened Cookie
  import opened Redirect

  /** One entry of `allRequestResponses`: its `Response Headers` object. */
  datatype Exchange = Exchange(responseHeaders: map<string, string>)

  /** A response: `headers` (only `set-cookie`, a list of header lines, is
      read), the recorded exchanges, and the redirect lines. */
  datatype Response = Response(
    headers: map<string, seq<string>>,
    allRequestResponses: seq<Exchange>,
    redirects: seq<string>)

  /** The cookie name looked up by `getAuthVerification`. */
  const AuthVerificationKey: string := "auth_verification"

  /** `getLocationUrl`: the `location` header of the first exchange, or
      `undefined` when that exchange has none. */
  function GetLocationUrl(response: Response): (r: Option<string>)
    requires |response.allRequestResponses| > 0
    ensures r.Some? <==> "location" in response.allRequestResponses[0].responseHeaders
    ensures r.Some? ==> r.value == response.allRequestResponses[0].responseHeaders["location"]
  {
    var responseHeaders := response.allRequestResponses[0].responseHeaders;
    if "location" in responseHeaders then Some(responseHeaders["location"]) else None
  }

  /** `getLoc`: written out separately in the source, with the same lookup. */
  function GetLoc(response: Response): (r: Option<string>)
    requires |response.allRequestResponses| > 0
    ensures r.Some? <==> "location" in response.allRequestResponses[0].responseHeaders
    ensures r.Some? ==> r.value == response.allRequestResponses[0].responseHeaders["location"]
  {
    var responseHeaders := response.allRequestResponses[0].responseHeaders;
    if "location" in responseHeaders then Some(responseHeaders["location"]) else None
  }

  /** The two location helpers compute the same value for every response. */
  lemma LocationHelpersAgree(response: Response)
    requires |response.allRequestResponses| > 0
    ensures GetLocationUrl(response) == GetLoc(response)
  {
  }

  /** Only the first exchange is consulted: later exchanges, the headers
      and the redirects play no part. */
  lemma LocationReadsFirstExchangeOnly(a: Response, b: Response)
    requires |a.allRequestResponses| > 0 && |b.allRequestResponses| > 0
    requires a.allRequestResponses[0] == b.allRequestResponses[0]
    ensures GetLocationUrl(a) == GetLocationUrl(b)
  {
  }

  /** `getAuthVerification`: the cookie helper run on the first `set-cookie`
      line with the key `auth_verification`. As the helper returns the
      key's text, the result is `auth_verification` itself whenever that
      line has a segment starting with `auth_verification=`. */
  function GetAuthVerification(response: Response): (r: Option<string>)
    requires "set-cookie" in response.headers && |response.headers["set-cookie"]| > 0
    ensures r.Some? <==> HasKey(response.headers["set-cookie"][0], AuthVerificationKey)
    ensures r.Some? ==> r.value == AuthVerificationKey
  {
    SplitWithoutSep(AuthVerificationKey, '=');
    ExtractValueFromCookie(response.headers["set-cookie"][0], AuthVerificationKey)
  }

  /** Only the first `set-cookie` line is consulted: an `auth_verification`
      cookie in any later line is ignored. */
  lemma {:induction false} LaterSetCookieIgnored(first: string, later: seq<string>, response: Response)
    requires "set-cookie" in response.headers && response.headers["set-cookie"] == [first] + later
    requires !HasKey(first, AuthVerificationKey)
    ensures GetAuthVerification(response) == None
  {
  }

  /** The lookup `getAuthVerification` evidently intends: the value of the
      `auth_verification` cookie on the first `set-cookie` line. It finds a
      value exactly when the helper as written finds the key, and the value
      comes from the first segment that starts with `auth_verification=`. */
  function IntendedAuthVerification(response: Response): (r: Option<string>)
    requires "set-cookie" in response.headers && |response.headers["set-cookie"]| > 0
    ensures r.None? <==> GetAuthVerification(response).None?
    ensures r.Some? ==>
      var line := response.headers["set-cookie"][0];
      exists i :: 0 <= i < |Segments(line)| && Segments(line)[i] == AuthVerificationKey + "=" + r.value &&
        forall j :: 0 <= j < i ==> !SegmentMatches(line, AuthVerificationKey, j)
  {
    ExtractCookieValue(response.headers["set-cookie"][0], AuthVerificationKey)
  }

  /** The line `getRedirectUrl` hands to the regular expression: the first
      redirect, or the text `undefined` that an absent first element is
      converted to. */
  function RedirectLine(response: Response): string {
    if |response.redirects| == 0 then "undefined" else response.redirects[0]
  }

  /** `getRedirectUrl`: capture group 1 of `^\S+ (.+)$` on the first
      redirect line, or `null` when it does not match. An empty redirect
      list gives `null`. */
  function GetRedirectUrl(response: Response): (r: Option<string>)
    ensures |response.redirects| == 0 ==> r.None?
    ensures r.Some? ==> RegexMatches(response.redirects[0], r.value)
    ensures r.None? && |response.redirects| > 0 ==>
      forall captured :: !RegexMatches(response.redirects[0], captured)
  {
    var line := RedirectLine(response);
    assert |response.redirects| == 0 ==> TokenLength(line) == |line|;
    ExecRedirectMatchesRegex(line);
    ExecRedirect(line)
  }

  /** `getAppSession`: the whole `set-cookie` list, unchanged, or
      `undefined` when the response has none. */
  function GetAppSession(response: Response): (r: Option<seq<string>>)
    ensures r.Some? <==> "set-cookie" in response.headers
    ensures r.Some? ==> r.value == response.headers["set-cookie"]
  {
    if "set-cookie" in response.headers then Some(response.headers["set-cookie"]) else None
  }
}
