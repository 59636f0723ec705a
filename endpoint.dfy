/**
 * How the client chooses the service endpoint and the token it sends
 * (the constructor of `AttachmentCMS`), and the request URL that
 * `fetchContents` builds from the two.
 */
module Endpoints {
  import opened Wrappers

  /** The production host used when no base URL is given. */
  const DefaultBaseUrl: string := "https://attachment-cms.dev"

  /** The endpoint the contents are fetched from and the token sent with the request. */
  datatype Endpoint = Endpoint(url: string, token: string)

  /** JavaScript truthiness of an optional string: present and not empty. */
  predicate Truthy(s: Option<string>) {
    s.Some? && s.value != ""
  }

  /** The service base: the given base URL when it is truthy, else the production host. */
  function BaseOf(baseUrl: Option<string>): string {
    if Truthy(baseUrl) then baseUrl.value else DefaultBaseUrl
  }

  predicate EndsWith(s: string, suffix: string) {
    |suffix| <= |s| && s[|s| - |suffix|..] == suffix
  }

  /** The two endpoints of the production host, spelt out. */
  lemma DefaultEndpoints()
    ensures DefaultBaseUrl + "/contents" == "https://attachment-cms.dev/contents"
    ensures DefaultBaseUrl + "/contents/limited" == "https://attachment-cms.dev/contents/limited"
  {
  }

  /**
   * The choice the constructor makes. `queryToken` is the value of the
   * `token` parameter of the page's query string (absent when the page URL
   * has none). A truthy query token wins and selects the limited endpoint;
   * otherwise the token given to the constructor is used with the full
   * endpoint. Either endpoint hangs off the base URL.
   */
  function SelectEndpoint(token: string, baseUrl: Option<string>, queryToken: Option<string>): (e: Endpoint)
    ensures Truthy(queryToken) ==> e.token == queryToken.value && e.url == BaseOf(baseUrl) + "/contents/limited"
    ensures !Truthy(queryToken) ==> e.token == token && e.url == BaseOf(baseUrl) + "/contents"
  {
    DefaultEndpoints();
    if Truthy(queryToken) then
      Endpoint(if Truthy(baseUrl) then baseUrl.value + "/contents/limited"
               else "https://attachment-cms.dev/contents/limited",
               queryToken.value)
    else
      Endpoint(if Truthy(baseUrl) then baseUrl.value + "/contents"
               else "https://attachment-cms.dev/contents",
               token)
  }

  /** The limited endpoint is chosen exactly when a truthy query token is present. */
  lemma LimitedIffQueryToken(token: string, baseUrl: Option<string>, queryToken: Option<string>)
    ensures EndsWith(SelectEndpoint(token, baseUrl, queryToken).url, "/contents/limited") <==> Truthy(queryToken)
  {
    var e := SelectEndpoint(token, baseUrl, queryToken);
    var b := BaseOf(baseUrl);
    if !Truthy(queryToken) {
      assert e.url == b + "/contents";
      assert e.url[|e.url| - 1] == 's';
      if |e.url| >= 17 {
        assert e.url[|e.url| - 17..][16] == 's' != "/contents/limited"[16];
      }
    } else {
      assert e.url[|e.url| - 17..] == "/contents/limited";
    }
  }

  /** The URL `fetchContents` requests: the endpoint with the token as query string. */
  function RequestUrl(e: Endpoint): string {
    e.url + "?token=" + e.token
  }

  /** The position of the first `c` in `s`, if any. */
  function IndexOf(s: string, c: char): (r: Option<nat>)
    ensures r.Some? ==> r.value < |s| && s[r.value] == c && c !in s[..r.value]
    ensures r.None? ==> c !in s
  {
    if s == [] then None
    else if s[0] == c then Some(0)
    else match IndexOf(s[1..], c)
      case None => None
      case Some(i) =>
        assert s[..i + 1] == [s[0]] + s[1..][..i];
        Some(i + 1)
  }

  /** The first `c` of `a + b` is the head of `b` when `a` holds none. */
  lemma {:induction false} IndexOfAfter(a: string, b: string, c: char)
    requires c !in a && |b| > 0 && b[0] == c
    ensures IndexOf(a + b, c) == Some(|a|)
  {
    if a != [] {
      assert (a + b)[1..] == a[1..] + b;
      IndexOfAfter(a[1..], b, c);
    }
  }

  /** Reads an endpoint and token back from a request URL: everything up to the first `?`, and what follows `token=`. */
  function SplitRequestUrl(s: string): Option<Endpoint> {
    match IndexOf(s, '?')
    case None => None
    case Some(i) =>
      var query := s[i + 1..];
      if |query| >= 6 && query[..6] == "token=" then Some(Endpoint(s[..i], query[6..])) else None
  }

  /** A request URL determines the endpoint and the token it was built from, as long as the endpoint URL has no query string of its own. */
  lemma RequestUrlRoundTrip(e: Endpoint)
    requires '?' !in e.url
    ensures SplitRequestUrl(RequestUrl(e)) == Some(e)
  {
    var s := RequestUrl(e);
    var n := |e.url|;
    assert s[..n] == e.url;
    assert s[n] == '?';
    IndexOfAfter(e.url, "?token=" + e.token, '?');
    assert s == e.url + ("?token=" + e.token);
    assert s[n + 1..] == "token=" + e.token;
  }

  /** Different endpoints (without query strings) never produce the same request URL. */
  lemma RequestUrlInjective(e1: Endpoint, e2: Endpoint)
    requires '?' !in e1.url && '?' !in e2.url
    requires RequestUrl(e1) == RequestUrl(e2)
    ensures e1 == e2
  {
    RequestUrlRoundTrip(e1);
    RequestUrlRoundTrip(e2);
  }

  /** The chosen endpoint has no query string when the base URL has none. */
  lemma SelectedUrlHasNoQuery(token: string, baseUrl: Option<string>, queryToken: Option<string>)
    requires baseUrl.Some? ==> '?' !in baseUrl.value
    ensures '?' !in SelectEndpoint(token, baseUrl, queryToken).url
  {
    var b := BaseOf(baseUrl);
    assert '?' !in b by {
      if !Truthy(baseUrl) {
        assert forall k :: 0 <= k < |DefaultBaseUrl| ==> DefaultBaseUrl[k] != '?';
      }
    }
    var suffix := if Truthy(queryToken) then "/contents/limited" else "/contents";
    assert forall k :: 0 <= k < |suffix| ==> suffix[k] != '?';
    assert SelectEndpoint(token, baseUrl, queryToken).url == b + suffix;
  }
}
