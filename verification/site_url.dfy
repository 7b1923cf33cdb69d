/** The site's base URL: the first configured of three environment
    variables, given an `https://` prefix when it lacks one, else the
    Vercel deployment host, else the local development server. The result
    is the string handed to the `URL` constructor. */
module SiteUrl {
  import opened Wrappers
  import opened Text

  /** The environment variables consulted; `None` is an unset variable. */
  datatype Env = Env(nextPublicSiteUrl: Option<string>, siteUrl: Option<string>,
                     nextPublicVercelUrl: Option<string>, vercelUrl: Option<string>)

  const Localhost := "http://localhost:3000"

  /** JavaScript `a ?? b` on optional strings: an empty string is kept. */
  function Coalesce(a: Option<string>, b: Option<string>): (r: Option<string>)
    ensures r.Some? <==> a.Some? || b.Some?
    ensures a.Some? ==> r == a
  {
    if a.Some? then a else b
  }

  /** The `explicit` candidate. */
  function Explicit(env: Env): Option<string> {
    Coalesce(Coalesce(env.nextPublicSiteUrl, env.siteUrl), env.nextPublicVercelUrl)
  }

  /** A defined, non-empty string. */
  predicate Truthy(v: Option<string>) { v.Some? && v.value != "" }

  /** `https://` in front of anything that does not already start with
      `http`. */
  function WithProtocol(u: string): (r: string)
    ensures StartsWith(r, "http")
    ensures StartsWith(u, "http") ==> r == u
    ensures !StartsWith(u, "http") ==> r == "https://" + u
  {
    if StartsWith(u, "http") then u else "https://" + u
  }

  /** `getSiteUrl()`, up to the string passed to `new URL`. */
  function GetSiteUrl(env: Env): (r: string)
    ensures StartsWith(r, "http")
    ensures Truthy(env.nextPublicSiteUrl) ==> r == WithProtocol(env.nextPublicSiteUrl.value)
    ensures env.nextPublicSiteUrl.None? && Truthy(env.siteUrl) ==> r == WithProtocol(env.siteUrl.value)
    ensures env.nextPublicSiteUrl.None? && env.siteUrl.None? && Truthy(env.nextPublicVercelUrl) ==>
      r == WithProtocol(env.nextPublicVercelUrl.value)
    ensures !Truthy(Explicit(env)) && Truthy(env.vercelUrl) ==> r == "https://" + env.vercelUrl.value
    ensures !Truthy(Explicit(env)) && !Truthy(env.vercelUrl) ==> r == Localhost
  {
    var explicit := Explicit(env);
    if Truthy(explicit) then WithProtocol(explicit.value)
    else if Truthy(env.vercelUrl) then "https://" + env.vercelUrl.value
    else Localhost
  }

  /** The first defined candidate wins even when it is empty: an empty
      `NEXT_PUBLIC_SITE_URL` makes `SITE_URL` and `NEXT_PUBLIC_VERCEL_URL`
      irrelevant, and the choice falls to `VERCEL_URL`. */
  lemma EmptyFirstSkipsOthers(env: Env, siteUrl: Option<string>, nextPublicVercelUrl: Option<string>)
    requires env.nextPublicSiteUrl == Some("")
    ensures GetSiteUrl(env) == GetSiteUrl(env.(siteUrl := siteUrl, nextPublicVercelUrl := nextPublicVercelUrl))
    ensures GetSiteUrl(env) == if Truthy(env.vercelUrl) then "https://" + env.vercelUrl.value else Localhost
  {
  }

  /** Configuring the computed URL as `NEXT_PUBLIC_SITE_URL` gives it back
      unchanged, whatever else is set. */
  lemma GetSiteUrlFixpoint(env: Env, other: Env)
    requires other.nextPublicSiteUrl == Some(GetSiteUrl(env))
    ensures GetSiteUrl(other) == GetSiteUrl(env)
  {
    var r := GetSiteUrl(env);
    assert StartsWith(r, "http");
  }

  /** A character allowed in a URL scheme after its first letter. */
  predicate SchemeChar(c: char) {
    'a' <= c <= 'z' || 'A' <= c <= 'Z' || '0' <= c <= '9' || c == '+' || c == '-' || c == '.'
  }

  /** `s` opens with a scheme and its `:`. Without a base URL, `new URL(s)`
      throws a `TypeError` for any string that does not. */
  predicate HasScheme(s: string) {
    exists i :: 0 < i < |s| && s[i] == ':' && ('a' <= s[0] <= 'z' || 'A' <= s[0] <= 'Z') &&
      forall j :: 0 <= j < i ==> SchemeChar(s[j])
  }

  /** Only the literal prefix `http` is looked for, so a host that happens to
      begin with those letters is left without a protocol. The result has
      no scheme, so the `new URL` call it is handed to throws. */
  lemma HttpbinUnprefixed()
    ensures GetSiteUrl(Env(Some("httpbin.org"), None, None, None)) == "httpbin.org"
    ensures !HasScheme(GetSiteUrl(Env(Some("httpbin.org"), None, None, None)))
  {
    var s := "httpbin.org";
    assert StartsWith(s, "http");
    assert forall i :: 0 <= i < |s| ==> s[i] != ':';
  }
}
