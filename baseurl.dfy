/** The origin the server uses to call its own endpoints (src/lib/baseurl.ts). */
module BaseUrl {
  import opened Wrappers
  import opened Strings

  const DefaultHost: string := "localhost:3000"

  /** `requestHeaders.get("host") || "localhost:3000"`: a missing or empty header falls back. */
  function EffectiveHost(host: Option<string>): (h: string)
    ensures h != ""
    ensures host.Some? && host.value != "" ==> h == host.value
    ensures host.None? || host.value == "" ==> h == DefaultHost
  {
    if host.Some? && host.value != "" then host.value else DefaultHost
  }

  /** Plain HTTP only when `NODE_ENV` is exactly "development". */
  function Protocol(nodeEnv: Option<string>): string {
    if nodeEnv == Some("development") then "http" else "https"
  }

  /** `getBaseUrl`, given the `host` request header and `NODE_ENV`. */
  function GetBaseUrl(host: Option<string>, nodeEnv: Option<string>): (url: string)
    ensures StartsWith(url, "http://") <==> nodeEnv == Some("development")
    ensures StartsWith(url, "https://") <==> nodeEnv != Some("development")
  {
    var url := Protocol(nodeEnv) + "://" + EffectiveHost(host);
    assert nodeEnv == Some("development") ==> url[..7] == "http://" && url[4] == ':';
    assert nodeEnv != Some("development") ==> url[..8] == "https://" && url[4] == 's';
    url
  }

  /** The text after the scheme separator of an `http://` or `https://` URL. */
  function HostOf(url: string): string {
    if StartsWith(url, "http://") then url[7..]
    else if StartsWith(url, "https://") then url[8..]
    else url
  }

  /** The host can be read back from the base URL, and the scheme from the environment. */
  lemma BaseUrlRoundTrip(host: Option<string>, nodeEnv: Option<string>)
    ensures HostOf(GetBaseUrl(host, nodeEnv)) == EffectiveHost(host)
    ensures GetBaseUrl(host, nodeEnv) == Protocol(nodeEnv) + "://" + HostOf(GetBaseUrl(host, nodeEnv))
  {
    var url := GetBaseUrl(host, nodeEnv);
    if nodeEnv == Some("development") {
      assert url[7..] == EffectiveHost(host);
    } else {
      assert url[8..] == EffectiveHost(host);
    }
  }
}
