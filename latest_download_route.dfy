/**
  `GET /api/versions/latest/download?type=T` (src/app/api/versions/latest/download/route.ts):
  validate the type, ask the server's own versions endpoint for the newest
  version, and redirect to that version's download endpoint.
 */
module LatestDownloadRoute {
  import opened Wrappers
  import opened Collation
  import opened Http
  import opened Maven
  import opened Responses
  import opened BaseUrl
  import VersionsRoute

  /** What the upstream JSON parses to: a body that fails the response schema, or the listed version strings. */
  datatype UpstreamBody = SchemaMismatch | VersionsPayload(versions: seq<string>)

  const InvalidTypeMessage: string := "Invalid type parameter. Must be one of: jar, installer, launcher, changelog"

  /** `searchParams.get("type") || "launcher"` */
  function RequestedType(typeParam: Option<string>): (t: string)
    ensures typeParam.None? || typeParam.value == "" ==> t == "launcher"
    ensures typeParam.Some? && typeParam.value != "" ==> t == typeParam.value
  {
    if typeParam.Some? && typeParam.value != "" then typeParam.value else "launcher"
  }

  /** The upstream URL the handler fetches. */
  function UpstreamUrl(baseUrl: string): string {
    baseUrl + "/api/versions?limit=1"
  }

  /** The redirect target for a version and a type. */
  function DownloadEndpoint(baseUrl: string, version: string, t: string): string {
    baseUrl + "/api/versions/" + version + "/download?type=" + t
  }

  /**
    The handler.  A thrown fetch, a non-ok status and a body that is not JSON
    all end in the `catch`; `upstream` answers `Threw` for the last.
   */
  function LatestDownloadResponse(host: Option<string>, nodeEnv: Option<string>, typeParam: Option<string>,
                                  upstream: string -> Fetched<UpstreamBody>): Response {
    var baseUrl := GetBaseUrl(host, nodeEnv);
    var t := RequestedType(typeParam);
    if ParseDownloadType(t).None? then ErrorResponse(400, InvalidTypeMessage)
    else match upstream(UpstreamUrl(baseUrl))
      case Threw => ErrorResponse(500, "Failed to process download request")
      case NotOk => ErrorResponse(500, "Failed to process download request")
      case Ok(SchemaMismatch) => ErrorResponse(500, "Failed to retrieve valid version data")
      case Ok(VersionsPayload(vs)) =>
        if |vs| == 0 then ErrorResponse(404, "No versions available")
        else CachedRedirect(DownloadEndpoint(baseUrl, vs[0], t))
  }

  /**
    A 400 exactly for a type outside the four kinds; a redirect only after an
    ok upstream answer that lists a version, and then to that version's
    download endpoint with the (defaulted) type; every upstream failure is a
    500 and never a redirect.
   */
  lemma LatestDownloadDecision(host: Option<string>, nodeEnv: Option<string>, typeParam: Option<string>,
                               upstream: string -> Fetched<UpstreamBody>)
    ensures var r := LatestDownloadResponse(host, nodeEnv, typeParam, upstream);
      var baseUrl := GetBaseUrl(host, nodeEnv);
      var t := RequestedType(typeParam);
      var answer := upstream(UpstreamUrl(baseUrl));
      && (r.status == 400 <==> ParseDownloadType(t).None?)
      && (r.Redirect? <==> ParseDownloadType(t).Some? && answer.Ok? && answer.body.VersionsPayload? && |answer.body.versions| > 0)
      && (r.Redirect? ==> r == CachedRedirect(DownloadEndpoint(baseUrl, answer.body.versions[0], t)))
      && (ParseDownloadType(t).Some? && !answer.Ok? ==> r == ErrorResponse(500, "Failed to process download request"))
      && (ParseDownloadType(t).Some? && answer == Ok(SchemaMismatch) ==> r == ErrorResponse(500, "Failed to retrieve valid version data"))
      && (ParseDownloadType(t).Some? && answer == Ok(VersionsPayload([])) ==> r == ErrorResponse(404, "No versions available"))
  {
  }

  /** Without a type parameter the launcher is requested. */
  lemma DefaultsToLauncher(host: Option<string>, nodeEnv: Option<string>, upstream: string -> Fetched<UpstreamBody>, v: string)
    requires upstream(UpstreamUrl(GetBaseUrl(host, nodeEnv))) == Ok(VersionsPayload([v]))
    ensures LatestDownloadResponse(host, nodeEnv, None, upstream) ==
      CachedRedirect(GetBaseUrl(host, nodeEnv) + "/api/versions/" + v + "/download?type=launcher")
  {
  }

  /** How `fetch` + `json()` + the schema read a response of the versions endpoint. */
  function ReadUpstream(r: Response): Fetched<UpstreamBody> {
    match r
    case Json(status, body, _) =>
      if !(200 <= status < 300) then NotOk
      else if body.ListingBody? then Ok(VersionsPayload(Map((a: MavenArtifact) => a.version, body.versions)))
      else Ok(SchemaMismatch)
    case Redirect(_, _, _) => NotOk
  }

  /**
    When the upstream is the server's own versions endpoint over the catalog,
    the redirect goes to the newest collected version, and an empty catalog
    gives the 404.
   */
  lemma LatestDownloadOfCatalog(host: Option<string>, nodeEnv: Option<string>, typeParam: Option<string>,
                                upstream: string -> Fetched<UpstreamBody>,
                                index: Fetched<seq<string>>, directory: Fetched<seq<Anchor>>)
    requires ParseDownloadType(RequestedType(typeParam)).Some?
    requires upstream(UpstreamUrl(GetBaseUrl(host, nodeEnv))) ==
      ReadUpstream(VersionsRoute.VersionsResponse(VersionsRoute.Finite(1.0), index, directory))
    ensures var r := LatestDownloadResponse(host, nodeEnv, typeParam, upstream);
      var listing := VersionListing(index, directory, 1);
      if |listing.versions| == 0 then r == ErrorResponse(404, "No versions available")
      else r == CachedRedirect(DownloadEndpoint(GetBaseUrl(host, nodeEnv), listing.versions[0].version, RequestedType(typeParam)))
  {
    var limit := VersionsRoute.Finite(1.0);
    assert VersionsRoute.ValidLimit(limit);
    VersionsRoute.VersionsResponseListing(limit, index, directory);
    var listing := VersionListing(index, directory, 1);
    var body := VersionsRoute.VersionsResponse(limit, index, directory).body;
    assert |body.versions| == |listing.versions|;
    if |listing.versions| > 0 {
      assert body.versions[0] == VersionsRoute.Relabel(listing.versions[0]);
    }
  }
}
