/** `GET /api/versions/latest` (src/app/api/versions/latest/route.ts): the newest build, refined when possible. */
module LatestRoute {
  import opened Wrappers
  import opened Http
  import opened Maven
  import opened Responses

  /** The handler, given what `fetchVersions(1)` returned and what `fetchVersionDetails` answers per version. */
  function LatestResponse(listing: Catalog, details: string -> Option<MavenArtifact>): Response {
    if |listing.versions| == 0 then ErrorResponse(404, "No versions available")
    else
      var latest := listing.versions[0];
      var chosen := match details(latest.version) case Some(d) => d case None => latest;
      Json(200, ArtifactBody(chosen), [CacheControl])
  }

  /** An empty listing is a 404; otherwise a cached 200 with the detail record, or the listing's record when there is none. */
  lemma LatestChoice(listing: Catalog, details: string -> Option<MavenArtifact>)
    ensures var r := LatestResponse(listing, details);
      if |listing.versions| == 0 then r == ErrorResponse(404, "No versions available")
      else
        var latest := listing.versions[0];
        && r.Json? && r.status == 200 && r.headers == [CacheControl]
        && (details(latest.version).Some? ==> r.body == ArtifactBody(details(latest.version).value))
        && (details(latest.version).None? ==> r.body == ArtifactBody(latest))
  {
  }

  /**
    With the library's own refinement the fallback to the listing's record is
    never taken: the body is the refined record of the first listed version.
   */
  lemma LatestIsRefined(index: Fetched<seq<string>>, directory: Fetched<seq<Anchor>>,
                        head: string -> HeadResponse, get: string -> Fetched<string>)
    ensures var listing := VersionListing(index, directory, 1);
      var r := LatestResponse(listing, v => Some(RefinedArtifact(v, head, get)));
      |listing.versions| > 0 ==>
        && r.body == ArtifactBody(RefinedArtifact(listing.versions[0].version, head, get))
        && listing.versions[0].version in CatalogVersions(index, directory).value
  {
    var listing := VersionListing(index, directory, 1);
    if |listing.versions| > 0 {
      ListedAreBuilt(index, directory, 1, 0);
    }
  }
}
