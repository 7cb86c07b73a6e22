/** `GET /downloads/magma.jar` (src/app/downloads/magma.jar/route.ts): redirect to the newest build's launcher, else its jar. */
module MagmaJarRoute {
  import opened Wrappers
  import opened Collation
  import opened Http
  import opened Maven
  import opened Responses

  /** The handler, given what `fetchVersions(1)` returned and the answers to the HEAD probes. */
  function MagmaJarResponse(listing: Catalog, head: string -> HeadResponse): Response {
    if |listing.versions| == 0 then ErrorResponse(404, "No versions available")
    else
      var version := listing.versions[0].version;
      var launcherUrl := GetDownloadUrl(version, Launcher);
      if FileExists(head, launcherUrl) then CachedRedirect(launcherUrl)
      else
        var jarUrl := GetDownloadUrl(version, Jar);
        if FileExists(head, jarUrl) then CachedRedirect(jarUrl)
        else ErrorResponse(404, "No download available for the latest version")
  }

  /**
    The decision: an empty listing is a 404; otherwise the launcher is
    preferred, the jar is the fallback, and a cached redirect is sent exactly
    when one of the two exists.  Only the first entry is looked at.
   */
  lemma MagmaJarDecision(listing: Catalog, head: string -> HeadResponse)
    ensures var r := MagmaJarResponse(listing, head);
      if |listing.versions| == 0 then r == ErrorResponse(404, "No versions available")
      else
        var v := listing.versions[0].version;
        var launcher := FileExists(head, GetDownloadUrl(v, Launcher));
        var jar := FileExists(head, GetDownloadUrl(v, Jar));
        && (r.Redirect? <==> launcher || jar)
        && (r.Redirect? ==>
              r.status == 307 && r.headers == [CacheControl] && r.location == GetDownloadUrl(v, if launcher then Launcher else Jar))
        && (!r.Redirect? ==> r == ErrorResponse(404, "No download available for the latest version"))
  {
  }

  /** Listings that agree on the first version get the same answer. */
  lemma OnlyFirstEntryMatters(l1: Catalog, l2: Catalog, head: string -> HeadResponse)
    requires |l1.versions| > 0 && |l2.versions| > 0
    requires l1.versions[0].version == l2.versions[0].version
    ensures MagmaJarResponse(l1, head) == MagmaJarResponse(l2, head)
  {
  }

  /**
    On the catalog listing, a redirect always points at a download of a
    collected version that sorts first among all collected versions.
   */
  lemma MagmaJarServesNewest(index: Fetched<seq<string>>, directory: Fetched<seq<Anchor>>, head: string -> HeadResponse)
    ensures var r := MagmaJarResponse(VersionListing(index, directory, 1), head);
      r.Redirect? ==>
        && CatalogVersions(index, directory).Some?
        && exists v, t | v in CatalogVersions(index, directory).value && (t == Launcher || t == Jar) ::
             && r.location == GetDownloadUrl(v, t)
             && forall w | w in CatalogVersions(index, directory).value :: LexLeq(CollationKey(w), CollationKey(v))
  {
    var listing := VersionListing(index, directory, 1);
    var r := MagmaJarResponse(listing, head);
    if r.Redirect? {
      FirstListedIsNewest(index, directory, 1);
      var v := listing.versions[0].version;
      var t := if FileExists(head, GetDownloadUrl(v, Launcher)) then Launcher else Jar;
      assert r.location == GetDownloadUrl(v, t);
    }
  }
}
