/**
  The older versions endpoint (src/app/api/versions/route.ts).  It carries its
  own copy of the catalog code with a different platform-version classifier,
  and answers `GET /api/versions?limit=N` with the total, the echoed limit and
  the truncated listing.
 */
module VersionsRoute {
  import opened Wrappers
  import opened Strings
  import opened Collation
  import opened Http
  import opened Maven
  import opened Responses
  import opened MavenExamples

  // ---------------------------------------------------------------------
  // The legacy classifier
  // ---------------------------------------------------------------------

  /** The first group of `/^(\d+\.\d+(?:\.\d+)?)/`, when it matches: two or three dotted digit runs. */
  function LeadingVersionPrefix(s: string): (m: Option<string>)
    ensures m.Some? <==> LeadingNumericPair(s).Some?
    ensures m.Some? ==> StartsWith(s, m.value) && |m.value| > 0 && IsDigit(m.value[|m.value| - 1])
  {
    var a := LeadingDigits(s);
    var n := |a|;
    if n == 0 || n + 1 >= |s| || s[n] != '.' || !IsDigit(s[n + 1]) then None
    else
      var b := LeadingDigits(s[n + 1..]);
      var m := n + 1 + |b|;
      if m + 1 < |s| && s[m] == '.' && IsDigit(s[m + 1]) then
        var c := LeadingDigits(s[m + 1..]);
        assert s[..m + 1 + |c|][m + |c|] == c[|c| - 1];
        Some(s[..m + 1 + |c|])
      else
        assert s[..m][m - 1] == b[|b| - 1];
        Some(s[..m])
  }

  /** The legacy pattern matches exactly when the string begins with `digits.digits`. */
  lemma LeadingVersionPrefixExactly(s: string)
    ensures LeadingVersionPrefix(s).Some? <==> StartsWithNumericPair(s)
  {
    NumericPairExactly(s);
  }

  /** The whole-string test `/^\d+\.\d+(\.\d+)?$/`: two or three non-empty digit runs separated by dots. */
  predicate IsDottedVersion(t: string) {
    var parts := Split(t, '.');
    && (|parts| == 2 || |parts| == 3)
    && forall k | 0 <= k < |parts| :: |parts[k]| > 0 && AllDigits(parts[k])
  }

  /** The legacy `extractMinecraftVersion`. */
  function LegacyExtractMinecraftVersion(version: string): string {
    if StartsWith(version, "21.") then "1.21.x"
    else if Contains(version, "-") && IsDottedVersion(Split(version, '-')[0]) then Split(version, '-')[0]
    else match LeadingVersionPrefix(version)
      case Some(p) => p
      case None => "Unknown"
  }

  /** The prefix read off `major.minor` followed by something that does not continue it. */
  lemma {:induction false} VersionPrefixOfPair(a: string, b: string, rest: string)
    requires |a| > 0 && |b| > 0 && AllDigits(a) && AllDigits(b)
    requires rest == [] || (!IsDigit(rest[0]) && !(rest[0] == '.' && |rest| > 1 && IsDigit(rest[1])))
    ensures LeadingVersionPrefix(a + "." + b + rest) == Some(a + "." + b)
  {
    var s := a + "." + b + rest;
    assert s[..|a|] == a;
    LeadingDigitsOfRun(s, |a|);
    var tail := s[|a| + 1..];
    assert tail == b + rest && tail[..|b|] == b;
    LeadingDigitsOfRun(tail, |b|);
    assert s[..|a| + 1 + |b|] == a + "." + b;
  }

  /** The prefix read off `major.minor.patch` followed by a non-digit. */
  lemma {:induction false} VersionPrefixOfTriple(a: string, b: string, c: string, rest: string)
    requires |a| > 0 && |b| > 0 && |c| > 0 && AllDigits(a) && AllDigits(b) && AllDigits(c)
    requires rest == [] || !IsDigit(rest[0])
    ensures LeadingVersionPrefix(a + "." + b + "." + c + rest) == Some(a + "." + b + "." + c)
  {
    var s := a + "." + b + "." + c + rest;
    var n := |a|;
    var m := n + 1 + |b|;
    var e := m + 1 + |c|;
    assert s[..n] == a;
    LeadingDigitsOfRun(s, n);
    assert s[n + 1..][..|b|] == b && s[n + 1..][|b|] == '.';
    LeadingDigitsOfRun(s[n + 1..], |b|);
    assert s[m + 1..] == c + rest && s[m + 1..][..|c|] == c;
    LeadingDigitsOfRun(s[m + 1..], |c|);
    VersionPrefixOfRuns(s, n, m, e);
    assert s[..e] == a + "." + b + "." + c;
  }

  lemma VersionPrefixOfRuns(s: string, n: nat, m: nat, e: nat)
    requires 0 < n && n + 1 < m && m + 1 < e <= |s|
    requires |LeadingDigits(s)| == n && s[n] == '.'
    requires |LeadingDigits(s[n + 1..])| == m - n - 1 && s[m] == '.'
    requires |LeadingDigits(s[m + 1..])| == e - m - 1
    ensures LeadingVersionPrefix(s) == Some(s[..e])
  {
    assert IsDigit(s[n + 1]) by { assert s[n + 1] == LeadingDigits(s[n + 1..])[0]; }
    assert IsDigit(s[m + 1]) by { assert s[m + 1] == LeadingDigits(s[m + 1..])[0]; }
  }

  /** A dotted version is a concatenation of its two or three digit runs. */
  lemma DottedVersionParts(t: string)
    requires IsDottedVersion(t)
    ensures var p := Split(t, '.');
      if |p| == 2 then t == p[0] + "." + p[1] else t == p[0] + "." + p[1] + "." + p[2]
  {
    var p := Split(t, '.');
    JoinSplit(t, '.');
    if |p| == 3 {
      assert Join(p[1..], '.') == p[1] + "." + Join(p[2..], '.');
    }
  }

  /**
    The dash branch never changes the answer: when the first dash-separated
    segment is a whole dotted version, the leading-prefix reading of the full
    string finds that same segment.
   */
  lemma DashBranchRedundant(version: string)
    ensures LegacyExtractMinecraftVersion(version) ==
      if StartsWith(version, "21.") then "1.21.x"
      else match LeadingVersionPrefix(version) case Some(p) => p case None => "Unknown"
  {
    var seg := Split(version, '-')[0];
    if !StartsWith(version, "21.") && Contains(version, "-") && IsDottedVersion(seg) {
      SplitHead(version, '-');
      var rest := version[|seg|..];
      assert version == seg + rest;
      assert rest == [] || rest[0] == '-';
      DottedVersionParts(seg);
      var p := Split(seg, '.');
      if |p| == 2 {
        VersionPrefixOfPair(p[0], p[1], rest);
      } else {
        VersionPrefixOfTriple(p[0], p[1], p[2], rest);
      }
    }
  }

  /** The legacy classifier answers "Unknown" exactly when the version neither starts with `21.` nor begins with `digits.digits`. */
  lemma LegacyUnknownExactly(version: string)
    ensures LegacyExtractMinecraftVersion(version) == "Unknown" <==>
      !StartsWith(version, "21.") && !StartsWithNumericPair(version)
  {
    DashBranchRedundant(version);
    LeadingVersionPrefixExactly(version);
    var m := LeadingVersionPrefix(version);
    if !StartsWith(version, "21.") && m.Some? {
      var p := m.value;
      assert IsDigit(p[|p| - 1]) && !IsDigit("Unknown"[6]);
    }
  }

  /** Both classifiers map every `21.{digit}...` version to `1.21.x`. */
  lemma ClassifiersAgreeOn21(version: string)
    requires StartsWith(version, "21.") && |version| > 3 && IsDigit(version[3])
    ensures LegacyExtractMinecraftVersion(version) == "1.21.x"
    ensures ExtractMinecraftVersion(version) == "1.21.x"
  {
    var tail := version[3..];
    var minor := LeadingDigits(tail);
    var rest := tail[|minor|..];
    assert version == "21" + "." + minor + rest;
    ClassifyDecomposed("21", minor, rest);
    CanonicalDecimalRoundTrip("21");
    assert "1." + "21" + ".x" == "1.21.x";
  }

  /**
    Below the year-based threshold the classifiers disagree on every version
    that begins with `digits.digits` but not with `21.`: the legacy one returns
    a prefix of the version ending in a digit, the library one `1.{major}.x`.
   */
  lemma ClassifiersDisagreeBelowYearBased(version: string)
    requires StartsWithNumericPair(version) && !StartsWith(version, "21.")
    requires DecimalValue(LeadingDigits(version)) < YearBasedMajor
    ensures LegacyExtractMinecraftVersion(version) != ExtractMinecraftVersion(version)
  {
    NumericPairExactly(version);
    DashBranchRedundant(version);
    var n := |LeadingDigits(version)|;
    assert LeadingVersionPrefix(version).Some?;
    var legacy := LeadingVersionPrefix(version).value;
    var library := ExtractMinecraftVersion(version);
    assert library[|library| - 1] == 'x';
    assert IsDigit(legacy[|legacy| - 1]);
  }

  /** The legacy reading of `20.4.5-beta` keeps the whole dotted prefix. */
  lemma LegacyClassificationExample()
    ensures LegacyExtractMinecraftVersion("20.4.5-beta") == "20.4.5"
  {
    var s := "20" + "." + "4" + "." + "5" + "-beta";
    VersionPrefixOfTriple("20", "4", "5", "-beta");
    DashBranchRedundant(s);
    assert s == "20.4.5-beta";
    assert "20" + "." + "4" + "." + "5" == "20.4.5";
  }

  /** The example that separates the two classifiers: `20.4.5-beta`. */
  lemma ClassifiersDisagreeExample()
    ensures LegacyExtractMinecraftVersion("20.4.5-beta") == "20.4.5"
    ensures ExtractMinecraftVersion("20.4.5-beta") == "1.20.x"
  {
    LegacyClassificationExample();
    OlderClassificationExample();
  }

  // ---------------------------------------------------------------------
  // The legacy launcher test and artifact
  // ---------------------------------------------------------------------

  /** `isVersionLowerThan21_1_41`: the same pattern as the library's gate, with the opposite polarity. */
  function IsVersionLowerThan21_1_41(version: string): bool {
    match LauncherGateBuild(version)
    case Some(build) => DecimalValue(build) < FirstLauncherBuild
    case None => false
  }

  lemma LowerThanIsNoLauncher(version: string)
    ensures IsVersionLowerThan21_1_41(version) == !HasLauncherSupport(version)
    ensures IsVersionLowerThan21_1_41(version) <==> IsPreLauncherBuild(version)
  {
    LauncherDeniedExactly(version);
  }

  /** The record `fetchMavenVersions` pushes; the schema check it passes through accepts every such record. */
  function LegacyBuildArtifact(version: string): MavenArtifact {
    var base := MavenBase + "/" + version + "/magma-" + version;
    MavenArtifact(
      GroupId, ArtifactId, version, LegacyExtractMinecraftVersion(version),
      Some(base + "-installer.jar"),
      Some(base + "-launcher.jar"),
      Some(base + "-changelog.txt"),
      Some(IsStableVersion(version)),
      Some(!IsVersionLowerThan21_1_41(version)),
      Some(true),
      None, None, None)
  }

  /** The two copies build the same record except for the platform version. */
  lemma LegacyArtifactIsLibraryArtifact(version: string)
    ensures LegacyBuildArtifact(version) ==
      BuildArtifact(version).(minecraftVersion := LegacyExtractMinecraftVersion(version))
  {
    LowerThanIsNoLauncher(version);
  }

  /** Replace the library's platform version by the legacy one. */
  function Relabel(a: MavenArtifact): MavenArtifact {
    a.(minecraftVersion := LegacyExtractMinecraftVersion(a.version))
  }

  // ---------------------------------------------------------------------
  // The listing and the handler
  // ---------------------------------------------------------------------

  /** What `fetchMavenVersions` returns: the sorted records, or `[]` after a caught failure. */
  function LegacyCatalog(index: Fetched<seq<string>>, directory: Fetched<seq<Anchor>>): seq<MavenArtifact> {
    match CatalogVersions(index, directory)
    case None => []
    case Some(vs) => SortDescending(Map(LegacyBuildArtifact, vs), ArtifactKey)
  }

  method FetchMavenVersions(index: Fetched<seq<string>>, directory: Fetched<seq<Anchor>>)
    returns (artifacts: seq<MavenArtifact>)
    ensures artifacts == LegacyCatalog(index, directory)
  {
    var collected := CollectArtifacts(index, directory, LegacyBuildArtifact);
    if collected.None? {
      return [];
    }
    artifacts := collected.value;
    if |artifacts| == 0 {
      return [];
    }
    artifacts := SortDescending(artifacts, ArtifactKey);
  }

  /** The number `z.coerce.number()` produced from the `limit` parameter. */
  datatype CoercedNumber = NotFinite | Finite(value: real)

  /** `.int().nonnegative()` */
  predicate ValidLimit(n: CoercedNumber) {
    n.Finite? && n.value >= 0.0 && n.value.Floor as real == n.value
  }

  function LimitValue(n: CoercedNumber): nat
    requires ValidLimit(n)
  {
    n.value.Floor
  }

  /** The response of `GET /api/versions`. */
  function VersionsResponse(limitInput: CoercedNumber, index: Fetched<seq<string>>, directory: Fetched<seq<Anchor>>): Response {
    if !ValidLimit(limitInput) then ErrorResponse(400, "Invalid query parameters")
    else
      var versions := LegacyCatalog(index, directory);
      var limit := LimitValue(limitInput);
      Json(200, ListingBody(|versions|, limit, Limit(versions, limit)), [])
  }

  method VersionsGet(limitInput: CoercedNumber, index: Fetched<seq<string>>, directory: Fetched<seq<Anchor>>)
    returns (r: Response)
    ensures r == VersionsResponse(limitInput, index, directory)
  {
    if !ValidLimit(limitInput) {
      return ErrorResponse(400, "Invalid query parameters");
    }
    var limit := LimitValue(limitInput);
    var versions := FetchMavenVersions(index, directory);
    var totalVersions := |versions|;
    var limitedVersions := versions;
    if limit > 0 {
      limitedVersions := versions[..if limit < |versions| then limit else |versions|];
    }
    r := Json(200, ListingBody(totalVersions, limit, limitedVersions), []);
  }

  /** A limit is rejected exactly when it is not a non-negative integer; an accepted one is echoed back. */
  lemma LimitValidation(limitInput: CoercedNumber, index: Fetched<seq<string>>, directory: Fetched<seq<Anchor>>)
    ensures var r := VersionsResponse(limitInput, index, directory);
      && (r.status == 400 <==> !ValidLimit(limitInput))
      && (r.status == 400 ==> r.body == ErrorBody("Invalid query parameters"))
      && (r.status != 400 ==> r.status == 200 && r.body.ListingBody? && r.body.limit == LimitValue(limitInput))
  {
  }

  /**
    The legacy endpoint lists exactly what the library lists for the same
    limit: the same total, the same versions in the same order, each record
    differing only in its platform version.
   */
  lemma {:induction false} LegacyListingIsLibraryListing(index: Fetched<seq<string>>, directory: Fetched<seq<Anchor>>, limit: nat)
    ensures var lib := VersionListing(index, directory, limit);
      var legacy := LegacyCatalog(index, directory);
      && |legacy| == lib.total
      && Limit(legacy, limit) == Map(Relabel, lib.versions)
  {
    match CatalogVersions(index, directory)
    case None =>
    case Some(vs) =>
      LegacySortIsRelabelledSort(vs);
      LimitOfRelabelled(SortDescending(Map(BuildArtifact, vs), ArtifactKey), limit);
  }

  /** Truncating commutes with relabelling. */
  lemma LimitOfRelabelled(sorted: seq<MavenArtifact>, limit: nat)
    ensures Limit(Map(Relabel, sorted), limit) == Map(Relabel, Limit(sorted, limit))
  {
    var n := if 0 < limit < |sorted| then limit else |sorted|;
    assert Map(Relabel, sorted)[..n] == Map(Relabel, sorted[..n]);
  }

  /** Relabelling the library's records gives the legacy records. */
  lemma RelabelBuilt(vs: seq<string>)
    ensures Map(Relabel, Map(BuildArtifact, vs)) == Map(LegacyBuildArtifact, vs)
  {
    var built := Map(BuildArtifact, vs);
    forall i | 0 <= i < |vs| ensures Map(Relabel, built)[i] == Map(LegacyBuildArtifact, vs)[i] {
      LegacyArtifactIsLibraryArtifact(vs[i]);
    }
  }

  /** The legacy sort is the library's sort relabelled: relabelling keeps the version, hence the key. */
  lemma LegacySortIsRelabelledSort(vs: seq<string>)
    ensures SortDescending(Map(LegacyBuildArtifact, vs), ArtifactKey) ==
      Map(Relabel, SortDescending(Map(BuildArtifact, vs), ArtifactKey))
  {
    RelabelBuilt(vs);
    SortMap(Map(BuildArtifact, vs), Relabel, ArtifactKey, ArtifactKey);
  }

  /** The listing the endpoint answers with, for an accepted limit. */
  lemma VersionsResponseListing(limitInput: CoercedNumber, index: Fetched<seq<string>>, directory: Fetched<seq<Anchor>>)
    requires ValidLimit(limitInput)
    ensures var r := VersionsResponse(limitInput, index, directory);
      var lib := VersionListing(index, directory, LimitValue(limitInput));
      && r.status == 200 && r.body.ListingBody?
      && r.body.total == lib.total
      && r.body.versions == Map(Relabel, lib.versions)
      && (CatalogVersions(index, directory).None? ==> r.body.total == 0 && r.body.versions == [])
  {
    LegacyListingIsLibraryListing(index, directory, LimitValue(limitInput));
  }
}
