/**
  The release catalog library (src/lib/maven.ts): version classification,
  the launcher gate, download URLs, the listing built from the repository's
  version index (or its directory listing), and the per-version refinement
  that probes which files exist.
 */
module Maven {
  import opened Wrappers
  import opened Strings
  import opened Collation
  import opened Http

  const MavenBase: string := "https://repo.magmafoundation.org/releases/org/magmafoundation/magma"
  const GroupId: string := "org.magmafoundation"
  const ArtifactId: string := "magma"

  /** The first major version that uses year-based platform numbering. */
  const YearBasedMajor: nat := 26
  /** The first build of the 21.1 line that ships a launcher. */
  const FirstLauncherBuild: nat := 41

  datatype DownloadType = Jar | Installer | Launcher | Changelog

  /** The unit `getFileSize` picks; the two-decimal rendering of the amount is not modelled. */
  datatype SizeUnit = B | KB | MB
  datatype FileSize = FileSize(bytes: ParsedInt, unit: SizeUnit)

  /** One published release; `None` is a field left `undefined`. */
  datatype MavenArtifact = MavenArtifact(
    groupId: string,
    artifactId: string,
    version: string,
    minecraftVersion: string,
    installerUrl: Option<string>,
    launcherUrl: Option<string>,
    changelogUrl: Option<string>,
    isStable: Option<bool>,
    hasLauncher: Option<bool>,
    hasInstaller: Option<bool>,
    hasChangelog: Option<bool>,
    fileSize: Option<FileSize>,
    releaseDate: Option<string>)

  /** What `fetchVersions` returns. */
  datatype Catalog = Catalog(total: nat, versions: seq<MavenArtifact>)

  /** An `<a>` element of the directory listing: its `href` attribute (possibly absent) and its text. */
  datatype Anchor = Anchor(href: Option<string>, text: string)

  // ---------------------------------------------------------------------
  // Platform-version classification
  // ---------------------------------------------------------------------

  /** The two groups of `/^(\d+)\.(\d+)/`, when it matches. */
  function LeadingNumericPair(s: string): (m: Option<(string, string)>)
    ensures m.Some? ==>
      var (a, b) := m.value;
      && |a| > 0 && |b| > 0 && AllDigits(a) && AllDigits(b)
      && StartsWith(s, a + "." + b)
      && (|a| + 1 + |b| < |s| ==> !IsDigit(s[|a| + 1 + |b|]))
  {
    var major := LeadingDigits(s);
    var n := |major|;
    if n == 0 || n + 1 >= |s| || s[n] != '.' || !IsDigit(s[n + 1]) then None
    else
      var minor := LeadingDigits(s[n + 1..]);
      assert s[..n + 1 + |minor|] == major + "." + minor;
      Some((major, minor))
  }

  /** `s` begins with `digits.digits`. */
  ghost predicate StartsWithNumericPair(s: string) {
    exists i | 0 < i && i + 1 < |s| :: AllDigits(s[..i]) && s[i] == '.' && IsDigit(s[i + 1])
  }

  lemma NumericPairExactly(s: string)
    ensures LeadingNumericPair(s).Some? <==> StartsWithNumericPair(s)
  {
    var n := |LeadingDigits(s)|;
    if LeadingNumericPair(s).Some? {
      assert AllDigits(s[..n]) && s[n] == '.' && IsDigit(s[n + 1]);
    }
    if StartsWithNumericPair(s) {
      var i :| 0 < i && i + 1 < |s| && AllDigits(s[..i]) && s[i] == '.' && IsDigit(s[i + 1]);
      LeadingDigitsOfRun(s, i);
    }
  }

  /** The `minecraftVersion` of a release: year-based from major 26 on, `1.{major}.x` below. */
  function ExtractMinecraftVersion(version: string): (r: string)
  {
    match LeadingNumericPair(version)
    case None => "Unknown"
    case Some((majorDigits, minor)) =>
      var major := DecimalValue(majorDigits);
      if major >= YearBasedMajor then NatToDecimal(major) + "." + minor
      else "1." + NatToDecimal(major) + ".x"
  }

  /** The classification is "Unknown" exactly when the version does not begin with `digits.digits`. */
  lemma UnknownIffNoNumericPair(version: string)
    ensures ExtractMinecraftVersion(version) == "Unknown" <==> !StartsWithNumericPair(version)
  {
    NumericPairExactly(version);
    var r := ExtractMinecraftVersion(version);
    if LeadingNumericPair(version).Some? {
      var (a, b) := LeadingNumericPair(version).value;
      var m := NatToDecimal(DecimalValue(a));
      if DecimalValue(a) >= YearBasedMajor {
        assert r[|m|] == '.';
      } else {
        assert r[1] == '.';
      }
      assert '.' in r && '.' !in "Unknown";
    }
  }

  /**
    The classification read off a decomposition of the version: a major digit
    run, a dot, a minor digit run and a rest that does not continue the minor.
    The major is read as a number; the minor is copied verbatim.
   */
  lemma {:induction false} ClassifyDecomposed(major: string, minor: string, rest: string)
    requires |major| > 0 && |minor| > 0 && AllDigits(major) && AllDigits(minor)
    requires rest == [] || !IsDigit(rest[0])
    ensures ExtractMinecraftVersion(major + "." + minor + rest) ==
      if DecimalValue(major) >= YearBasedMajor then NatToDecimal(DecimalValue(major)) + "." + minor
      else "1." + NatToDecimal(DecimalValue(major)) + ".x"
  {
    var s := major + "." + minor + rest;
    assert s[..|major|] == major;
    LeadingDigitsOfRun(s, |major|);
    var tail := s[|major| + 1..];
    assert tail == minor + rest;
    assert tail[..|minor|] == minor;
    LeadingDigitsOfRun(tail, |minor|);
  }

  /** A canonical major (no leading zero) is copied verbatim too, so a year-based result is a prefix of the version. */
  lemma YearBasedIsPrefix(major: string, minor: string, rest: string)
    requires |major| > 0 && |minor| > 0 && AllDigits(major) && AllDigits(minor)
    requires rest == [] || !IsDigit(rest[0])
    requires major[0] != '0' && DecimalValue(major) >= YearBasedMajor
    ensures ExtractMinecraftVersion(major + "." + minor + rest) == major + "." + minor
  {
    ClassifyDecomposed(major, minor, rest);
    CanonicalDecimalRoundTrip(major);
  }

  // ---------------------------------------------------------------------
  // Launcher gate
  // ---------------------------------------------------------------------

  /** The build group of `/^21\.1\.(\d+)-/`, when it matches. */
  function LauncherGateBuild(version: string): (m: Option<string>)
    ensures m.Some? ==> |m.value| > 0 && AllDigits(m.value)
  {
    if !StartsWith(version, "21.1.") then None
    else
      var build := LeadingDigits(version[5..]);
      if |build| > 0 && 5 + |build| < |version| && version[5 + |build|] == '-' then Some(build) else None
  }

  function HasLauncherSupport(version: string): bool {
    match LauncherGateBuild(version)
    case Some(build) => DecimalValue(build) >= FirstLauncherBuild
    case None => true
  }

  /** `version` is `21.1.{build}-...` with a build below the first launcher build. */
  ghost predicate IsPreLauncherBuild(s: string) {
    exists i | 5 < i < |s| ::
      StartsWith(s, "21.1.") && AllDigits(s[5..i]) && s[i] == '-' && DecimalValue(s[5..i]) < FirstLauncherBuild
  }

  /** Launcher support is denied exactly for `21.1.{n}-...` with `n < 41`; every other version has it. */
  lemma LauncherDeniedExactly(version: string)
    ensures !HasLauncherSupport(version) <==> IsPreLauncherBuild(version)
  {
    if IsPreLauncherBuild(version) {
      var i :| 5 < i < |version| && StartsWith(version, "21.1.") && AllDigits(version[5..i])
        && version[i] == '-' && DecimalValue(version[5..i]) < FirstLauncherBuild;
      var tail := version[5..];
      assert tail[..i - 5] == version[5..i];
      LeadingDigitsOfRun(tail, i - 5);
    } else if LauncherGateBuild(version).Some? {
      var build := LauncherGateBuild(version).value;
      var i := 5 + |build|;
      assert version[5..][..|build|] == version[5..i];
    }
  }

  /** The gate read off a decomposition `21.1.{build}-{rest}`. */
  lemma LauncherGateDecomposed(build: string, rest: string)
    requires |build| > 0 && AllDigits(build)
    ensures HasLauncherSupport("21.1." + build + "-" + rest) == (DecimalValue(build) >= FirstLauncherBuild)
  {
    LauncherGateMatches(build, rest);
  }

  lemma LauncherGateMatches(build: string, rest: string)
    requires |build| > 0 && AllDigits(build)
    ensures LauncherGateBuild("21.1." + build + "-" + rest) == Some(build)
  {
    var tail := build + "-" + rest;
    var s := "21.1." + tail;
    assert s == "21.1." + build + "-" + rest;
    assert StartsWith(s, "21.1.") && s[5..] == tail;
    assert tail[..|build|] == build && tail[|build|] == '-';
    LeadingDigitsOfRun(tail, |build|);
  }

  // ---------------------------------------------------------------------
  // Download URLs
  // ---------------------------------------------------------------------

  function Suffix(t: DownloadType): string {
    match t
    case Jar => ".jar"
    case Installer => "-installer.jar"
    case Launcher => "-launcher.jar"
    case Changelog => "-changelog.txt"
  }

  /** `${MAVEN_BASE}/${version}/magma-${version}` */
  function ArtifactBase(version: string): string {
    MavenBase + "/" + version + "/magma-" + version
  }

  function GetDownloadUrl(version: string, t: DownloadType): (url: string)
    ensures StartsWith(url, MavenBase + "/" + version + "/magma-" + version)
    ensures EndsWith(url, Suffix(t))
  {
    ArtifactBase(version) + Suffix(t)
  }

  /** For one version the four kinds give four different URLs. */
  lemma DownloadUrlsDistinct(version: string, t1: DownloadType, t2: DownloadType)
    requires t1 != t2
    ensures GetDownloadUrl(version, t1) != GetDownloadUrl(version, t2)
  {
    var b := ArtifactBase(version);
    assert GetDownloadUrl(version, t1)[|b|..] == Suffix(t1);
    assert GetDownloadUrl(version, t2)[|b|..] == Suffix(t2);
  }

  /** For one kind the URL determines the version. */
  lemma DownloadUrlDeterminesVersion(v1: string, v2: string, t: DownloadType)
    requires GetDownloadUrl(v1, t) == GetDownloadUrl(v2, t)
    ensures v1 == v2
  {
    var n := |MavenBase| + 1;
    assert |v1| == |v2|;
    assert GetDownloadUrl(v1, t)[n..n + |v1|] == v1;
    assert GetDownloadUrl(v2, t)[n..n + |v2|] == v2;
  }

  /** The name a query parameter uses for each kind. */
  function TypeName(t: DownloadType): string {
    match t
    case Jar => "jar"
    case Installer => "installer"
    case Launcher => "launcher"
    case Changelog => "changelog"
  }

  /** Membership in `["jar", "installer", "launcher", "changelog"]`. */
  function ParseDownloadType(s: string): (t: Option<DownloadType>)
    ensures t.Some? ==> TypeName(t.value) == s
    ensures forall k :: s == TypeName(k) ==> t == Some(k)
  {
    if s == "jar" then Some(Jar)
    else if s == "installer" then Some(Installer)
    else if s == "launcher" then Some(Launcher)
    else if s == "changelog" then Some(Changelog)
    else None
  }

  // ---------------------------------------------------------------------
  // Artifact records
  // ---------------------------------------------------------------------

  predicate IsStableVersion(version: string) {
    !Contains(version, "beta") && !Contains(version, "alpha") && !Contains(version, "snapshot")
  }

  /** The record the listing builds from a version string alone, without probing the network. */
  function BuildArtifact(version: string): (a: MavenArtifact)
    ensures a.version == version && a.groupId == GroupId && a.artifactId == ArtifactId
  {
    MavenArtifact(
      GroupId, ArtifactId, version, ExtractMinecraftVersion(version),
      Some(GetDownloadUrl(version, Installer)),
      Some(GetDownloadUrl(version, Launcher)),
      Some(GetDownloadUrl(version, Changelog)),
      Some(IsStableVersion(version)),
      Some(HasLauncherSupport(version)),
      Some(true),
      None, None, None)
  }

  /**
    A built record is stable exactly when no marker occurs anywhere in the
    version; it always claims an installer, follows the launcher gate and
    carries all three URLs.
   */
  lemma BuildArtifactShape(version: string)
    ensures var a := BuildArtifact(version);
      && (a.isStable == Some(true) <==>
           (forall i :: !OccursAt(version, "beta", i)) && (forall i :: !OccursAt(version, "alpha", i))
           && (forall i :: !OccursAt(version, "snapshot", i)))
      && a.isStable.Some? && a.hasInstaller == Some(true)
      && a.hasLauncher == Some(HasLauncherSupport(version))
      && a.installerUrl == Some(GetDownloadUrl(version, Installer))
      && a.launcherUrl == Some(GetDownloadUrl(version, Launcher))
      && a.changelogUrl == Some(GetDownloadUrl(version, Changelog))
      && a.minecraftVersion == ExtractMinecraftVersion(version)
  {
    ContainsIffOccurs(version, "beta");
    ContainsIffOccurs(version, "alpha");
    ContainsIffOccurs(version, "snapshot");
  }

  // ---------------------------------------------------------------------
  // The listing
  // ---------------------------------------------------------------------

  /** The non-empty `<version>` texts, in document order. */
  function PrimaryVersions(texts: seq<string>): (vs: seq<string>)
    ensures |vs| <= |texts|
    decreases |texts|
  {
    if texts == [] then []
    else
      var last := texts[|texts| - 1];
      PrimaryVersions(texts[..|texts| - 1]) + (if last != "" then [last] else [])
  }

  /** A directory entry that names a version: a sub-directory that is not `../`, `./` or the metadata file. */
  predicate AcceptsAnchor(a: Anchor) {
    && a.href.Some?
    && EndsWith(a.href.value, "/")
    && a.href.value != "../" && a.href.value != "./"
    && !Contains(a.text, "maven-metadata")
  }

  /** `href.replace("/", "")` */
  function HrefVersion(href: string): string {
    RemoveFirst(href, '/')
  }

  /** The versions named by the accepted directory entries, in document order. */
  function FallbackVersions(anchors: seq<Anchor>): (vs: seq<string>)
    ensures |vs| <= |anchors|
    decreases |anchors|
  {
    if anchors == [] then []
    else
      var last := anchors[|anchors| - 1];
      FallbackVersions(anchors[..|anchors| - 1]) + (if AcceptsAnchor(last) then [HrefVersion(last.href.value)] else [])
  }

  /**
    The version strings the listing is built from, or `None` when a fetch
    threw (the listing then degrades to empty).  The directory listing is
    consulted only when the index yields no non-empty version.
   */
  function CatalogVersions(index: Fetched<seq<string>>, directory: Fetched<seq<Anchor>>): Option<seq<string>> {
    if index.Threw? then None
    else
      var primary := if index.Ok? then PrimaryVersions(index.body) else [];
      if |primary| > 0 then Some(primary)
      else match directory
        case Threw => None
        case NotOk => Some([])
        case Ok(anchors) => Some(FallbackVersions(anchors))
  }

  /**
    The `.each` loops of `fetchVersions`: push one record per non-empty
    `<version>` text, and when none was pushed, one per accepted directory
    entry.  `None` stands for the exception that sends the caller to its
    `catch`.
   */
  method CollectArtifacts(index: Fetched<seq<string>>, directory: Fetched<seq<Anchor>>, build: string -> MavenArtifact)
    returns (r: Option<seq<MavenArtifact>>)
    ensures CatalogVersions(index, directory).None? ==> r.None?
    ensures CatalogVersions(index, directory).Some? ==> r == Some(Map(build, CatalogVersions(index, directory).value))
  {
    if index.Threw? {
      return None;
    }
    var artifacts: seq<MavenArtifact> := [];
    if index.Ok? {
      var texts := index.body;
      var i := 0;
      while i < |texts|
        invariant 0 <= i <= |texts|
        invariant artifacts == Map(build, PrimaryVersions(texts[..i]))
      {
        assert texts[..i + 1][..i] == texts[..i];
        var v := texts[i];
        if v != "" {
          artifacts := artifacts + [build(v)];
        }
        i := i + 1;
      }
      assert texts[..|texts|] == texts;
    }
    if |artifacts| == 0 {
      match directory {
        case Threw =>
          return None;
        case NotOk =>
        case Ok(anchors) =>
          var j := 0;
          while j < |anchors|
            invariant 0 <= j <= |anchors|
            invariant artifacts == Map(build, FallbackVersions(anchors[..j]))
          {
            assert anchors[..j + 1][..j] == anchors[..j];
            var a := anchors[j];
            if a.href.Some? && EndsWith(a.href.value, "/") && a.href.value != "../" && a.href.value != "./"
              && !Contains(a.text, "maven-metadata")
            {
              artifacts := artifacts + [build(HrefVersion(a.href.value))];
            }
            j := j + 1;
          }
          assert anchors[..|anchors|] == anchors;
      }
    }
    return Some(artifacts);
  }

  /** The sort key of a record: the collation key of its version. */
  function ArtifactKey(a: MavenArtifact): seq<int> {
    CollationKey(a.version)
  }

  /** `artifacts.slice(0, limit)` when `limit > 0`, everything otherwise. */
  function Limit<T>(s: seq<T>, limit: int): (r: seq<T>)
    ensures limit > 0 ==> r == s[..if limit < |s| then limit else |s|]
    ensures limit <= 0 ==> r == s
  {
    if limit > 0 && limit < |s| then s[..limit] else s
  }

  /** The catalog `fetchVersions(limit)` returns, as a function of what the two fetches answered. */
  function VersionListing(index: Fetched<seq<string>>, directory: Fetched<seq<Anchor>>, limit: int): Catalog {
    match CatalogVersions(index, directory)
    case None => Catalog(0, [])
    case Some(vs) =>
      var sorted := SortDescending(Map(BuildArtifact, vs), ArtifactKey);
      Catalog(|sorted|, Limit(sorted, limit))
  }

  method FetchVersions(index: Fetched<seq<string>>, directory: Fetched<seq<Anchor>>, limit: int) returns (c: Catalog)
    ensures c == VersionListing(index, directory, limit)
  {
    var collected := CollectArtifacts(index, directory, BuildArtifact);
    if collected.None? {
      return Catalog(0, []);
    }
    var artifacts := collected.value;
    artifacts := SortDescending(artifacts, ArtifactKey);
    var total := |artifacts|;
    if limit > 0 {
      artifacts := artifacts[..if limit < |artifacts| then limit else |artifacts|];
    }
    c := Catalog(total, artifacts);
  }

  /**
    `total` counts every collected version; the listed ones are the first
    `min(limit, total)` of the descending sort (all of them when `limit <= 0`),
    each built from a collected version, and every listed version sorts no
    later than every version the limit cut off.
   */
  lemma {:induction false} ListingShape(index: Fetched<seq<string>>, directory: Fetched<seq<Anchor>>, limit: int)
    ensures var c := VersionListing(index, directory, limit);
      match CatalogVersions(index, directory)
      case None => c == Catalog(0, [])
      case Some(vs) =>
        var sorted := SortDescending(Map(BuildArtifact, vs), ArtifactKey);
        && c.total == |vs|
        && |c.versions| == (if 0 < limit < |vs| then limit else |vs|)
        && c.versions == sorted[..|c.versions|]
        && SortedDescending(sorted, ArtifactKey)
        && multiset(sorted) == multiset(Map(BuildArtifact, vs))
        && (forall i, j | 0 <= i < |c.versions| <= j < |sorted| :: SortsFirst(ArtifactKey, c.versions[i], sorted[j]))
  {
    match CatalogVersions(index, directory)
    case None =>
    case Some(vs) =>
      SortDescendingCorrect(Map(BuildArtifact, vs), ArtifactKey);
  }

  /** Every listed record is the record built from one of the collected versions. */
  lemma ListedAreBuilt(index: Fetched<seq<string>>, directory: Fetched<seq<Anchor>>, limit: int, k: nat)
    requires k < |VersionListing(index, directory, limit).versions|
    ensures CatalogVersions(index, directory).Some?
    ensures var a := VersionListing(index, directory, limit).versions[k];
      a.version in CatalogVersions(index, directory).value && a == BuildArtifact(a.version)
  {
    var vs := CatalogVersions(index, directory).value;
    var sorted := SortDescending(Map(BuildArtifact, vs), ArtifactKey);
    SortDescendingCorrect(Map(BuildArtifact, vs), ArtifactKey);
    var a := sorted[k];
    assert a in multiset(Map(BuildArtifact, vs));
    var i :| 0 <= i < |vs| && Map(BuildArtifact, vs)[i] == a;
  }

  /** A non-empty listing begins with a collected version whose key is at least every collected version's key. */
  lemma FirstListedIsNewest(index: Fetched<seq<string>>, directory: Fetched<seq<Anchor>>, limit: int)
    requires |VersionListing(index, directory, limit).versions| > 0
    ensures CatalogVersions(index, directory).Some?
    ensures var v := VersionListing(index, directory, limit).versions[0].version;
      && v in CatalogVersions(index, directory).value
      && forall w | w in CatalogVersions(index, directory).value :: LexLeq(CollationKey(w), CollationKey(v))
  {
    var vs := CatalogVersions(index, directory).value;
    var sorted := SortDescending(Map(BuildArtifact, vs), ArtifactKey);
    assert VersionListing(index, directory, limit).versions[0] == sorted[0];
    SortedBuiltHead(vs);
  }

  /** The head of the sorted records is built from a collected version with the greatest key. */
  lemma SortedBuiltHead(vs: seq<string>)
    requires |vs| > 0
    ensures var sorted := SortDescending(Map(BuildArtifact, vs), ArtifactKey);
      && sorted[0].version in vs
      && forall w | w in vs :: LexLeq(CollationKey(w), CollationKey(sorted[0].version))
  {
    var built := Map(BuildArtifact, vs);
    var sorted := SortDescending(built, ArtifactKey);
    SortDescendingCorrect(built, ArtifactKey);
    SortedHeadIsGreatest(sorted, built, ArtifactKey);
    assert sorted[0] in multiset(built);
    var i :| 0 <= i < |vs| && built[i] == sorted[0];
    forall w | w in vs ensures LexLeq(CollationKey(w), CollationKey(sorted[0].version)) {
      var k :| 0 <= k < |vs| && vs[k] == w;
      assert built[k] in built;
    }
  }

  /** A fetch that throws before any version is collected leaves the listing empty, whatever the limit. */
  lemma ThrowGivesEmptyListing(directory: Fetched<seq<Anchor>>, limit: int)
    ensures VersionListing(Threw, directory, limit) == Catalog(0, [])
    ensures VersionListing(NotOk, Threw, limit) == Catalog(0, [])
  {
  }

  /** The index is used whenever it yields a non-empty version; the directory listing is then ignored. */
  lemma IndexWins(texts: seq<string>, directory: Fetched<seq<Anchor>>)
    requires exists i | 0 <= i < |texts| :: texts[i] != ""
    ensures CatalogVersions(Ok(texts), directory) == Some(PrimaryVersions(texts))
  {
    var i :| 0 <= i < |texts| && texts[i] != "";
    PrimaryVersionsMembers(texts);
    assert texts[i] in PrimaryVersions(texts);
  }

  /** A failed or empty index hands the listing over to the directory entries alone. */
  lemma FallbackWhenIndexEmpty(index: Fetched<seq<string>>, anchors: seq<Anchor>)
    requires index.NotOk? || (index.Ok? && forall i | 0 <= i < |index.body| :: index.body[i] == "")
    ensures CatalogVersions(index, Ok(anchors)) == Some(FallbackVersions(anchors))
  {
    if index.Ok? {
      PrimaryVersionsOfBlanks(index.body);
    }
  }

  /** An index whose texts are all empty yields no version. */
  lemma {:induction false} PrimaryVersionsOfBlanks(texts: seq<string>)
    requires forall i | 0 <= i < |texts| :: texts[i] == ""
    ensures PrimaryVersions(texts) == []
    decreases |texts|
  {
    if texts != [] {
      PrimaryVersionsOfBlanks(texts[..|texts| - 1]);
    }
  }

  /** The index yields exactly its non-empty texts. */
  lemma {:induction false} PrimaryVersionsMembers(texts: seq<string>)
    ensures forall v :: v in PrimaryVersions(texts) <==> v in texts && v != ""
    decreases |texts|
  {
    if texts != [] {
      var init := texts[..|texts| - 1];
      PrimaryVersionsMembers(init);
      assert texts == init + [texts[|texts| - 1]];
    }
  }

  /** Some accepted entry of `anchors` names `v`. */
  ghost predicate NamedByEntry(anchors: seq<Anchor>, v: string) {
    exists i | 0 <= i < |anchors| :: AcceptsAnchor(anchors[i]) && v == HrefVersion(anchors[i].href.value)
  }

  lemma NamedByEntrySnoc(init: seq<Anchor>, a: Anchor, v: string)
    ensures NamedByEntry(init + [a], v) <==>
      NamedByEntry(init, v) || (AcceptsAnchor(a) && v == HrefVersion(a.href.value))
  {
    var all := init + [a];
    if NamedByEntry(init, v) {
      var i :| 0 <= i < |init| && AcceptsAnchor(init[i]) && v == HrefVersion(init[i].href.value);
      assert all[i] == init[i];
    }
    if AcceptsAnchor(a) && v == HrefVersion(a.href.value) {
      assert all[|init|] == a;
    }
    if NamedByEntry(all, v) {
      var i :| 0 <= i < |all| && AcceptsAnchor(all[i]) && v == HrefVersion(all[i].href.value);
      if i < |init| {
        assert all[i] == init[i];
      }
    }
  }

  /** The directory listing yields exactly the versions of its accepted entries. */
  lemma {:induction false} FallbackVersionsMembers(anchors: seq<Anchor>)
    ensures forall v :: v in FallbackVersions(anchors) <==> NamedByEntry(anchors, v)
    decreases |anchors|
  {
    if anchors != [] {
      var n := |anchors| - 1;
      var init := anchors[..n];
      FallbackVersionsMembers(init);
      assert anchors == init + [anchors[n]];
      forall v ensures v in FallbackVersions(anchors) <==> NamedByEntry(anchors, v) {
        NamedByEntrySnoc(init, anchors[n], v);
      }
    }
  }

  /** An entry `{version}/` with no other slash names `{version}`. */
  lemma HrefVersionOfDirectory(version: string)
    requires '/' !in version
    ensures HrefVersion(version + "/") == version
  {
    var h := version + "/";
    assert h[..|version|] == version;
    RemoveFirstAt(h, '/', |version|);
  }

  // ---------------------------------------------------------------------
  // Per-version refinement
  // ---------------------------------------------------------------------

  /** `checkFileExists`: a HEAD that answers with an ok status; a thrown request counts as absent. */
  function FileExists(head: string -> HeadResponse, url: string): bool {
    match head(url)
    case HeadThrew => false
    case HeadReply(ok, _) => ok
  }

  /** The unit chosen for a `parseInt` result; NaN fails both comparisons and lands in MB. */
  function UnitFor(bytes: ParsedInt): (u: SizeUnit)
    ensures u == B <==> bytes.Integer? && bytes.value < 1024
    ensures u == KB <==> bytes.Integer? && 1024 <= bytes.value < 1024 * 1024
    ensures u == MB <==> bytes.NotANumber? || bytes.value >= 1024 * 1024
  {
    if bytes.Integer? && bytes.value < 1024 then B
    else if bytes.Integer? && bytes.value < 1024 * 1024 then KB
    else MB
  }

  /** `getFileSize` on the answer to its HEAD request. */
  function FileSizeOf(resp: HeadResponse): (r: Option<FileSize>)
    ensures r.None? <==> resp.HeadThrew? || !resp.ok || resp.contentLength.None? || resp.contentLength.value == ""
    ensures r.Some? ==> r.value.bytes == ParseInt(resp.contentLength.value)
  {
    match resp
    case HeadThrew => None
    case HeadReply(ok, len) =>
      if !ok || len.None? || len.value == "" then None
      else
        var bytes := ParseInt(len.value);
        Some(FileSize(bytes, UnitFor(bytes)))
  }

  /** A content length that renders a byte count is read back as that count, and the unit follows from it. */
  lemma FileSizeOfRendered(n: nat)
    ensures FileSizeOf(HeadReply(true, Some(NatToDecimal(n)))) == Some(FileSize(Integer(n), UnitFor(Integer(n))))
  {
    ParseIntOfDecimal(n);
  }

  /** `${MAVEN_BASE}/${version}/maven-metadata.xml` */
  function MetadataUrl(version: string): string {
    MavenBase + "/" + version + "/maven-metadata.xml"
  }

  /**
    `getReleaseDate` on the fetch of the per-version metadata, whose body is
    the trimmed text of its `lastUpdated` element.  The result is the first
    eight characters regrouped as `YYYY-MM-DD`: removing the two dashes gives
    them back.
   */
  function ReleaseDateOf(metadata: Fetched<string>): (r: Option<string>)
    ensures r.Some? <==> metadata.Ok? && |metadata.body| >= 8
    ensures r.Some? ==>
      && |r.value| == 10 && r.value[4] == '-' && r.value[7] == '-'
      && r.value[..4] + r.value[5..7] + r.value[8..] == metadata.body[..8]
  {
    match metadata
    case Ok(ts) =>
      if |ts| >= 8 then
        var d := ts[0..4] + "-" + ts[4..6] + "-" + ts[6..8];
        assert d[..4] == ts[0..4] && d[5..7] == ts[4..6] && d[8..] == ts[6..8];
        assert ts[..8] == ts[0..4] + ts[4..6] + ts[6..8];
        Some(d)
      else None
    case _ => None
  }

  /** The record `fetchVersionDetails(version)` returns, given the answers of the HEAD and GET requests. */
  function RefinedArtifact(version: string, head: string -> HeadResponse, get: string -> Fetched<string>): MavenArtifact {
    var base := BuildArtifact(version);
    var hasInstaller := FileExists(head, GetDownloadUrl(version, Installer));
    var hasChangelog := FileExists(head, GetDownloadUrl(version, Changelog));
    var sizeUrl := if hasInstaller then GetDownloadUrl(version, Installer) else GetDownloadUrl(version, Jar);
    base.(
      hasInstaller := Some(hasInstaller),
      hasChangelog := Some(hasChangelog),
      installerUrl := if hasInstaller then base.installerUrl else None,
      changelogUrl := if hasChangelog then base.changelogUrl else None,
      launcherUrl := if base.hasLauncher == Some(true) then base.launcherUrl else None,
      fileSize := FileSizeOf(head(sizeUrl)),
      releaseDate := ReleaseDateOf(get(MetadataUrl(version))))
  }

  /**
    `fetchVersionDetails`: start from the listing's record and correct it
    field by field from the probes.  Every probe catches its own failure, so
    the `null` of the `catch` is never produced.
   */
  method FetchVersionDetails(version: string, head: string -> HeadResponse, get: string -> Fetched<string>)
    returns (r: Option<MavenArtifact>)
    ensures r == Some(RefinedArtifact(version, head, get))
  {
    var artifact := BuildArtifact(version);
    var hasInstaller := FileExists(head, GetDownloadUrl(version, Installer));
    var hasChangelog := FileExists(head, GetDownloadUrl(version, Changelog));
    artifact := artifact.(hasInstaller := Some(hasInstaller));
    artifact := artifact.(hasChangelog := Some(hasChangelog));
    if !hasInstaller {
      artifact := artifact.(installerUrl := None);
    }
    if !hasChangelog {
      artifact := artifact.(changelogUrl := None);
    }
    if artifact.hasLauncher != Some(true) {
      artifact := artifact.(launcherUrl := None);
    }
    if hasInstaller {
      artifact := artifact.(fileSize := FileSizeOf(head(GetDownloadUrl(version, Installer))));
    } else {
      artifact := artifact.(fileSize := FileSizeOf(head(GetDownloadUrl(version, Jar))));
    }
    artifact := artifact.(releaseDate := ReleaseDateOf(get(MetadataUrl(version))));
    return Some(artifact);
  }

  /**
    What the refinement guarantees: a URL is kept exactly when its probe
    succeeded (for the launcher, when the gate allows it), the size comes from
    the installer when it exists and from the plain jar otherwise, and the
    fields the probes do not touch are those of the listing's record.
   */
  lemma RefinedArtifactFields(version: string, head: string -> HeadResponse, get: string -> Fetched<string>)
    ensures var r := RefinedArtifact(version, head, get);
      var hasInstaller := FileExists(head, GetDownloadUrl(version, Installer));
      var hasChangelog := FileExists(head, GetDownloadUrl(version, Changelog));
      && r.hasInstaller == Some(hasInstaller)
      && r.hasChangelog == Some(hasChangelog)
      && (r.installerUrl.Some? <==> hasInstaller)
      && (r.installerUrl.Some? ==> r.installerUrl.value == GetDownloadUrl(version, Installer))
      && (r.changelogUrl.Some? <==> hasChangelog)
      && (r.changelogUrl.Some? ==> r.changelogUrl.value == GetDownloadUrl(version, Changelog))
      && (r.launcherUrl.Some? <==> HasLauncherSupport(version))
      && (r.launcherUrl.Some? ==> r.launcherUrl.value == GetDownloadUrl(version, Launcher))
      && r.hasLauncher == Some(HasLauncherSupport(version))
      && r.fileSize == FileSizeOf(head(GetDownloadUrl(version, if hasInstaller then Installer else Jar)))
      && r.releaseDate == ReleaseDateOf(get(MetadataUrl(version)))
      && r.(installerUrl := None, changelogUrl := None, launcherUrl := None, hasInstaller := None,
            hasChangelog := None, fileSize := None, releaseDate := None)
         == BuildArtifact(version).(installerUrl := None, changelogUrl := None, launcherUrl := None,
            hasInstaller := None)
  {
  }

  /** When every HEAD request fails, the record has neither installer nor changelog, and no size. */
  lemma RefinedWhenNothingExists(version: string, get: string -> Fetched<string>)
    ensures var r := RefinedArtifact(version, _ => HeadReply(false, None), get);
      && r.hasInstaller == Some(false) && r.installerUrl.None?
      && r.hasChangelog == Some(false) && r.changelogUrl.None?
      && r.fileSize.None?
  {
  }
}
