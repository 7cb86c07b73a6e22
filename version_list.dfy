/**
  The client-side helpers of the version browser (src/components/version-list.tsx):
  the platform-version fallback, the grouping of the fetched page into tabs,
  the stability filter, the build label and the "Showing X of Y" condition.
  Rendering and React state are not modelled; the state the component keeps
  is passed in and returned.
 */
module VersionList {
  import opened Wrappers
  import opened Strings
  import opened Maven
  import Http

  /** The component's own copy of the classifier. */
  function GetMinecraftVersion(version: string): (r: string)
    ensures r == ExtractMinecraftVersion(version)
  {
    match LeadingNumericPair(version)
    case None => "Unknown"
    case Some((majorDigits, minor)) =>
      var major := DecimalValue(majorDigits);
      if major >= 26 then NatToDecimal(major) + "." + minor
      else "1." + NatToDecimal(major) + ".x"
  }

  // ---------------------------------------------------------------------
  // Grouping by platform version
  // ---------------------------------------------------------------------

  /** `artifact.minecraftVersion || getMinecraftVersion(artifact.version)`: an empty label falls back to the derived one. */
  function GroupKey(a: MavenArtifact): string {
    if a.minecraftVersion != "" then a.minecraftVersion else GetMinecraftVersion(a.version)
  }

  /** The artifacts of `xs` whose key is `k`, in input order. */
  function Bucket(xs: seq<MavenArtifact>, k: string): (b: seq<MavenArtifact>)
    ensures |b| <= |xs|
    decreases |xs|
  {
    if xs == [] then []
    else
      var last := xs[|xs| - 1];
      Bucket(xs[..|xs| - 1], k) + (if GroupKey(last) == k then [last] else [])
  }

  /** The distinct keys of `xs`, in order of first appearance (the object's insertion order). */
  function KeyOrder(xs: seq<MavenArtifact>): (keys: seq<string>)
    decreases |xs|
  {
    if xs == [] then []
    else
      var init := KeyOrder(xs[..|xs| - 1]);
      var k := GroupKey(xs[|xs| - 1]);
      if k in init then init else init + [k]
  }

  /**
    The `forEach` that fills `byMinecraft`: create a bucket the first time a
    key is seen, then push.  `keys` is the order `Object.keys` reports.
   */
  method GroupByMinecraft(fetched: seq<MavenArtifact>) returns (byMinecraft: map<string, seq<MavenArtifact>>, keys: seq<string>)
    ensures keys == KeyOrder(fetched)
    ensures byMinecraft.Keys == set k | k in keys
    ensures forall k | k in byMinecraft :: byMinecraft[k] == Bucket(fetched, k)
  {
    byMinecraft := map[];
    keys := [];
    var i := 0;
    while i < |fetched|
      invariant 0 <= i <= |fetched|
      invariant keys == KeyOrder(fetched[..i])
      invariant byMinecraft.Keys == set k | k in keys
      invariant forall k | k in byMinecraft :: byMinecraft[k] == Bucket(fetched[..i], k)
    {
      var artifact := fetched[i];
      assert fetched[..i + 1] == fetched[..i] + [artifact];
      ghost var before := byMinecraft;
      var mcVersion := if artifact.minecraftVersion != "" then artifact.minecraftVersion else GetMinecraftVersion(artifact.version);
      if mcVersion !in byMinecraft {
        byMinecraft := byMinecraft[mcVersion := []];
        keys := keys + [mcVersion];
      }
      byMinecraft := byMinecraft[mcVersion := byMinecraft[mcVersion] + [artifact]];
      i := i + 1;
      forall k | k in byMinecraft ensures byMinecraft[k] == Bucket(fetched[..i], k) {
        BucketSnoc(fetched[..i - 1], artifact, k);
        if k !in before {
          BucketOutsideKeys(fetched[..i - 1], k);
        }
      }
    }
    assert fetched[..|fetched|] == fetched;
  }

  /** A key that does not occur has an empty bucket. */
  lemma {:induction false} BucketOutsideKeys(xs: seq<MavenArtifact>, k: string)
    requires k !in KeyOrder(xs)
    ensures Bucket(xs, k) == []
    decreases |xs|
  {
    if xs != [] {
      BucketOutsideKeys(xs[..|xs| - 1], k);
    }
  }

  lemma BucketSnoc(xs: seq<MavenArtifact>, x: MavenArtifact, k: string)
    ensures Bucket(xs + [x], k) == Bucket(xs, k) + (if GroupKey(x) == k then [x] else [])
  {
    assert (xs + [x])[..|xs|] == xs;
  }

  /** An artifact lies in the bucket of `k` exactly when it occurs in the input with key `k`: each lands in exactly one. */
  lemma {:induction false} BucketMembers(xs: seq<MavenArtifact>, k: string)
    ensures forall a :: a in Bucket(xs, k) <==> a in xs && GroupKey(a) == k
    decreases |xs|
  {
    if xs != [] {
      BucketMembers(xs[..|xs| - 1], k);
      assert xs == xs[..|xs| - 1] + [xs[|xs| - 1]];
    }
  }

  /** The keys are distinct and are exactly the keys that occur in the input. */
  lemma {:induction false} KeyOrderExact(xs: seq<MavenArtifact>)
    ensures forall i, j | 0 <= i < j < |KeyOrder(xs)| :: KeyOrder(xs)[i] != KeyOrder(xs)[j]
    ensures forall k :: k in KeyOrder(xs) <==> exists a | a in xs :: GroupKey(a) == k
    decreases |xs|
  {
    if xs != [] {
      var init := xs[..|xs| - 1];
      KeyOrderExact(init);
      assert xs == init + [xs[|xs| - 1]];
      forall k ensures k in KeyOrder(xs) <==> exists a | a in xs :: GroupKey(a) == k {
        if exists a | a in xs :: GroupKey(a) == k {
          var a :| a in xs && GroupKey(a) == k;
          if a in init {
            assert k in KeyOrder(init);
          }
        }
      }
    }
  }

  /** The buckets of `keys`, one after another. */
  function Gather(xs: seq<MavenArtifact>, keys: seq<string>): seq<MavenArtifact>
    decreases |keys|
  {
    if keys == [] then [] else Bucket(xs, keys[0]) + Gather(xs, keys[1..])
  }

  lemma {:induction false} GatherSnoc(xs: seq<MavenArtifact>, x: MavenArtifact, keys: seq<string>)
    requires forall i, j | 0 <= i < j < |keys| :: keys[i] != keys[j]
    ensures multiset(Gather(xs + [x], keys)) ==
      multiset(Gather(xs, keys)) + (if GroupKey(x) in keys then multiset{x} else multiset{})
    decreases |keys|
  {
    if keys != [] {
      GatherSnoc(xs, x, keys[1..]);
      BucketSnoc(xs, x, keys[0]);
      assert GroupKey(x) in keys <==> GroupKey(x) == keys[0] || GroupKey(x) in keys[1..];
    }
  }

  lemma {:induction false} GatherEmpty(keys: seq<string>)
    ensures Gather([], keys) == []
    decreases |keys|
  {
    if keys != [] {
      GatherEmpty(keys[1..]);
    }
  }

  /** Gathering the buckets in key order yields a permutation of the fetched page: nothing lost, nothing doubled. */
  lemma GroupingIsPermutation(xs: seq<MavenArtifact>)
    ensures multiset(Gather(xs, KeyOrder(xs))) == multiset(xs)
  {
    var keys := KeyOrder(xs);
    KeyOrderExact(xs);
    GatherCovers(xs, keys);
  }

  lemma {:induction false} GatherCovers(xs: seq<MavenArtifact>, keys: seq<string>)
    requires forall i, j | 0 <= i < j < |keys| :: keys[i] != keys[j]
    requires forall a | a in xs :: GroupKey(a) in keys
    ensures multiset(Gather(xs, keys)) == multiset(xs)
    decreases |xs|
  {
    if xs == [] {
      GatherEmpty(keys);
    } else {
      var init := xs[..|xs| - 1];
      var x := xs[|xs| - 1];
      assert xs == init + [x];
      GatherCovers(init, keys);
      GatherSnoc(init, x, keys);
    }
  }

  // ---------------------------------------------------------------------
  // Tabs, filter and labels
  // ---------------------------------------------------------------------

  /** The tab after a load: the first key when there is one, the previous tab otherwise. */
  function TabAfterLoad(previous: string, keys: seq<string>): (tab: string)
    ensures keys != [] ==> tab == keys[0]
    ensures keys == [] ==> tab == previous
  {
    if |keys| > 0 then keys[0] else previous
  }

  datatype StabilityFilter = AllBuilds | StableOnly | BetaOnly

  /** Whether the filter keeps an artifact: `isStable === true` or `=== false`; an absent flag passes neither. */
  predicate Keeps(filter: StabilityFilter, a: MavenArtifact) {
    match filter
    case AllBuilds => true
    case StableOnly => a.isStable == Some(true)
    case BetaOnly => a.isStable == Some(false)
  }

  function FilterBy(filter: StabilityFilter, xs: seq<MavenArtifact>): (r: seq<MavenArtifact>)
    ensures |r| <= |xs|
    decreases |xs|
  {
    if xs == [] then []
    else (if Keeps(filter, xs[0]) then [xs[0]] else []) + FilterBy(filter, xs[1..])
  }

  /** `applyStabilityFilter` */
  function ApplyStabilityFilter(filter: StabilityFilter, xs: seq<MavenArtifact>): seq<MavenArtifact> {
    if filter == AllBuilds then xs else FilterBy(filter, xs)
  }

  /** "all" is the identity; the other filters keep exactly the artifacts whose flag they test. */
  lemma {:induction false} StabilityFilterMembers(filter: StabilityFilter, xs: seq<MavenArtifact>)
    ensures filter == AllBuilds ==> ApplyStabilityFilter(filter, xs) == xs
    ensures forall a :: a in ApplyStabilityFilter(filter, xs) <==> a in xs && Keeps(filter, a)
    decreases |xs|
  {
    if xs != [] && filter != AllBuilds {
      StabilityFilterMembers(filter, xs[1..]);
      assert xs == [xs[0]] + xs[1..];
    }
  }

  /** When every artifact carries the flag, the stable and beta views split the list between them. */
  lemma {:induction false} StabilityFilterPartition(xs: seq<MavenArtifact>)
    requires forall i | 0 <= i < |xs| :: xs[i].isStable.Some?
    ensures |ApplyStabilityFilter(StableOnly, xs)| + |ApplyStabilityFilter(BetaOnly, xs)| == |xs|
    decreases |xs|
  {
    if xs != [] {
      assert forall i | 0 <= i < |xs[1..]| :: xs[1..][i].isStable.Some? by {
        forall i | 0 <= i < |xs[1..]| ensures xs[1..][i].isStable.Some? {
          assert xs[1..][i] == xs[i + 1];
        }
      }
      StabilityFilterPartition(xs[1..]);
      assert xs[0].isStable == Some(xs[0].isStable.value);
      assert Keeps(StableOnly, xs[0]) != Keeps(BetaOnly, xs[0]) by {
        if xs[0].isStable.value {
          assert Keeps(StableOnly, xs[0]);
        } else {
          assert Keeps(BetaOnly, xs[0]);
        }
      }
      assert FilterBy(StableOnly, xs) == (if Keeps(StableOnly, xs[0]) then [xs[0]] else []) + FilterBy(StableOnly, xs[1..]);
      assert FilterBy(BetaOnly, xs) == (if Keeps(BetaOnly, xs[0]) then [xs[0]] else []) + FilterBy(BetaOnly, xs[1..]);
    }
  }

  /** `currentVersions`: the filtered page for "all", the filtered bucket otherwise (none when the tab has no bucket). */
  function VisibleVersions(tab: string, filter: StabilityFilter, versions: seq<MavenArtifact>,
                           byMinecraft: map<string, seq<MavenArtifact>>): seq<MavenArtifact>
  {
    if tab == "all" then ApplyStabilityFilter(filter, versions)
    else ApplyStabilityFilter(filter, if tab in byMinecraft then byMinecraft[tab] else [])
  }

  /** On grouped state, a platform tab shows exactly the page's artifacts of that platform that pass the filter. */
  lemma VisibleOnGroupedState(tab: string, filter: StabilityFilter, versions: seq<MavenArtifact>,
                              byMinecraft: map<string, seq<MavenArtifact>>)
    requires forall k | k in byMinecraft :: byMinecraft[k] == Bucket(versions, k)
    requires byMinecraft.Keys == set k | k in KeyOrder(versions)
    requires tab != "all"
    ensures forall a :: a in VisibleVersions(tab, filter, versions, byMinecraft) <==>
      a in versions && GroupKey(a) == tab && Keeps(filter, a)
  {
    KeyOrderExact(versions);
    BucketMembers(versions, tab);
    var bucket := if tab in byMinecraft then byMinecraft[tab] else [];
    StabilityFilterMembers(filter, bucket);
  }

  /** `getBuildVersion`: drop the first dot-component when there are at least three. */
  function GetBuildVersion(version: string): string {
    var parts := Split(version, '.');
    if |parts| >= 3 then Join(parts[1..], '.') else version
  }

  /**
    With two or more dots the label is what follows the first dot; with fewer
    it is the version itself.
   */
  lemma BuildVersionShape(version: string)
    ensures CountChar(version, '.') >= 2 ==>
      var head := Split(version, '.')[0];
      version == head + "." + GetBuildVersion(version) && '.' !in head
    ensures CountChar(version, '.') < 2 ==> GetBuildVersion(version) == version
  {
    var parts := Split(version, '.');
    SplitCount(version, '.');
    JoinSplit(version, '.');
  }

  /** The "Showing X of Y versions" line. */
  predicate ShowsCountLine(total: int, shown: int) {
    total > 0 && total > shown
  }

  /** On a listing of the catalog, the line appears exactly when a positive limit cut something off. */
  lemma CountLineOnListing(index: Http.Fetched<seq<string>>, directory: Http.Fetched<seq<Anchor>>, limit: int)
    ensures var c := VersionListing(index, directory, limit);
      ShowsCountLine(c.total, |c.versions|) <==> 0 < limit < c.total
  {
    ListingShape(index, directory, limit);
  }
}
