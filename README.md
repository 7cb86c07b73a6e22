# Magma release catalog — a Dafny model

This project models the release-catalog logic of the Magma website. That logic
turns version strings from the Magma Maven repository
(`org.magmafoundation:magma`) into download metadata:

- the platform ("Minecraft") version a release targets;
- whether a release ships a launcher;
- the download URLs of its jar, installer, launcher and changelog;
- whether it is stable;
- the sorted, truncated catalog listing;
- the per-release refinement that probes which files exist, how big the
  download is and when it was published.

The project also models what is built around that logic:

- the legacy copy of the catalog in the `/api/versions` route, with its own
  platform-version classifier and its limit handling;
- the client helpers of the version list (grouping by platform version,
  stability filter, build label, the "Showing X of Y" line);
- the three small route handlers `/downloads/magma.jar`, `/api/versions/latest`
  and `/api/versions/latest/download`;
- the base-URL helper.

The network is an input. Each fetch is a `Fetched<T>` value: it threw, it
answered non-ok, or it answered ok with a body. A HEAD probe is an oracle
`url -> HeadResponse`, and the metadata GET is an oracle
`url -> Fetched<string>`. The XML and HTML bodies arrive already parsed:

- the primary source is the sequence of `<version>` texts;
- the fallback directory listing is the sequence of `(href, text)` anchors;
- the metadata is the `lastUpdated` text.

A response is a datatype: a JSON response with a status, a body and headers, or
a redirect with a status, a location and headers.

Modules, one per source file plus shared helpers:

| module | models |
|---|---|
| `Wrappers` | `Option` |
| `Strings` | the string operations the source uses (`startsWith`, `endsWith`, `includes`, `split`/`join`, `replace` of the first match, `parseInt`, the digit runs a regular expression reads) |
| `Collation` | the numeric-aware comparator of the sort, as a collation key under lexicographic order, and the descending sort |
| `Http` | fetch outcomes, HEAD replies, headers, the cache header and the redirect status |
| `Responses` | response bodies and responses |
| `Maven` | `src/lib/maven.ts` |
| `MavenExamples` | the cases of `src/lib/maven.test.ts` |
| `VersionsRoute` | `src/app/api/versions/route.ts` |
| `VersionList` | `src/components/version-list.tsx` |
| `MagmaJarRoute` | `src/app/downloads/magma.jar/route.ts` |
| `LatestRoute` | `src/app/api/versions/latest/route.ts` |
| `LatestDownloadRoute` | `src/app/api/versions/latest/download/route.ts` |
| `BaseUrl` | `src/lib/baseurl.ts` |

The steps the source takes one at a time are methods with loops:

- `Maven.CollectArtifacts`: the two `.each` loops that push into `artifacts`;
- `VersionsRoute.FetchMavenVersions`: the legacy copy of those loops;
- `VersionList.GroupByMinecraft`: the `forEach` that fills the `byMinecraft`
  dictionary;
- `Maven.FetchVersionDetails`: the field-by-field update of the record.

Each method is proved equal to a specification function, and the properties are
proved about those functions.

## Model

| member | source | states |
|---|---|---|
| Maven.LeadingNumericPair | src/lib/maven.ts:27 | the match of `^(\d+)\.(\d+)` is two non-empty digit runs joined by a dot that begin the string, and greedy (no digit follows the minor run) |
| Maven.NumericPairExactly | src/lib/maven.ts:27-28 | the pattern matches exactly when the string begins with digits, a dot and a digit |
| Maven.UnknownIffNoNumericPair | src/lib/maven.ts:25-38 | the classifier answers "Unknown" if and only if the version does not begin with `digits.digits` |
| Maven.ClassifyDecomposed | src/lib/maven.ts:30-37 | for `major.minor` followed by a non-digit, a major below 26 gives `1.{major}.x` with the major parsed as a number, and a major of 26 or more gives `{major}.{minor}` |
| Maven.YearBasedIsPrefix | src/lib/maven.ts:33-34 | for a canonical major of 26 or more, the classification is the `major.minor` prefix copied verbatim |
| Maven.LauncherGateBuild | src/lib/maven.ts:41 | a match of `^21\.1\.(\d+)-` captures a non-empty digit run |
| Maven.LauncherDeniedExactly | src/lib/maven.ts:40-44 | launcher support is denied if and only if the version is `21.1.` then digits below 41 then `-` |
| Maven.LauncherGateDecomposed | src/lib/maven.ts:40-44 | for `21.1.{build}-{rest}`, launcher support holds exactly when the build number is at least 41 |
| Maven.LauncherGateMatches | src/lib/maven.ts:41 | on `21.1.{build}-{rest}` the pattern captures exactly the build digits |
| Maven.GetDownloadUrl | src/lib/maven.ts:46-58 | every URL starts with `{MAVEN_BASE}/{version}/magma-{version}` and ends with the suffix of its type |
| Maven.DownloadUrlsDistinct | src/lib/maven.ts:46-58 | the four types give four different URLs for one version |
| Maven.DownloadUrlDeterminesVersion | src/lib/maven.ts:46-58 | a URL of a given type determines the version it was built from |
| Maven.ParseDownloadType | src/app/api/versions/latest/download/route.ts:7-12 | a type name is accepted exactly when it is one of jar, installer, launcher, changelog, and parsing is the inverse of naming |
| Maven.BuildArtifact | src/lib/maven.ts:107-124 | the record carries the version, group id and artifact id |
| Maven.BuildArtifactShape | src/lib/maven.ts:107-124 | stable if and only if none of "beta", "alpha", "snapshot" occurs; installer always present; launcher flag equals launcher support; the three URLs are the download URLs; the platform version is the classifier's |
| Maven.PrimaryVersions | src/lib/maven.ts:140-143 | the primary source yields no more versions than texts |
| Maven.FallbackVersions | src/lib/maven.ts:154-163 | the directory listing yields no more versions than anchors |
| Maven.CollectArtifacts | src/lib/maven.ts:136-165 | the loops collect the records of exactly the catalog's versions in order, and nothing when neither source answers |
| Maven.Limit | src/lib/maven.ts:175-176 | a positive limit keeps the first `min(limit, n)` entries; any other limit keeps all |
| Maven.FetchVersions | src/lib/maven.ts:126-183 | the method returns the specified listing |
| Maven.ListingShape | src/lib/maven.ts:167-178 | `total` is the count before truncation; the versions are the first `min(limit, total)` of a descending sort (or all for limit ≤ 0); the sorted records are a permutation of the built records; every listed record sorts before every dropped one |
| Maven.ListedAreBuilt | src/lib/maven.ts:138-178 | every listed record is the built record of a collected version |
| Maven.FirstListedIsNewest | src/lib/maven.ts:167-178 | the first listed version is a collected version whose collation key is greatest |
| Maven.SortedBuiltHead | src/lib/maven.ts:167-173 | the head of the sorted records comes from a collected version with the greatest key |
| Maven.ThrowGivesEmptyListing | src/lib/maven.ts:179-182 | a thrown fetch gives `{total: 0, versions: []}` |
| Maven.IndexWins | src/lib/maven.ts:138-147 | when the primary source has a non-empty version text, the directory listing is not consulted |
| Maven.FallbackWhenIndexEmpty | src/lib/maven.ts:146-165 | when the primary source is non-ok or has only empty texts, the versions are the directory listing's |
| Maven.PrimaryVersionsOfBlanks | src/lib/maven.ts:140-143 | only empty texts yield no versions |
| Maven.PrimaryVersionsMembers | src/lib/maven.ts:140-143 | a version is collected if and only if it is a non-empty text of the source |
| Maven.NamedByEntrySnoc | src/lib/maven.ts:154-163 | one more anchor adds exactly its own version when it is accepted |
| Maven.FallbackVersionsMembers | src/lib/maven.ts:154-163 | a version is collected if and only if some anchor ends in "/", is not "../" or "./", has text without "maven-metadata" and names it |
| Maven.HrefVersionOfDirectory | src/lib/maven.ts:161 | removing the first "/" from `{version}/` gives the version back when it has no other slash |
| Maven.UnitFor | src/lib/maven.ts:82-84 | B below 1024 bytes, KB below 1048576, MB otherwise (including a length that does not parse) |
| Maven.FileSizeOf | src/lib/maven.ts:72-88 | no size if and only if the probe threw, was non-ok, or had a missing or empty length; otherwise the byte count is `parseInt` of the length |
| Maven.FileSizeOfRendered | src/lib/maven.ts:78-84 | a length written in decimal is read back as that number with its unit |
| Maven.ReleaseDateOf | src/lib/maven.ts:90-105 | a date exactly when the metadata answered with a timestamp of length ≥ 8; the date is ten characters with dashes at 4 and 7 and the timestamp's first eight characters between them |
| Maven.FetchVersionDetails | src/lib/maven.ts:185-220 | the method returns the refined record (never null) |
| Maven.RefinedArtifactFields | src/lib/maven.ts:189-213 | installer and changelog flags are the probes; each URL is present if and only if its probe (launcher: launcher support) holds, and is then the download URL; the size is probed from the installer when it exists and the jar otherwise; the date is read from the metadata; every other field is the built record's |
| Maven.RefinedWhenNothingExists | src/lib/maven.test.ts:254-266 | when every probe is non-ok, installer and changelog are absent with their URLs cleared and no size |
| MavenExamples.LegacyClassificationExample | src/lib/maven.test.ts:14-20 | "21.1.67-beta" is on "1.21.x" |
| MavenExamples.OlderClassificationExample | src/lib/maven.test.ts:14-20 | "20.4.5-beta" is on "1.20.x" |
| MavenExamples.YearBasedClassificationExample | src/lib/maven.test.ts:22-27 | "30.2.10-alpha" is on "30.2" |
| MavenExamples.UnknownClassificationExample | src/lib/maven.test.ts:29-32 | "abc-def" is "Unknown" |
| MavenExamples.LauncherDeniedExample | src/lib/maven.test.ts:42-46 | "21.1.40-beta" has no launcher |
| MavenExamples.LauncherAllowedExample | src/lib/maven.test.ts:36-40 | "21.1.100-beta" has a launcher |
| MavenExamples.ThrowingProbesExample | src/lib/maven.test.ts:268-282 | when every probe throws, the record has no installer, changelog, size or date |
| MavenExamples.ReleaseDateExample | src/lib/maven.test.ts:212-251 | the timestamp "20250101120000" becomes "2025-01-01" |
| MavenExamples.InstallerSizeExample | src/lib/maven.test.ts:212-251 | an installer of 5242880 bytes is measured in MB |
| Collation.LexLeqTotal | src/lib/maven.ts:168-172 | the comparison of collation keys is total |
| Collation.LexLeqTransitive | src/lib/maven.ts:168-172 | the comparison of collation keys is transitive |
| Collation.LexLeqAntisymmetric | src/lib/maven.ts:168-172 | keys that compare both ways are equal |
| Collation.CollationKeyIgnoresCase | src/lib/maven.ts:169-171 | strings that differ only in the case of their letters get the same sort key (`sensitivity: "base"`) |
| Collation.SortDescendingCorrect | src/lib/maven.ts:167-173 | the sort returns a descending permutation of its input |
| Collation.SortedHeadIsGreatest | src/lib/maven.ts:167-173 | the head of a descending permutation has the greatest key |
| Collation.SortMap | src/app/api/versions/route.ts:196-202 | sorting commutes with a relabelling that keeps the sort keys |
| Strings.ParseIntOfDigits | src/lib/maven.ts:81 | `parseInt` reads a whole digit string as its decimal value |
| Strings.ParseIntOfDecimal | src/lib/maven.ts:81 | `parseInt` reads a decimal numeral back as its number |
| Strings.JoinSplit | src/components/version-list.tsx:112-113 | joining the pieces of a split with the separator gives the string back, and no piece contains the separator |
| Strings.RemoveFirstAt | src/lib/maven.ts:161 | `replace("/", "")` removes exactly the first slash |
| VersionsRoute.LeadingVersionPrefix | src/app/api/versions/route.ts:49 | the pattern `^(\d+\.\d+(?:\.\d+)?)` matches if and only if the library's `^(\d+)\.(\d+)` does, and its match is a non-empty prefix ending in a digit |
| VersionsRoute.LeadingVersionPrefixExactly | src/app/api/versions/route.ts:49-50 | the legacy pattern matches if and only if the string begins with `digits.digits` |
| VersionsRoute.LegacyUnknownExactly | src/app/api/versions/route.ts:36-51 | the legacy classifier answers "Unknown" if and only if the version neither starts with "21." nor begins with `digits.digits` |
| VersionsRoute.VersionPrefixOfPair | src/app/api/versions/route.ts:49-50 | `a.b` followed by neither a digit nor `.digit` is matched as `a.b` |
| VersionsRoute.VersionPrefixOfTriple | src/app/api/versions/route.ts:49-50 | `a.b.c` followed by a non-digit is matched as `a.b.c` |
| VersionsRoute.DottedVersionParts | src/app/api/versions/route.ts:43 | a segment matching `^\d+\.\d+(\.\d+)?$` is its two or three digit runs joined by dots |
| VersionsRoute.DashBranchRedundant | src/app/api/versions/route.ts:36-51 | the legacy classifier is "1.21.x" on "21." and otherwise the leading version prefix or "Unknown"; the dash branch never changes the answer |
| VersionsRoute.ClassifiersAgreeOn21 | src/app/api/versions/route.ts:38-39 | on `21.` followed by a digit both classifiers give "1.21.x" |
| VersionsRoute.ClassifiersDisagreeBelowYearBased | src/app/api/versions/route.ts:36-51 | on every `digits.digits` version with a major below 26 that does not start with "21.", the legacy and library classifiers differ |
| VersionsRoute.LegacyClassificationExample | src/app/api/versions/route.ts:40-45 | "20.4.5-beta" is classified "20.4.5" by the legacy route |
| VersionsRoute.ClassifiersDisagreeExample | src/app/api/versions/route.ts:36-51 | "20.4.5-beta" gives "20.4.5" in the legacy route and "1.20.x" in the library |
| VersionsRoute.LowerThanIsNoLauncher | src/app/api/versions/route.ts:53-60 | the legacy "lower than 21.1.41" test is exactly the negation of launcher support |
| VersionsRoute.LegacyArtifactIsLibraryArtifact | src/app/api/versions/route.ts:86-107 | the legacy record is the library record with the legacy platform version |
| VersionsRoute.FetchMavenVersions | src/app/api/versions/route.ts:62-209 | the method returns the specified legacy catalog |
| VersionsRoute.VersionsGet | src/app/api/versions/route.ts:211-268 | the handler returns the specified response |
| VersionsRoute.LimitValidation | src/app/api/versions/route.ts:216-240 | status 400 with "Invalid query parameters" if and only if the limit is not a non-negative integer; otherwise 200 echoing the limit |
| VersionsRoute.LegacySortIsRelabelledSort | src/app/api/versions/route.ts:196-202 | the legacy sorted catalog is the library's sorted catalog with each record's platform version relabelled |
| VersionsRoute.LegacyListingIsLibraryListing | src/app/api/versions/route.ts:189-240 | the legacy catalog has the library's total, and limiting it gives the library's listing relabelled |
| VersionsRoute.VersionsResponseListing | src/app/api/versions/route.ts:230-248 | a valid limit gives the full count as total and the first `limit` sorted records (all for 0); no catalog gives an empty list |
| VersionList.GetMinecraftVersion | src/components/version-list.tsx:27-39 | the client classifier equals the library classifier on every input |
| VersionList.GroupByMinecraft | src/components/version-list.tsx:69-78 | the dictionary's keys are the group keys in first-seen order, and each bucket holds that key's artifacts in input order |
| VersionList.BucketSnoc | src/components/version-list.tsx:74-77 | pushing one artifact extends only its own bucket |
| VersionList.BucketOutsideKeys | src/components/version-list.tsx:74-76 | a key never seen has no bucket contents |
| VersionList.BucketMembers | src/components/version-list.tsx:69-78 | an artifact is in a bucket if and only if it was fetched and has that key |
| VersionList.KeyOrderExact | src/components/version-list.tsx:69-78 | the keys are distinct and are exactly the keys of the fetched artifacts |
| VersionList.GatherSnoc | src/components/version-list.tsx:69-78 | one more artifact adds exactly itself to the buckets of distinct keys that include its key |
| VersionList.GatherEmpty | src/components/version-list.tsx:69 | no artifacts give empty buckets |
| VersionList.GatherCovers | src/components/version-list.tsx:69-78 | the buckets of distinct keys covering every artifact are together a permutation of the artifacts |
| VersionList.GroupingIsPermutation | src/components/version-list.tsx:69-78 | the buckets together are a permutation of the fetched artifacts: each is in exactly one bucket |
| VersionList.TabAfterLoad | src/components/version-list.tsx:82-84 | after a load the active tab is the first key when there is one and is unchanged otherwise |
| VersionList.FilterBy | src/components/version-list.tsx:104-108 | the filter never lengthens the list |
| VersionList.StabilityFilterMembers | src/components/version-list.tsx:100-109 | "all" is the identity; otherwise an artifact is kept if and only if it is listed and its stability flag is `true` (stable) or `false` (beta) |
| VersionList.StabilityFilterPartition | src/components/version-list.tsx:100-109 | when every flag is set, the stable and beta lists together are as long as the input |
| VersionList.VisibleOnGroupedState | src/components/version-list.tsx:157-160 | on a platform tab an artifact is visible if and only if it is on the page, has that key and passes the filter |
| VersionList.BuildVersionShape | src/components/version-list.tsx:111-115 | with two or more dots the label is what follows the first dot-component; otherwise the version itself |
| VersionList.CountLineOnListing | src/components/version-list.tsx:225-226 | on a catalog listing the "Showing X of Y" line appears if and only if a positive limit cut the list |
| MagmaJarRoute.MagmaJarDecision | src/app/downloads/magma.jar/route.ts:4-38 | empty listing gives 404 "No versions available"; otherwise a cached 307 to the launcher URL if it exists, else to the jar URL if it exists, else 404 "No download available for the latest version" |
| MagmaJarRoute.OnlyFirstEntryMatters | src/app/downloads/magma.jar/route.ts:6-14 | two listings with the same first version give the same response |
| MagmaJarRoute.MagmaJarServesNewest | src/app/downloads/magma.jar/route.ts:6-33 | a redirect goes to the launcher or jar URL of a catalog version with the greatest collation key |
| LatestRoute.LatestChoice | src/app/api/versions/latest/route.ts:6-19 | empty listing gives 404; otherwise 200 with the cache header and the detail record, or the listed record when there is none |
| LatestRoute.LatestIsRefined | src/app/api/versions/latest/route.ts:6-19 | with the library's refinement the body is the refined record of the newest catalog version |
| BaseUrl.EffectiveHost | src/lib/baseurl.ts:3 | a missing or empty host falls back to "localhost:3000" |
| BaseUrl.GetBaseUrl | src/lib/baseurl.ts:5-6 | the URL starts with `http://` if and only if NODE_ENV is "development", and with `https://` otherwise |
| BaseUrl.BaseUrlRoundTrip | src/lib/baseurl.ts:1-7 | the URL is `protocol + "://" + host` and its host part is the effective host |
| LatestDownloadRoute.RequestedType | src/app/api/versions/latest/download/route.ts:32 | a missing or empty type becomes "launcher"; any other is kept |
| LatestDownloadRoute.LatestDownloadDecision | src/app/api/versions/latest/download/route.ts:26-101 | 400 if and only if the type is not a download type; a redirect if and only if the type is valid and the upstream answered with a non-empty list, to `{baseUrl}/api/versions/{first}/download?type={type}`; non-ok upstream gives 500; schema mismatch gives 500; an empty list gives 404 |
| LatestDownloadRoute.DefaultsToLauncher | src/app/api/versions/latest/download/route.ts:32-95 | without a type the redirect asks for the launcher |
| LatestDownloadRoute.LatestDownloadOfCatalog | src/app/api/versions/latest/download/route.ts:47-95 | over the versions endpoint with limit 1, a redirect names the newest catalog version |

## Left out

- Networking, `next.revalidate` caching, the User-Agent header and `console` logging: fetches are inputs (`Fetched`, HEAD and GET oracles).
- XML and HTML parsing and `.trim()`: the `<version>` texts, the `(href, text)` anchors and the `lastUpdated` text are inputs as extracted.
- `localeCompare` with numeric collation: replaced by a collation key. Each digit run becomes its numeric value, every other character its case-folded code, and keys compare lexicographically. This is a simplification of ICU collation. Only "sorted descending under this order" and "a permutation of the input" are proved.
- `Array.prototype.sort` is stable (ECMAScript 2019). The model sorts by insertion, which also puts each element before the later ones with an equal key, but only "descending" and "a permutation of the input" are proved, not stability.
- `Maven.ReleaseDateOf` counts characters as code points, while JavaScript's `length` and `substring` count UTF-16 code units; the two differ only on timestamps with characters outside the Basic Multilingual Plane.
- `Maven.RefinedArtifact` asks one HEAD oracle both whether the installer exists and how big it is, so the model cannot express the two requests of `fetchVersionDetails` answering differently.
- `toFixed(2)` rendering of the size: `FileSize` keeps the parsed byte count and the unit, not the rendered text.
- JavaScript numbers are unbounded integers here: `parseInt` of a very long digit string loses precision in JavaScript and not in the model.
- `Promise.all` in `fetchVersionDetails`: the two probes are independent oracle reads.
- The thrown-error 500 branches of `/downloads/magma.jar` and `/api/versions/latest`, and the `null` result of `fetchVersionDetails`: nothing in the modelled code throws, since every helper catches, so these branches are unreachable in the model.
- The legacy route's thrown-error 500 and its response-schema 500: the constructed response always satisfies the schema, so these are not modelled.
- zod validation of artifacts (`url()` checks) in the legacy route: treated as always passing, so every built record is kept.
- `z.coerce.number()` on the raw query text: the legacy handler takes the coerced number as input (`CoercedNumber`), so the path where a missing `limit` arrives as `null` and is coerced is not modelled, nor is the `default(10)`.
- The zod error `details` of the 400 responses: the body carries only the error message.
- A redirect response from the versions endpoint is read as non-ok by `ReadUpstream`; in JavaScript `fetch` follows redirects.
- The legacy `lastUpdated` field and other optional fields not produced by the modelled code.
- Object key order: JavaScript lists integer-like keys of `byMinecraft` first; the model keeps insertion order, which matches for the platform-version keys the classifier produces (they all contain a dot or are "Unknown").
- React state, effects and rendering of the version list, including the sort of the tab list and the loading and error states.
- `/api/versions/[version]` and `/api/versions/[version]/download`, `latest-version-download.tsx` and the site layout, docs and search: not part of this model.
