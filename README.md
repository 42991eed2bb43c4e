# API versioning and per-version documentation groups, in Dafny

This project models the two components that resolve API versions in a Spring demo service.
Its controllers are mapped under `/api/v1/person`, `/api/v2/person`, `/api/v3/person` and `/api/v1/session`.

* **VersionedAntPathMatcher** wraps Spring's generic Ant-style path matcher.
  * A route declared for an older version also serves newer requests and `latest`, but never older ones.
  * When several routes match, the ones of the request's own version come first, then the other versions from the highest down.
  * The regular expression `/api/(?<version>v\d{1,2}|latest)/.*` is written out as a recogniser. It has two uses: `find` (leftmost occurrence anywhere) and `matches` (whole string), with `.` refusing Java's line terminators.
  * The generic matcher and the generic comparator are function parameters.
* **OpenApiGroupProcessor** builds the documentation groups at start-up.
  * It indexes the controllers' mapping paths by their first non-blank segment (the *scope*) and collects the second segments as versions, adding `latest` to each scope.
  * It registers one group per (scope, version) pair.
  * For each group it rebuilds the documented paths, so that every route shows the handler of the highest version not above the group's *tier*, under a key whose version segment is replaced by the tier.
  * `Paths` is an insertion-ordered table of (key, item) pairs, with `addPathItem` overwriting in place as `LinkedHashMap.put` does.
  * A group view is stated as a predicate (`Represents`): each key holds the item of the entry that prevails for it, meaning the highest kept version, and within one version the later entry. Any two views of the same entries are proved to bind every key alike. The order of the keys is not stated.
* **JavaText** writes out the `java.lang` behaviour the two rely on:
  * `split`, `isBlank`, `Character.isWhitespace`;
  * `Integer.parseInt` and `Integer.toString`;
  * `String.replace`, a literal `replaceFirst`, and 32-bit `int` wrap-around.

Files: `wrappers.dfy` (Option, Result), `java_text.dfy`, `versioned_ant_path_matcher.dfy`, `open_api_group_processor.dfy`.

The scope is the first non-blank segment of a mapping path. For the controllers above it is therefore `api`, not the resource name `person`: all versions of all resources fall into one scope with tiers `v1`, `v2`, `v3` and `latest`. The person example follows this reading of the code.

A path whose version does not parse makes `customizePaths` throw; it is not skipped. The model returns an error and leaves the documented paths unchanged.

## Model

| member | source | states |
|---|---|---|
| JavaText.WrapInt32 | src/main/java/eu/maksimov/demo/spring/versioning/config/VersionedAntPathMatcher.java:99 | Java `int` subtraction: the result is a 32-bit value, equal to the exact difference whenever that fits, and differs from it by a multiple of 2^32 |
| JavaText.SplitOn | src/main/java/eu/maksimov/demo/spring/versioning/config/OpenApiGroupProcessor.java:92 | splitting yields at least one piece and no piece contains the separator |
| JavaText.JoinSplitOn | src/main/java/eu/maksimov/demo/spring/versioning/config/OpenApiGroupProcessor.java:92 | splitting at `/` loses nothing: joining the pieces back with `/` gives the input |
| JavaText.SplitOnFirst | src/main/java/eu/maksimov/demo/spring/versioning/config/OpenApiGroupProcessor.java:92 | splitting at the first separator gives the text before it, then the split of the rest |
| JavaText.NonBlankMembers | src/main/java/eu/maksimov/demo/spring/versioning/config/OpenApiGroupProcessor.java:92 | the `!isBlank()` filter keeps every non-blank piece and nothing else |
| JavaText.NonBlankAppend | src/main/java/eu/maksimov/demo/spring/versioning/config/OpenApiGroupProcessor.java:92 | the filter distributes over concatenation, so the kept pieces stay in their input order |
| JavaText.Segments | src/main/java/eu/maksimov/demo/spring/versioning/config/OpenApiGroupProcessor.java:132 | every segment is non-empty, non-blank and free of `/` |
| JavaText.SegmentsMembers | src/main/java/eu/maksimov/demo/spring/versioning/config/OpenApiGroupProcessor.java:132 | the segments are exactly the non-blank pieces between slashes |
| JavaText.SegmentsOfPrefixed | src/main/java/eu/maksimov/demo/spring/versioning/config/OpenApiGroupProcessor.java:132 | `/a/b/rest` with non-blank segments `a`, `b` has segments `a`, `b`, then those of `rest` |
| JavaText.ParseInt | src/main/java/eu/maksimov/demo/spring/versioning/config/VersionedAntPathMatcher.java:39 | `Integer.parseInt` succeeds exactly on an optional `+` or `-` followed by at least one ASCII digit, with a value that fits in an `int`. The result is the digits' value, negated after a `-`. Everything else fails: the empty string, a lone sign, any other character, a value out of range |
| JavaText.DigitsValueOfNatToString | src/main/java/eu/maksimov/demo/spring/versioning/config/OpenApiGroupProcessor.java:124 | the decimal digits `Integer.toString` prints for a natural number read back as that number |
| JavaText.ParseIntToString | src/main/java/eu/maksimov/demo/spring/versioning/config/OpenApiGroupProcessor.java:124 | `IntToString`: `parseInt(Integer.toString(x)) == x` for every `int` `x`, so the rebuilt `/vK/` target names the version that was parsed |
| JavaText.NatToStringCanonical | src/main/java/eu/maksimov/demo/spring/versioning/config/OpenApiGroupProcessor.java:124 | `Integer.toString` writes no leading zero except for 0 itself |
| JavaText.WhitespaceExamples | src/main/java/eu/maksimov/demo/spring/versioning/config/OpenApiGroupProcessor.java:92 | on sample inputs: `isBlank` holds for the empty string and for a string of spaces and controls, and fails once a letter is present. `Character.isWhitespace` leaves out the non-breaking spaces U+00A0, U+2007, U+202F and the control U+0085. The definitions themselves are `IsBlank` and `IsWhitespace` |
| JavaText.IndexOf | src/main/java/eu/maksimov/demo/spring/versioning/config/VersionedAntPathMatcher.java:44 | a reported index is an occurrence with none before it; no index is reported only when there is no occurrence |
| JavaText.ReplaceFirstLeftmost | src/main/java/eu/maksimov/demo/spring/versioning/config/VersionedAntPathMatcher.java:44 | a literal `replaceFirst` replaces the leftmost occurrence and keeps the text on either side |
| JavaText.ReplaceFirstAbsent | src/main/java/eu/maksimov/demo/spring/versioning/config/VersionedAntPathMatcher.java:44 | a literal `replaceFirst` without an occurrence returns its input |
| JavaText.ReplaceAllAbsent | src/main/java/eu/maksimov/demo/spring/versioning/config/OpenApiGroupProcessor.java:124 | `replace` on a string without occurrences returns it unchanged |
| JavaText.ReplaceAllSkipPrefix | src/main/java/eu/maksimov/demo/spring/versioning/config/OpenApiGroupProcessor.java:124 | a prefix in which no occurrence starts is copied as it is |
| JavaText.Replace | src/main/java/eu/maksimov/demo/spring/versioning/config/OpenApiGroupProcessor.java:124 | the loop `String.replace` runs computes `ReplaceAll`. That loop calls `indexOf` from where the last occurrence ended, copies the text before the next one, appends the replacement and resumes after it |
| VersionedAntPathMatcher.TokenAt | src/main/java/eu/maksimov/demo/spring/versioning/config/VersionedAntPathMatcher.java:13 | a recognised version token is `v` with one or two ASCII digits, or `latest`, followed by `/` |
| VersionedAntPathMatcher.TokenAtComplete | src/main/java/eu/maksimov/demo/spring/versioning/config/VersionedAntPathMatcher.java:13 | conversely every such token followed by `/` is recognised, as exactly that token |
| VersionedAntPathMatcher.PrefixAtIff | src/main/java/eu/maksimov/demo/spring/versioning/config/VersionedAntPathMatcher.java:13 | a token is reported at an index exactly when `/api/`, that token and `/` occur there |
| VersionedAntPathMatcher.LineEnd | src/main/java/eu/maksimov/demo/spring/versioning/config/VersionedAntPathMatcher.java:13 | the trailing `.*` stops at the first line terminator or at the end, and consumes no terminator |
| VersionedAntPathMatcher.FindFrom | src/main/java/eu/maksimov/demo/spring/versioning/config/VersionedAntPathMatcher.java:21-23 | a match found starts at or after the given index, has the regex prefix there, and ends where `.*` stops |
| VersionedAntPathMatcher.FindFromLeftmost | src/main/java/eu/maksimov/demo/spring/versioning/config/VersionedAntPathMatcher.java:21-23 | the match found is the leftmost, and nothing is found only when no index carries the prefix |
| VersionedAntPathMatcher.Find | src/main/java/eu/maksimov/demo/spring/versioning/config/VersionedAntPathMatcher.java:21-23 | a match lies inside the string and covers at least `/api/<version>/` |
| VersionedAntPathMatcher.FullMatchSound | src/main/java/eu/maksimov/demo/spring/versioning/config/VersionedAntPathMatcher.java:82-85 | `FullMatch` (`matches()`): a whole-string match means the string is `/api/`, a token, `/` and a rest without line terminators |
| VersionedAntPathMatcher.FullMatchComplete | src/main/java/eu/maksimov/demo/spring/versioning/config/VersionedAntPathMatcher.java:82-85 | every string of that shape matches whole, with that token as the version group |
| VersionedAntPathMatcher.FullMatchIsFound | src/main/java/eu/maksimov/demo/spring/versioning/config/VersionedAntPathMatcher.java:82-85 | a whole-string match is also what `find` reports: starting at 0 and covering the string |
| VersionedAntPathMatcher.FindIsNotFullMatch | src/main/java/eu/maksimov/demo/spring/versioning/config/VersionedAntPathMatcher.java:21-23 | `/x/api/v1/y` is found but does not match whole: `doMatch` and the comparator test different things |
| VersionedAntPathMatcher.ApiVersion | src/main/java/eu/maksimov/demo/spring/versioning/config/VersionedAntPathMatcher.java:30-40 | `latest` yields `Integer.MAX_VALUE` and no other token does; `vN` yields N; every result lies in 0..99 or is `MAX_VALUE` |
| VersionedAntPathMatcher.LeadingZeroSameVersion | src/main/java/eu/maksimov/demo/spring/versioning/config/VersionedAntPathMatcher.java:39 | `v01` and `v1` are the same version 1 |
| VersionedAntPathMatcher.WildcardShape | src/main/java/eu/maksimov/demo/spring/versioning/config/VersionedAntPathMatcher.java:42-45 | `WildcardVersionApi`: the wildcarded pattern is `/api/*/` followed by the remainder after the version, i.e. `replaceFirst` hits the version group itself and text before the match is dropped |
| VersionedAntPathMatcher.WildcardShapeAt | src/main/java/eu/maksimov/demo/spring/versioning/config/VersionedAntPathMatcher.java:42-45 | the same shape for a match at any position of the pattern |
| VersionedAntPathMatcher.DoMatch | src/main/java/eu/maksimov/demo/spring/versioning/config/VersionedAntPathMatcher.java:16-28 | a null path, or a side without a versioned occurrence, goes to the generic matcher unchanged; otherwise a request version below the pattern's fails without consulting it, and any other request is decided by the generic matcher on `/api/*/` + remainder |
| VersionedAntPathMatcher.DoMatchRespectsVersion | src/main/java/eu/maksimov/demo/spring/versioning/config/VersionedAntPathMatcher.java:26 | a match between versioned strings implies the request's version is at least the pattern's |
| VersionedAntPathMatcher.LowerRequestNeverMatches | src/main/java/eu/maksimov/demo/spring/versioning/config/VersionedAntPathMatcher.java:26 | a lower-version request never matches and no template variable is extracted |
| VersionedAntPathMatcher.LatestRequestPasses | src/main/java/eu/maksimov/demo/spring/versioning/config/VersionedAntPathMatcher.java:26-27 | a `latest` request passes the version gate of every pattern, leaving the decision to the generic matcher on the wildcarded pattern |
| VersionedAntPathMatcher.LatestPatternOnlyLatest | src/main/java/eu/maksimov/demo/spring/versioning/config/VersionedAntPathMatcher.java:26 | a `latest` pattern admits only `latest` requests |
| VersionedAntPathMatcher.FoundWhole | src/main/java/eu/maksimov/demo/spring/versioning/config/VersionedAntPathMatcher.java:21-23 | `/api/<token>/<rest>` is found whole and its remainder is `rest` |
| VersionedAntPathMatcher.DoMatchAcrossVersions | src/main/java/eu/maksimov/demo/spring/versioning/config/VersionedAntPathMatcher.java:26-27 | a `v2` request against a `v1` route is decided by the generic matcher on `/api/*/<rest>`; against a `v3` route it fails |
| VersionedAntPathMatcher.VersionDifferenceFits | src/main/java/eu/maksimov/demo/spring/versioning/config/VersionedAntPathMatcher.java:99 | `pattern2Version - pattern1Version` never wraps around in 32 bits |
| VersionedAntPathMatcher.StageFollowsRank | src/main/java/eu/maksimov/demo/spring/versioning/config/VersionedAntPathMatcher.java:85-99 | `VersionStage`, the comparator lambda's value, orders patterns by rank: the path's own version first, then the other versions from the highest down |
| VersionedAntPathMatcher.CompareByRankThenGeneric | src/main/java/eu/maksimov/demo/spring/versioning/config/VersionedAntPathMatcher.java:76-103 | `ComparePatterns`, the version stage `thenComparing` the generic comparator. When all three strings are versioned, patterns of different rank are ordered by rank and patterns of equal rank generically; otherwise the generic order decides alone |
| VersionedAntPathMatcher.SameVersionFirst | src/main/java/eu/maksimov/demo/spring/versioning/config/VersionedAntPathMatcher.java:90-97 | a pattern with the path's version sorts before one with another version, in both argument orders |
| VersionedAntPathMatcher.SameVersionTie | src/main/java/eu/maksimov/demo/spring/versioning/config/VersionedAntPathMatcher.java:92-93 | two patterns with the path's version tie in the version stage and are left to the generic comparator |
| VersionedAntPathMatcher.OtherVersionsDescending | src/main/java/eu/maksimov/demo/spring/versioning/config/VersionedAntPathMatcher.java:99-102 | otherwise the higher version sorts first, and equal versions are left to the generic comparator |
| VersionedAntPathMatcher.UnversionedFallsThrough | src/main/java/eu/maksimov/demo/spring/versioning/config/VersionedAntPathMatcher.java:78-102 | a null pattern, or any of the three strings not matching whole, gives a version stage of 0 and the generic order |
| VersionedAntPathMatcher.StageAntisymmetric | src/main/java/eu/maksimov/demo/spring/versioning/config/VersionedAntPathMatcher.java:90-99 | swapping the patterns negates the sign of the version stage |
| VersionedAntPathMatcher.StageTransitive | src/main/java/eu/maksimov/demo/spring/versioning/config/VersionedAntPathMatcher.java:90-99 | the version stage is transitive |
| VersionedAntPathMatcher.DocumentedVersions | src/main/java/eu/maksimov/demo/spring/versioning/config/VersionedAntPathMatcher.java:59-71 | the documented example's patterns match whole with versions `v1`, `v2`, `v3` |
| VersionedAntPathMatcher.DocumentedOrder | src/main/java/eu/maksimov/demo/spring/versioning/config/VersionedAntPathMatcher.java:59-71 | for a `v2` path, `v2` patterns sort before `v3` ones, `v3` before `v1`, and within one version the generic order decides |
| OpenApiGroupProcessor.Heads | src/main/java/eu/maksimov/demo/spring/versioning/config/OpenApiGroupProcessor.java:92-93 | the first two segments exist exactly when the path has at least two non-blank segments |
| OpenApiGroupProcessor.GroupByScope | src/main/java/eu/maksimov/demo/spring/versioning/config/OpenApiGroupProcessor.java:91-93 | fails exactly when some mapping path has fewer than two segments; otherwise its keys are the declared scopes and each set holds exactly the second segments declared with that scope |
| OpenApiGroupProcessor.DeclaredMeans | src/main/java/eu/maksimov/demo/spring/versioning/config/OpenApiGroupProcessor.java:92-93 | a (scope, version) pair is declared exactly when some mapping path starts with those two segments |
| OpenApiGroupProcessor.AddLatest | src/main/java/eu/maksimov/demo/spring/versioning/config/OpenApiGroupProcessor.java:95 | the keys stay the same and every set gains `latest` |
| OpenApiGroupProcessor.WithLatestIsVersionIndex | src/main/java/eu/maksimov/demo/spring/versioning/config/OpenApiGroupProcessor.java:93-95 | the grouping with `latest` added holds, per declared scope, exactly the declared versions and `latest` |
| OpenApiGroupProcessor.WithLatestAt | src/main/java/eu/maksimov/demo/spring/versioning/config/OpenApiGroupProcessor.java:95 | one scope's set after the addition holds exactly `latest` and the declared versions |
| OpenApiGroupProcessor.GetVersionsPerScope | src/main/java/eu/maksimov/demo/spring/versioning/config/OpenApiGroupProcessor.java:90-98 | fails exactly when a mapping path has fewer than two segments; otherwise keys are the declared scopes and each set is the declared versions plus `latest` |
| OpenApiGroupProcessor.GroupFor | src/main/java/eu/maksimov/demo/spring/versioning/config/OpenApiGroupProcessor.java:100-112 | the group is named `scope-version`, matches `/scope/**`, is registered as `scope-version-groupedOpenApi` and customises for tier `version` |
| OpenApiGroupProcessor.RegisterScope | src/main/java/eu/maksimov/demo/spring/versioning/config/OpenApiGroupProcessor.java:60-62 | one group per version of the scope, each built by `GroupFor`, none twice |
| OpenApiGroupProcessor.RegisterGroups | src/main/java/eu/maksimov/demo/spring/versioning/config/OpenApiGroupProcessor.java:58-62 | exactly one registration per (scope, version) pair of the index, each built by `GroupFor` |
| OpenApiGroupProcessor.PostProcessRegistry | src/main/java/eu/maksimov/demo/spring/versioning/config/OpenApiGroupProcessor.java:50-64 | a mapping path with fewer than two segments aborts before any group is registered; otherwise exactly one group is registered per declared (scope, version) pair and per declared scope with `latest`, each built by `GroupFor` |
| OpenApiGroupProcessor.ApiVersionOf | src/main/java/eu/maksimov/demo/spring/versioning/config/OpenApiGroupProcessor.java:131-137 | succeeds exactly when there is a second segment and that segment minus its first character parses, and the value is that parse. A missing second segment is `NoVersionSegment`, an unparsable one `VersionNotInteger`, and either error names the key |
| OpenApiGroupProcessor.ApiVersionOfVersioned | src/main/java/eu/maksimov/demo/spring/versioning/config/OpenApiGroupProcessor.java:131-137 | `/scope/v<k>/<rest>` parses to `k` for every `int` `k` |
| OpenApiGroupProcessor.LatestPathHasNoVersion | src/main/java/eu/maksimov/demo/spring/versioning/config/OpenApiGroupProcessor.java:131-137 | a documented `/api/latest/...` path has no integer version and fails |
| OpenApiGroupProcessor.AddPathItem | src/main/java/eu/maksimov/demo/spring/versioning/config/OpenApiGroupProcessor.java:124 | the key is bound to the item and every other key keeps its binding; an existing key keeps its position, a new one is appended, and keys stay distinct |
| OpenApiGroupProcessor.RewriteApiVersioned | src/main/java/eu/maksimov/demo/spring/versioning/config/OpenApiGroupProcessor.java:124 | `Rewrite` on any key `/api/v<k>/<rest>` gives `/api/<tier>/` followed by `rest` with every further `/v<k>/` in it replaced too |
| OpenApiGroupProcessor.RewriteApiKeepsRest | src/main/java/eu/maksimov/demo/spring/versioning/config/OpenApiGroupProcessor.java:124 | when `rest` holds no further `/v<k>/`, the key becomes `/api/<tier>/<rest>`, as for `/api/v1/services` or `/api/v1/person/{id}` |
| OpenApiGroupProcessor.RewriteRepeatedSegment | src/main/java/eu/maksimov/demo/spring/versioning/config/OpenApiGroupProcessor.java:124 | `replace` rewrites every occurrence: `/api/v1/a/v1/b` is shown as `/api/v2/a/v2/b` in the `v2` group |
| OpenApiGroupProcessor.NonCanonicalSegmentKept | src/main/java/eu/maksimov/demo/spring/versioning/config/OpenApiGroupProcessor.java:124 | `/api/v01/<rest>` parses as version 1, but the rebuilt target `/v1/` does not occur, so its key is left as it is |
| OpenApiGroupProcessor.PathVersions | src/main/java/eu/maksimov/demo/spring/versioning/config/OpenApiGroupProcessor.java:116-117 | on success every entry has a version, equal to what `getApiVersion` gives for its key; a failure is a key parse error |
| OpenApiGroupProcessor.PathVersionsFirstError | src/main/java/eu/maksimov/demo/spring/versioning/config/OpenApiGroupProcessor.java:116-117 | the error reported is that of the first entry whose key does not parse |
| OpenApiGroupProcessor.PathVersionsOk | src/main/java/eu/maksimov/demo/spring/versioning/config/OpenApiGroupProcessor.java:116-117 | when every key parses, the versions are exactly those |
| OpenApiGroupProcessor.RelabelledAt | src/main/java/eu/maksimov/demo/spring/versioning/config/OpenApiGroupProcessor.java:124 | entry `i` of the rebuilt table carries entry `i`'s item under its rewritten key |
| OpenApiGroupProcessor.AddPreserves | src/main/java/eu/maksimov/demo/spring/versioning/config/OpenApiGroupProcessor.java:123-125 | putting an entry that prevails over all entries put so far keeps the table a group view |
| OpenApiGroupProcessor.Least | src/main/java/eu/maksimov/demo/spring/versioning/config/OpenApiGroupProcessor.java:117 | the index returned is pending and has the least pending version: the next key of the ascending `TreeMap` |
| OpenApiGroupProcessor.PutVersion | src/main/java/eu/maksimov/demo/spring/versioning/config/OpenApiGroupProcessor.java:123-125 | after putting every entry of version `v` in order, the table is the group view of the earlier entries and those |
| OpenApiGroupProcessor.PutKept | src/main/java/eu/maksimov/demo/spring/versioning/config/OpenApiGroupProcessor.java:120-126 | walking the versions upwards and putting the kept ones yields the group view of exactly the kept entries |
| OpenApiGroupProcessor.ProjectPaths | src/main/java/eu/maksimov/demo/spring/versioning/config/OpenApiGroupProcessor.java:115-127 | the first key parse error is reported; with at least one entry, a tier other than `latest` that does not parse is an error; otherwise the result is the group view of the kept entries under their rewritten keys |
| OpenApiGroupProcessor.TierKeeps | src/main/java/eu/maksimov/demo/spring/versioning/config/OpenApiGroupProcessor.java:121 | `Keeps` with `TierBound`: tier `vT` keeps exactly the versions up to `T` |
| OpenApiGroupProcessor.LatestKeepsAll | src/main/java/eu/maksimov/demo/spring/versioning/config/OpenApiGroupProcessor.java:121 | tier `latest` keeps every entry |
| OpenApiGroupProcessor.RepresentedBy | src/main/java/eu/maksimov/demo/spring/versioning/config/OpenApiGroupProcessor.java:122-125 | the entry that prevails over all others with its key is the one whose item the key holds |
| OpenApiGroupProcessor.RepresentsUnique | src/main/java/eu/maksimov/demo/spring/versioning/config/OpenApiGroupProcessor.java:119-126 | two group views of the same entries bind every key alike: the view is determined by the entries |
| OpenApiGroupProcessor.NothingAboveTier | src/main/java/eu/maksimov/demo/spring/versioning/config/OpenApiGroupProcessor.java:121 | for a numbered tier every item comes from an entry of a version up to the tier; for `latest` every rewritten key is present |
| OpenApiGroupProcessor.CustomizePaths | src/main/java/eu/maksimov/demo/spring/versioning/config/OpenApiGroupProcessor.java:115-129 | the paths are replaced exactly when every key parses and the tier is usable; on failure they are unchanged; on success they are the group view of the kept, rewritten entries |
| OpenApiGroupProcessor.ApiPathsRewritten | src/main/java/eu/maksimov/demo/spring/versioning/config/OpenApiGroupProcessor.java:124 | every entry `/api/v<k>/<rest>` of a table is shown under `/api/<tier>/` followed by `rest` with its further `/v<k>/` replaced |
| OpenApiGroupProcessor.ApiPathsKeepRests | src/main/java/eu/maksimov/demo/spring/versioning/config/OpenApiGroupProcessor.java:124 | when no remainder holds a further `/v<k>/` of its own version, every entry is shown as `/api/<tier>/<rest>` |
| OpenApiGroupProcessor.PersonPathVersions | src/main/java/eu/maksimov/demo/spring/versioning/controller/PersonV2Controller.java:9-24 | the seven person routes parse to their controllers' versions. These are version 2's three routes here, version 1's two in `PersonV1Controller.java` lines 9-19 and version 3's two in `PersonV3Controller.java` lines 9-19 |
| OpenApiGroupProcessor.PersonRewrites | src/main/java/eu/maksimov/demo/spring/versioning/config/OpenApiGroupProcessor.java:124 | each person route is shown in a group as `/api/<tier>/<remainder>` |
| OpenApiGroupProcessor.PersonLatestGroup | src/main/java/eu/maksimov/demo/spring/versioning/controller/PersonV2Controller.java:22-24 | the `latest` group shows version 3's `getAll` and `getById`, and still version 2's hard-coded `/1` route, which version 3 never redefines |
| OpenApiGroupProcessor.PersonV2Group | src/main/java/eu/maksimov/demo/spring/versioning/config/OpenApiGroupProcessor.java:121 | the `v2` group shows version 2's three routes, and no version 3 handler at all |
| OpenApiGroupProcessor.PersonV2HasNoV3 | src/main/java/eu/maksimov/demo/spring/versioning/config/OpenApiGroupProcessor.java:121 | no version 3 handler appears in the `v2` group |

## Left out

- Classpath scanning and annotation reflection (`getEndpointPaths`, `getRequestMappingPaths` and its missing-`@RequestMapping` exception): the mapping paths are an input set.
- The Spring lifecycle and bean registration are left out as framework plumbing: `getOrder`, `postProcessBeanFactory`, `BeanDefinitionBuilder`, the springdoc `GroupedOpenApi` builder, and the registry's own duplicate-name policy. A registration is modelled as the definition it would register.
- Logging and the `System.currentTimeMillis` timing: I/O and clock.
- The generic `AntPathMatcher.doMatch` and its specificity comparator belong to a library: they are function parameters.
- The configuration, web wiring, application entry point, build file and controllers: the controllers' mapping paths appear only as data in the person example.
- Concurrency: the matcher holds no state.
- The iteration order of hash sets and maps: registrations are proved for any order.
- VersionedAntPathMatcher.DoMatch: a null `pattern` is not modelled; the source dereferences it, and a null path is modelled as `None`.
- VersionedAntPathMatcher.ApiVersion: the `Integer.MIN_VALUE` branch for an absent version group has no counterpart, because the version group is mandatory in the regex.
- JavaText.ParseInt: accepts ASCII digits only; `Integer.parseInt` also accepts other Unicode decimal digits.
- OpenApiGroupProcessor.ApiVersionOf: strings are sequences of Unicode characters here, while Java indexes UTF-16 units. When a version segment starts with a character outside the Basic Multilingual Plane, Java's `substring(1)` leaves a lone surrogate and `parseInt` throws. The model drops the whole character, so `/api/\U{1F600}7/x` gives version 7 here.
- OpenApiGroupProcessor.TierBound: the same difference applies to the tier's `substring(1)`.
- OpenApiGroupProcessor.ProjectPaths: the order of the keys in the rebuilt `Paths` is not stated, only what each key is bound to.
- VersionedAntPathMatcher.VersionStage: a null `path` is not modelled; Java throws `NullPointerException` when matching it. Null patterns are modelled.
- JavaText.ReplaceAll: an empty target is not modelled; Java inserts the replacement between characters there. The only target used is the non-empty `/v<k>/`.
- JavaText.IsWhitespace: follows `Character.isWhitespace` for the characters listed; code points outside the Basic Multilingual Plane use Dafny's `char`.
- OpenApiGroupProcessor.GroupByScope: an out-of-bounds array index in the stream is modelled as the error `TooFewSegments`.
- OpenApiGroupProcessor.ProjectPaths: exceptions (`NoSuchElementException`, `NumberFormatException`) are modelled as `PathError` values. The `StringIndexOutOfBoundsException` of an empty tier is modelled as `TierNotInteger`.
- OpenApiGroupProcessor.ProjectPaths: the rewritten keys are computed before the loop rather than at each put. `replace` is pure, so every put uses the same key.
- OpenApiGroupProcessor.CustomizePaths: a null `api.getPaths()` is not modelled.
- OpenApiGroupProcessor.PersonPaths: the person routes are stated over any three distinct remainders without a `v`, and `PersonRemainders` shows that `person`, `person/{id}` and `person/1` qualify.
