/**
 * The per-tier path projector. At start-up it builds, from the controllers' mapping
 * paths, an index from scope (first path segment) to the declared versions plus
 * `latest`, registers one documentation group per (scope, version), and for each
 * group rewrites the documented paths so that every path resolves to the highest
 * version not above the group's tier.
 */
module OpenApiGroupProcessor {
  import opened Wrappers
  import opened JavaText

  // ---------------------------------------------------------------- the version index

  /** scope -> versions, as `getVersionsPerScope` returns it. */
  type VersionIndex = map<string, set<string>>

  /** A mapping path with fewer than two non-blank segments makes the stream index past its array. */
  datatype IndexError = TooFewSegments

  /** The first two non-blank segments of a mapping path: `limit(2).toArray()`, read at 0 and 1. */
  function Heads(path: string): (r: Option<(string, string)>)
    ensures r.Some? <==> |Segments(path)| >= 2
    ensures r.Some? ==> r.value == (Segments(path)[0], Segments(path)[1])
  {
    var segments := Segments(path);
    if |segments| >= 2 then Some((segments[0], segments[1])) else None
  }

  /** The (scope, version) pairs the mapping paths declare. */
  function Declared(paths: set<string>): set<(string, string)> {
    set p | p in paths && Heads(p).Some? :: Heads(p).value
  }

  /** `grouped` holds exactly the declared pairs, grouped by scope. */
  ghost predicate IsGrouping(paths: set<string>, grouped: VersionIndex) {
    && (forall scope :: scope in grouped <==> exists v :: (scope, v) in Declared(paths))
    && (forall scope, v :: scope in grouped ==> (v in grouped[scope] <==> (scope, v) in Declared(paths)))
  }

  /** The stream part of `getVersionsPerScope`: `groupingBy` the first segment,
      `mapping` to the second, collected into sets. */
  function GroupByScope(paths: set<string>): (r: Result<VersionIndex, IndexError>)
    ensures r.Err? <==> exists p :: p in paths && |Segments(p)| < 2
    ensures r.Ok? ==> IsGrouping(paths, r.value)
  {
    if exists p :: p in paths && Heads(p).None? then Err(TooFewSegments)
    else
      var declared := Declared(paths);
      var scopes := set d | d in declared :: d.0;
      Ok(map scope | scope in scopes :: set d | d in declared && d.0 == scope :: d.1)
  }

  /** The index `getVersionsPerScope` promises: keyed by the declared scopes, each set the
      declared second segments and `latest`. */
  ghost predicate IsVersionIndex(paths: set<string>, index: VersionIndex) {
    && (forall scope :: scope in index <==> exists v :: (scope, v) in Declared(paths))
    && (forall scope, v :: scope in index ==> (v in index[scope] <==> v == "latest" || (scope, v) in Declared(paths)))
  }

  /** A pair is declared exactly when some mapping path starts with it. */
  lemma DeclaredMeans(paths: set<string>, scope: string, version: string)
    ensures (scope, version) in Declared(paths) <==>
      exists p :: p in paths && |Segments(p)| >= 2 && Segments(p)[0] == scope && Segments(p)[1] == version
  {
    if (scope, version) in Declared(paths) {
      var p :| p in paths && Heads(p).Some? && Heads(p).value == (scope, version);
    }
  }

  /** `versionsPerScope.forEach((scope, versions) -> versions.add("latest"))`. */
  method AddLatest(grouped: VersionIndex) returns (index: VersionIndex)
    ensures index.Keys == grouped.Keys
    ensures forall scope :: scope in index ==> index[scope] == grouped[scope] + {"latest"}
  {
    index := grouped;
    var pending := index.Keys;
    while pending != {}
      invariant pending <= index.Keys
      invariant index.Keys == grouped.Keys
      invariant forall scope :: scope in index && scope in pending ==> index[scope] == grouped[scope]
      invariant forall scope :: scope in index && scope !in pending ==> index[scope] == grouped[scope] + {"latest"}
      decreases pending
    {
      var scope :| scope in pending;
      index := index[scope := index[scope] + {"latest"}];
      pending := pending - {scope};
    }
    assert index.Keys - pending == index.Keys;
  }

  lemma WithLatestIsVersionIndex(paths: set<string>, grouped: VersionIndex, index: VersionIndex)
    requires IsGrouping(paths, grouped)
    requires index.Keys == grouped.Keys
    requires forall scope :: scope in index ==> index[scope] == grouped[scope] + {"latest"}
    ensures IsVersionIndex(paths, index)
  {
    forall scope ensures scope in index <==> exists v :: (scope, v) in Declared(paths) {
      assert scope in index <==> scope in grouped;
    }
    forall scope, v | scope in index
      ensures v in index[scope] <==> v == "latest" || (scope, v) in Declared(paths)
    {
      WithLatestAt(paths, grouped, index[scope], scope, v);
    }
  }

  lemma WithLatestAt(paths: set<string>, grouped: VersionIndex, versions: set<string>, scope: string, v: string)
    requires IsGrouping(paths, grouped)
    requires scope in grouped && versions == grouped[scope] + {"latest"}
    ensures v in versions <==> v == "latest" || (scope, v) in Declared(paths)
  {
  }

  /** `getVersionsPerScope`: the grouped index, then `latest` added to every scope's set. */
  method GetVersionsPerScope(paths: set<string>) returns (r: Result<VersionIndex, IndexError>)
    ensures r.Err? <==> exists p :: p in paths && |Segments(p)| < 2
    ensures r.Ok? ==> IsVersionIndex(paths, r.value)
  {
    var grouped := GroupByScope(paths);
    if grouped.Err? {
      return Err(grouped.error);
    }
    var index := AddLatest(grouped.value);
    WithLatestIsVersionIndex(paths, grouped.value, index);
    r := Ok(index);
  }

  // ---------------------------------------------------------------- group registration

  /** One registered `GroupedOpenApi` bean definition. */
  datatype GroupDefinition = GroupDefinition(
    beanName: string,     // the registry key
    group: string,        // `setGroup`
    pathsToMatch: string, // `pathsToMatch`
    scope: string,
    tier: string)         // the version handed to the paths customiser

  /** `registerGroupedOpenApi(registry, scope, version)`. */
  function GroupFor(scope: string, version: string): (g: GroupDefinition)
    ensures g.scope == scope && g.tier == version
    ensures g.beanName == g.group + "-groupedOpenApi"
    ensures g.group == scope + "-" + version
    ensures g.pathsToMatch == "/" + scope + "/**"
  {
    var groupName := scope + "-" + version;
    GroupDefinition(groupName + "-groupedOpenApi", groupName, "/" + scope + "/**", scope, version)
  }

  /** The inner `versions.forEach(version -> registerGroupedOpenApi(registry, scope, version))`. */
  method RegisterScope(scope: string, versions: set<string>) returns (registered: seq<GroupDefinition>)
    ensures forall i :: 0 <= i < |registered| ==>
      registered[i].tier in versions && registered[i] == GroupFor(scope, registered[i].tier)
    ensures forall version :: version in versions ==>
      exists i :: 0 <= i < |registered| && registered[i].tier == version
    ensures forall i, j :: 0 <= i < j < |registered| ==> registered[i].tier != registered[j].tier
  {
    registered := [];
    var pending := versions;
    while pending != {}
      invariant pending <= versions
      invariant forall i :: 0 <= i < |registered| ==>
        registered[i].tier in versions - pending && registered[i] == GroupFor(scope, registered[i].tier)
      invariant forall version :: version in versions - pending ==>
        exists i :: 0 <= i < |registered| && registered[i].tier == version
      invariant forall i, j :: 0 <= i < j < |registered| ==> registered[i].tier != registered[j].tier
      decreases pending
    {
      var version :| version in pending;
      ghost var previous, previousPending := registered, pending;
      registered := registered + [GroupFor(scope, version)];
      pending := pending - {version};
      forall v | v in versions - pending ensures exists i :: 0 <= i < |registered| && registered[i].tier == v {
        if v == version {
          assert registered[|previous|].tier == v;
        } else {
          assert v in versions - previousPending;
          var i :| 0 <= i < |previous| && previous[i].tier == v;
          assert registered[i] == previous[i];
        }
      }
    }
    assert versions - pending == versions;
  }

  /** `postProcessBeanDefinitionRegistry` once the endpoint paths are known: the registrations
      it makes, in the order it makes them (hash order, so any order). */
  method RegisterGroups(index: VersionIndex) returns (registered: seq<GroupDefinition>)
    ensures forall i :: 0 <= i < |registered| ==>
      registered[i].scope in index && registered[i].tier in index[registered[i].scope]
      && registered[i] == GroupFor(registered[i].scope, registered[i].tier)
    ensures forall scope, version :: scope in index && version in index[scope] ==>
      exists i :: 0 <= i < |registered| && registered[i].scope == scope && registered[i].tier == version
    ensures forall i, j :: 0 <= i < j < |registered| ==>
      registered[i].scope != registered[j].scope || registered[i].tier != registered[j].tier
  {
    registered := [];
    var pending := index.Keys;
    while pending != {}
      invariant pending <= index.Keys
      invariant RegisteredWithin(index, index.Keys - pending, registered)
      invariant RegisteredAll(index, index.Keys - pending, registered)
      invariant DistinctPairs(registered)
      decreases pending
    {
      var scope :| scope in pending;
      var forScope := RegisterScope(scope, index[scope]);
      RegisterStep(index, index.Keys - pending, scope, registered, forScope);
      registered := registered + forScope;
      assert index.Keys - pending + {scope} == index.Keys - (pending - {scope});
      pending := pending - {scope};
    }
    assert index.Keys - pending == index.Keys;
  }

  /** Every registration so far belongs to a scope in `done` and is that scope's group. */
  ghost predicate RegisteredWithin(index: VersionIndex, done: set<string>, registered: seq<GroupDefinition>) {
    forall i :: 0 <= i < |registered| ==>
      registered[i].scope in done && registered[i].scope in index && registered[i].tier in index[registered[i].scope]
      && registered[i] == GroupFor(registered[i].scope, registered[i].tier)
  }

  /** Every pair of a scope in `done` is registered. */
  ghost predicate RegisteredAll(index: VersionIndex, done: set<string>, registered: seq<GroupDefinition>) {
    forall scope, version :: scope in done && scope in index && version in index[scope] ==>
      exists i :: 0 <= i < |registered| && registered[i].scope == scope && registered[i].tier == version
  }

  ghost predicate DistinctPairs(registered: seq<GroupDefinition>) {
    forall i, j :: 0 <= i < j < |registered| ==>
      registered[i].scope != registered[j].scope || registered[i].tier != registered[j].tier
  }

  /** One turn of the outer loop: appending a fresh scope's registrations keeps the invariants. */
  lemma RegisterStep(index: VersionIndex, done: set<string>, scope: string,
                     previous: seq<GroupDefinition>, forScope: seq<GroupDefinition>)
    requires scope in index && scope !in done
    requires RegisteredWithin(index, done, previous) && RegisteredAll(index, done, previous)
    requires DistinctPairs(previous)
    requires forall i :: 0 <= i < |forScope| ==>
      forScope[i].tier in index[scope] && forScope[i] == GroupFor(scope, forScope[i].tier)
    requires forall version :: version in index[scope] ==>
      exists i :: 0 <= i < |forScope| && forScope[i].tier == version
    requires forall i, j :: 0 <= i < j < |forScope| ==> forScope[i].tier != forScope[j].tier
    ensures RegisteredWithin(index, done + {scope}, previous + forScope)
    ensures RegisteredAll(index, done + {scope}, previous + forScope)
    ensures DistinctPairs(previous + forScope)
  {
    var registered := previous + forScope;
    forall i | 0 <= i < |registered|
      ensures registered[i].scope in done + {scope} && registered[i].scope in index
      ensures registered[i].tier in index[registered[i].scope]
      ensures registered[i] == GroupFor(registered[i].scope, registered[i].tier)
    {
      if i >= |previous| {
        assert registered[i] == forScope[i - |previous|];
      }
    }
    forall sc, v | sc in done + {scope} && sc in index && v in index[sc]
      ensures exists i :: 0 <= i < |registered| && registered[i].scope == sc && registered[i].tier == v
    {
      if sc == scope {
        var k :| 0 <= k < |forScope| && forScope[k].tier == v;
        assert registered[|previous| + k] == forScope[k];
      } else {
        var i :| 0 <= i < |previous| && previous[i].scope == sc && previous[i].tier == v;
        assert registered[i] == previous[i];
      }
    }
    forall i, j | 0 <= i < j < |registered|
      ensures registered[i].scope != registered[j].scope || registered[i].tier != registered[j].tier
    {
      if j >= |previous| {
        assert registered[j] == forScope[j - |previous|];
        if i >= |previous| {
          assert registered[i] == forScope[i - |previous|];
        } else {
          assert registered[i] == previous[i];
        }
      }
    }
  }

  /** A (scope, version) pair a group is due for: a declared scope with one of its declared
      versions, or with `latest`. */
  ghost predicate IsDueGroup(paths: set<string>, scope: string, version: string) {
    (exists v :: (scope, v) in Declared(paths)) && (version == "latest" || (scope, version) in Declared(paths))
  }

  /** `postProcessBeanDefinitionRegistry` from the endpoint paths on: a mapping path with fewer
      than two segments aborts before any group is registered; otherwise exactly one group is
      registered per declared (scope, version) pair and per declared scope with `latest`. */
  method PostProcessRegistry(paths: set<string>) returns (r: Result<seq<GroupDefinition>, IndexError>)
    ensures r.Err? <==> exists p :: p in paths && |Segments(p)| < 2
    ensures r.Ok? ==> forall i :: 0 <= i < |r.value| ==>
      IsDueGroup(paths, r.value[i].scope, r.value[i].tier) && r.value[i] == GroupFor(r.value[i].scope, r.value[i].tier)
    ensures r.Ok? ==> forall scope, version :: IsDueGroup(paths, scope, version) ==>
      exists i :: 0 <= i < |r.value| && r.value[i].scope == scope && r.value[i].tier == version
    ensures r.Ok? ==> DistinctPairs(r.value)
  {
    var index := GetVersionsPerScope(paths);
    if index.Err? {
      return Err(index.error);
    }
    var registered := RegisterGroups(index.value);
    DueGroupsAreIndexed(paths, index.value);
    r := Ok(registered);
  }

  lemma DueGroupsAreIndexed(paths: set<string>, index: VersionIndex)
    requires IsVersionIndex(paths, index)
    ensures forall scope, version :: IsDueGroup(paths, scope, version) <==> scope in index && version in index[scope]
  {
  }

  // ---------------------------------------------------------------- the paths customiser

  /** Why customising one group's paths throws. */
  datatype PathError =
    | NoVersionSegment(key: string)   // `findFirst().orElseThrow()` on a path without a second segment
    | VersionNotInteger(key: string)  // `Integer.parseInt` refusing the second segment minus its first character
    | TierNotInteger(tier: string)    // `Integer.parseInt(version.substring(1))` refusing the group's own version

  /** The private `getApiVersion(String)`: the second non-blank segment without its first
      character, as an `int`. Nothing checks that the character dropped is a `v`. */
  function ApiVersionOf(key: string): (r: Result<int, PathError>)
    ensures r.Ok? ==> IsInt32(r.value)
    ensures r.Ok? <==> |Segments(key)| >= 2 && ParseInt(Segments(key)[1][1..]).Some?
    ensures r.Ok? ==> r.value == ParseInt(Segments(key)[1][1..]).value
    ensures r.Err? ==> (r.error.NoVersionSegment? || r.error.VersionNotInteger?) && r.error.key == key
    ensures r.Err? ==> (r.error.NoVersionSegment? <==> |Segments(key)| < 2)
  {
    var segments := Segments(key);
    if |segments| < 2 then Err(NoVersionSegment(key))
    else match ParseInt(segments[1][1..])
      case None => Err(VersionNotInteger(key))
      case Some(v) => Ok(v)
  }

  lemma IntToStringSegment(k: int)
    ensures '/' !in IntToString(k) && !IsBlank(IntToString(k))
  {
    var d := NatToString(if k < 0 then -k else k);
    var s := IntToString(k);
    assert s == if k < 0 then "-" + d else d;
    forall i | 0 <= i < |s| ensures s[i] != '/' && (s[i] == '-' || IsAsciiDigit(s[i])) {
      if k < 0 && i > 0 {
        assert s[i] == d[i - 1];
      }
    }
    assert !IsWhitespace(s[0]);
  }

  /** The path `/<scope>/v<k>/<rest>` that a versioned controller documents. */
  function VersionedPath(scope: string, k: int, rest: string): string {
    "/" + scope + "/" + ("v" + IntToString(k)) + "/" + rest
  }

  /** A path `/scope/vK/rest` carries the version `K`: the parse reads back what `toString` wrote. */
  lemma ApiVersionOfVersioned(scope: string, k: int, rest: string)
    requires '/' !in scope && !IsBlank(scope) && IsInt32(k)
    ensures ApiVersionOf(VersionedPath(scope, k, rest)) == Ok(k)
  {
    var segment := "v" + IntToString(k);
    IntToStringSegment(k);
    forall i | 0 <= i < |segment| ensures segment[i] != '/' {
      if i > 0 {
        assert segment[i] == IntToString(k)[i - 1];
      }
    }
    assert !IsWhitespace(segment[0]);
    assert !IsWhitespace(scope[0]) || !IsBlank(scope);
    SegmentsOfPrefixed(scope, segment, rest);
    assert segment[1..] == IntToString(k);
    ParseIntToString(k);
  }

  /** The `latest` tier's own paths have no integer version: `"atest"` does not parse. */
  lemma LatestPathHasNoVersion(rest: string)
    ensures ApiVersionOf("/api/latest/" + rest) == Err(VersionNotInteger("/api/latest/" + rest))
  {
    assert "/api/latest/" + rest == "/" + "api" + "/" + "latest" + "/" + rest;
    assert !IsWhitespace("api"[0]) && !IsWhitespace("latest"[0]);
    assert '/' !in "api" && '/' !in "latest";
    SegmentsOfPrefixed("api", "latest", rest);
    assert "latest"[1..] == "atest";
    assert !IsAsciiDigit('a');
  }

  /** `api.getPaths()`: a `LinkedHashMap` from path to item, as its entries in insertion order. */
  type PathTable<T> = seq<(string, T)>

  /** The item a table binds to `k`. */
  function Get<T>(t: PathTable<T>, k: string): (r: Option<T>)
    ensures r.Some? <==> exists q :: 0 <= q < |t| && t[q].0 == k
  {
    if |t| == 0 then None else if t[0].0 == k then Some(t[0].1) else Get(t[1..], k)
  }

  predicate DistinctKeys<T>(t: PathTable<T>) {
    forall q, q' :: 0 <= q < q' < |t| ==> t[q].0 != t[q'].0
  }

  /** `paths.addPathItem(k, item)`, that is `LinkedHashMap.put`: an existing key keeps its place
      and gets the new item; a new key goes at the end. */
  function AddPathItem<T>(t: PathTable<T>, k: string, item: T): (r: PathTable<T>)
    ensures forall x :: Get(r, x) == if x == k then Some(item) else Get(t, x)
    ensures Get(t, k).Some? ==> |r| == |t| && forall q :: 0 <= q < |t| ==> r[q].0 == t[q].0
    ensures Get(t, k).None? ==> r == t + [(k, item)]
    ensures DistinctKeys(t) ==> DistinctKeys(r)
  {
    if |t| == 0 then [(k, item)]
    else if t[0].0 == k then [(k, item)] + t[1..]
    else [t[0]] + AddPathItem(t[1..], k, item)
  }

  /** The bound a tier puts on versions: `Integer.parseInt(version.substring(1))`. */
  function TierBound(tier: string): Option<int> {
    if |tier| == 0 then None else ParseInt(tier[1..])
  }

  /** The filter of `customizePaths`: everything for `latest`, otherwise versions up to the tier. */
  predicate Keeps(tier: string, v: int) {
    tier == "latest" || (TierBound(tier).Some? && v <= TierBound(tier).value)
  }

  /** The key an entry of version `v` gets in the group for `tier`: every `/v<v>/` replaced. */
  function Rewrite(key: string, v: int, tier: string): string {
    ReplaceAll(key, "/v" + IntToString(v) + "/", "/" + tier + "/")
  }

  /** Under the `api` prefix, the version segment `vK` of an entry of version `K` becomes the
      tier, and `replace` goes on through the remainder, rewriting every further `/vK/` there. */
  lemma RewriteApiVersioned(k: int, rest: string, tier: string)
    ensures Rewrite(VersionedPath("api", k, rest), k, tier)
         == "/api/" + tier + "/" + ReplaceAll(rest, "/v" + IntToString(k) + "/", "/" + tier + "/")
  {
    var t := "/v" + IntToString(k) + "/";
    var repl := "/" + tier + "/";
    calc {
      Rewrite(VersionedPath("api", k, rest), k, tier);
      ReplaceAll(VersionedPath("api", k, rest), t, repl);
      { ApiPathSplit(IntToString(k), rest); }
      ReplaceAll("/api" + (t + rest), t, repl);
      { ApiPrefixSkip(t + rest, t, repl); }
      "/api" + ReplaceAll(t + rest, t, repl);
      { ReplaceAllHit(rest, t, repl); }
      "/api" + (repl + ReplaceAll(rest, t, repl));
      "/api/" + tier + "/" + ReplaceAll(rest, t, repl);
    }
  }

  /** A remainder without a further `/vK/` is kept as it is: `/api/v1/person/{id}` is shown as
      `/api/v2/person/{id}` in the `v2` group, and so is `/api/v1/services`. */
  lemma RewriteApiKeepsRest(k: int, rest: string, tier: string)
    requires forall j :: 0 <= j <= |rest| ==> !OccursAt(rest, "/v" + IntToString(k) + "/", j)
    ensures Rewrite(VersionedPath("api", k, rest), k, tier) == "/api/" + tier + "/" + rest
  {
    RewriteApiVersioned(k, rest, tier);
    ReplaceAllAbsent(rest, "/v" + IntToString(k) + "/", "/" + tier + "/");
  }

  /** A second `/v1/` in the remainder is rewritten as well: `/api/v1/a/v1/b` is shown as
      `/api/v2/a/v2/b` in the `v2` group. */
  lemma RewriteRepeatedSegment()
    ensures Rewrite(VersionedPath("api", 1, "a/v1/b"), 1, "v2") == "/api/v2/a/v2/b"
  {
    TargetOfOne();
    RewriteApiVersioned(1, "a/v1/b", "v2");
    ReplaceInRest();
  }

  lemma TargetOfOne()
    ensures "/v" + IntToString(1) + "/" == "/v1/" && "/" + "v2" + "/" == "/v2/"
    ensures "/api/" + "v2" + "/" + "a/v2/b" == "/api/v2/a/v2/b"
  {
  }

  lemma ReplaceInRest()
    ensures ReplaceAll("a/v1/b", "/v1/", "/v2/") == "a/v2/b"
  {
    var s := "a/v1/b";
    assert s == "a" + ("/v1/" + "b");
    assert s[0..4][0] == 'a';
    ReplaceAllSkipPrefix("a", "/v1/" + "b", "/v1/", "/v2/");
    ReplaceAllHit("b", "/v1/", "/v2/");
    ReplaceAllAbsent("b", "/v1/", "/v2/");
  }

  /** A remainder without a `v` holds no `/vK/`. */
  lemma VFreeHasNoTarget(rest: string, t: string)
    requires |t| >= 2 && t[1] == 'v' && 'v' !in rest
    ensures forall j :: 0 <= j <= |rest| ==> !OccursAt(rest, t, j)
  {
    forall j | 0 <= j <= |rest| ensures !OccursAt(rest, t, j) {
      assert j + |t| <= |rest| ==> rest[j..j + |t|][1] == rest[j + 1] && rest[j + 1] in rest;
    }
  }

  /** Regroups the literal path; a step for the solver only. */
  lemma ApiPathSplit(x: string, rest: string)
    ensures "/" + "api" + "/" + ("v" + x) + "/" + rest == "/api" + ("/v" + x + "/" + rest)
  {
  }

  /** No `/v…` target starts inside the `/api` prefix. */
  lemma ApiPrefixSkip(s: string, t: string, repl: string)
    requires |t| >= 2 && t[0] == '/' && t[1] == 'v'
    ensures ReplaceAll("/api" + s, t, repl) == "/api" + ReplaceAll(s, t, repl)
  {
    forall j | 0 <= j < 4 ensures !OccursAt("/api" + s, t, j) {
      if j + |t| <= |"/api" + s| {
        var w := ("/api" + s)[j..j + |t|];
        assert w[0] == ("/api" + s)[j] && w[1] == ("/api" + s)[j + 1];
      }
    }
    ReplaceAllSkipPrefix("/api", s, t, repl);
  }

  /** A non-canonical segment `v01` parses as version 1, but the target is rebuilt from the
      number as `/v1/`, which does not occur: the key is left as it is. */
  lemma NonCanonicalSegmentKept(rest: string, tier: string)
    requires 'v' !in rest
    ensures ApiVersionOf("/api/v01/" + rest) == Ok(1)
    ensures Rewrite("/api/v01/" + rest, 1, tier) == "/api/v01/" + rest
  {
    NonCanonicalParses(rest);
    assert "/v" + IntToString(1) + "/" == "/v1/";
    NoCanonicalTarget(rest);
    ReplaceAllAbsent("/api/v01/" + rest, "/v1/", "/" + tier + "/");
  }

  lemma NonCanonicalParses(rest: string)
    ensures ApiVersionOf("/api/v01/" + rest) == Ok(1)
  {
    var key := "/api/v01/" + rest;
    assert key == "/" + "api" + "/" + "v01" + "/" + rest;
    assert !IsWhitespace("api"[0]) && !IsWhitespace("v01"[0]) && '/' !in "api" && '/' !in "v01";
    SegmentsOfPrefixed("api", "v01", rest);
    assert Segments(key)[1][1..] == "01";
    ParseZeroOne();
  }

  lemma ParseZeroOne()
    ensures ParseInt("01") == Some(1)
  {
    assert "01"[..1] == "0" && "0"[..0] == [];
  }

  lemma NoCanonicalTarget(rest: string)
    requires 'v' !in rest
    ensures forall j :: 0 <= j <= |"/api/v01/" + rest| ==> !OccursAt("/api/v01/" + rest, "/v1/", j)
  {
    var key := "/api/v01/" + rest;
    assert forall i :: 9 <= i < |key| ==> key[i] == rest[i - 9];
    forall j | 0 <= j <= |key| ensures !OccursAt(key, "/v1/", j) {
      if j + 4 <= |key| {
        var w := key[j..j + 4];
        assert w[1] == key[j + 1] && w[2] == key[j + 2];
        assert key[j + 1] != 'v' || key[j + 2] == '0';
      }
    }
  }

  /** The versions of all entries, or the error of the first entry whose version does not parse. */
  function PathVersions<T>(paths: PathTable<T>): (r: Result<seq<int>, PathError>)
    ensures r.Ok? ==> |r.value| == |paths|
    ensures r.Ok? ==> forall i :: 0 <= i < |paths| ==> ApiVersionOf(paths[i].0) == Ok(r.value[i])
    ensures r.Err? ==> r.error.NoVersionSegment? || r.error.VersionNotInteger?
  {
    if |paths| == 0 then Ok([])
    else match ApiVersionOf(paths[0].0)
      case Err(e) => Err(e)
      case Ok(v) =>
        match PathVersions(paths[1..])
        case Err(e) => Err(e)
        case Ok(vs) => Ok([v] + vs)
  }

  /** The error reported is the one of the first entry whose version does not parse. */
  lemma {:induction false} PathVersionsFirstError<T>(paths: PathTable<T>)
    requires PathVersions(paths).Err?
    ensures exists i :: (0 <= i < |paths| && ApiVersionOf(paths[i].0) == Err(PathVersions(paths).error)
                         && forall j :: 0 <= j < i ==> ApiVersionOf(paths[j].0).Ok?)
  {
    if ApiVersionOf(paths[0].0).Err? {
      assert ApiVersionOf(paths[0].0) == Err(PathVersions(paths).error);
    } else {
      var tail := paths[1..];
      assert PathVersions(paths).error == PathVersions(tail).error;
      PathVersionsFirstError(tail);
      var i :| 0 <= i < |tail| && ApiVersionOf(tail[i].0) == Err(PathVersions(tail).error)
        && forall j :: 0 <= j < i ==> ApiVersionOf(tail[j].0).Ok?;
      assert paths[i + 1] == tail[i];
      forall j | 0 <= j < i + 1 ensures ApiVersionOf(paths[j].0).Ok? {
        if j > 0 {
          assert paths[j] == tail[j - 1];
        }
      }
    }
  }

  /** The indices of the entries the tier keeps. */
  function Kept(vs: seq<int>, tier: string): set<nat> {
    set i: nat | i < |vs| && Keeps(tier, vs[i])
  }

  /** Entry `w` prevails over entry `j` for one key: a higher version, or the same version later. */
  predicate Prevails(vs: seq<int>, w: int, j: int)
    requires 0 <= w < |vs| && 0 <= j < |vs|
  {
    vs[j] < vs[w] || (vs[j] == vs[w] && j <= w)
  }

  /** The entries as the group for `tier` shows them: each key rewritten for its version. */
  function Relabelled<T>(paths: PathTable<T>, vs: seq<int>, tier: string): (r: PathTable<T>)
    requires |vs| == |paths|
    ensures |r| == |paths|
  {
    if |paths| == 0 then []
    else [(Rewrite(paths[0].0, vs[0], tier), paths[0].1)] + Relabelled(paths[1..], vs[1..], tier)
  }

  /** Entry `i` of the group's table is entry `i` of the paths under its rewritten key. */
  lemma {:induction false} RelabelledAt<T>(paths: PathTable<T>, vs: seq<int>, tier: string, i: nat)
    requires |vs| == |paths| && i < |paths|
    ensures Relabelled(paths, vs, tier)[i] == (Rewrite(paths[i].0, vs[i], tier), paths[i].1)
  {
    if i > 0 {
      RelabelledAt(paths[1..], vs[1..], tier, i - 1);
      assert paths[1..][i - 1] == paths[i] && vs[1..][i - 1] == vs[i];
    }
  }

  /** `out` is the group view of the relabelled entries `S`: its keys are their keys, and each
      key is bound to the item of the entry that prevails over all others with that key. */
  ghost predicate Represents<T>(out: PathTable<T>, entries: PathTable<T>, vs: seq<int>, S: set<nat>)
    requires |vs| == |entries|
  {
    && DistinctKeys(out)
    && (forall i :: i in S ==> i < |entries|)
    && (forall k :: Get(out, k).Some? <==> exists i :: i in S && entries[i].0 == k)
    && (forall k :: Get(out, k).Some? ==>
          exists w: nat :: Prevailing(entries, vs, S, k, w) && Get(out, k).value == entries[w].1)
  }

  /** Entry `w` of `S` has key `k` and prevails over every entry of `S` with that key. */
  ghost predicate Prevailing<T>(entries: PathTable<T>, vs: seq<int>, S: set<nat>, k: string, w: nat)
    requires |vs| == |entries|
  {
    && w in S && w < |entries| && entries[w].0 == k
    && forall j :: j in S && j < |entries| && entries[j].0 == k ==> Prevails(vs, w, j)
  }

  /** Putting an entry that prevails over all those already put keeps the table a group view. */
  lemma AddPreserves<T>(out: PathTable<T>, entries: PathTable<T>, vs: seq<int>, S: set<nat>, i: nat)
    requires |vs| == |entries| && i < |entries| && i !in S
    requires Represents(out, entries, vs, S)
    requires forall j :: j in S ==> vs[j] < vs[i] || (vs[j] == vs[i] && j < i)
    ensures Represents(AddPathItem(out, entries[i].0, entries[i].1), entries, vs, S + {i})
  {
    AddKeys(out, entries, vs, S, i);
    AddWinners(out, entries, vs, S, i);
  }

  /** After the put, the keys present are those of the entries put. */
  lemma AddKeys<T>(out: PathTable<T>, entries: PathTable<T>, vs: seq<int>, S: set<nat>, i: nat)
    requires |vs| == |entries| && i < |entries|
    requires Represents(out, entries, vs, S)
    ensures forall k :: Get(AddPathItem(out, entries[i].0, entries[i].1), k).Some? <==>
      exists j :: j in S + {i} && entries[j].0 == k
  {
    var key := entries[i].0;
    var out' := AddPathItem(out, key, entries[i].1);
    forall k ensures Get(out', k).Some? <==> exists j :: j in S + {i} && entries[j].0 == k {
      if k != key {
        assert (exists j :: j in S + {i} && entries[j].0 == k) <==> (exists j :: j in S && entries[j].0 == k);
      }
    }
  }

  /** After the put, each present key still holds the item of the entry that prevails for it. */
  lemma AddWinners<T>(out: PathTable<T>, entries: PathTable<T>, vs: seq<int>, S: set<nat>, i: nat)
    requires |vs| == |entries| && i < |entries| && i !in S
    requires Represents(out, entries, vs, S)
    requires forall j :: j in S ==> vs[j] < vs[i] || (vs[j] == vs[i] && j < i)
    ensures forall k :: Get(AddPathItem(out, entries[i].0, entries[i].1), k).Some? ==>
      exists w: nat :: Prevailing(entries, vs, S + {i}, k, w)
                  && Get(AddPathItem(out, entries[i].0, entries[i].1), k).value == entries[w].1
  {
    var key := entries[i].0;
    var out' := AddPathItem(out, key, entries[i].1);
    var S' := S + {i};
    forall k | Get(out', k).Some?
      ensures exists w: nat :: Prevailing(entries, vs, S', k, w) && Get(out', k).value == entries[w].1
    {
      if k == key {
        assert Prevailing(entries, vs, S', k, i);
      } else {
        var w: nat :| Prevailing(entries, vs, S, k, w) && Get(out, k).value == entries[w].1;
        assert forall j :: j in S' && entries[j].0 == k ==> j in S;
        assert Prevailing(entries, vs, S', k, w);
      }
    }
  }

  /** The index of a least version among the pending entries. */
  method Least(vs: seq<int>, pending: set<nat>) returns (w: nat)
    requires pending != {} && forall j :: j in pending ==> j < |vs|
    ensures w in pending && forall j :: j in pending ==> vs[w] <= vs[j]
  {
    w :| w in pending;
    var rest := pending - {w};
    while rest != {}
      invariant w in pending && rest <= pending
      invariant forall j :: j in pending && j !in rest ==> vs[w] <= vs[j]
      decreases rest
    {
      var j :| j in rest;
      if vs[j] < vs[w] {
        w := j;
      }
      rest := rest - {j};
    }
  }

  /** The indices below `n`. */
  function Indices(n: nat): (r: set<nat>)
    ensures forall j: nat :: j in r <==> j < n
  {
    if n == 0 then {} else Indices(n - 1) + {n - 1}
  }

  /** The indices of the entries of version `v`. */
  function OfVersion(vs: seq<int>, v: int): set<nat> {
    set j: nat | j < |vs| && vs[j] == v
  }

  /** The inner `forEach` of `customizePaths`: every entry of version `v`, in order, put under
      its rewritten key. When all entries already put have lower versions, the table then
      represents those entries and the ones of version `v`. */
  method PutVersion<T>(out: PathTable<T>, entries: PathTable<T>, vs: seq<int>, v: int, ghost S: set<nat>)
    returns (out': PathTable<T>)
    requires |vs| == |entries|
    requires Represents(out, entries, vs, S)
    requires forall j :: j in S ==> j < |vs| && vs[j] < v
    ensures Represents(out', entries, vs, S + OfVersion(vs, v))
  {
    out' := out;
    ghost var done := S;
    var i: nat := 0;
    while i < |entries|
      invariant i <= |entries|
      invariant forall j: nat :: j in done <==> j in S || (j < i && vs[j] == v)
      invariant Represents(out', entries, vs, done)
    {
      if vs[i] == v {
        AddPreserves(out', entries, vs, done, i);
        out' := AddPathItem(out', entries[i].0, entries[i].1);
        done := done + {i};
      }
      i := i + 1;
    }
    assert done == S + OfVersion(vs, v);
  }

  /** The new `Paths` that `customizePaths(api, tier)` builds: entries grouped by version in an
      ascending `TreeMap`, versions above the tier dropped, and each entry put under its rewritten
      key, so that for each key the highest kept version, and within it the last entry, remains. */
  method ProjectPaths<T>(paths: PathTable<T>, tier: string) returns (r: Result<PathTable<T>, PathError>)
    ensures PathVersions(paths).Err? ==> r == Err(PathVersions(paths).error)
    ensures PathVersions(paths).Ok? && paths != [] && tier != "latest" && TierBound(tier).None? ==>
      r == Err(TierNotInteger(tier))
    ensures r.Ok? <==> (PathVersions(paths).Ok? && (paths == [] || tier == "latest" || TierBound(tier).Some?))
    ensures r.Ok? ==>
      var vs := PathVersions(paths).value;
      Represents(r.value, Relabelled(paths, vs, tier), vs, Kept(vs, tier))
  {
    var parsed := PathVersions(paths);
    if parsed.Err? {
      return Err(parsed.error);
    }
    var vs := parsed.value;
    if paths != [] && tier != "latest" && TierBound(tier).None? {
      return Err(TierNotInteger(tier));
    }
    // the keys rewritten up front: `replace` is pure, so this is the key each put uses
    var newPaths := PutKept(Relabelled(paths, vs, tier), vs, tier);
    return Ok(newPaths);
  }

  /** The outer `forEach` over the ascending `TreeMap` of versions, skipping the versions the
      tier drops: the table built represents exactly the kept entries. */
  method PutKept<T>(entries: PathTable<T>, vs: seq<int>, tier: string) returns (newPaths: PathTable<T>)
    requires |vs| == |entries|
    ensures Represents(newPaths, entries, vs, Kept(vs, tier))
  {
    newPaths := [];
    // the entries whose version the ascending walk has not reached yet
    var pending := Indices(|vs|);
    ghost var S: set<nat> := {};
    while pending != {}
      invariant Walked(vs, tier, pending, S)
      invariant Represents(newPaths, entries, vs, S)
      decreases pending
    {
      var w := Least(vs, pending);
      var v := vs[w];
      WalkStep(vs, tier, pending, S, w);
      if Keeps(tier, v) {
        newPaths := PutVersion(newPaths, entries, vs, v, S);
        S := S + OfVersion(vs, v);
      }
      pending := pending - OfVersion(vs, v);
    }
    assert S == Kept(vs, tier);
  }

  /** The ascending walk over versions: every entry not pending has a lower version than every
      pending one, and `S` holds the entries walked past whose version the tier keeps. */
  ghost predicate Walked(vs: seq<int>, tier: string, pending: set<nat>, S: set<nat>) {
    && (forall j :: j in pending ==> j < |vs|)
    && (forall j: nat, k :: j < |vs| && j !in pending && k in pending ==> vs[j] < vs[k])
    && (forall j: nat :: j in S <==> j < |vs| && Keeps(tier, vs[j]) && j !in pending)
  }

  /** Walking past the least pending version keeps the walk ascending. */
  lemma WalkStep(vs: seq<int>, tier: string, pending: set<nat>, S: set<nat>, w: nat)
    requires Walked(vs, tier, pending, S)
    requires w in pending && forall j :: j in pending ==> vs[w] <= vs[j]
    ensures w in OfVersion(vs, vs[w])
    ensures forall j :: j in S ==> j < |vs| && vs[j] < vs[w]
    ensures Walked(vs, tier, pending - OfVersion(vs, vs[w]),
                   if Keeps(tier, vs[w]) then S + OfVersion(vs, vs[w]) else S)
  {
  }

  /** Parsing every entry's version succeeds exactly when each one does. */
  lemma {:induction false} PathVersionsOk<T>(paths: PathTable<T>, vs: seq<int>)
    requires |vs| == |paths|
    requires forall i :: 0 <= i < |paths| ==> ApiVersionOf(paths[i].0) == Ok(vs[i])
    ensures PathVersions(paths) == Ok(vs)
  {
    if |paths| > 0 {
      assert forall i :: 0 <= i < |paths| - 1 ==> paths[1..][i] == paths[i + 1];
      PathVersionsOk(paths[1..], vs[1..]);
      assert vs == [vs[0]] + vs[1..];
    }
  }

  /** A `vT` tier keeps exactly the versions up to `T`. */
  lemma TierKeeps(t: int, v: int)
    requires IsInt32(t)
    ensures TierBound("v" + IntToString(t)) == Some(t)
    ensures Keeps("v" + IntToString(t), v) <==> v <= t
  {
    var tier := "v" + IntToString(t);
    assert tier[1..] == IntToString(t);
    ParseIntToString(t);
  }

  /** The `latest` tier keeps every entry. */
  lemma LatestKeepsAll(vs: seq<int>)
    ensures Kept(vs, "latest") == Indices(|vs|)
  {
  }

  /** The entry that prevails over every other with its key is the one whose item the key gets:
      the group view is determined by the entries. */
  lemma RepresentedBy<T>(out: PathTable<T>, entries: PathTable<T>, vs: seq<int>, S: set<nat>, w: nat)
    requires |vs| == |entries| && Represents(out, entries, vs, S) && w in S
    requires forall j :: j in S && entries[j].0 == entries[w].0 ==> Prevails(vs, w, j)
    ensures Get(out, entries[w].0) == Some(entries[w].1)
  {
    var k := entries[w].0;
    assert Get(out, k).Some?;
    var w': nat :| Prevailing(entries, vs, S, k, w') && Get(out, k).value == entries[w'].1;
    assert Prevails(vs, w, w') && Prevails(vs, w', w);
  }

  /** Two tables that are group views of the same entries bind every key alike. */
  lemma RepresentsUnique<T>(out1: PathTable<T>, out2: PathTable<T>, entries: PathTable<T>, vs: seq<int>, S: set<nat>)
    requires |vs| == |entries|
    requires Represents(out1, entries, vs, S) && Represents(out2, entries, vs, S)
    ensures forall k :: Get(out1, k) == Get(out2, k)
  {
    forall k | Get(out1, k).Some?
      ensures Get(out1, k) == Get(out2, k)
    {
      var w: nat :| Prevailing(entries, vs, S, k, w) && Get(out1, k).value == entries[w].1;
      RepresentedBy(out2, entries, vs, S, w);
    }
  }

  /** For a numbered tier, every item in the group comes from an entry of a version up to the
      tier's; for `latest`, every entry's rewritten key is in the group. */
  lemma NothingAboveTier<T>(out: PathTable<T>, paths: PathTable<T>, vs: seq<int>, tier: string)
    requires |vs| == |paths| && Represents(out, Relabelled(paths, vs, tier), vs, Kept(vs, tier))
    ensures tier != "latest" ==> forall k :: Get(out, k).Some? ==>
      exists w :: 0 <= w < |paths| && vs[w] <= TierBound(tier).value && Get(out, k).value == paths[w].1
    ensures tier == "latest" ==> forall i :: 0 <= i < |paths| ==> Get(out, Rewrite(paths[i].0, vs[i], tier)).Some?
  {
    var entries := Relabelled(paths, vs, tier);
    if tier == "latest" {
      forall i | 0 <= i < |paths| ensures Get(out, Rewrite(paths[i].0, vs[i], tier)).Some? {
        RelabelledAt(paths, vs, tier, i);
        assert i in Kept(vs, tier);
      }
    } else {
      forall k | Get(out, k).Some?
        ensures exists w :: 0 <= w < |paths| && vs[w] <= TierBound(tier).value && Get(out, k).value == paths[w].1
      {
        var w: nat :| Prevailing(entries, vs, Kept(vs, tier), k, w) && Get(out, k).value == entries[w].1;
        RelabelledAt(paths, vs, tier, w);
      }
    }
  }

  /** The documentation model the customiser edits: `OpenAPI` with its `paths`. */
  class OpenApi<T> {
    var paths: PathTable<T>

    constructor (paths: PathTable<T>)
      ensures this.paths == paths
    {
      this.paths := paths;
    }
  }

  /** `customizePaths(api, tier)`: the projected table replaces the paths, with `setPaths`; when
      building it throws, `setPaths` is never reached and the paths stay as they were. */
  method CustomizePaths<T>(api: OpenApi<T>, tier: string) returns (failure: Option<PathError>)
    modifies api
    ensures failure.None? <==>
      (PathVersions(old(api.paths)).Ok? && (old(api.paths) == [] || tier == "latest" || TierBound(tier).Some?))
    ensures failure.Some? ==> api.paths == old(api.paths)
    ensures failure.None? ==>
      var vs := PathVersions(old(api.paths)).value;
      Represents(api.paths, Relabelled(old(api.paths), vs, tier), vs, Kept(vs, tier))
  {
    var projected := ProjectPaths(api.paths, tier);
    match projected
    case Err(e) =>
      failure := Some(e);
    case Ok(newPaths) =>
      api.paths := newPaths;
      failure := None;
  }

  // ---------------------------------------------------------------- the person controllers

  /** The documented paths of the three person controllers, each bound to a number naming its
      handler: version times ten plus 0 for `getAll`, 1 for `getById({id})` and 2 for the literal
      `getById(1)` override. The remainders after the version segment are `all`, `byId` and
      `one`; the controllers use `person`, `person/{id}` and `person/1`. */
  function PersonPaths(all: string, byId: string, one: string): PathTable<int> {
    [ (VersionedPath("api", 1, all), 10), (VersionedPath("api", 1, byId), 11),
      (VersionedPath("api", 2, all), 20), (VersionedPath("api", 2, byId), 21), (VersionedPath("api", 2, one), 22),
      (VersionedPath("api", 3, all), 30), (VersionedPath("api", 3, byId), 31) ]
  }

  function PersonRests(all: string, byId: string, one: string): seq<string> {
    [all, byId, all, byId, one, all, byId]
  }

  const PersonVersions: seq<int> := [1, 1, 2, 2, 2, 3, 3]

  /** Three different remainders, none holding a `v` that a version segment could start at. */
  predicate Remainders(all: string, byId: string, one: string) {
    all != byId && all != one && byId != one && 'v' !in all && 'v' !in byId && 'v' !in one
  }

  /** The person controllers' own remainders qualify. */
  lemma PersonRemainders()
    ensures Remainders("person", "person/{id}", "person/1")
  {
    assert |"person"| != |"person/{id}"| && |"person"| != |"person/1"| && |"person/{id}"| != |"person/1"|;
  }

  /** Every person path parses to its controller's version. */
  lemma PersonPathVersions(all: string, byId: string, one: string)
    ensures PathVersions(PersonPaths(all, byId, one)) == Ok(PersonVersions)
  {
    var paths := PersonPaths(all, byId, one);
    var rests := PersonRests(all, byId, one);
    assert !IsWhitespace("api"[0]) && '/' !in "api";
    forall i | 0 <= i < |paths| ensures ApiVersionOf(paths[i].0) == Ok(PersonVersions[i]) {
      assert paths[i].0 == VersionedPath("api", PersonVersions[i], rests[i]);
      ApiVersionOfVersioned("api", PersonVersions[i], rests[i]);
    }
    PathVersionsOk(paths, PersonVersions);
  }

  /** Each person path is `/api/v<version>/<remainder>`, and no remainder holds a `v`. */
  lemma PersonShape(all: string, byId: string, one: string)
    requires Remainders(all, byId, one)
    ensures forall i :: 0 <= i < 7 ==>
      PersonPaths(all, byId, one)[i].0 == VersionedPath("api", PersonVersions[i], PersonRests(all, byId, one)[i])
      && 'v' !in PersonRests(all, byId, one)[i]
  {
  }

  /** Each person path is shown in a group as `/api/<tier>/<remainder>`. */
  lemma PersonRewrites(all: string, byId: string, one: string, tier: string)
    requires Remainders(all, byId, one)
    ensures forall i :: 0 <= i < 7 ==>
      Relabelled(PersonPaths(all, byId, one), PersonVersions, tier)[i]
        == ("/api/" + tier + "/" + PersonRests(all, byId, one)[i], PersonPaths(all, byId, one)[i].1)
  {
    var rests := PersonRests(all, byId, one);
    PersonShape(all, byId, one);
    forall i | 0 <= i < 7
      ensures forall j :: 0 <= j <= |rests[i]| ==> !OccursAt(rests[i], "/v" + IntToString(PersonVersions[i]) + "/", j)
    {
      VFreeHasNoTarget(rests[i], "/v" + IntToString(PersonVersions[i]) + "/");
    }
    ApiPathsKeepRests(PersonPaths(all, byId, one), PersonVersions, rests, tier);
  }

  /** Every path `/api/v<version>/<remainder>` of a table is shown in a group as
      `/api/<tier>/` followed by its remainder, with any further `/v<version>/` there rewritten too. */
  lemma ApiPathsRewritten<T>(paths: PathTable<T>, vs: seq<int>, rests: seq<string>, tier: string)
    requires |vs| == |paths| == |rests|
    requires forall i :: 0 <= i < |paths| ==> paths[i].0 == VersionedPath("api", vs[i], rests[i])
    ensures forall i :: 0 <= i < |paths| ==>
      Relabelled(paths, vs, tier)[i]
        == ("/api/" + tier + "/" + ReplaceAll(rests[i], "/v" + IntToString(vs[i]) + "/", "/" + tier + "/"), paths[i].1)
  {
    forall i | 0 <= i < |paths|
      ensures Relabelled(paths, vs, tier)[i]
        == ("/api/" + tier + "/" + ReplaceAll(rests[i], "/v" + IntToString(vs[i]) + "/", "/" + tier + "/"), paths[i].1)
    {
      RelabelledAt(paths, vs, tier, i);
      RewriteApiVersioned(vs[i], rests[i], tier);
    }
  }

  /** When no remainder holds a further `/v<version>/`, every path is shown as `/api/<tier>/<remainder>`. */
  lemma ApiPathsKeepRests<T>(paths: PathTable<T>, vs: seq<int>, rests: seq<string>, tier: string)
    requires |vs| == |paths| == |rests|
    requires forall i :: 0 <= i < |paths| ==> paths[i].0 == VersionedPath("api", vs[i], rests[i])
    requires forall i, j :: 0 <= i < |paths| && 0 <= j <= |rests[i]| ==>
      !OccursAt(rests[i], "/v" + IntToString(vs[i]) + "/", j)
    ensures forall i :: 0 <= i < |paths| ==>
      Relabelled(paths, vs, tier)[i] == ("/api/" + tier + "/" + rests[i], paths[i].1)
  {
    forall i | 0 <= i < |paths|
      ensures Relabelled(paths, vs, tier)[i] == ("/api/" + tier + "/" + rests[i], paths[i].1)
    {
      RelabelledAt(paths, vs, tier, i);
      RewriteApiKeepsRest(vs[i], rests[i], tier);
    }
  }

  /** In a group view of person entries of versions up to `b`, an entry that prevails over
      every such entry with the same remainder is what its key shows. */
  lemma PersonWinner(out: PathTable<int>, all: string, byId: string, one: string, tier: string, S: set<nat>,
                     b: int, w: nat, key: string)
    requires Remainders(all, byId, one)
    requires Represents(out, Relabelled(PersonPaths(all, byId, one), PersonVersions, tier), PersonVersions, S) && w in S
    requires UpTo(S, b) && WinsUpTo(all, byId, one, b, w)
    requires key == "/api/" + tier + "/" + PersonRests(all, byId, one)[w]
    ensures Get(out, key) == Some(PersonPaths(all, byId, one)[w].1)
  {
    var entries := Relabelled(PersonPaths(all, byId, one), PersonVersions, tier);
    var rests := PersonRests(all, byId, one);
    PersonRewrites(all, byId, one, tier);
    var prefix := "/api/" + tier + "/";
    forall j | j in S && entries[j].0 == entries[w].0
      ensures Prevails(PersonVersions, w, j)
    {
      assert (prefix + rests[j])[|prefix|..] == rests[j];
      assert (prefix + rests[w])[|prefix|..] == rests[w];
    }
    RepresentedBy(out, entries, PersonVersions, S, w);
  }

  /** Every person entry in `S` has a version up to `b`. */
  ghost predicate UpTo(S: set<nat>, b: int) {
    forall j :: j in S ==> j < 7 && PersonVersions[j] <= b
  }

  /** Person entry `w` prevails over every entry of a version up to `b` with its remainder. */
  ghost predicate WinsUpTo(all: string, byId: string, one: string, b: int, w: nat) {
    w < 7 && forall j :: 0 <= j < 7 && PersonVersions[j] <= b && PersonRests(all, byId, one)[j] == PersonRests(all, byId, one)[w] ==>
      Prevails(PersonVersions, w, j)
  }

  /** The literal prefixes of the three groups; a step for the solver only. */
  lemma GroupPrefixes()
    ensures "/api/latest/" == "/api/" + "latest" + "/" && "/api/v2/" == "/api/" + "v2" + "/"
  {
  }

  /** A group's key for a remainder, with the tier written into the prefix; a step for the
      solver only. */
  lemma GroupKey(tier: string, prefix: string, rest: string)
    requires prefix == "/api/" + tier + "/"
    ensures prefix + rest == "/api/" + tier + "/" + rest
  {
  }

  /** Which person entry prevails among those with the same remainder, for the `latest` tier
      (versions up to 3) and the `v2` tier (versions up to 2). */
  lemma PersonPrevails(all: string, byId: string, one: string)
    requires Remainders(all, byId, one)
    ensures WinsUpTo(all, byId, one, 3, 4) && WinsUpTo(all, byId, one, 3, 5) && WinsUpTo(all, byId, one, 3, 6)
    ensures WinsUpTo(all, byId, one, 2, 2) && WinsUpTo(all, byId, one, 2, 3) && WinsUpTo(all, byId, one, 2, 4)
  {
  }

  /** In the group view for a tier that keeps versions up to `b`, each remainder shows the
      item of the entry that prevails for it. */
  lemma PersonGroup(out: PathTable<int>, all: string, byId: string, one: string, tier: string, b: int,
                    wAll: nat, wById: nat, wOne: nat)
    requires Remainders(all, byId, one)
    requires Represents(out, Relabelled(PersonPaths(all, byId, one), PersonVersions, tier), PersonVersions,
                        Kept(PersonVersions, tier))
    requires UpTo(Kept(PersonVersions, tier), b)
    requires wAll in Kept(PersonVersions, tier) && wById in Kept(PersonVersions, tier) && wOne in Kept(PersonVersions, tier)
    requires WinsUpTo(all, byId, one, b, wAll) && WinsUpTo(all, byId, one, b, wById) && WinsUpTo(all, byId, one, b, wOne)
    requires PersonRests(all, byId, one)[wAll] == all && PersonRests(all, byId, one)[wById] == byId
    requires PersonRests(all, byId, one)[wOne] == one
    ensures Get(out, "/api/" + tier + "/" + all) == Some(PersonPaths(all, byId, one)[wAll].1)
    ensures Get(out, "/api/" + tier + "/" + byId) == Some(PersonPaths(all, byId, one)[wById].1)
    ensures Get(out, "/api/" + tier + "/" + one) == Some(PersonPaths(all, byId, one)[wOne].1)
  {
    var S := Kept(PersonVersions, tier);
    PersonWinner(out, all, byId, one, tier, S, b, wAll, "/api/" + tier + "/" + all);
    PersonWinner(out, all, byId, one, tier, S, b, wById, "/api/" + tier + "/" + byId);
    PersonWinner(out, all, byId, one, tier, S, b, wOne, "/api/" + tier + "/" + one);
  }

  /** The `latest` group shows version 3's handlers, and still version 2's `getById(1)`
      override, which version 3 never redefines. */
  lemma PersonLatestGroup(out: PathTable<int>, all: string, byId: string, one: string)
    requires Remainders(all, byId, one)
    requires Represents(out, Relabelled(PersonPaths(all, byId, one), PersonVersions, "latest"), PersonVersions,
                        Kept(PersonVersions, "latest"))
    ensures Get(out, "/api/latest/" + all) == Some(30)
    ensures Get(out, "/api/latest/" + byId) == Some(31)
    ensures Get(out, "/api/latest/" + one) == Some(22)
  {
    PersonKept();
    PersonPrevails(all, byId, one);
    GroupPrefixes();
    GroupKey("latest", "/api/latest/", all);
    GroupKey("latest", "/api/latest/", byId);
    GroupKey("latest", "/api/latest/", one);
    PersonGroup(out, all, byId, one, "latest", 3, 5, 6, 4);
  }

  /** The `v2` group shows version 2's three handlers and nothing of version 3. */
  lemma PersonV2Group(out: PathTable<int>, all: string, byId: string, one: string)
    requires Remainders(all, byId, one)
    requires Represents(out, Relabelled(PersonPaths(all, byId, one), PersonVersions, "v2"), PersonVersions,
                        Kept(PersonVersions, "v2"))
    ensures Get(out, "/api/v2/" + all) == Some(20)
    ensures Get(out, "/api/v2/" + byId) == Some(21)
    ensures Get(out, "/api/v2/" + one) == Some(22)
    ensures forall k :: Get(out, k).Some? ==> Get(out, k).value != 30 && Get(out, k).value != 31
  {
    PersonV2HasNoV3(out, all, byId, one);
    PersonKept();
    PersonPrevails(all, byId, one);
    GroupPrefixes();
    GroupKey("v2", "/api/v2/", all);
    GroupKey("v2", "/api/v2/", byId);
    GroupKey("v2", "/api/v2/", one);
    PersonGroup(out, all, byId, one, "v2", 2, 2, 3, 4);
  }

  /** The `latest` tier keeps all seven person entries, the `v2` tier the five of versions 1 and 2. */
  lemma PersonKept()
    ensures 4 in Kept(PersonVersions, "latest") && 5 in Kept(PersonVersions, "latest") && 6 in Kept(PersonVersions, "latest")
    ensures UpTo(Kept(PersonVersions, "latest"), 3)
    ensures 2 in Kept(PersonVersions, "v2") && 3 in Kept(PersonVersions, "v2") && 4 in Kept(PersonVersions, "v2")
    ensures UpTo(Kept(PersonVersions, "v2"), 2)
  {
    assert "v2" == "v" + IntToString(2);
    forall v ensures Keeps("v2", v) <==> v <= 2 {
      TierKeeps(2, v);
    }
  }

  /** No version 3 handler appears in the `v2` group. */
  lemma PersonV2HasNoV3(out: PathTable<int>, all: string, byId: string, one: string)
    requires Represents(out, Relabelled(PersonPaths(all, byId, one), PersonVersions, "v2"), PersonVersions,
                        Kept(PersonVersions, "v2"))
    ensures forall k :: Get(out, k).Some? ==> Get(out, k).value != 30 && Get(out, k).value != 31
  {
    assert "v2" == "v" + IntToString(2);
    TierKeeps(2, 2);
    assert forall w :: 0 <= w < 7 && PersonVersions[w] <= 2 ==> PersonPaths(all, byId, one)[w].1 < 30;
    NothingAboveTier(out, PersonPaths(all, byId, one), PersonVersions, "v2");
  }
}
