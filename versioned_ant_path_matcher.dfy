/**
 * The version-aware path matcher: a wrapper around a generic Ant-style matcher
 * that lets an older-version route serve newer and `latest` requests, and that
 * ranks competing patterns by version before the generic specificity order.
 *
 * The regular expression `/api/(?<version>v\d{1,2}|latest)/.*` is written out as a
 * recogniser with its two uses: `find` (an occurrence anywhere, leftmost first)
 * and `matches` (the whole string). The generic matcher and the generic
 * comparator are parameters: they belong to a library this model does not cover.
 */
module VersionedAntPathMatcher {
  import opened Wrappers
  import opened JavaText

  // ---------------------------------------------------------------- the regular expression

  /** The characters that Java's `.` refuses without DOTALL or UNIX_LINES. */
  predicate IsLineTerminator(c: char) {
    c == '\n' || c == '\r' || c == '\U{85}' || c == '\U{2028}' || c == '\U{2029}'
  }

  predicate NoLineTerminator(s: string) {
    forall i :: 0 <= i < |s| ==> !IsLineTerminator(s[i])
  }

  /** The texts the `version` group accepts: `v` with one or two ASCII digits, or `latest`. */
  predicate IsVersionToken(v: string) {
    v == "latest" || ((|v| == 2 || |v| == 3) && v[0] == 'v' && AllAsciiDigits(v[1..]))
  }

  /** `(?<version>v\d{1,2}|latest)/` read at index `j` of `s`: the group's text. */
  function TokenAt(s: string, j: nat): (r: Option<string>)
    ensures r.Some? ==> IsVersionToken(r.value) && OccursAt(s, r.value + "/", j)
  {
    if j + 3 < |s| && s[j] == 'v' && IsAsciiDigit(s[j + 1]) && IsAsciiDigit(s[j + 2]) && s[j + 3] == '/' then
      Some(s[j..j + 3])
    else if j + 2 < |s| && s[j] == 'v' && IsAsciiDigit(s[j + 1]) && s[j + 2] == '/' then
      Some(s[j..j + 2])
    else if j + 6 < |s| && s[j..j + 6] == "latest" && s[j + 6] == '/' then
      Some("latest")
    else
      None
  }

  /** At most one token followed by `/` sits at an index, and `TokenAt` finds it. */
  lemma TokenAtComplete(s: string, j: nat, v: string)
    requires IsVersionToken(v) && OccursAt(s, v + "/", j)
    ensures TokenAt(s, j) == Some(v)
  {
    var w := s[j..j + |v| + 1];
    assert w == v + "/";
    assert s[j..j + |v|] == w[..|v|] == v;
    assert s[j + |v|] == w[|v|] == '/';
    assert forall k :: 0 <= k < |v| ==> s[j + k] == w[k] == v[k];
    if v != "latest" {
      assert IsAsciiDigit(v[1]) by { assert v[1] == v[1..][0]; }
      if |v| == 3 {
        assert IsAsciiDigit(v[2]) by { assert v[2] == v[1..][1]; }
      }
    }
  }

  /** `/api/(?<version>v\d{1,2}|latest)/` at index `i`: the version group's text. */
  function PrefixAt(s: string, i: nat): (r: Option<string>)
    ensures r.Some? ==> IsVersionToken(r.value) && i + |r.value| + 6 <= |s|
  {
    if OccursAt(s, "/api/", i) then TokenAt(s, i + 5) else None
  }
  /** `PrefixAt` reports a token exactly where `/api/`, that token and a slash occur. */
  lemma PrefixAtIff(s: string, i: nat, v: string)
    ensures PrefixAt(s, i) == Some(v) <==> IsVersionToken(v) && OccursAt(s, "/api/" + v + "/", i)
  {
    var w := "/api/" + v + "/";
    if PrefixAt(s, i) == Some(v) {
      assert OccursAt(s, "/api/", i) && OccursAt(s, v + "/", i + 5);
      assert s[i..i + |w|] == s[i..i + 5] + s[i + 5..i + 5 + |v| + 1];
    }
    if IsVersionToken(v) && OccursAt(s, w, i) {
      assert s[i..i + 5] == w[..5] == "/api/";
      assert s[i + 5..i + 5 + |v| + 1] == w[5..] == v + "/";
      TokenAtComplete(s, i + 5, v);
    }
  }


  /** Where a greedy `.*` begun at `k` stops: the first line terminator, or the end. */
  function LineEnd(s: string, k: nat): (e: nat)
    requires k <= |s|
    ensures k <= e <= |s|
    ensures NoLineTerminator(s[k..e])
    ensures e < |s| ==> IsLineTerminator(s[e])
    decreases |s| - k
  {
    if k == |s| || IsLineTerminator(s[k]) then k
    else
      var e := LineEnd(s, k + 1);
      assert s[k..e] == [s[k]] + s[k + 1..e];
      e
  }

  /** A successful `find`: where the match starts, the `version` group, and where it ends. */
  datatype RegexMatch = RegexMatch(start: nat, version: string, end: nat)

  /** `find()` resumed at index `i`: the leftmost match starting at `i` or later. */
  function FindFrom(s: string, i: nat): (r: Option<RegexMatch>)
    requires i <= |s|
    ensures r.Some? ==> i <= r.value.start && PrefixAt(s, r.value.start) == Some(r.value.version)
    ensures r.Some? ==> r.value.end == LineEnd(s, r.value.start + |r.value.version| + 6)
    decreases |s| - i
  {
    match PrefixAt(s, i)
    case Some(v) => Some(RegexMatch(i, v, LineEnd(s, i + |v| + 6)))
    case None => if i == |s| then None else FindFrom(s, i + 1)
  }

  /** The match reported is the leftmost one, and none is reported only when there is none. */
  lemma {:induction false} FindFromLeftmost(s: string, i: nat)
    requires i <= |s|
    ensures FindFrom(s, i).Some? ==> forall j :: i <= j < FindFrom(s, i).value.start ==> PrefixAt(s, j).None?
    ensures FindFrom(s, i).None? ==> forall j :: i <= j <= |s| ==> PrefixAt(s, j).None?
    decreases |s| - i
  {
    if PrefixAt(s, i).None? && i < |s| {
      FindFromLeftmost(s, i + 1);
    }
  }

  /** `VERSIONED_PATH_REGEX.matcher(s).find()`. */
  function Find(s: string): (r: Option<RegexMatch>)
    ensures r.Some? ==> r.value.start + |r.value.version| + 6 <= r.value.end <= |s|
  {
    FindFrom(s, 0)
  }

  /** `VERSIONED_PATH_REGEX.matcher(s).matches()`: the `version` group when the whole string matches. */
  function FullMatch(s: string): (r: Option<string>) {
    match PrefixAt(s, 0)
    case Some(v) => if NoLineTerminator(s[|v| + 6..]) then Some(v) else None
    case None => None
  }

  /** A whole-string match has the shape of the grammar... */
  lemma FullMatchSound(s: string)
    requires FullMatch(s).Some?
    ensures var v := FullMatch(s).value;
      && IsVersionToken(v)
      && s == "/api/" + v + "/" + s[|v| + 6..]
      && NoLineTerminator(s[|v| + 6..])
  {
    var v := FullMatch(s).value;
    assert s[..5] == "/api/";
    assert s[5..|v| + 6] == v + "/";
    assert s == s[..5] + s[5..|v| + 6] + s[|v| + 6..];
  }

  /** ... and every string of that shape matches whole, with that version group. */
  lemma FullMatchComplete(v: string, rest: string)
    requires IsVersionToken(v) && NoLineTerminator(rest)
    ensures FullMatch("/api/" + v + "/" + rest) == Some(v)
  {
    var s := "/api/" + v + "/" + rest;
    assert s[..5] == "/api/";
    assert s[5..5 + |v| + 1] == v + "/";
    TokenAtComplete(s, 5, v);
    assert s[|v| + 6..] == rest;
  }

  /** A whole-string match is also what `find` reports, as the leftmost match starting at 0. */
  lemma FullMatchIsFound(s: string)
    requires FullMatch(s).Some?
    ensures Find(s) == Some(RegexMatch(0, FullMatch(s).value, |s|))
  {
    var v := FullMatch(s).value;
    var rest := s[|v| + 6..];
    forall i | |v| + 6 <= i < |s| ensures !IsLineTerminator(s[i]) {
      assert s[i] == rest[i - (|v| + 6)];
    }
  }

  /** `find` looks anywhere while `matches` wants the whole string: the two differ. */
  lemma FindIsNotFullMatch()
    ensures Find("/x/api/v1/y").Some? && FullMatch("/x/api/v1/y").None?
  {
    var s := "/x/api/v1/y";
    assert s[2..7] == "/api/";
    assert s[7] == 'v' && s[8] == '1' && s[9] == '/' && s[7..9] == "v1";
    assert TokenAt(s, 7) == Some("v1");
    assert PrefixAt(s, 2) == Some("v1");
    assert s[..5][1] == 'x';
    assert !OccursAt(s, "/api/", 0);
    FindFromLeftmost(s, 0);
  }

  // ---------------------------------------------------------------- version numbers

  /** The numbers `getApiVersion` can return once the regex has matched. */
  predicate IsApiVersion(x: int) { 0 <= x <= 99 || x == IntMax }

  lemma DigitsValueSmall(d: string)
    requires AllAsciiDigits(d) && 1 <= |d| <= 2
    ensures DigitsValue(d) <= 99
  {
    assert AllAsciiDigits(d[..|d| - 1]);
    if |d| == 2 {
      var h := d[..1];
      assert h[..0] == [];
      assert DigitsValue(h) == DigitValue(h[0]) <= 9;
    } else {
      assert d[..0] == [];
    }
  }

  /** `getApiVersion(matcher)`: `latest` is `Integer.MAX_VALUE`, `vN` is `parseInt(N)`.
      The group is mandatory, so the `MIN_VALUE` branch for an absent group has no counterpart. */
  function ApiVersion(token: string): (r: int)
    requires IsVersionToken(token)
    ensures IsApiVersion(r) && IsInt32(r)
    ensures r == IntMax <==> token == "latest"
    ensures token != "latest" ==> r == DigitsValue(token[1..])
  {
    if token == "latest" then IntMax
    else
      DigitsValueSmall(token[1..]);
      ParseInt(token[1..]).value
  }

  /** Two spellings of one number are one version: `v1` and `v01` are both 1. */
  lemma LeadingZeroSameVersion()
    ensures ApiVersion("v01") == ApiVersion("v1") == 1
  {
    assert "v01"[1..] == "01" && "01"[..1] == "0";
    assert "v1"[1..] == "1";
  }

  // ---------------------------------------------------------------- doMatch

  /** The text of the match: `matcher.group()`. */
  function Group(s: string, m: RegexMatch): string
    requires m.start <= m.end <= |s|
  {
    s[m.start..m.end]
  }

  /** What follows `/api/<version>/` in the match. */
  function Remainder(s: string, m: RegexMatch): string
    requires m.start + |m.version| + 6 <= m.end <= |s|
  {
    s[m.start + |m.version| + 6..m.end]
  }

  /** `wildcardVersionApi(matcher)`: the matched text with its version replaced by `*`. */
  function WildcardVersionApi(s: string, m: RegexMatch): string
    requires m.start <= m.end <= |s|
  {
    ReplaceFirst(Group(s, m), m.version, "*")
  }

  /** The first occurrence of the version inside the match is the version group itself,
      because `/api/` holds neither a `v` nor an `l`; so the wildcard pattern is
      `/api/`, a star, a slash and the remainder, and whatever preceded the match is dropped. */
  lemma {:induction false} WildcardShape(s: string)
    requires Find(s).Some?
    ensures var m := Find(s).value; WildcardVersionApi(s, m) == "/api/*/" + Remainder(s, m)
  {
    var m := Find(s).value;
    WildcardShapeAt(s, m);
  }

  lemma WildcardShapeAt(s: string, m: RegexMatch)
    requires PrefixAt(s, m.start) == Some(m.version)
    requires m.start + |m.version| + 6 <= m.end <= |s|
    ensures WildcardVersionApi(s, m) == "/api/*/" + Remainder(s, m)
  {
    var v := m.version;
    var g := Group(s, m);
    MatchText(s, m);
    VersionFirstAtFive(g, v);
    assert ReplaceFirst(g, v, "*") == g[..5] + "*" + g[5 + |v|..];
  }

  /** The matched text is `/api/`, the version, a slash and the remainder. */
  lemma MatchText(s: string, m: RegexMatch)
    requires PrefixAt(s, m.start) == Some(m.version)
    requires m.start + |m.version| + 6 <= m.end <= |s|
    ensures Group(s, m)[..5] == "/api/" && OccursAt(Group(s, m), m.version, 5)
    ensures Group(s, m)[5 + |m.version|..] == "/" + Remainder(s, m)
  {
    assert OccursAt(s, "/api/", m.start) && OccursAt(s, m.version + "/", m.start + 5);
    SliceText(s, m.start, m.end, m.version);
  }

  lemma SliceText(s: string, i: nat, e: nat, v: string)
    requires i + |v| + 6 <= e <= |s|
    requires OccursAt(s, "/api/", i) && OccursAt(s, v + "/", i + 5)
    ensures s[i..e][..5] == "/api/" && OccursAt(s[i..e], v, 5)
    ensures s[i..e][5 + |v|..] == "/" + s[i + |v| + 6..e]
  {
    var g := s[i..e];
    assert g[..5] == s[i..i + 5];
    var w := s[i + 5..i + 5 + |v| + 1];
    assert w == v + "/" && w[..|v|] == v;
    assert forall k :: 0 <= k < |v| ==> g[5 + k] == s[i + 5 + k] == w[k];
    assert g[5..5 + |v|] == w[..|v|];
    assert g[5 + |v|] == s[i + 5 + |v|] == w[|v|];
    assert g[5 + |v|..] == [g[5 + |v|]] + g[6 + |v|..];
    assert g[6 + |v|..] == s[i + |v| + 6..e];
  }

  /** Inside `/api/<version>/…`, the version first occurs right after `/api/`: the prefix holds
      neither a `v` nor an `l`. */
  lemma VersionFirstAtFive(g: string, v: string)
    requires IsVersionToken(v) && 5 + |v| <= |g| && g[..5] == "/api/" && OccursAt(g, v, 5)
    ensures IndexOf(g, v) == Some(5)
  {
    assert v[0] == 'v' || v[0] == 'l';
    forall j | 0 <= j < 5 ensures !OccursAt(g, v, j) {
      assert g[j] == g[..5][j];
      assert j + |v| <= |g| ==> g[j..j + |v|][0] == g[j];
    }
  }

  type Variables = map<string, string>

  /** What `AntPathMatcher.doMatch` returns and what it leaves in `uriTemplateVariables`. */
  datatype MatchResult = MatchResult(matched: bool, variables: Variables)

  /** The generic `AntPathMatcher.doMatch` (pattern, path, fullMatch, variables): not modelled. */
  type GenericDoMatch = (string, Option<string>, bool, Variables) -> MatchResult

  /** `doMatch`: the generic match, gated on the request's version being at least the pattern's. */
  function DoMatch(generic: GenericDoMatch, pattern: string, path: Option<string>, fullMatch: bool, vars: Variables): (r: MatchResult)
    ensures path.None? ==> r == generic(pattern, path, fullMatch, vars)
    ensures path.Some? && (Find(pattern).None? || Find(path.value).None?) ==>
      r == generic(pattern, path, fullMatch, vars)
    ensures path.Some? && Find(pattern).Some? && Find(path.value).Some? ==>
      var pat := Find(pattern).value;
      var req := Find(path.value).value;
      if ApiVersion(req.version) >= ApiVersion(pat.version) then
        r == generic("/api/*/" + Remainder(pattern, pat), path, fullMatch, vars)
      else
        r == MatchResult(false, vars)
  {
    if path.None? then generic(pattern, path, fullMatch, vars)
    else
      var patternMatch := Find(pattern);
      var pathMatch := Find(path.value);
      if patternMatch.None? || pathMatch.None? then generic(pattern, path, fullMatch, vars)
      else if ApiVersion(pathMatch.value.version) >= ApiVersion(patternMatch.value.version) then
        WildcardShape(pattern);
        generic(WildcardVersionApi(pattern, patternMatch.value), path, fullMatch, vars)
      else MatchResult(false, vars)
  }

  /** A match between versioned strings means the request's version is at least the pattern's. */
  lemma DoMatchRespectsVersion(generic: GenericDoMatch, pattern: string, path: string, fullMatch: bool, vars: Variables)
    requires Find(pattern).Some? && Find(path).Some?
    ensures DoMatch(generic, pattern, Some(path), fullMatch, vars).matched ==>
      ApiVersion(Find(path).value.version) >= ApiVersion(Find(pattern).value.version)
  {
  }

  /** A request of lower version never matches a higher-version pattern, and the
      generic matcher is not consulted, so no template variable is extracted. */
  lemma LowerRequestNeverMatches(generic: GenericDoMatch, pattern: string, path: string, fullMatch: bool, vars: Variables)
    requires Find(pattern).Some? && Find(path).Some?
    requires ApiVersion(Find(path).value.version) < ApiVersion(Find(pattern).value.version)
    ensures DoMatch(generic, pattern, Some(path), fullMatch, vars) == MatchResult(false, vars)
  {
  }

  /** A `latest` request passes the version gate of every pattern: only the generic
      match of the wildcarded pattern decides. */
  lemma LatestRequestPasses(generic: GenericDoMatch, pattern: string, path: string, fullMatch: bool, vars: Variables)
    requires Find(pattern).Some? && Find(path).Some? && Find(path).value.version == "latest"
    ensures DoMatch(generic, pattern, Some(path), fullMatch, vars)
         == generic("/api/*/" + Remainder(pattern, Find(pattern).value), Some(path), fullMatch, vars)
  {
  }

  /** A `latest` pattern admits only `latest` requests. */
  lemma LatestPatternOnlyLatest(generic: GenericDoMatch, pattern: string, path: string, fullMatch: bool, vars: Variables)
    requires Find(pattern).Some? && Find(path).Some? && Find(pattern).value.version == "latest"
    ensures DoMatch(generic, pattern, Some(path), fullMatch, vars).matched ==> Find(path).value.version == "latest"
  {
  }

  /** A string of the grammar is found whole, and its remainder is what follows the version. */
  lemma FoundWhole(v: string, rest: string)
    requires IsVersionToken(v) && NoLineTerminator(rest)
    ensures var s := "/api/" + v + "/" + rest;
      && Find(s) == Some(RegexMatch(0, v, |s|))
      && Remainder(s, Find(s).value) == rest
  {
    var s := "/api/" + v + "/" + rest;
    FullMatchComplete(v, rest);
    FullMatchIsFound(s);
    assert s[|v| + 6..] == rest;
  }

  lemma SmallVersions()
    ensures ApiVersion("v1") == 1 && ApiVersion("v2") == 2 && ApiVersion("v3") == 3
  {
    assert "v1"[1..] == "1" && "v2"[1..] == "2" && "v3"[1..] == "3";
    assert "1"[..0] == [] && "2"[..0] == [] && "3"[..0] == [];
  }

  /** The controllers' case: a `v2` request against a `v1` pattern is decided by the generic
      matcher on the wildcarded pattern; against a `v3` pattern it fails outright. */
  lemma DoMatchAcrossVersions(generic: GenericDoMatch, vars: Variables, patternRest: string, pathRest: string)
    requires NoLineTerminator(patternRest) && NoLineTerminator(pathRest)
    ensures var path := Some("/api/v2/" + pathRest);
      && DoMatch(generic, "/api/v1/" + patternRest, path, true, vars)
         == generic("/api/*/" + patternRest, path, true, vars)
      && DoMatch(generic, "/api/v3/" + patternRest, path, true, vars) == MatchResult(false, vars)
  {
    assert "/api/v1/" + patternRest == "/api/" + "v1" + "/" + patternRest;
    assert "/api/v3/" + patternRest == "/api/" + "v3" + "/" + patternRest;
    assert "/api/v2/" + pathRest == "/api/" + "v2" + "/" + pathRest;
    FoundWhole("v1", patternRest);
    FoundWhole("v3", patternRest);
    FoundWhole("v2", pathRest);
    SmallVersions();
  }

  // ---------------------------------------------------------------- the pattern comparator

  /** The generic specificity comparator `super.getPatternComparator(path)`: not modelled. */
  type GenericComparator = (Option<string>, Option<string>) -> int

  /** The version stage of `getPatternComparator(path)`, as a Java `int`. */
  function VersionStage(path: string, p1: Option<string>, p2: Option<string>): (r: int)
    ensures IsInt32(r)
  {
    if p1.None? || p2.None? then 0
    else
      var pathMatch := FullMatch(path);
      var m1 := FullMatch(p1.value);
      var m2 := FullMatch(p2.value);
      if pathMatch.Some? && m1.Some? && m2.Some? then
        var pathVersion := ApiVersion(pathMatch.value);
        var v1 := ApiVersion(m1.value);
        var v2 := ApiVersion(m2.value);
        if v1 == pathVersion && v2 == pathVersion then 0
        else if v1 == pathVersion then -1
        else if v2 == pathVersion then 1
        else WrapInt32(v2 - v1)
      else 0
  }

  /** `getPatternComparator(path).compare(p1, p2)`: the version stage, `thenComparing` the generic one. */
  function ComparePatterns(path: string, generic: GenericComparator, p1: Option<string>, p2: Option<string>): int {
    var c := VersionStage(path, p1, p2);
    if c != 0 then c else generic(p1, p2)
  }

  function Sign(x: int): int { if x < 0 then -1 else if x > 0 then 1 else 0 }

  /** All three strings carry a whole-string version. */
  predicate AllVersioned(path: string, p1: Option<string>, p2: Option<string>) {
    p1.Some? && p2.Some? && FullMatch(path).Some? && FullMatch(p1.value).Some? && FullMatch(p2.value).Some?
  }

  function PathVersion(path: string): int
    requires FullMatch(path).Some?
  {
    ApiVersion(FullMatch(path).value)
  }

  /** The order the version stage is meant to follow, stated on its own: the path's own
      version first, then the other versions from the highest down. Lower rank sorts first. */
  function Rank(pathVersion: int, v: int): int {
    if v == pathVersion then 0 else 1 + IntMax - v
  }

  /** The difference of two versions never wraps around in 32 bits. */
  lemma VersionDifferenceFits(a: int, b: int)
    requires IsApiVersion(a) && IsApiVersion(b)
    ensures IsInt32(b - a) && WrapInt32(b - a) == b - a
  {
  }

  /** The version stage orders patterns exactly by `Rank`. */
  lemma StageFollowsRank(path: string, p1: Option<string>, p2: Option<string>)
    requires AllVersioned(path, p1, p2)
    ensures Sign(VersionStage(path, p1, p2))
         == Sign(Rank(PathVersion(path), PathVersion(p1.value)) - Rank(PathVersion(path), PathVersion(p2.value)))
  {
    VersionDifferenceFits(PathVersion(p1.value), PathVersion(p2.value));
  }
  /** The whole comparator: when all three strings are versioned, patterns of different rank
      are ordered by `Rank` and patterns of equal rank by the generic comparator; otherwise the
      generic comparator decides alone. */
  lemma CompareByRankThenGeneric(path: string, generic: GenericComparator, p1: Option<string>, p2: Option<string>)
    ensures AllVersioned(path, p1, p2) ==>
      var r1 := Rank(PathVersion(path), PathVersion(p1.value));
      var r2 := Rank(PathVersion(path), PathVersion(p2.value));
      if r1 != r2 then Sign(ComparePatterns(path, generic, p1, p2)) == Sign(r1 - r2)
      else ComparePatterns(path, generic, p1, p2) == generic(p1, p2)
    ensures !AllVersioned(path, p1, p2) ==> ComparePatterns(path, generic, p1, p2) == generic(p1, p2)
  {
    if AllVersioned(path, p1, p2) {
      StageFollowsRank(path, p1, p2);
    }
  }


  /** A pattern with the path's version comes before one with another version. */
  lemma SameVersionFirst(path: string, generic: GenericComparator, p1: Option<string>, p2: Option<string>)
    requires AllVersioned(path, p1, p2)
    requires PathVersion(p1.value) == PathVersion(path) != PathVersion(p2.value)
    ensures ComparePatterns(path, generic, p1, p2) < 0 && ComparePatterns(path, generic, p2, p1) > 0
  {
  }

  /** Two patterns with the path's version are left to the generic comparator. */
  lemma SameVersionTie(path: string, generic: GenericComparator, p1: Option<string>, p2: Option<string>)
    requires AllVersioned(path, p1, p2)
    requires PathVersion(p1.value) == PathVersion(path) == PathVersion(p2.value)
    ensures VersionStage(path, p1, p2) == 0
    ensures ComparePatterns(path, generic, p1, p2) == generic(p1, p2)
  {
  }

  /** Otherwise the higher version comes first, and equal versions are left to the generic comparator. */
  lemma OtherVersionsDescending(path: string, generic: GenericComparator, p1: Option<string>, p2: Option<string>)
    requires AllVersioned(path, p1, p2)
    requires PathVersion(p1.value) != PathVersion(path) && PathVersion(p2.value) != PathVersion(path)
    ensures PathVersion(p1.value) > PathVersion(p2.value) ==> ComparePatterns(path, generic, p1, p2) < 0
    ensures PathVersion(p1.value) < PathVersion(p2.value) ==> ComparePatterns(path, generic, p1, p2) > 0
    ensures PathVersion(p1.value) == PathVersion(p2.value) ==> ComparePatterns(path, generic, p1, p2) == generic(p1, p2)
  {
    VersionDifferenceFits(PathVersion(p1.value), PathVersion(p2.value));
  }

  /** A null pattern, or any of the three strings outside the grammar, leaves the order to the
      generic comparator: unversioned routes keep their usual order. */
  lemma UnversionedFallsThrough(path: string, generic: GenericComparator, p1: Option<string>, p2: Option<string>)
    requires !AllVersioned(path, p1, p2)
    ensures VersionStage(path, p1, p2) == 0
    ensures ComparePatterns(path, generic, p1, p2) == generic(p1, p2)
  {
  }

  /** The version stage is antisymmetric in sign. */
  lemma StageAntisymmetric(path: string, p1: Option<string>, p2: Option<string>)
    ensures Sign(VersionStage(path, p1, p2)) == -Sign(VersionStage(path, p2, p1))
  {
    if AllVersioned(path, p1, p2) {
      StageFollowsRank(path, p1, p2);
      StageFollowsRank(path, p2, p1);
    }
  }

  /** The version stage is transitive: it ranks consistently. */
  lemma StageTransitive(path: string, p1: Option<string>, p2: Option<string>, p3: Option<string>)
    requires VersionStage(path, p1, p2) < 0 && VersionStage(path, p2, p3) < 0
    ensures VersionStage(path, p1, p3) < 0
  {
    StageFollowsRank(path, p1, p2);
    StageFollowsRank(path, p2, p3);
    StageFollowsRank(path, p1, p3);
  }

  /** Whole-string versions of the documented example's patterns. */
  lemma DocumentedVersions(r: string)
    requires NoLineTerminator(r)
    ensures FullMatch("/api/v1/" + r) == Some("v1")
    ensures FullMatch("/api/v2/" + r) == Some("v2")
    ensures FullMatch("/api/v3/" + r) == Some("v3")
  {
    assert "/api/v1/" + r == "/api/" + "v1" + "/" + r;
    assert "/api/v2/" + r == "/api/" + "v2" + "/" + r;
    assert "/api/v3/" + r == "/api/" + "v3" + "/" + r;
    FullMatchComplete("v1", r);
    FullMatchComplete("v2", r);
    FullMatchComplete("v3", r);
  }

  /** The documented example: for a `v2` path such as `/api/v2/hotels/2`, the `v2` patterns come
      first, then the `v3` ones, then the `v1` ones, and within one version the generic order holds. */
  lemma DocumentedOrder(generic: GenericComparator, pathRest: string, r1: string, r2: string)
    requires NoLineTerminator(pathRest) && NoLineTerminator(r1) && NoLineTerminator(r2)
    ensures var path := "/api/v2/" + pathRest;
      && ComparePatterns(path, generic, Some("/api/v2/" + r1), Some("/api/v3/" + r2)) < 0
      && ComparePatterns(path, generic, Some("/api/v3/" + r1), Some("/api/v1/" + r2)) < 0
      && ComparePatterns(path, generic, Some("/api/v2/" + r1), Some("/api/v1/" + r2)) < 0
      && ComparePatterns(path, generic, Some("/api/v2/" + r1), Some("/api/v2/" + r2))
         == generic(Some("/api/v2/" + r1), Some("/api/v2/" + r2))
      && ComparePatterns(path, generic, Some("/api/v3/" + r1), Some("/api/v3/" + r2))
         == generic(Some("/api/v3/" + r1), Some("/api/v3/" + r2))
      && ComparePatterns(path, generic, Some("/api/v1/" + r1), Some("/api/v1/" + r2))
         == generic(Some("/api/v1/" + r1), Some("/api/v1/" + r2))
  {
    DocumentedVersions(pathRest);
    DocumentedVersions(r1);
    DocumentedVersions(r2);
    SmallVersions();
  }
}
