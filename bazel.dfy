/**
 * The rule index and coordinate resolver: how a Bazel label is classified, which
 * rules of the query dump count (the build-file location filter), what the
 * children of a label are (with the per-label cache), and how a dependency label
 * becomes a `name@version` coordinate for the maven and pip package sources.
 *
 * The XML dump is taken as already parsed: a rule is a record of its name, its
 * location and the attribute lists the tool reads.
 */
module Bazel {
  import opened PyStr

  datatype NodeType = InternalTarget | ExternalTarget | Dependency | Other

  /** The package sources the tool knows, each with the repository alias of its rules. */
  datatype PackageSource = Maven | Pip

  function Alias(src: PackageSource): string {
    if src == Maven then "@maven" else "@py_deps"
  }

  /** One `<rule>` of the query dump. */
  datatype Rule = Rule(
    name: string,
    location: string,
    deps: seq<seq<string>>,         // each `list name="deps"` of the rule, in document order
    runtimeDeps: seq<seq<string>>,  // each `list name="runtime_deps"`
    tags: seq<string>,              // the `string` values under `list name="tags"`
    data: seq<string>)              // the `label` values under `list name="data"`

  // ---------------------------------------------------------------------------
  // The build-file location filter

  predicate IsDigit(ch: char) { '0' <= ch <= '9' }

  predicate IsNumber(s: string) {
    |s| > 0 && forall i :: 0 <= i < |s| ==> IsDigit(s[i])
  }

  predicate IsBuildFile(path: string) {
    EndsWith(path, "/BUILD") || EndsWith(path, "/BUILD.bzl") || EndsWith(path, "/BUILD.bazel")
  }

  /** The start of the run of digits that ends at `e`: `s[b..e]` is all digits and `s[b - 1]` is not one. */
  function DigitRunStart(s: string, e: nat): (b: nat)
    requires e <= |s|
    ensures b <= e
  {
    if e == 0 || !IsDigit(s[e - 1]) then e else DigitRunStart(s, e - 1)
  }

  lemma {:induction false} DigitRunStartSpec(s: string, e: nat)
    requires e <= |s|
    ensures var b := DigitRunStart(s, e);
            && (forall k :: b <= k < e ==> IsDigit(s[k]))
            && (b == 0 || !IsDigit(s[b - 1]))
  {
    if e > 0 && IsDigit(s[e - 1]) {
      DigitRunStartSpec(s, e - 1);
    }
  }

  /**
   * The location filter (any path ending in `/BUILD`, `/BUILD.bzl` or `/BUILD.bazel`,
   * then `:line:column` at the very end), read from the right: a non-empty run of
   * digits at the end with a colon before it, another such run before that colon,
   * and a build file before the second colon.
   */
  predicate IsBuildLocation(loc: string) {
    var col := DigitRunStart(loc, |loc|);
    0 < col < |loc| && loc[col - 1] == ':' &&
    var line := DigitRunStart(loc, col - 1);
    0 < line < col - 1 && loc[line - 1] == ':' && IsBuildFile(loc[..line - 1])
  }

  /** The same pattern as a regular-expression engine reads it: some choice of the two colons works. */
  ghost predicate MatchesLocationPattern(loc: string) {
    exists i, j :: 0 <= i < j < |loc| && loc[i] == ':' && loc[j] == ':' &&
      IsBuildFile(loc[..i]) && IsNumber(loc[i + 1..j]) && IsNumber(loc[j + 1..])
  }

  /** A digit run ending at `e` and preceded by a colon is exactly the maximal run. */
  lemma DigitRunAfterColon(s: string, i: nat, e: nat)
    requires i < e <= |s| && s[i] == ':' && IsNumber(s[i + 1..e])
    ensures DigitRunStart(s, e) == i + 1
  {
    DigitRunStartSpec(s, e);
    var b := DigitRunStart(s, e);
    assert forall k :: i + 1 <= k < e ==> IsDigit(s[k]) by {
      forall k | i + 1 <= k < e ensures IsDigit(s[k]) {
        assert s[k] == s[i + 1..e][k - i - 1];
      }
    }
  }

  lemma PatternIsBuildLocation(loc: string, i: nat, j: nat)
    requires i < j < |loc| && loc[i] == ':' && loc[j] == ':'
    requires IsBuildFile(loc[..i]) && IsNumber(loc[i + 1..j]) && IsNumber(loc[j + 1..])
    ensures IsBuildLocation(loc)
  {
    assert loc[j + 1..|loc|] == loc[j + 1..];
    DigitRunAfterColon(loc, j, |loc|);
    DigitRunAfterColon(loc, i, j);
    assert DigitRunStart(loc, |loc|) == j + 1;
    assert DigitRunStart(loc, j) == i + 1;
  }

  lemma BuildLocationMatchesPattern(loc: string)
    requires IsBuildLocation(loc)
    ensures MatchesLocationPattern(loc)
  {
    var col := DigitRunStart(loc, |loc|);
    var line := DigitRunStart(loc, col - 1);
    DigitRunStartSpec(loc, |loc|);
    DigitRunStartSpec(loc, col - 1);
    assert IsNumber(loc[col..]);
    assert IsNumber(loc[line..col - 1]);
    assert loc[line - 1] == ':' && loc[col - 1] == ':';
  }

  /** Reading the pattern from the right loses no match and invents none. */
  lemma BuildLocationIsPattern(loc: string)
    ensures IsBuildLocation(loc) <==> MatchesLocationPattern(loc)
  {
    if MatchesLocationPattern(loc) {
      var i, j :| 0 <= i < j < |loc| && loc[i] == ':' && loc[j] == ':' &&
        IsBuildFile(loc[..i]) && IsNumber(loc[i + 1..j]) && IsNumber(loc[j + 1..]);
      PatternIsBuildLocation(loc, i, j);
    }
    if IsBuildLocation(loc) {
      BuildLocationMatchesPattern(loc);
    }
  }

  // ---------------------------------------------------------------------------
  // Node classification

  /** A label of any known package source, whichever source is active. */
  predicate IsDependencyLabel(id: string) {
    StartsWith(id, Alias(Maven)) || StartsWith(id, Alias(Pip))
  }

  /** `^//.+:.+$`: a colon with at least one character on each side after the leading `//`. */
  predicate IsInternalLabel(id: string) {
    StartsWith(id, "//") && exists j :: 3 <= j < |id| - 1 && id[j] == ':'
  }

  /** `^(@.+)?//.*:.*$`: an optional `@repo`, then `//`, then a colon somewhere after it. */
  predicate IsExternalLabel(id: string) {
    exists i, j :: 0 <= i < j < |id| && (i == 0 || (2 <= i && id[0] == '@')) &&
      i + 2 <= j && id[i] == '/' && id[i + 1] == '/' && id[j] == ':'
  }

  /** `get_node_type`: the first of the four shapes that fits, in this order. */
  function GetNodeType(id: string): NodeType {
    if IsDependencyLabel(id) then Dependency
    else if IsInternalLabel(id) then InternalTarget
    else if IsExternalLabel(id) then ExternalTarget
    else Other
  }

  /** A label under the alias of any source is a dependency, even one shaped like a target. */
  lemma DependencyWins(id: string, src: PackageSource)
    requires StartsWith(id, Alias(src))
    ensures GetNodeType(id) == Dependency
  {
  }

  /** `//path:name` with both parts non-empty is an internal target. */
  lemma InternalTargetLabel(path: string, name: string)
    requires |path| > 0 && |name| > 0
    ensures GetNodeType("//" + path + ":" + name) == InternalTarget
  {
    var id := "//" + path + ":" + name;
    assert id[2 + |path|] == ':';
    assert StartsWith(id, "//");
    assert id[0] == '/';
  }

  /** `@repo//path:name` outside the package-source repositories is an external target. */
  lemma ExternalTargetLabel(repo: string, path: string, name: string)
    requires |repo| > 0
    requires !IsDependencyLabel("@" + repo + "//" + path + ":" + name)
    ensures GetNodeType("@" + repo + "//" + path + ":" + name) == ExternalTarget
  {
    var id := "@" + repo + "//" + path + ":" + name;
    var i := 1 + |repo|;
    assert id[0] == '@' && id[i] == '/' && id[i + 1] == '/' && id[i + 2 + |path|] == ':';
    assert !StartsWith(id, "//") by { assert id[..2][0] == '@'; }
  }

  /** An empty package path makes `//:name` fail the internal shape, so it is classified external. */
  lemma RootPackageTargetIsExternal(name: string)
    requires ':' !in name
    ensures GetNodeType("//:" + name) == ExternalTarget
  {
    var id := "//:" + name;
    assert id[0] == '/' && id[1] == '/' && id[2] == ':';
    assert !StartsWith(id, Alias(Maven)) by { if 6 <= |id| { assert id[..6][0] == '/'; } }
    assert !StartsWith(id, Alias(Pip)) by { if 8 <= |id| { assert id[..8][0] == '/'; } }
    forall j | 3 <= j < |id| - 1
      ensures id[j] != ':'
    {
      assert id[j] == name[j - 3];
    }
  }

  /** Without a colon a label is no target; unless it names a package source it is `Other`. */
  lemma NoColonIsOther(id: string)
    requires ':' !in id && !IsDependencyLabel(id)
    ensures GetNodeType(id) == Other
  {
  }

  /** Every internal label also has the external shape, so the order of the two tests decides. */
  lemma InternalHasExternalShape(id: string)
    requires IsInternalLabel(id)
    ensures IsExternalLabel(id)
  {
    var j :| 3 <= j < |id| - 1 && id[j] == ':';
    assert id[..2] == "//";
    assert id[0] == '/' && id[1] == '/';
  }

  // ---------------------------------------------------------------------------
  // Canonical `name@version` forms

  /** `maven_bazel_dep_to_snyk_dep`: the right-most `:` of `group:artifact:version` becomes `@`. */
  function MavenToSnyk(coordinates: string): string {
    ReplaceRightmost(coordinates, ':')
  }

  /** On coordinates with a colon only the last colon changes: prefix, suffix and length stay. */
  lemma MavenToSnykReplacesLastColon(coordinates: string)
    requires ':' in coordinates
    ensures var k := RFind(coordinates, ':');
            var r := MavenToSnyk(coordinates);
            && r == coordinates[..k] + "@" + coordinates[k + 1..]
            && |r| == |coordinates|
            && ':' !in r[k + 1..]
  {
    ReplaceRightmostFound(coordinates, ':');
  }

  lemma MavenToSnykExample()
    ensures MavenToSnyk("com.google.guava:guava:28.0-jre") == "com.google.guava:guava@28.0-jre"
  {
    var c := "com.google.guava:guava:28.0-jre";
    assert c == "com.google.guava:guava" + [':'] + "28.0-jre";
    RFindAfter("com.google.guava:guava", ':', "28.0-jre");
  }

  /** "dist-info" starts right after position `q`, the character the pattern's bare `.` matches. */
  predicate DistInfoAt(s: string, q: int) {
    0 <= q && q + 10 <= |s| && s[q + 1..q + 10] == "dist-info"
  }

  predicate PypiMarkerAt(s: string, p: int) {
    0 <= p && p + 8 <= |s| && s[p..p + 8] == "//pypi__"
  }

  /** The largest `q` with `DistInfoAt(s, q)` whose "dist-info" ends by `e`, or -1. */
  function LastDistInfo(s: string, e: int): (q: int)
    requires e <= |s|
    ensures q == -1 || (DistInfoAt(s, q) && q + 10 <= e)
    ensures forall q' :: q < q' && q' + 10 <= e ==> !DistInfoAt(s, q')
    decreases e
  {
    if e < 10 then -1
    else if DistInfoAt(s, e - 10) then e - 10
    else LastDistInfo(s, e - 1)
  }

  /**
   * The group captured by `re.search(r"\@.*\/\/pypi__.*\:(.*).dist\-info.*\/", s)`.
   * With greedy stars the match ends at the last "dist-info" that still has a `/`
   * after it; the group starts after the last colon before that, and that colon
   * must follow some "//pypi__", which must follow an `@`.
   */
  function PipDistribution(s: string): (g: Option<string>)
    ensures g.Some? ==> ':' !in g.value
  {
    var q := LastDistInfo(s, RFind(s, '/'));
    if q < 0 then None
    else
      var colon := RFind(s[..q], ':');
      var at := IndexOf(s, '@');
      if colon >= 0 && at >= 0 && exists p :: at < p && p + 8 <= colon && PypiMarkerAt(s, p) then
        assert forall k :: colon < k < q ==> s[k] == s[..q][k];
        Some(s[colon + 1..q])
      else None
  }

  /** `pip_bazel_dep_to_snyk_dep`: the captured distribution with its right-most `-` turned into `@`. */
  function PipToSnyk(coordinates: string): string {
    match PipDistribution(coordinates)
    case None => coordinates
    case Some(dist) => ReplaceRightmost(dist, '-')
  }

  /** Without a match the label is returned unchanged. */
  lemma PipToSnykUnmatched(coordinates: string)
    requires PipDistribution(coordinates).None?
    ensures PipToSnyk(coordinates) == coordinates
  {
  }

  /**
   * The capture, stated on positions: an `@` at the start, `//pypi__` at `p`, the
   * colon at `c` with no colon after it up to `q`, "dist-info" after `q`, and the
   * last `/` of the label right after it.
   */
  lemma PipDistributionAt(s: string, p: nat, c: nat, q: nat)
    requires 0 < |s| && s[0] == '@'
    requires 0 < p && PypiMarkerAt(s, p) && p + 8 <= c < q
    requires DistInfoAt(s, q) && q + 10 < |s| && s[q + 10] == '/'
    requires s[c] == ':' && forall k :: c < k < q ==> s[k] != ':'
    requires forall k :: q + 10 < k < |s| ==> s[k] != '/'
    ensures PipDistribution(s) == Some(s[c + 1..q])
  {
    RFindUnique(s, '/', q + 10);
    assert LastDistInfo(s, q + 10) == q;
    assert forall k :: c < k < q ==> s[..q][k] == s[k];
    RFindUnique(s[..q], ':', c);
    assert IndexOf(s, '@') == 0;
  }

  /** The canonical form of a label whose capture is found at these positions. */
  lemma PipToSnykOfCapture(s: string, p: nat, c: nat, q: nat)
    requires 0 < |s| && s[0] == '@'
    requires 0 < p && PypiMarkerAt(s, p) && p + 8 <= c < q
    requires DistInfoAt(s, q) && q + 10 < |s| && s[q + 10] == '/'
    requires s[c] == ':' && forall k :: c < k < q ==> s[k] != ':'
    requires forall k :: q + 10 < k < |s| ==> s[k] != '/'
    ensures PipToSnyk(s) == ReplaceRightmost(s[c + 1..q], '-')
  {
    PipDistributionAt(s, p, c, q);
  }

  /** Turning the last `-` of `s[c + 1..q]`, at `d`, into `@`. */
  lemma ReplaceLastDash(s: string, c: nat, d: nat, q: nat)
    requires c < d < q <= |s|
    requires s[d] == '-' && forall k :: d < k < q ==> s[k] != '-'
    ensures ReplaceRightmost(s[c + 1..q], '-') == s[c + 1..d] + "@" + s[d + 1..q]
  {
    var g := s[c + 1..q];
    var i := d - c - 1;
    assert g[i] == '-';
    assert forall k :: i < k < |g| ==> g[k] == s[c + 1 + k];
    RFindUnique(g, '-', i);
    assert g[..i] == s[c + 1..d];
    assert g[i + 1..] == s[d + 1..q];
  }

  /** With the last `-` of the capture at `d`, the canonical form is the text around it joined by `@`. */
  lemma PipToSnykAt(s: string, p: nat, c: nat, d: nat, q: nat)
    requires 0 < |s| && s[0] == '@'
    requires 0 < p && PypiMarkerAt(s, p) && p + 8 <= c < d < q
    requires DistInfoAt(s, q) && q + 10 < |s| && s[q + 10] == '/'
    requires s[c] == ':' && forall k :: c < k < q ==> s[k] != ':'
    requires forall k :: q + 10 < k < |s| ==> s[k] != '/'
    requires s[d] == '-' && forall k :: d < k < q ==> s[k] != '-'
    ensures PipToSnyk(s) == s[c + 1..d] + "@" + s[d + 1..q]
  {
    ReplaceLastDash(s, c, d, q);
    PipToSnykOfCapture(s, p, c, q);
  }

  /**
   * The classic layout `<head>:<dist>.dist-info/<rest>` of a pip data label, with a
   * head `@…//pypi__…`, a distribution with no colon and its last `-` at `d`, and no
   * `/` in the rest, meets the conditions of `PipToSnykAt` at these positions; the
   * canonical form is then the distribution with that `-` turned into `@`.
   */
  lemma DistInfoLayout(head: string, p: nat, dist: string, d: nat, rest: string)
    requires 0 < |head| && head[0] == '@' && 0 < p && PypiMarkerAt(head, p)
    requires ':' !in dist && d < |dist| && dist[d] == '-' && forall k :: d < k < |dist| ==> dist[k] != '-'
    requires '/' !in rest
    ensures var s := head + ":" + dist + ".dist-info/" + rest;
            var c := |head|;
            var q := c + 1 + |dist|;
            && 0 < |s| && s[0] == '@'
            && PypiMarkerAt(s, p) && p + 8 <= c < c + 1 + d < q
            && DistInfoAt(s, q) && q + 10 < |s| && s[q + 10] == '/'
            && s[c] == ':' && (forall k :: c < k < q ==> s[k] != ':')
            && (forall k :: q + 10 < k < |s| ==> s[k] != '/')
            && s[c + 1 + d] == '-' && (forall k :: c + 1 + d < k < q ==> s[k] != '-')
            && s[c + 1..c + 1 + d] == dist[..d] && s[c + 2 + d..q] == dist[d + 1..]
  {
    var tail := ".dist-info/" + rest;
    var s := head + ":" + dist + tail;
    var c := |head|;
    var q := c + 1 + |dist|;
    assert s[p..p + 8] == head[p..p + 8];
    assert forall k :: c < k < q ==> s[k] == dist[k - c - 1];
    assert s[q..] == tail;
    assert s[q + 1..q + 10] == tail[1..10] == "dist-info";
    assert forall k :: q + 10 < k < |s| ==> s[k] == rest[k - q - 11];
    assert s[c + 1..c + 1 + d] == dist[..d];
    assert s[c + 2 + d..q] == dist[d + 1..];
  }

  /** `get_snyk_dep_from_coordinates`: the canonical form of the active source. */
  function ToSnyk(src: PackageSource, coordinates: string): string {
    match src
    case Maven => MavenToSnyk(coordinates)
    case Pip => PipToSnyk(coordinates)
  }

  /** A canonical form keeps or gains an `@`. */
  lemma ToSnykHasAt(src: PackageSource, coordinates: string)
    requires src == Pip ==> '@' in coordinates
    ensures '@' in ToSnyk(src, coordinates)
  {
    match src
    case Maven => ReplaceRightmostHasAt(coordinates, ':');
    case Pip =>
      if PipDistribution(coordinates).Some? {
        ReplaceRightmostHasAt(PipDistribution(coordinates).value, '-');
      }
  }

  // ---------------------------------------------------------------------------
  // Coordinate extraction

  predicate IsCoordinateTag(tag: string) {
    StartsWith(tag, "maven_coordinates=")
  }

  /** `i` is the first coordinate tag. */
  predicate FirstCoordinateTag(tags: seq<string>, i: int) {
    0 <= i < |tags| && IsCoordinateTag(tags[i]) && forall j :: 0 <= j < i ==> !IsCoordinateTag(tags[j])
  }

  /** `_get_coordinates_maven`: after the last `=` of the first coordinate tag, else the label itself. */
  function MavenCoordinates(dep: string, tags: seq<string>): (c: string)
    ensures (forall i :: 0 <= i < |tags| ==> !IsCoordinateTag(tags[i])) ==> c == dep
    ensures forall i :: FirstCoordinateTag(tags, i) ==> c == AfterLast(tags[i], '=')
  {
    if tags == [] then dep
    else if IsCoordinateTag(tags[0]) then AfterLast(tags[0], '=')
    else
      var c := MavenCoordinates(dep, tags[1..]);
      assert forall i :: 1 <= i < |tags| ==> tags[i] == tags[1..][i - 1];
      assert forall i :: FirstCoordinateTag(tags, i) ==> FirstCoordinateTag(tags[1..], i - 1) by {
        forall i | FirstCoordinateTag(tags, i)
          ensures FirstCoordinateTag(tags[1..], i - 1)
        {
          assert i != 0;
          forall j | 0 <= j < i - 1
            ensures !IsCoordinateTag(tags[1..][j])
          {
            assert tags[1..][j] == tags[j + 1];
          }
        }
      }
      c
  }

  /** `i` is the first label starting with `prefix`. */
  predicate FirstWithPrefix(labels: seq<string>, prefix: string, i: int) {
    0 <= i < |labels| && StartsWith(labels[i], prefix) && forall j :: 0 <= j < i ==> !StartsWith(labels[j], prefix)
  }

  /** `_get_coordinates_pip`: the first data label starting with the label's text before its first `:`. */
  function PipCoordinates(dep: string, data: seq<string>): (c: string)
    ensures (forall i :: 0 <= i < |data| ==> !StartsWith(data[i], BeforeFirst(dep, ':'))) ==> c == dep
    ensures forall i :: FirstWithPrefix(data, BeforeFirst(dep, ':'), i) ==> c == data[i]
    ensures c == dep || StartsWith(c, BeforeFirst(dep, ':'))
  {
    if data == [] then dep
    else if StartsWith(data[0], BeforeFirst(dep, ':')) then data[0]
    else
      var c := PipCoordinates(dep, data[1..]);
      assert forall i :: 1 <= i < |data| ==> data[i] == data[1..][i - 1];
      c
  }

  /** The extraction routine of the active source. */
  function Extract(src: PackageSource, dep: string, rule: Rule): string {
    match src
    case Maven => MavenCoordinates(dep, rule.tags)
    case Pip => PipCoordinates(dep, rule.data)
  }

  predicate IsWordChar(ch: char) {
    ('a' <= ch <= 'z') || ('A' <= ch <= 'Z') || ('0' <= ch <= '9') || ch == '_'
  }

  predicate IsWordRun(s: string, lo: int, hi: int) {
    0 <= lo <= hi <= |s| && forall i :: lo <= i < hi ==> IsWordChar(s[i])
  }

  /** `^<alias>_\w+//`: a repository generated per rule under the alias. */
  predicate IsSuffixedRepo(name: string, alias: string) {
    StartsWith(name, alias + "_") &&
    exists n :: |alias| + 1 < n < |name| - 1 && name[n] == '/' && name[n + 1] == '/' && IsWordRun(name, |alias| + 1, n)
  }

  predicate InSourceRepo(name: string, src: PackageSource) {
    StartsWith(name, Alias(src) + "//") || IsSuffixedRepo(name, Alias(src))
  }

  /** The three conditions under which a rule supplies the coordinates of `dep`. */
  predicate ResolvesFrom(rule: Rule, dep: string, src: PackageSource) {
    IsBuildLocation(rule.location) && rule.name == dep && InSourceRepo(rule.name, src)
  }

  /** `i` is the last rule that supplies the coordinates of `dep`. */
  predicate LastResolving(rules: seq<Rule>, dep: string, src: PackageSource, i: int) {
    0 <= i < |rules| && ResolvesFrom(rules[i], dep, src) &&
    forall j :: i < j < |rules| ==> !ResolvesFrom(rules[j], dep, src)
  }

  /** The index of the last rule that supplies the coordinates of `dep`, or -1 when none does. */
  function LastResolvingRule(rules: seq<Rule>, dep: string, src: PackageSource): (i: int)
    ensures -1 <= i < |rules|
    ensures i == -1 ==> forall j :: 0 <= j < |rules| ==> !ResolvesFrom(rules[j], dep, src)
    ensures i >= 0 ==> LastResolving(rules, dep, src, i)
  {
    if |rules| == 0 then -1
    else
      var n := |rules| - 1;
      if ResolvesFrom(rules[n], dep, src) then n
      else
        var i := LastResolvingRule(rules[..n], dep, src);
        LastResolvingExtend(rules, dep, src, i);
        i
  }

  /** A rule that does not resolve, after the last one that does, changes nothing. */
  lemma LastResolvingExtend(rules: seq<Rule>, dep: string, src: PackageSource, i: int)
    requires 0 < |rules| && !ResolvesFrom(rules[|rules| - 1], dep, src)
    requires var p := rules[..|rules| - 1];
             && -1 <= i < |p|
             && (i == -1 ==> forall j :: 0 <= j < |p| ==> !ResolvesFrom(p[j], dep, src))
             && (i >= 0 ==> LastResolving(p, dep, src, i))
    ensures i == -1 ==> forall j :: 0 <= j < |rules| ==> !ResolvesFrom(rules[j], dep, src)
    ensures i >= 0 ==> LastResolving(rules, dep, src, i)
  {
    var p := rules[..|rules| - 1];
    forall j | 0 <= j < |rules| && (i < 0 || i < j)
      ensures !ResolvesFrom(rules[j], dep, src)
    {
      if j < |p| {
        assert p[j] == rules[j];
      }
    }
    if i >= 0 {
      assert p[i] == rules[i];
    }
  }

  /**
   * The coordinates `get_coordinates_from_bazel_dep` answers: every qualifying rule
   * overwrites the previous answer, so the last one decides; with none, the label itself.
   */
  function Resolved(rules: seq<Rule>, dep: string, src: PackageSource): string {
    if |rules| == 0 then dep
    else if ResolvesFrom(rules[|rules| - 1], dep, src) then ToSnyk(src, Extract(src, dep, rules[|rules| - 1]))
    else Resolved(rules[..|rules| - 1], dep, src)
  }

  /** The answer is the one of the last qualifying rule, or the label when none qualifies. */
  lemma {:induction false} ResolvedByLast(rules: seq<Rule>, dep: string, src: PackageSource)
    ensures var i := LastResolvingRule(rules, dep, src);
            Resolved(rules, dep, src) == if i < 0 then dep else ToSnyk(src, Extract(src, dep, rules[i]))
  {
    if |rules| > 0 && !ResolvesFrom(rules[|rules| - 1], dep, src) {
      ResolvedByLast(rules[..|rules| - 1], dep, src);
    }
  }

  /** No qualifying rule leaves the raw label; otherwise the last qualifying rule decides. */
  lemma ResolvedLastMatchWins(rules: seq<Rule>, dep: string, src: PackageSource)
    ensures (forall i :: 0 <= i < |rules| ==> !ResolvesFrom(rules[i], dep, src)) ==> Resolved(rules, dep, src) == dep
    ensures forall i :: LastResolving(rules, dep, src, i) ==>
              Resolved(rules, dep, src) == ToSnyk(src, Extract(src, dep, rules[i]))
  {
    var k := LastResolvingRule(rules, dep, src);
    ResolvedByLast(rules, dep, src);
    forall i | LastResolving(rules, dep, src, i)
      ensures i == k
    {
    }
  }

  /** One more rule either overwrites the answer or leaves it. */
  lemma ResolvedStep(rules: seq<Rule>, r: nat, dep: string, src: PackageSource)
    requires r < |rules|
    ensures Resolved(rules[..r + 1], dep, src) ==
            if ResolvesFrom(rules[r], dep, src) then ToSnyk(src, Extract(src, dep, rules[r]))
            else Resolved(rules[..r], dep, src)
  {
    assert rules[..r + 1][..r] == rules[..r];
  }

  /** The answer of one qualifying rule carries an `@` when the label does. */
  lemma ExtractHasAt(src: PackageSource, dep: string, rule: Rule)
    requires |dep| > 0 && dep[0] == '@'
    ensures '@' in ToSnyk(src, Extract(src, dep, rule))
  {
    var c := Extract(src, dep, rule);
    if src == Pip && c != dep {
      var prefix := BeforeFirst(dep, ':');
      assert |prefix| > 0 && prefix[0] == '@';
      assert c[0] == c[..|prefix|][0];
    }
    ToSnykHasAt(src, c);
  }

  /** Resolution of a label under a repository alias always yields something with an `@`. */
  lemma ResolvedHasAt(rules: seq<Rule>, dep: string, src: PackageSource)
    requires |dep| > 0 && dep[0] == '@'
    ensures '@' in Resolved(rules, dep, src)
  {
    var i := LastResolvingRule(rules, dep, src);
    ResolvedByLast(rules, dep, src);
    if i >= 0 {
      ExtractHasAt(src, dep, rules[i]);
    }
  }

  // ---------------------------------------------------------------------------
  // Children of a label

  function Flatten(lists: seq<seq<string>>): seq<string> {
    if lists == [] then [] else Flatten(lists[..|lists| - 1]) + lists[|lists| - 1]
  }

  lemma {:induction false} FlattenMember(lists: seq<seq<string>>, c: string)
    ensures c in Flatten(lists) <==> exists k :: 0 <= k < |lists| && c in lists[k]
  {
    if lists != [] {
      var init := lists[..|lists| - 1];
      FlattenMember(init, c);
      assert forall k :: 0 <= k < |init| ==> init[k] == lists[k];
    }
  }

  /** A rule's `deps` lists, or its `runtime_deps` lists when it has no `deps` list at all. */
  function RuleChildren(rule: Rule): seq<string> {
    Flatten(if rule.deps != [] then rule.deps else rule.runtimeDeps)
  }

  /** A rule contributes when it passes the location filter, has the name, and the name is not `Other`. */
  predicate Contributes(rule: Rule, parent: string) {
    IsBuildLocation(rule.location) && rule.name == parent && GetNodeType(parent) != Other
  }

  /** The children `get_children_from_rule` collects: every contributing rule in order, list after list. */
  function ChildrenOf(rules: seq<Rule>, parent: string): seq<string> {
    if rules == [] then []
    else
      var last := rules[|rules| - 1];
      ChildrenOf(rules[..|rules| - 1], parent) + (if Contributes(last, parent) then RuleChildren(last) else [])
  }

  lemma FlattenStep(lists: seq<seq<string>>, l: nat)
    requires l < |lists|
    ensures Flatten(lists[..l + 1]) == Flatten(lists[..l]) + lists[l]
  {
    assert lists[..l + 1][..l] == lists[..l];
  }

  lemma ChildrenOfStep(rules: seq<Rule>, r: nat, parent: string)
    requires r < |rules|
    ensures ChildrenOf(rules[..r + 1], parent) ==
            ChildrenOf(rules[..r], parent) + (if Contributes(rules[r], parent) then RuleChildren(rules[r]) else [])
  {
    assert rules[..r + 1][..r] == rules[..r];
  }

  /** An `Other` label has no children, whatever its rules list. */
  lemma {:induction false} ChildrenOfOther(rules: seq<Rule>, parent: string)
    requires GetNodeType(parent) == Other
    ensures ChildrenOf(rules, parent) == []
  {
    if rules != [] {
      ChildrenOfOther(rules[..|rules| - 1], parent);
    }
  }

  /** A label with no rule that passes the location filter under that name is a leaf. */
  lemma {:induction false} ChildrenOfUnknown(rules: seq<Rule>, parent: string)
    requires forall i :: 0 <= i < |rules| ==> !(IsBuildLocation(rules[i].location) && rules[i].name == parent)
    ensures ChildrenOf(rules, parent) == []
  {
    if rules != [] {
      var init := rules[..|rules| - 1];
      assert forall i :: 0 <= i < |init| ==> init[i] == rules[i];
      ChildrenOfUnknown(init, parent);
    }
  }

  /** A child comes from some contributing rule of that name, and every such rule's children are there. */
  lemma {:induction false} ChildrenOfMember(rules: seq<Rule>, parent: string, c: string)
    ensures c in ChildrenOf(rules, parent) <==>
            exists i :: 0 <= i < |rules| && Contributes(rules[i], parent) && c in RuleChildren(rules[i])
  {
    if rules != [] {
      var init := rules[..|rules| - 1];
      ChildrenOfMember(init, parent, c);
      assert forall i :: 0 <= i < |init| ==> init[i] == rules[i];
    }
  }

  // ---------------------------------------------------------------------------
  // The parser object: the rules and the cache of child lists

  /** The two inner loops of the scan: every label value of every list, appended in order. */
  method AppendLists(acc: seq<string>, lists: seq<seq<string>>) returns (children: seq<string>)
    ensures children == acc + Flatten(lists)
  {
    children := acc;
    var l := 0;
    while l < |lists|
      invariant 0 <= l <= |lists|
      invariant children == acc + Flatten(lists[..l])
    {
      FlattenStep(lists, l);
      var k := 0;
      while k < |lists[l]|
        invariant 0 <= k <= |lists[l]|
        invariant children == acc + Flatten(lists[..l]) + lists[l][..k]
      {
        children := children + [lists[l][k]];
        assert lists[l][..k + 1] == lists[l][..k] + [lists[l][k]];
        k := k + 1;
      }
      assert lists[l][..|lists[l]|] == lists[l];
      l := l + 1;
    }
    assert lists[..|lists|] == lists;
  }

  datatype CacheEntry = CacheEntry(parentNodeId: string, children: seq<string>)

  predicate Cached(cache: seq<CacheEntry>, parent: string) {
    exists i :: 0 <= i < |cache| && cache[i].parentNodeId == parent
  }

  /** `BazelXmlParser`: the parsed rules, which never change, and the child-list cache. */
  class RuleIndex {
    const pkgManagerName: string
    const rules: seq<Rule>
    var depCache: seq<CacheEntry>

    /** Every cached list is the one a fresh scan would compute. */
    ghost predicate Valid()
      reads this
    {
      forall i :: 0 <= i < |depCache| ==> depCache[i].children == ChildrenOf(rules, depCache[i].parentNodeId)
    }

    constructor (rules: seq<Rule>, pkgManagerName: string)
      ensures Valid()
      ensures this.rules == rules && this.pkgManagerName == pkgManagerName && depCache == []
    {
      this.rules := rules;
      this.pkgManagerName := pkgManagerName;
      depCache := [];
    }

    /** `get_children_from_rule`: the cached list if there is one, else a scan that is then cached. */
    method GetChildrenFromRule(parentNodeId: string) returns (children: seq<string>)
      requires Valid()
      modifies this`depCache
      ensures Valid()
      ensures children == ChildrenOf(rules, parentNodeId)
      ensures Cached(old(depCache), parentNodeId) ==> depCache == old(depCache)
      ensures !Cached(old(depCache), parentNodeId) ==>
                depCache == old(depCache) + [CacheEntry(parentNodeId, children)]
    {
      var c := 0;
      while c < |depCache|
        invariant 0 <= c <= |depCache|
        invariant forall j :: 0 <= j < c ==> depCache[j].parentNodeId != parentNodeId
      {
        if depCache[c].parentNodeId == parentNodeId {
          return depCache[c].children;
        }
        c := c + 1;
      }
      children := ScanRules(parentNodeId);
      depCache := depCache + [CacheEntry(parentNodeId, children)];
    }

    /** The scan after a cache miss: every contributing rule's lists, in document order. */
    method ScanRules(parentNodeId: string) returns (children: seq<string>)
      ensures children == ChildrenOf(rules, parentNodeId)
    {
      children := [];
      var r := 0;
      while r < |rules|
        invariant 0 <= r <= |rules|
        invariant children == ChildrenOf(rules[..r], parentNodeId)
      {
        ChildrenOfStep(rules, r, parentNodeId);
        var rule := rules[r];
        if IsBuildLocation(rule.location) && rule.name == parentNodeId {
          var nodeType := GetNodeType(rule.name);
          if nodeType != Other {
            children := AppendLists(children, if rule.deps != [] then rule.deps else rule.runtimeDeps);
          }
        }
        r := r + 1;
      }
      assert rules[..|rules|] == rules;
    }

    /** `get_coordinates_from_bazel_dep`: scan every rule; each qualifying rule overwrites the answer. */
    method GetCoordinatesFromBazelDep(dep: string, src: PackageSource) returns (coordinates: string)
      ensures coordinates == Resolved(rules, dep, src)
    {
      coordinates := dep;
      var r := 0;
      while r < |rules|
        invariant 0 <= r <= |rules|
        invariant coordinates == Resolved(rules[..r], dep, src)
      {
        ResolvedStep(rules, r, dep, src);
        var rule := rules[r];
        if ResolvesFrom(rule, dep, src) {
          coordinates := ToSnyk(src, Extract(src, dep, rule));
        }
        r := r + 1;
      }
      assert rules[..|rules|] == rules;
    }
  }
}
