/**
 * The checkNewVersions task without Gradle: which configurations are
 * checked, how resolved dependencies are keyed, which candidate versions the
 * release-only rule rejects, how current and latest versions are joined into
 * recommendations, and how a recommendation is rendered. Dependency
 * resolution itself is an input: for each configuration, the first-level
 * dependencies resolved as declared and resolved at their latest release.
 */
module CheckNewVersionsTask {
  import opened Wrappers
  import opened Text
  import opened Api

  /** A first-level dependency after resolution: its module group, name and version. */
  datatype ResolvedDependency = ResolvedDependency(group: string, name: string, version: string)

  /** A configuration of the project, with its two resolutions in iteration order. */
  datatype Configuration = Configuration(
    name: string,
    current: seq<ResolvedDependency>,
    latest: seq<ResolvedDependency>)

  // ---------------------------------------------------------------------------
  // Rendering a recommendation
  // ---------------------------------------------------------------------------

  /** render: `group:name:{current -> latest}`. */
  function Render(rec: DependencyUpdateRec): string {
    rec.group + ":" + rec.name + ":{" + rec.currentVersion + " -> " + rec.latestVersion + "}"
  }

  /** Reads a rendered line back; `None` for text that is not one. */
  function Unrender(s: string): Option<DependencyUpdateRec> {
    var i := FindChar(s, ':', 0);
    if i == |s| then None
    else
      var j := FindChar(s, ':', i + 1);
      if j + 2 > |s| || s[j + 1] != '{' then None
      else
        var k := FindChar(s, '>', j + 2);
        if k < j + 4 || k + 3 > |s| || s[k - 2] != ' ' || s[k - 1] != '-' || s[k + 1] != ' ' || s[|s| - 1] != '}' then None
        else Some(DependencyUpdateRec(s[..i], s[i + 1..j], s[j + 2..k - 2], s[k + 2..|s| - 1]))
  }

  /** The records whose rendering can be read back: no `:` in group or name, no `>` in the current version. */
  predicate Renderable(rec: DependencyUpdateRec) {
    ':' !in rec.group && ':' !in rec.name && '>' !in rec.currentVersion
  }

  /** Rendering loses nothing for a renderable record: it reads back as the same record. */
  lemma UnrenderRender(rec: DependencyUpdateRec)
    requires Renderable(rec)
    ensures Unrender(Render(rec)) == Some(rec)
  {
    RenderLayout(rec, Render(rec));
    UnrenderLayout(Render(rec), rec.group, rec.name, rec.currentVersion, rec.latestVersion);
  }

  /** A line laid out as a rendering with separator-free fields reads back as those fields. */
  lemma UnrenderLayout(s: string, group: string, name: string, current: string, latest: string)
    requires ':' !in group && ':' !in name && '>' !in current
    requires var i := |group|;
             var j := i + 1 + |name|;
             var k := j + 2 + |current| + 2;
             && |s| == k + 2 + |latest| + 1
             && s[..i] == group && s[i] == ':'
             && s[i + 1..j] == name && s[j] == ':' && s[j + 1] == '{'
             && s[j + 2..k - 2] == current
             && s[k - 2] == ' ' && s[k - 1] == '-' && s[k] == '>' && s[k + 1] == ' '
             && s[k + 2..|s| - 1] == latest && s[|s| - 1] == '}'
    ensures Unrender(s) == Some(DependencyUpdateRec(group, name, current, latest))
  {
    var i := |group|;
    var j := i + 1 + |name|;
    var k := j + 2 + |current| + 2;
    assert forall p :: 0 <= p < i ==> s[p] == s[..i][p];
    FindCharAt(s, ':', 0, i);
    assert forall p :: i + 1 <= p < j ==> s[p] == s[i + 1..j][p - (i + 1)];
    FindCharAt(s, ':', i + 1, j);
    assert forall p :: j + 2 <= p < k - 2 ==> s[p] == s[j + 2..k - 2][p - (j + 2)];
    FindCharAt(s, '>', j + 2, k);
  }

  /** Two renderable records render alike only when they are the same record. */
  lemma RenderInjective(a: DependencyUpdateRec, b: DependencyUpdateRec)
    requires Renderable(a) && Renderable(b)
    requires Render(a) == Render(b)
    ensures a == b
  {
    UnrenderRender(a);
    UnrenderRender(b);
  }

  /** Where each field and separator of the rendered line sits. */
  lemma RenderLayout(rec: DependencyUpdateRec, s: string)
    requires s == Render(rec)
    ensures var i := |rec.group|;
            var j := i + 1 + |rec.name|;
            var k := j + 2 + |rec.currentVersion| + 2;
            && |s| == k + 2 + |rec.latestVersion| + 1
            && s[..i] == rec.group && s[i] == ':'
            && s[i + 1..j] == rec.name && s[j] == ':' && s[j + 1] == '{'
            && s[j + 2..k - 2] == rec.currentVersion
            && s[k - 2] == ' ' && s[k - 1] == '-' && s[k] == '>' && s[k + 1] == ' '
            && s[k + 2..|s| - 1] == rec.latestVersion && s[|s| - 1] == '}'
  {
    var g1 := rec.group + ":";
    var g2 := g1 + rec.name;
    var g3 := g2 + ":{";
    var g4 := g3 + rec.currentVersion;
    var g5 := g4 + " -> ";
    var g6 := g5 + rec.latestVersion;
    assert s == g6 + "}";
    assert s[..|g6|] == g6;
    assert g6[..|g5|] == g5 && g6[|g5|..] == rec.latestVersion;
    assert g5[..|g4|] == g4;
    assert g4[..|g3|] == g3 && g4[|g3|..] == rec.currentVersion;
    assert g3[..|g2|] == g2;
    assert g2[..|g1|] == g1 && g2[|g1|..] == rec.name;
    assert g1[..|rec.group|] == rec.group;
  }

  // ---------------------------------------------------------------------------
  // The release-only rule
  // ---------------------------------------------------------------------------

  /** DISALLOWED_QUALIFIERS. */
  const DisallowedQualifiers: set<string> := {"-alpha", "-beta", "-rc"}

  /** containsDisallowedQualifier: some disallowed qualifier occurs in the version. */
  function ContainsDisallowedQualifier(version: string): (r: bool)
    ensures r <==> exists q, i :: q in DisallowedQualifiers && OccursAt(version, q, i)
  {
    ContainsIff(version, "-alpha");
    ContainsIff(version, "-beta");
    ContainsIff(version, "-rc");
    Contains(version, "-alpha") || Contains(version, "-beta") || Contains(version, "-rc")
  }

  /**
   * selectOnlyRelease: the rejection reasons given for a candidate version.
   * `status` is the candidate's metadata status, `None` when there is no
   * metadata or no status.
   */
  function Rejections(version: string, status: Option<string>): seq<string> {
    (if ContainsDisallowedQualifier(version)
     then ["Component is 'alpha' or 'beta' qualified (version=" + version + ")"]
     else [])
    + (if status.Some? && status.value != "release"
       then ["Component status '" + status.value + "' was not 'release'"]
       else [])
  }

  /** A candidate is kept exactly when it has no disallowed qualifier and is a release or has no status. */
  lemma RejectionsIff(version: string, status: Option<string>)
    ensures Rejections(version, status) == [] <==>
              (forall q, i :: q in DisallowedQualifiers ==> !OccursAt(version, q, i))
              && (status == None || status == Some("release"))
    ensures |Rejections(version, status)| <= 2
  {
  }

  /** A pre-release qualifier is rejected whatever the status. */
  lemma QualifiedRejected(version: string, status: Option<string>, q: string, i: nat)
    requires q in DisallowedQualifiers && OccursAt(version, q, i)
    ensures Rejections(version, status) != []
  {
  }

  // ---------------------------------------------------------------------------
  // Resolved versions and the current/latest join
  // ---------------------------------------------------------------------------

  /** The key resolved dependencies are stored under: `group:name`. */
  function ModuleKey(dep: ResolvedDependency): string {
    dep.group + ":" + dep.name
  }

  /** getResolvedVersions as a fold: each dependency put under its key, in iteration order. */
  function ResolvedVersions(deps: seq<ResolvedDependency>): map<string, ResolvedDependency>
    decreases |deps|
  {
    if deps == [] then map[]
    else ResolvedVersions(deps[..|deps| - 1])[ModuleKey(deps[|deps| - 1]) := deps[|deps| - 1]]
  }

  /** getResolvedVersions: `put` for each first-level dependency. */
  method GetResolvedVersions(deps: seq<ResolvedDependency>) returns (resolved: map<string, ResolvedDependency>)
    ensures resolved == ResolvedVersions(deps)
    ensures KeyedByModule(resolved)
  {
    resolved := map[];
    for i := 0 to |deps|
      invariant resolved == ResolvedVersions(deps[..i])
    {
      assert deps[..i + 1][..i] == deps[..i];
      resolved := resolved[ModuleKey(deps[i]) := deps[i]];
    }
    assert deps[..|deps|] == deps;
    ResolvedVersionsKeyed(deps);
  }

  /**
   * The map holds a key exactly when some dependency has it, and under it the
   * last such dependency: a later `put` overwrites an earlier one.
   */
  lemma {:induction false} ResolvedVersionsLastWins(deps: seq<ResolvedDependency>, key: string)
    ensures key in ResolvedVersions(deps) <==> exists i :: 0 <= i < |deps| && ModuleKey(deps[i]) == key
    ensures key in ResolvedVersions(deps) ==>
              exists i :: 0 <= i < |deps| && ResolvedVersions(deps)[key] == deps[i]
                          && forall j :: i < j < |deps| ==> ModuleKey(deps[j]) != key
    decreases |deps|
  {
    if deps != [] {
      var init := deps[..|deps| - 1];
      var last := |deps| - 1;
      ResolvedVersionsLastWins(init, key);
      assert forall i :: 0 <= i < |init| ==> init[i] == deps[i];
      if ModuleKey(deps[last]) != key && key in ResolvedVersions(deps) {
        var i :| 0 <= i < |init| && ResolvedVersions(init)[key] == init[i]
                 && forall j :: i < j < |init| ==> ModuleKey(init[j]) != key;
        assert forall j :: i < j < |deps| ==> ModuleKey(deps[j]) != key;
      }
    }
  }

  /** Every entry of a resolved map is stored under its own key. */
  lemma {:induction false} ResolvedVersionsKeyed(deps: seq<ResolvedDependency>)
    ensures KeyedByModule(ResolvedVersions(deps))
    decreases |deps|
  {
    if deps != [] {
      ResolvedVersionsKeyed(deps[..|deps| - 1]);
    }
  }

  /** The recommendation for a key both maps hold: the current module, current and latest version. */
  function RecFor(current: ResolvedDependency, latest: ResolvedDependency): DependencyUpdateRec {
    DependencyUpdateRec(current.group, current.name, current.version, latest.version)
  }

  /**
   * The join in getRecsForConfiguration: one recommendation for each key
   * present in both maps whose versions differ.
   */
  function RecsForVersions(current: map<string, ResolvedDependency>, latest: map<string, ResolvedDependency>): (recs: set<DependencyUpdateRec>)
    ensures forall rec :: rec in recs ==> rec.currentVersion != rec.latestVersion
  {
    set key | key in current && key in latest && current[key].version != latest[key].version
      :: RecFor(current[key], latest[key])
  }

  /** Every entry stored under its own `group:name` key, as getResolvedVersions leaves its map. */
  predicate KeyedByModule(m: map<string, ResolvedDependency>) {
    forall key :: key in m ==> ModuleKey(m[key]) == key
  }

  /**
   * Over maps keyed by module, a recommendation is produced exactly for a
   * module present in both maps with differing versions, and it carries the
   * current module, its current version and its latest version.
   */
  lemma RecsForVersionsIff(current: map<string, ResolvedDependency>, latest: map<string, ResolvedDependency>, rec: DependencyUpdateRec)
    requires KeyedByModule(current)
    ensures rec in RecsForVersions(current, latest) <==>
              var key := rec.group + ":" + rec.name;
              && key in current && key in latest
              && current[key] == ResolvedDependency(rec.group, rec.name, rec.currentVersion)
              && latest[key].version == rec.latestVersion
              && rec.currentVersion != rec.latestVersion
  {
    var key := rec.group + ":" + rec.name;
    if rec in RecsForVersions(current, latest) {
      var k :| k in current && k in latest && current[k].version != latest[k].version
               && rec == RecFor(current[k], latest[k]);
      assert ModuleKey(current[k]) == k;
    }
  }

  /** getRecsForConfiguration. */
  function RecsForConfiguration(config: Configuration): set<DependencyUpdateRec> {
    RecsForVersions(ResolvedVersions(config.current), ResolvedVersions(config.latest))
  }

  /**
   * A configuration yields at most one recommendation per module, and only
   * for modules present in both resolutions.
   */
  lemma OneRecPerModule(config: Configuration, a: DependencyUpdateRec, b: DependencyUpdateRec)
    requires a in RecsForConfiguration(config) && b in RecsForConfiguration(config)
    requires a.group + ":" + a.name == b.group + ":" + b.name
    ensures a == b
  {
    var current := ResolvedVersions(config.current);
    var latest := ResolvedVersions(config.latest);
    ResolvedVersionsKeyed(config.current);
    RecsForVersionsIff(current, latest, a);
    RecsForVersionsIff(current, latest, b);
  }

  // ---------------------------------------------------------------------------
  // Configurations and the project's dependency updates
  // ---------------------------------------------------------------------------

  /** The filter that keeps gradle-consistent-versions' own configurations out. */
  predicate IsChecked(configName: string) {
    !StartsWith(configName, "consistentVersions") && configName != "unifiedClasspath"
  }

  /** The union of the recommendations of every checked configuration. */
  function DependencyUpdates(configs: seq<Configuration>): (updates: set<DependencyUpdateRec>)
    ensures forall rec :: rec in updates <==>
              exists i :: 0 <= i < |configs| && IsChecked(configs[i].name) && rec in RecsForConfiguration(configs[i])
  {
    if configs == [] then {}
    else
      var rest := DependencyUpdates(configs[1..]);
      assert forall i :: 1 <= i < |configs| ==> configs[1..][i - 1] == configs[i];
      (if IsChecked(configs[0].name) then RecsForConfiguration(configs[0]) else {}) + rest
  }
}
