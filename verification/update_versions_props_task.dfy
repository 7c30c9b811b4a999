/**
 * The updateVersionsProps task without its file handling: merge the
 * dependency recommendations of every project report, then apply each merged
 * pair to the versions.props document.
 */
module UpdateVersionsPropsTask {
  import opened Wrappers
  import opened Api
  import opened Merging
  import opened VersionsProps
  import Resolver = FuzzyPatternResolver

  /** The identifier a dependency recommendation is merged under: `group:name`. */
  function DependencyKey(rec: DependencyUpdateRec): string {
    rec.group + ":" + rec.name
  }

  function KeyedDependencies(recs: seq<DependencyUpdateRec>): (r: seq<Recommendation>)
    ensures |r| == |recs|
    ensures forall i :: 0 <= i < |recs| ==> r[i] == Recommendation(DependencyKey(recs[i]), recs[i].latestVersion)
  {
    if recs == [] then [] else [Recommendation(DependencyKey(recs[0]), recs[0].latestVersion)] + KeyedDependencies(recs[1..])
  }

  /** Every report's dependency recommendations, report by report, keyed `group:name`. */
  function DependencyRecommendations(reports: seq<UpdateReport>): (r: seq<Recommendation>)
    ensures forall x :: x in r <==>
              exists i, d :: 0 <= i < |reports| && d in reports[i].dependencyUpdates
                             && x == Recommendation(DependencyKey(d), d.latestVersion)
  {
    if reports == [] then []
    else
      var head := KeyedDependencies(reports[0].dependencyUpdates);
      var tail := DependencyRecommendations(reports[1..]);
      assert forall x :: x in head <==>
               exists d :: d in reports[0].dependencyUpdates && x == Recommendation(DependencyKey(d), d.latestVersion);
      assert forall i :: 1 <= i < |reports| ==> reports[1..][i - 1] == reports[i];
      head + tail
  }

  /**
   * The recommendations reach the merge report by report, each report's in
   * its own order: one more report appends exactly its recommendations.
   */
  lemma {:induction false} DependencyRecommendationsAppend(reports: seq<UpdateReport>, report: UpdateReport)
    ensures DependencyRecommendations(reports + [report])
            == DependencyRecommendations(reports) + KeyedDependencies(report.dependencyUpdates)
    decreases |reports|
  {
    if reports == [] {
      assert [report][1..] == [];
    } else {
      assert (reports + [report])[1..] == reports[1..] + [report];
      DependencyRecommendationsAppend(reports[1..], report);
    }
  }

  /** mergeDependencyUpdates. */
  method MergeDependencyUpdates(reports: seq<UpdateReport>) returns (updates: map<string, string>, conflicts: seq<string>)
    ensures Merged(updates, conflicts) == Merge(DependencyRecommendations(reports))
    ensures forall key :: key in updates ==>
              exists i, d :: 0 <= i < |reports| && d in reports[i].dependencyUpdates
                             && DependencyKey(d) == key && d.latestVersion == updates[key]
  {
    var recs := DependencyRecommendations(reports);
    updates, conflicts := MergeRecommendations(recs);
    forall key | key in updates
      ensures exists i, d :: 0 <= i < |reports| && d in reports[i].dependencyUpdates
                             && DependencyKey(d) == key && d.latestVersion == updates[key]
    {
      MergedComesFromLast(recs, key);
    }
  }

  /** The document after `update(key, updates[key])` for each key of `keys`, in order; `ids` is the resolver's iteration order. */
  function ApplyAll(lines: seq<Line>, updates: map<string, string>, keys: seq<string>, ids: seq<string>): seq<Line>
    requires forall k :: k in keys ==> k in updates
    decreases |keys|
  {
    if keys == [] then lines
    else
      var key := keys[|keys| - 1];
      UpdateLines(ApplyAll(lines, updates, keys[..|keys| - 1], ids), Resolver.PatternFor(ids, key), updates[key]).0
  }

  /** The last key of `keys` that `p` holds of. */
  function LastWhere(keys: seq<string>, p: string -> bool): (r: Option<string>)
    ensures r.Some? ==> exists j :: 0 <= j < |keys| && keys[j] == r.value && p(keys[j])
                                    && forall j' :: j < j' < |keys| ==> !p(keys[j'])
    ensures r.None? ==> forall k :: k in keys ==> !p(k)
    decreases |keys|
  {
    if keys == [] then None
    else if p(keys[|keys| - 1]) then Some(keys[|keys| - 1])
    else
      var init := keys[..|keys| - 1];
      assert forall j :: 0 <= j < |init| ==> init[j] == keys[j];
      assert forall k :: k in keys ==> k in init || k == keys[|keys| - 1];
      LastWhere(init, p)
  }

  /** The last key of `keys` that resolves to `pattern`: no later key resolves to it. */
  function LastResolvingTo(keys: seq<string>, ids: seq<string>, pattern: string): (r: Option<string>)
    ensures r.Some? ==> exists j :: 0 <= j < |keys| && keys[j] == r.value
                                    && Resolver.PatternFor(ids, keys[j]) == Some(pattern)
                                    && forall j' :: j < j' < |keys| ==> Resolver.PatternFor(ids, keys[j']) != Some(pattern)
    ensures r.None? ==> forall k :: k in keys ==> Resolver.PatternFor(ids, k) != Some(pattern)
  {
    LastWhere(keys, k => Resolver.PatternFor(ids, k) == Some(pattern))
  }

  /**
   * Applying the merged updates keeps the shape of the document, and the
   * version line for a pattern ends up with the version of the last key that
   * resolves to it: when two keys resolve to the same glob line, the one
   * applied last wins; when no key resolves to it, the line is unchanged.
   */
  lemma {:induction false} ApplyAllLastWins(lines: seq<Line>, updates: map<string, string>, keys: seq<string>, ids: seq<string>, pattern: string)
    requires forall k :: k in keys ==> k in updates
    requires FirstLineFor(lines, pattern).Some?
    ensures var after := ApplyAll(lines, updates, keys, ids);
            var i := FirstLineFor(lines, pattern).value;
            && SameShape(lines, after)
            && FirstLineFor(after, pattern) == Some(i)
            && after[i] == match LastResolvingTo(keys, ids, pattern)
                           case None => lines[i]
                           case Some(k) => lines[i].(version := updates[k])
    decreases |keys|
  {
    if keys != [] {
      var init := keys[..|keys| - 1];
      var key := keys[|keys| - 1];
      assert forall k :: k in init ==> k in keys;
      ApplyAllLastWins(lines, updates, init, ids, pattern);
      var before := ApplyAll(lines, updates, init, ids);
      var resolved := Resolver.PatternFor(ids, key);
      UpdateOutcome(before, resolved, updates[key]);
      var after := UpdateLines(before, resolved, updates[key]).0;
      SameShapeTransitive(lines, before, after);
      SameShapeFirstLine(before, after, pattern);
      var i := FirstLineFor(lines, pattern).value;
      if resolved != Some(pattern) && resolved.Some? && FirstLineFor(before, resolved.value).Some? {
        assert FirstLineFor(before, resolved.value).value != i;
      }
    }
  }

  lemma SameShapeTransitive(a: seq<Line>, b: seq<Line>, c: seq<Line>)
    requires SameShape(a, b) && SameShape(b, c)
    ensures SameShape(a, c)
  {
  }

  /** The apply loop `updateRecs.forEach(versionsProps::update)`: `keyOrder` is the map's iteration order, `idOrder` the resolver's. */
  method ApplyUpdates(props: VersionsProps, updates: map<string, string>, keyOrder: seq<string>, idOrder: seq<string>)
    requires forall k :: k in keyOrder <==> k in updates
    requires forall i, j :: 0 <= i < j < |keyOrder| ==> keyOrder[i] != keyOrder[j]
    requires forall x :: x in idOrder <==> x in props.identifiers
    requires props.Valid()
    modifies props
    ensures props.lines == ApplyAll(old(props.lines), updates, keyOrder, idOrder)
    ensures props.Valid()
  {
    for i := 0 to |keyOrder|
      invariant props.lines == ApplyAll(old(props.lines), updates, keyOrder[..i], idOrder)
      invariant props.Valid()
    {
      assert keyOrder[..i + 1][..i] == keyOrder[..i];
      assert forall k :: k in keyOrder[..i] ==> k in keyOrder;
      var key := keyOrder[i];
      var _ := props.Update(key, updates[key], idOrder);
    }
    assert keyOrder[..|keyOrder|] == keyOrder;
  }
}
