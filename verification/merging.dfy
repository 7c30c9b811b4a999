/**
 * The fold both update tasks use to merge recommendations from several
 * project reports into one map: the first recommendation for a key inserts
 * it, an agreeing one leaves it, a disagreeing one removes it with a warning,
 * and a recommendation after a removal inserts the key afresh.
 */
module Merging {
  import opened Wrappers

  /** A recommendation as the fold sees it: the map key and the recommended version. */
  datatype Recommendation = Recommendation(key: string, version: string)

  /** The map being built, and the keys a conflict warning was logged for, in order. */
  datatype Merged = Merged(updates: map<string, string>, conflicts: seq<string>)

  /**
   * One recommendation: only its own key can change, which ends up holding
   * the recommended version or removed, and at most that key is warned about.
   */
  function Step(m: Merged, rec: Recommendation): (r: Merged)
    ensures forall k :: k != rec.key ==> (k in r.updates <==> k in m.updates)
    ensures forall k :: k != rec.key && k in m.updates ==> r.updates[k] == m.updates[k]
    ensures rec.key in r.updates ==> r.updates[rec.key] == rec.version
    ensures rec.key !in r.updates <==> rec.key in m.updates && m.updates[rec.key] != rec.version
    ensures r.conflicts == m.conflicts + (if rec.key in r.updates then [] else [rec.key])
  {
    if rec.key in m.updates then
      if m.updates[rec.key] == rec.version then m
      else Merged(m.updates - {rec.key}, m.conflicts + [rec.key])
    else Merged(m.updates[rec.key := rec.version], m.conflicts)
  }

  /** The state after folding every recommendation, in order, into an empty map. */
  function Merge(recs: seq<Recommendation>): Merged
    decreases |recs|
  {
    if recs == [] then Merged(map[], [])
    else Step(Merge(recs[..|recs| - 1]), recs[|recs| - 1])
  }

  /** The versions recommended for `key`, in order. */
  function VersionsFor(recs: seq<Recommendation>, key: string): (vs: seq<string>)
    ensures |vs| <= |recs|
    decreases |recs|
  {
    if recs == [] then []
    else
      var last := recs[|recs| - 1];
      VersionsFor(recs[..|recs| - 1], key) + (if last.key == key then [last.version] else [])
  }

  /** The fold restricted to one key: the entry it ends with, if any. */
  function Settle(vs: seq<string>): Option<string>
    decreases |vs|
  {
    if vs == [] then None
    else
      var v := vs[|vs| - 1];
      match Settle(vs[..|vs| - 1])
      case None => Some(v)
      case Some(x) => if x == v then Some(x) else None
  }

  /** Every recommendation agrees with the first. */
  predicate Unanimous(vs: seq<string>) {
    forall i :: 0 <= i < |vs| ==> vs[i] == vs[0]
  }

  /**
   * Keys do not interfere: whether a key is in the merged map, its version,
   * and whether a conflict was logged for it depend only on the versions
   * recommended for that key. A conflict is logged exactly when those
   * versions are not all the same.
   */
  lemma {:induction false} MergeIsPerKey(recs: seq<Recommendation>, key: string)
    ensures key in Merge(recs).updates <==> Settle(VersionsFor(recs, key)).Some?
    ensures key in Merge(recs).updates ==> Merge(recs).updates[key] == Settle(VersionsFor(recs, key)).value
    ensures key in Merge(recs).conflicts <==> !Unanimous(VersionsFor(recs, key))
    decreases |recs|
  {
    if recs != [] {
      var init := recs[..|recs| - 1];
      var last := recs[|recs| - 1];
      var vs := VersionsFor(init, key);
      MergeIsPerKey(init, key);
      if last.key == key {
        assert VersionsFor(recs, key) == vs + [last.version];
        assert (vs + [last.version])[..|vs|] == vs;
        if Unanimous(vs) && vs != [] {
          SettleUnanimous(vs);
        }
        if !Unanimous(vs) {
          var i :| 0 <= i < |vs| && vs[i] != vs[0];
          assert (vs + [last.version])[i] == vs[i];
        }
      } else {
        assert VersionsFor(recs, key) == vs;
      }
    }
  }

  lemma {:induction false} SettleUnanimous(vs: seq<string>)
    requires vs != [] && Unanimous(vs)
    ensures Settle(vs) == Some(vs[0])
    decreases |vs|
  {
    var init := vs[..|vs| - 1];
    if init != [] {
      assert init[0] == vs[0];
      assert Unanimous(init);
      SettleUnanimous(init);
    }
  }

  /**
   * What the fold leaves for one key: a surviving version is the last one
   * recommended; a key all recommendations agree on survives; a key is
   * dropped only when its last two recommendations disagree; and a dropped
   * key comes back with the next recommendation.
   */
  lemma {:induction false} SettleFacts(vs: seq<string>, next: string)
    ensures Settle(vs).Some? ==> vs != [] && Settle(vs).value == vs[|vs| - 1]
    ensures vs != [] && Unanimous(vs) ==> Settle(vs) == Some(vs[0])
    ensures vs != [] && Settle(vs).None? ==> |vs| >= 2 && vs[|vs| - 1] != vs[|vs| - 2]
    ensures Settle(vs).None? ==> Settle(vs + [next]) == Some(next)
    decreases |vs|
  {
    if vs != [] {
      var init := vs[..|vs| - 1];
      SettleFacts(init, vs[|vs| - 1]);
      if Unanimous(vs) {
        SettleUnanimous(vs);
      }
      if Settle(vs).None? {
        assert Settle(init).Some?;
        assert vs[|vs| - 2] == init[|init| - 1];
      }
    }
    assert (vs + [next])[..|vs|] == vs;
  }

  lemma {:induction false} VersionsForIff(recs: seq<Recommendation>, key: string, v: string)
    ensures v in VersionsFor(recs, key) <==> Recommendation(key, v) in recs
    decreases |recs|
  {
    if recs != [] {
      var init := recs[..|recs| - 1];
      VersionsForIff(init, key, v);
      assert recs == init + [recs[|recs| - 1]];
    }
  }

  /**
   * Every key in the merged map comes from a recommendation for that key,
   * and its version is the last one recommended for it.
   */
  lemma MergedComesFromLast(recs: seq<Recommendation>, key: string)
    requires key in Merge(recs).updates
    ensures Recommendation(key, Merge(recs).updates[key]) in recs
    ensures var vs := VersionsFor(recs, key); vs != [] && Merge(recs).updates[key] == vs[|vs| - 1]
  {
    var vs := VersionsFor(recs, key);
    MergeIsPerKey(recs, key);
    SettleFacts(vs, "");
    VersionsForIff(recs, key, vs[|vs| - 1]);
  }

  /** A disagreement removes the key, and a third recommendation brings it back: v1, v2, v1 ends as v1. */
  lemma ReinsertAfterConflict(key: string, v1: string, v2: string)
    requires v1 != v2
    ensures key !in Merge([Recommendation(key, v1), Recommendation(key, v2)]).updates
    ensures Merge([Recommendation(key, v1), Recommendation(key, v2), Recommendation(key, v1)]).updates == map[key := v1]
    ensures Merge([Recommendation(key, v1), Recommendation(key, v2), Recommendation(key, v1)]).conflicts == [key]
  {
    var r1, r2 := Recommendation(key, v1), Recommendation(key, v2);
    assert [r1][..0] == [];
    assert Merge([r1]) == Merged(map[key := v1], []);
    assert [r1, r2][..1] == [r1];
    assert map[key := v1] - {key} == map[];
    assert Merge([r1, r2]) == Merged(map[], [key]);
    assert [r1, r2, r1][..2] == [r1, r2];
    assert Merge([r1, r2, r1]) == Merged(map[key := v1], [key]);
  }

  /** mergeDependencyUpdates / mergePluginUpdates: the map after folding `recs` in order, and the conflicts warned about. */
  method MergeRecommendations(recs: seq<Recommendation>) returns (updates: map<string, string>, conflicts: seq<string>)
    ensures Merged(updates, conflicts) == Merge(recs)
  {
    updates := map[];
    conflicts := [];
    for i := 0 to |recs|
      invariant Merged(updates, conflicts) == Merge(recs[..i])
    {
      assert recs[..i + 1][..i] == recs[..i];
      var rec := recs[i];
      if rec.key in updates {
        if updates[rec.key] != rec.version {
          conflicts := conflicts + [rec.key];
          updates := updates - {rec.key};
        }
      } else {
        updates := updates[rec.key := rec.version];
      }
    }
    assert recs[..|recs|] == recs;
  }
}
