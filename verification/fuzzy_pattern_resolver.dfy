/**
 * The fuzzy pattern resolver: maps a dependency coordinate to the known
 * identifier that governs it, preferring an exact identifier over any glob
 * and otherwise the heaviest matching glob.
 *
 * The resolver's identifier set is a Java HashSet whose iteration order the
 * code does not fix; here it is the sequence `ids`, an explicit parameter, so
 * every property below holds for whatever order the set is iterated in.
 */
module FuzzyPatternResolver {
  import opened Wrappers
  import opened Text

  /**
   * A compiled glob. The compiled regular expression is the quoted `tokens`
   * joined by `.*?`; it is kept here as the tokens themselves.
   */
  datatype Glob = Glob(rawPattern: string, tokens: seq<string>, weight: int)

  predicate IsGlob(name: string) {
    '*' in name
  }

  /** The specificity of a glob: how many of its characters are not `*`. */
  function Weight(glob: string): int {
    |glob| - Count(glob, '*')
  }

  /** Glob.compile: split at every `*` (keeping empty tokens) and sum the token lengths. */
  function Compile(glob: string): (g: Glob)
    ensures g.rawPattern == glob
    ensures |g.tokens| == Count(glob, '*') + 1
    ensures forall i :: 0 <= i < |g.tokens| ==> '*' !in g.tokens[i]
    ensures Join(g.tokens, "*") == glob
    ensures g.weight == Weight(glob)
  {
    var tokens := SplitOn(glob, '*');
    JoinSplit(glob, '*');
    SumLengthsSplit(glob, '*');
    Glob(glob, tokens, SumLengths(tokens))
  }

  // ---------------------------------------------------------------------------
  // Matching: Pattern.matches of  quote(t0) .*? quote(t1) ... .*? quote(tn)

  /** `s` is, in full, tokens[0] followed by a lazily searched gap and the remaining tokens. */
  predicate MatchFrom(tokens: seq<string>, s: string)
    requires |tokens| >= 1
    decreases |tokens|, 0, 0
  {
    if |tokens| == 1 then s == tokens[0]
    else tokens[0] <= s && LazyGap(tokens[1..], s[|tokens[0]|..])
  }

  /**
   * `.*?` followed by the rest of the pattern: the empty gap is tried first,
   * then the gap is widened one character at a time; `.` never takes a line
   * terminator.
   */
  predicate LazyGap(tokens: seq<string>, s: string)
    requires |tokens| >= 1
    decreases |tokens|, 1, |s|
  {
    MatchFrom(tokens, s) || (|s| > 0 && !IsLineTerminator(s[0]) && LazyGap(tokens, s[1..]))
  }

  predicate Matches(g: Glob, key: string) {
    |g.tokens| >= 1 && MatchFrom(g.tokens, key)
  }

  /** Whether the glob `glob`, compiled, matches `key` in full. */
  predicate GlobMatches(glob: string, key: string) {
    Matches(Compile(glob), key)
  }

  /** tokens[0] + fillers[0] + tokens[1] + ... + fillers[n-2] + tokens[n-1]. */
  function Interleave(tokens: seq<string>, fillers: seq<string>): string
    requires |tokens| == |fillers| + 1
  {
    if |fillers| == 0 then tokens[0]
    else tokens[0] + fillers[0] + Interleave(tokens[1..], fillers[1..])
  }

  /** `s` is the tokens in order with a line-terminator-free filler in place of each `*`. */
  ghost predicate FilledBy(tokens: seq<string>, fillers: seq<string>, s: string) {
    && |tokens| == |fillers| + 1
    && (forall i :: 0 <= i < |fillers| ==> NoLineTerminator(fillers[i]))
    && s == Interleave(tokens, fillers)
  }

  /** The gap s[..j] is free of line terminators and the rest of the pattern matches s[j..]. */
  ghost predicate GapAt(tokens: seq<string>, s: string, j: nat)
    requires |tokens| >= 1
  {
    j <= |s| && NoLineTerminator(s[..j]) && MatchFrom(tokens, s[j..])
  }

  lemma {:induction false} LazyGapIff(tokens: seq<string>, s: string)
    requires |tokens| >= 1
    ensures LazyGap(tokens, s) <==> exists j :: GapAt(tokens, s, j)
    decreases |s|
  {
    assert s[0..] == s;
    if MatchFrom(tokens, s) {
      assert GapAt(tokens, s, 0);
    } else if |s| > 0 && !IsLineTerminator(s[0]) && LazyGap(tokens, s[1..]) {
      LazyGapIff(tokens, s[1..]);
      var j: nat :| GapAt(tokens, s[1..], j);
      GapWiden(tokens, s, j);
    } else if exists j :: GapAt(tokens, s, j) {
      var j: nat :| GapAt(tokens, s, j);
      GapNarrow(tokens, s, j);
      LazyGapIff(tokens, s[1..]);
    }
  }

  /** A gap after a first character that `.` takes is one character wider. */
  lemma GapWiden(tokens: seq<string>, s: string, j: nat)
    requires |tokens| >= 1 && |s| > 0 && !IsLineTerminator(s[0])
    requires GapAt(tokens, s[1..], j)
    ensures GapAt(tokens, s, j + 1)
  {
    assert s[1..][j..] == s[j + 1..];
    assert s[..j + 1] == [s[0]] + s[1..][..j];
  }

  /** A non-empty gap leaves a gap one character narrower after its first character. */
  lemma GapNarrow(tokens: seq<string>, s: string, j: nat)
    requires |tokens| >= 1 && GapAt(tokens, s, j) && !MatchFrom(tokens, s)
    ensures 0 < j && !IsLineTerminator(s[0]) && GapAt(tokens, s[1..], j - 1)
  {
    assert s[0..] == s;
    assert s[..j][0] == s[0];
    assert s[1..][j - 1..] == s[j..];
    assert s[1..][..j - 1] == s[..j][1..];
  }

  lemma {:induction false} MatchFromSound(tokens: seq<string>, s: string)
    requires |tokens| >= 1
    requires MatchFrom(tokens, s)
    ensures exists fillers :: FilledBy(tokens, fillers, s)
    decreases |tokens|
  {
    if |tokens| == 1 {
      assert FilledBy(tokens, [], s);
    } else {
      var t0 := tokens[0];
      var rest := s[|t0|..];
      LazyGapIff(tokens[1..], rest);
      var j: nat :| GapAt(tokens[1..], rest, j);
      MatchFromSound(tokens[1..], rest[j..]);
      var f :| FilledBy(tokens[1..], f, rest[j..]);
      var fillers := [rest[..j]] + f;
      assert fillers[1..] == f;
      assert s == t0 + rest[..j] + rest[j..];
      assert FilledBy(tokens, fillers, s);
    }
  }

  lemma {:induction false} MatchFromComplete(tokens: seq<string>, fillers: seq<string>, s: string)
    requires |tokens| >= 1
    requires FilledBy(tokens, fillers, s)
    ensures MatchFrom(tokens, s)
    decreases |tokens|
  {
    if |tokens| > 1 {
      var t0 := tokens[0];
      var tail := Interleave(tokens[1..], fillers[1..]);
      MatchFromComplete(tokens[1..], fillers[1..], tail);
      assert s == t0 + (fillers[0] + tail);
      var rest := s[|t0|..];
      assert rest == fillers[0] + tail;
      assert rest[..|fillers[0]|] == fillers[0];
      assert rest[|fillers[0]|..] == tail;
      assert GapAt(tokens[1..], rest, |fillers[0]|);
      LazyGapIff(tokens[1..], rest);
    }
  }

  /** The lazy matcher agrees with the declarative reading of a glob. */
  lemma MatchFromIff(tokens: seq<string>, s: string)
    requires |tokens| >= 1
    ensures MatchFrom(tokens, s) <==> exists fillers :: FilledBy(tokens, fillers, s)
  {
    if MatchFrom(tokens, s) {
      MatchFromSound(tokens, s);
    } else if exists fillers :: FilledBy(tokens, fillers, s) {
      var fillers :| FilledBy(tokens, fillers, s);
      MatchFromComplete(tokens, fillers, s);
    }
  }

  /**
   * A glob matches `key` exactly when `key` is the glob's literal segments in
   * order, with line-terminator-free text in place of each `*`.
   */
  lemma GlobMatchesIff(glob: string, key: string)
    ensures GlobMatches(glob, key)
        <==> exists fillers :: FilledBy(Compile(glob).tokens, fillers, key)
  {
    MatchFromIff(Compile(glob).tokens, key);
  }

  lemma {:induction false} InterleaveSame(tokens: seq<string>, sep: string)
    requires |tokens| >= 1
    ensures Interleave(tokens, seq(|tokens| - 1, _ => sep)) == Join(tokens, sep)
  {
    if |tokens| > 1 {
      assert seq(|tokens| - 1, _ => sep)[1..] == seq(|tokens| - 2, _ => sep);
      InterleaveSame(tokens[1..], sep);
    }
  }

  /** Every glob matches its own text: each `*` stands for itself. */
  lemma GlobMatchesItself(glob: string)
    ensures GlobMatches(glob, glob)
  {
    var tokens := Compile(glob).tokens;
    var stars := seq(|tokens| - 1, _ => "*");
    InterleaveSame(tokens, "*");
    assert FilledBy(tokens, stars, glob);
    MatchFromIff(tokens, glob);
  }

  // ---------------------------------------------------------------------------
  // Ordering: Collections.sort with compareTo = descending weight (stable)

  ghost predicate Descending(gs: seq<Glob>) {
    forall i, j :: 0 <= i < j < |gs| ==> gs[i].weight >= gs[j].weight
  }

  /** Inserts `g` in front of the first glob that is not heavier, so earlier globs stay ahead of later equal ones. */
  function Insert(g: Glob, sorted: seq<Glob>): (r: seq<Glob>)
    ensures multiset(r) == multiset(sorted) + multiset{g}
  {
    if sorted == [] || sorted[0].weight <= g.weight then [g] + sorted
    else
      assert sorted == [sorted[0]] + sorted[1..];
      [sorted[0]] + Insert(g, sorted[1..])
  }

  lemma {:induction false} InsertDescending(g: Glob, sorted: seq<Glob>)
    requires Descending(sorted)
    ensures Descending(Insert(g, sorted))
  {
    if !(sorted == [] || sorted[0].weight <= g.weight) {
      var t := Insert(g, sorted[1..]);
      InsertDescending(g, sorted[1..]);
      forall k | 0 <= k < |t| ensures t[k].weight <= sorted[0].weight {
        assert t[k] in multiset(t);
        if t[k] != g {
          assert t[k] in multiset(sorted[1..]);
        }
      }
    }
  }

  /** A stable sort by descending weight. */
  function SortByWeight(gs: seq<Glob>): (r: seq<Glob>)
    ensures multiset(r) == multiset(gs)
    ensures Descending(r)
  {
    if gs == [] then []
    else
      assert gs == [gs[0]] + gs[1..];
      InsertDescending(gs[0], SortByWeight(gs[1..]));
      Insert(gs[0], SortByWeight(gs[1..]))
  }

  // ---------------------------------------------------------------------------
  // The resolver

  /** exactMatches(): the identifiers without `*`. */
  function ExactMatches(ids: seq<string>): (exact: set<string>)
    ensures forall x :: x in exact <==> x in ids && !IsGlob(x)
  {
    set x | x in ids && !IsGlob(x)
  }

  /** The identifiers with `*`, compiled, in iteration order. */
  function CompileGlobs(ids: seq<string>): (gs: seq<Glob>)
    ensures forall g :: g in gs ==> g == Compile(g.rawPattern) && g.rawPattern in ids && IsGlob(g.rawPattern)
  {
    if ids == [] then []
    else if IsGlob(ids[0]) then [Compile(ids[0])] + CompileGlobs(ids[1..])
    else CompileGlobs(ids[1..])
  }

  /** globs(): compiled globs, heaviest first. */
  function Globs(ids: seq<string>): (gs: seq<Glob>)
    ensures multiset(gs) == multiset(CompileGlobs(ids))
    ensures Descending(gs)
  {
    SortByWeight(CompileGlobs(ids))
  }

  /** The first glob in `gs` that matches `key`. */
  function FirstMatch(gs: seq<Glob>, key: string): (r: Option<Glob>)
    ensures r.Some? ==> r.value in gs && Matches(r.value, key)
    ensures r.None? ==> forall g :: g in gs ==> !Matches(g, key)
  {
    if gs == [] then None
    else if Matches(gs[0], key) then Some(gs[0])
    else FirstMatch(gs[1..], key)
  }

  /** patternFor(key). */
  function PatternFor(ids: seq<string>, key: string): (r: Option<string>)
    ensures r.Some? ==> r.value in ids && (r.value == key || (IsGlob(r.value) && GlobMatches(r.value, key)))
  {
    if key in ExactMatches(ids) then Some(key)
    else
      match FirstMatch(Globs(ids), key)
      case None => None
      case Some(g) =>
        assert g in multiset(Globs(ids));
        assert g in CompileGlobs(ids);
        Some(g.rawPattern)
  }

  // ---------------------------------------------------------------------------
  // A reference definition of the winning glob, independent of sorting

  predicate IsCandidate(id: string, key: string) {
    IsGlob(id) && GlobMatches(id, key)
  }

  /**
   * The index in iteration order of the glob that should win for `key`: it
   * matches, no matching glob is heavier, and every earlier matching glob is
   * lighter.
   */
  function BestGlobIndex(ids: seq<string>, key: string): (r: Option<nat>)
    ensures r.Some? ==> r.value < |ids| && IsCandidate(ids[r.value], key)
    ensures r.Some? ==> forall j :: 0 <= j < |ids| && IsCandidate(ids[j], key) ==> Weight(ids[j]) <= Weight(ids[r.value])
    ensures r.Some? ==> forall j :: 0 <= j < r.value && IsCandidate(ids[j], key) ==> Weight(ids[j]) < Weight(ids[r.value])
    ensures r.None? <==> forall j :: 0 <= j < |ids| ==> !IsCandidate(ids[j], key)
  {
    if ids == [] then None
    else
      var rest := BestGlobIndex(ids[1..], key);
      assert forall j :: 1 <= j < |ids| ==> ids[1..][j - 1] == ids[j];
      if IsCandidate(ids[0], key) && (rest.None? || Weight(ids[1 + rest.value]) <= Weight(ids[0])) then Some(0)
      else if rest.None? then None
      else Some(1 + rest.value)
  }

  lemma {:induction false} FirstMatchInsert(g: Glob, sorted: seq<Glob>, key: string)
    requires Descending(sorted)
    ensures FirstMatch(Insert(g, sorted), key)
         == if Matches(g, key) && (FirstMatch(sorted, key).None? || FirstMatch(sorted, key).value.weight <= g.weight)
            then Some(g) else FirstMatch(sorted, key)
  {
    if sorted == [] || sorted[0].weight <= g.weight {
      var first := FirstMatch(sorted, key);
      if first.Some? {
        assert first.value.weight <= sorted[0].weight by {
          var k :| 0 <= k < |sorted| && sorted[k] == first.value;
        }
      }
    } else {
      assert Descending(sorted[1..]);
      FirstMatchInsert(g, sorted[1..], key);
      var first := FirstMatch(sorted[1..], key);
      if first.Some? {
        var k :| 0 <= k < |sorted[1..]| && sorted[1..][k] == first.value;
        assert sorted[1 + k] == first.value;
      }
    }
  }

  /** The first match among the sorted globs is the reference winner. */
  lemma {:induction false} SortedFirstMatchIsBest(ids: seq<string>, key: string)
    ensures FirstMatch(Globs(ids), key)
         == match BestGlobIndex(ids, key)
            case None => None
            case Some(i) => Some(Compile(ids[i]))
  {
    if ids != [] {
      SortedFirstMatchIsBest(ids[1..], key);
      var rest := BestGlobIndex(ids[1..], key);
      if IsGlob(ids[0]) {
        var sorted := SortByWeight(CompileGlobs(ids[1..]));
        assert Globs(ids) == Insert(Compile(ids[0]), sorted);
        FirstMatchInsert(Compile(ids[0]), sorted, key);
      }
      if rest.Some? {
        assert ids[1..][rest.value] == ids[1 + rest.value];
      }
    }
  }

  // ---------------------------------------------------------------------------
  // Properties of patternFor

  /** An exact identifier resolves to itself, even when a heavier glob also matches it. */
  lemma ExactMatchWins(ids: seq<string>, key: string)
    requires key in ids && !IsGlob(key)
    ensures PatternFor(ids, key) == Some(key)
  {
  }

  /**
   * Without an exact identifier, the result is the heaviest matching glob,
   * earliest in iteration order among equally heavy ones, and nothing when no
   * glob matches.
   */
  lemma PatternForGlob(ids: seq<string>, key: string)
    requires !(key in ids && !IsGlob(key))
    ensures PatternFor(ids, key)
         == match BestGlobIndex(ids, key)
            case None => None
            case Some(i) => Some(ids[i])
  {
    SortedFirstMatchIsBest(ids, key);
  }

  /** Any result is one of the known identifiers, and a glob result matches the key with maximal weight. */
  lemma PatternForResult(ids: seq<string>, key: string)
    ensures PatternFor(ids, key).Some? ==> PatternFor(ids, key).value in ids
    ensures PatternFor(ids, key).Some? && PatternFor(ids, key).value != key ==>
              var p := PatternFor(ids, key).value;
              IsGlob(p) && GlobMatches(p, key)
              && forall q :: q in ids && IsCandidate(q, key) ==> Weight(q) <= Weight(p)
  {
    if !(key in ids && !IsGlob(key)) {
      PatternForGlob(ids, key);
      var b := BestGlobIndex(ids, key);
      if b.Some? {
        forall q | q in ids && IsCandidate(q, key) ensures Weight(q) <= Weight(ids[b.value]) {
          var j :| 0 <= j < |ids| && ids[j] == q;
        }
      }
    }
  }

  /** Resolution fails exactly when the key is no exact identifier and no glob matches it. */
  lemma PatternForNone(ids: seq<string>, key: string)
    ensures PatternFor(ids, key).None?
        <==> !(key in ids && !IsGlob(key)) && forall q :: q in ids && IsGlob(q) ==> !GlobMatches(q, key)
  {
    if !(key in ids && !IsGlob(key)) {
      PatternForGlob(ids, key);
      if BestGlobIndex(ids, key).None? {
        forall q | q in ids && IsGlob(q) ensures !GlobMatches(q, key) {
          var j :| 0 <= j < |ids| && ids[j] == q;
          assert !IsCandidate(ids[j], key);
        }
      }
    }
  }

  /** A `*`-containing key is resolved through the glob path, and resolves when it is itself known. */
  lemma GlobKeyResolves(ids: seq<string>, key: string)
    requires IsGlob(key) && key in ids
    ensures PatternFor(ids, key).Some?
  {
    GlobMatchesItself(key);
    PatternForNone(ids, key);
  }

  /** The heavier of two matching globs wins, whatever the iteration order. */
  lemma HeavierGlobWins(ids: seq<string>, key: string, heavy: string)
    requires !(key in ids && !IsGlob(key))
    requires heavy in ids && IsCandidate(heavy, key)
    requires forall q :: q in ids && IsCandidate(q, key) && q != heavy ==> Weight(q) < Weight(heavy)
    ensures PatternFor(ids, key) == Some(heavy)
  {
    PatternForGlob(ids, key);
    var j :| 0 <= j < |ids| && ids[j] == heavy;
    var b := BestGlobIndex(ids, key);
    assert b.Some?;
  }
}
