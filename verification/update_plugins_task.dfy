/**
 * The updatePlugins task without its file handling: merge the plugin
 * recommendations of every project report, then rewrite the version literal
 * of each plugin's `id "NAME" version "..."` declaration in a build script.
 */
module UpdatePluginsTask {
  import opened Wrappers
  import opened Text
  import opened Api
  import opened Merging

  /** Plugin-block coordinates have the form `<pluginId>:<pluginId>.gradle.plugin`. */
  const PluginMarkerSuffix := ".gradle.plugin"

  function KeyedPlugins(recs: seq<DependencyUpdateRec>): (r: seq<Recommendation>)
    ensures forall x :: x in r <==>
              exists d :: d in recs && EndsWith(d.name, PluginMarkerSuffix) && x == Recommendation(d.group, d.latestVersion)
  {
    if recs == [] then []
    else
      var rest := KeyedPlugins(recs[1..]);
      assert forall d :: d in recs <==> d == recs[0] || d in recs[1..];
      if EndsWith(recs[0].name, PluginMarkerSuffix) then [Recommendation(recs[0].group, recs[0].latestVersion)] + rest
      else rest
  }

  /** Every report's plugin-marker recommendations, report by report, keyed by plugin id. */
  function PluginRecommendations(reports: seq<UpdateReport>): (r: seq<Recommendation>)
    ensures forall x :: x in r <==>
              exists i, d :: 0 <= i < |reports| && d in reports[i].pluginUpdates
                             && EndsWith(d.name, PluginMarkerSuffix) && x == Recommendation(d.group, d.latestVersion)
  {
    if reports == [] then []
    else
      assert forall i :: 1 <= i < |reports| ==> reports[1..][i - 1] == reports[i];
      KeyedPlugins(reports[0].pluginUpdates) + PluginRecommendations(reports[1..])
  }

  /** The filter keeps the recommendations' order: one more recommendation is appended exactly when it is a plugin marker. */
  lemma {:induction false} KeyedPluginsAppend(recs: seq<DependencyUpdateRec>, d: DependencyUpdateRec)
    ensures KeyedPlugins(recs + [d])
            == KeyedPlugins(recs) + (if EndsWith(d.name, PluginMarkerSuffix) then [Recommendation(d.group, d.latestVersion)] else [])
    decreases |recs|
  {
    if recs == [] {
      assert [d][1..] == [];
    } else {
      assert (recs + [d])[1..] == recs[1..] + [d];
      KeyedPluginsAppend(recs[1..], d);
    }
  }

  /** The recommendations reach the merge report by report: one more report appends exactly its plugin markers. */
  lemma {:induction false} PluginRecommendationsAppend(reports: seq<UpdateReport>, report: UpdateReport)
    ensures PluginRecommendations(reports + [report])
            == PluginRecommendations(reports) + KeyedPlugins(report.pluginUpdates)
    decreases |reports|
  {
    if reports == [] {
      assert [report][1..] == [];
    } else {
      assert (reports + [report])[1..] == reports[1..] + [report];
      PluginRecommendationsAppend(reports[1..], report);
    }
  }

  /** mergePluginUpdates. */
  method MergePluginUpdates(reports: seq<UpdateReport>) returns (updates: map<string, string>, conflicts: seq<string>)
    ensures Merged(updates, conflicts) == Merge(PluginRecommendations(reports))
    ensures forall key :: key in updates ==>
              exists i, d :: 0 <= i < |reports| && d in reports[i].pluginUpdates
                             && EndsWith(d.name, PluginMarkerSuffix) && d.group == key && d.latestVersion == updates[key]
  {
    var recs := PluginRecommendations(reports);
    updates, conflicts := MergeRecommendations(recs);
    forall key | key in updates
      ensures exists i, d :: 0 <= i < |reports| && d in reports[i].pluginUpdates
                             && EndsWith(d.name, PluginMarkerSuffix) && d.group == key && d.latestVersion == updates[key]
    {
      MergedComesFromLast(recs, key);
    }
  }

  // ---------------------------------------------------------------------------
  // The pattern id(\s+|\s*\()"NAME"(\s+|\)\s+)version\s+"([^"]+)", with NAME
  // matched literally, described by the positions of its parts.

  /**
   * Where the parts of one occurrence starting at `i` lie: `q` is the quote
   * before the name, `s` the start of `version`, `w` and `e` the quotes around
   * the version literal. Group 1 is c[i + 2..q], group 2 is
   * c[q + |name| + 2..s] and group 3 is c[w + 1..e].
   */
  datatype Span = Span(q: nat, s: nat, w: nat, e: nat)

  /** Every character of c[a..b] satisfies `p`. */
  predicate AllIn(c: string, a: nat, b: nat, p: char -> bool) {
    a <= b <= |c| && forall k :: a <= k < b ==> p(c[k])
  }

  predicate IsNotQuote(ch: char) {
    ch != '"'
  }

  /** `[^"]+`: what group 3 can capture, and what a new version literal must be to be read back. */
  predicate IsQuotedText(v: string) {
    |v| > 0 && forall k :: 0 <= k < |v| ==> IsNotQuote(v[k])
  }

  /** `(\s+|\s*\()"` from `p`, ending with the quote at `q`. */
  predicate OpenerAt(c: string, p: nat, q: nat) {
    && p < q < |c| && c[q] == '"'
    && (AllIn(c, p, q, IsSpace) || (c[q - 1] == '(' && AllIn(c, p, q - 1, IsSpace)))
  }

  /** `NAME"` right after the quote at `q`. */
  predicate NameAt(c: string, q: nat, name: string) {
    OccursAt(c, name, q + 1) && q + 1 + |name| < |c| && c[q + 1 + |name|] == '"'
  }

  /** `(\s+|\)\s+)` spanning c[r..s]. */
  predicate CloserAt(c: string, r: nat, s: nat) {
    && r < s <= |c|
    && (AllIn(c, r, s, IsSpace) || (c[r] == ')' && r + 1 < s && AllIn(c, r + 1, s, IsSpace)))
  }

  /** `version\s+"([^"]+)"` from `s`, with its quotes at `w` and `e`. */
  predicate VersionAt(c: string, s: nat, w: nat, e: nat) {
    && s + 7 < w && w + 1 < e < |c|
    && OccursAt(c, "version", s) && AllIn(c, s + 7, w, IsSpace) && c[w] == '"'
    && AllIn(c, w + 1, e, IsNotQuote) && c[e] == '"'
  }

  /** An occurrence of the pattern for `name` starts at `i` in `c`, with its parts where `sp` says. */
  predicate OccursAsSpan(c: string, i: nat, name: string, sp: Span) {
    && OccursAt(c, "id", i) && OpenerAt(c, i + 2, sp.q) && NameAt(c, sp.q, name)
    && CloserAt(c, sp.q + |name| + 2, sp.s) && VersionAt(c, sp.s, sp.w, sp.e)
  }

  /** The fixed parts of an occurrence: `id`, the quoted name and `version`. */
  predicate LiteralsAt(c: string, i: nat, name: string, sp: Span) {
    && OccursAt(c, "id", i) && i + 2 <= sp.q < |c| && c[sp.q] == '"' && NameAt(c, sp.q, name)
    && sp.q + |name| + 2 <= sp.s && OccursAt(c, "version", sp.s) && sp.s + 7 <= sp.e < |c|
  }

  /** Group 1 and its quote from `p`: the index of the quote. */
  function OpenEnd(c: string, p: nat): (q: Option<nat>)
    requires p <= |c|
    ensures q.Some? ==> p < q.value < |c|
  {
    var w := RunEnd(c, p, IsSpace);
    if w > p && w < |c| && c[w] == '"' then Some(w)
    else if w + 1 < |c| && c[w] == '(' && c[w + 1] == '"' then Some(w + 1)
    else None
  }

  /** Group 2 from `r`: the index where it ends. */
  function CloseEnd(c: string, r: nat): (s: Option<nat>)
    requires r <= |c|
    ensures s.Some? ==> r < s.value <= |c|
  {
    var w := RunEnd(c, r, IsSpace);
    if w > r then Some(w)
    else if r < |c| && c[r] == ')' then
      var w2 := RunEnd(c, r + 1, IsSpace);
      if w2 > r + 1 then Some(w2) else None
    else None
  }

  /** `version\s+"([^"]+)"` from `s`: the indices of the two quotes. */
  function VersionQuotes(c: string, s: nat): (r: Option<(nat, nat)>)
    requires s <= |c|
    ensures r.Some? ==> s + 7 < r.value.0 && r.value.0 + 1 < r.value.1 < |c|
  {
    if !OccursAt(c, "version", s) then None
    else
      var w := RunEnd(c, s + 7, IsSpace);
      if w == s + 7 || w == |c| || c[w] != '"' then None
      else
        var e := RunEnd(c, w + 1, IsNotQuote);
        if e == w + 1 || e == |c| then None
        else Some((w, e))
  }

  /** The occurrence starting at `i`, if the pattern matches there, as the parts' positions. */
  function MatchSpan(c: string, i: nat, name: string): (r: Option<Span>)
    requires i <= |c|
    ensures r.Some? ==> var sp := r.value;
              i + 2 < sp.q && sp.q + |name| + 2 < sp.s && sp.s + 7 < sp.w && sp.w + 1 < sp.e < |c|
  {
    if !OccursAt(c, "id", i) then None
    else
      match OpenEnd(c, i + 2)
      case None => None
      case Some(q) =>
        if !NameAt(c, q, name) then None
        else
          match CloseEnd(c, q + |name| + 2)
          case None => None
          case Some(s) =>
            match VersionQuotes(c, s)
            case None => None
            case Some((w, e)) => Some(Span(q, s, w, e))
  }

  /** The opening part is found exactly where the pattern allows it. */
  lemma OpenEndIff(c: string, p: nat, q: nat)
    requires p <= |c|
    ensures OpenEnd(c, p) == Some(q) <==> OpenerAt(c, p, q)
  {
    RunEndFacts(c, p, IsSpace);
    if OpenerAt(c, p, q) {
      if AllIn(c, p, q, IsSpace) {
        RunEndAt(c, p, q, IsSpace);
      } else {
        RunEndAt(c, p, q - 1, IsSpace);
      }
    }
  }

  /** The closing part is the longest one the pattern allows. */
  lemma CloseEndIff(c: string, r: nat, s: nat)
    requires r <= |c|
    ensures CloseEnd(c, r) == Some(s) <==> CloserAt(c, r, s) && (s < |c| ==> !IsSpace(c[s]))
  {
    RunEndFacts(c, r, IsSpace);
    if r < |c| {
      RunEndFacts(c, r + 1, IsSpace);
    }
    if CloserAt(c, r, s) && (s < |c| ==> !IsSpace(c[s])) {
      if AllIn(c, r, s, IsSpace) {
        RunEndAt(c, r, s, IsSpace);
      } else {
        RunEndAt(c, r, r, IsSpace);
        RunEndAt(c, r + 1, s, IsSpace);
      }
    }
  }

  /** The version clause is found exactly where the pattern allows it. */
  lemma VersionQuotesIff(c: string, s: nat, w: nat, e: nat)
    requires s <= |c|
    ensures VersionQuotes(c, s) == Some((w, e)) <==> VersionAt(c, s, w, e)
  {
    if OccursAt(c, "version", s) {
      RunEndFacts(c, s + 7, IsSpace);
      if VersionAt(c, s, w, e) {
        RunEndAt(c, s + 7, w, IsSpace);
        RunEndAt(c, w + 1, e, IsNotQuote);
      } else if VersionQuotes(c, s).Some? {
        RunEndFacts(c, VersionQuotes(c, s).value.0 + 1, IsNotQuote);
      }
    }
  }

  /**
   * The hand-written matcher agrees with the pattern: it finds an occurrence
   * at `i` exactly when one starts there, and its parts are the only ones
   * possible.
   */
  lemma {:induction false} MatchSpanIff(c: string, i: nat, name: string, sp: Span)
    requires i <= |c|
    ensures MatchSpan(c, i, name) == Some(sp) <==> OccursAsSpan(c, i, name, sp)
  {
    if OccursAsSpan(c, i, name, sp) {
      MatchSpanComplete(c, i, name, sp);
    }
    if MatchSpan(c, i, name) == Some(sp) {
      MatchSpanSound(c, i, name, sp);
    }
  }

  lemma {:induction false} MatchSpanComplete(c: string, i: nat, name: string, sp: Span)
    requires i <= |c| && OccursAsSpan(c, i, name, sp)
    ensures MatchSpan(c, i, name) == Some(sp)
  {
    var r := sp.q + |name| + 2;
    OpenEndIff(c, i + 2, sp.q);
    assert c[sp.s + 0] == "version"[0];
    CloseEndIff(c, r, sp.s);
    VersionQuotesIff(c, sp.s, sp.w, sp.e);
  }

  lemma {:induction false} MatchSpanSound(c: string, i: nat, name: string, sp: Span)
    requires i <= |c| && MatchSpan(c, i, name) == Some(sp)
    ensures OccursAsSpan(c, i, name, sp)
  {
    OpenEndIff(c, i + 2, sp.q);
    CloseEndIff(c, sp.q + |name| + 2, sp.s);
    VersionQuotesIff(c, sp.s, sp.w, sp.e);
  }

  /** The first occurrence at or after `from`, as Matcher.find does. */
  function FindSpan(c: string, name: string, from: nat): (r: Option<(nat, Span)>)
    requires from <= |c|
    ensures r.Some? ==> from <= r.value.0 <= |c| && MatchSpan(c, r.value.0, name) == Some(r.value.1)
    ensures r.Some? ==> forall j :: from <= j < r.value.0 ==> MatchSpan(c, j, name).None?
    ensures r.None? ==> forall j :: from <= j <= |c| ==> MatchSpan(c, j, name).None?
    decreases |c| - from
  {
    match MatchSpan(c, from, name)
    case Some(sp) => Some((from, sp))
    case None => if from == |c| then None else FindSpan(c, name, from + 1)
  }

  /** The replacement `id$1"NAME"$2version "VERSION"`, given groups 1 and 2. */
  function Replacement(open: string, name: string, close: string, version: string): string {
    "id" + open + "\"" + name + "\"" + close + "version" + SpacedLiteral(version)
  }

  /** The content with the occurrence `sp` starting at `i` replaced. */
  function ReplaceAt(content: string, name: string, version: string, i: nat, sp: Span): string
    requires i + 2 <= sp.q && sp.q + |name| + 2 <= sp.s <= sp.e < |content|
  {
    var open := content[i + 2..sp.q];
    var close := content[sp.q + |name| + 2..sp.s];
    content[..i] + Replacement(open, name, close, version) + content[sp.e + 1..]
  }

  /** What the replacement puts after `version`: one space and the new literal in quotes. */
  function SpacedLiteral(version: string): (r: string)
    ensures |r| == |version| + 3 && r[0] == ' ' && r[1] == '"' && r[|r| - 1] == '"'
    ensures r[2..|r| - 1] == version
  {
    " \"" + version + "\""
  }

  /** applyUpdate: the first occurrence replaced, or the content unchanged. */
  function ApplyUpdate(content: string, pluginName: string, pluginVersion: string): string {
    match FindSpan(content, pluginName, 0)
    case None => content
    case Some((i, sp)) => ReplaceAt(content, pluginName, pluginVersion, i, sp)
  }

  /** `x` occurs at `p`, as a slice. */
  lemma SliceAt(c: string, p: nat, x: string)
    requires OccursAt(c, x, p)
    ensures c[p..p + |x|] == x
  {
    assert forall k :: 0 <= k < |x| ==> c[p..p + |x|][k] == x[k];
  }

  lemma SliceJoin(c: string, a: nat, b: nat, d: nat)
    requires a <= b <= d <= |c|
    ensures c[a..b] + c[b..d] == c[a..d]
  {
  }

  /**
   * Groups 1 and 2 put back what they captured, so the replacement differs
   * from the occurrence only after `version`: one space and the new literal.
   */
  lemma ReplacementKeepsHead(c: string, i: nat, name: string, sp: Span, version: string)
    requires LiteralsAt(c, i, name, sp)
    ensures var r := sp.q + |name| + 2;
            Replacement(c[i + 2..sp.q], name, c[r..sp.s], version) == c[i..sp.s + 7] + SpacedLiteral(version)
  {
    var r := sp.q + |name| + 2;
    NameHead(c, i, sp.q, name);
    VersionHead(c, i, r, sp.s, "id" + c[i + 2..sp.q] + "\"" + name + "\"");
  }

  /** `id`, group 1 and the quoted name, put back together. */
  lemma NameHead(c: string, i: nat, q: nat, name: string)
    requires OccursAt(c, "id", i) && i + 2 <= q < |c| && c[q] == '"' && NameAt(c, q, name)
    ensures "id" + c[i + 2..q] + "\"" + name + "\"" == c[i..q + |name| + 2]
  {
    var r := q + |name| + 2;
    SliceAt(c, i, "id");
    SliceJoin(c, i, i + 2, q);
    assert c[q..q + 1] == "\"";
    SliceJoin(c, i, q, q + 1);
    SliceAt(c, q + 1, name);
    SliceJoin(c, i, q + 1, r - 1);
    assert c[r - 1..r] == "\"";
    SliceJoin(c, i, r - 1, r);
  }

  /** What precedes group 2, group 2 and `version`, put back together. */
  lemma VersionHead(c: string, i: nat, r: nat, s: nat, h: string)
    requires i <= r <= s && OccursAt(c, "version", s) && h == c[i..r]
    ensures h + c[r..s] + "version" == c[i..s + 7]
  {
    SliceJoin(c, i, r, s);
    SliceAt(c, s, "version");
    SliceJoin(c, i, s, s + 7);
  }

  /** With no occurrence of the plugin's declaration, applyUpdate leaves the content unchanged. */
  lemma {:induction false} ApplyUpdateNoMatch(content: string, name: string, version: string)
    requires forall j: nat, sp :: j <= |content| ==> !OccursAsSpan(content, j, name, sp)
    ensures ApplyUpdate(content, name, version) == content
  {
    if FindSpan(content, name, 0).Some? {
      var (i, sp) := FindSpan(content, name, 0).value;
      MatchSpanIff(content, i, name, sp);
    }
  }

  /** applyUpdate works on the first occurrence, and there is one there. */
  lemma {:induction false} FirstOccurrence(content: string, name: string, i: nat, sp: Span)
    requires FindSpan(content, name, 0) == Some((i, sp))
    ensures forall j: nat, sp' :: j < i ==> !OccursAsSpan(content, j, name, sp')
    ensures OccursAsSpan(content, i, name, sp)
  {
    MatchSpanIff(content, i, name, sp);
    forall j: nat, sp' | j < i ensures !OccursAsSpan(content, j, name, sp') {
      MatchSpanIff(content, j, name, sp');
    }
  }

  /**
   * Replacing an occurrence keeps everything up to and including its
   * `version`, and puts one space and the new literal in place of the rest
   * of it.
   */
  lemma {:induction false} ReplaceAtSplice(content: string, name: string, version: string, i: nat, sp: Span)
    requires LiteralsAt(content, i, name, sp)
    ensures ReplaceAt(content, name, version, i, sp) == content[..sp.s + 7] + SpacedLiteral(version) + content[sp.e + 1..]
  {
    ReplacementKeepsHead(content, i, name, sp, version);
    ReplaceAtChain(content, name, version, i, sp);
  }

  lemma {:induction false} ReplaceAtChain(content: string, name: string, version: string, i: nat, sp: Span)
    requires i + 2 <= sp.q && sp.q + |name| + 2 <= sp.s && sp.s + 7 <= sp.e < |content|
    requires Replacement(content[i + 2..sp.q], name, content[sp.q + |name| + 2..sp.s], version) == content[i..sp.s + 7] + SpacedLiteral(version)
    ensures ReplaceAt(content, name, version, i, sp) == content[..sp.s + 7] + SpacedLiteral(version) + content[sp.e + 1..]
  {
    var x := Replacement(content[i + 2..sp.q], name, content[sp.q + |name| + 2..sp.s], version);
    Splice(content, i, sp.s + 7, sp.e + 1, x, SpacedLiteral(version));
  }

  lemma Splice(c: string, i: nat, j: nat, k: nat, x: string, y: string)
    requires i <= j <= k <= |c| && x == c[i..j] + y
    ensures c[..i] + x + c[k..] == c[..j] + y + c[k..]
  {
    assert c[..i] + c[i..j] == c[..j];
  }

  /**
   * What applyUpdate does when the plugin is declared: the result is the
   * content with the whitespace and literal after the first occurrence's
   * `version` replaced by one space and the new literal.
   */
  lemma {:induction false} ApplyUpdateFirst(content: string, name: string, version: string, i: nat, sp: Span)
    requires FindSpan(content, name, 0) == Some((i, sp))
    ensures sp.s + 7 < sp.e < |content|
    ensures ApplyUpdate(content, name, version) == content[..sp.s + 7] + SpacedLiteral(version) + content[sp.e + 1..]
  {
    FoundLiterals(content, name, i, sp);
    ReplaceAtSplice(content, name, version, i, sp);
  }

  lemma {:induction false} FoundLiterals(content: string, name: string, i: nat, sp: Span)
    requires FindSpan(content, name, 0) == Some((i, sp))
    ensures LiteralsAt(content, i, name, sp)
  {
    MatchSpanSound(content, i, name, sp);
  }

  /**
   * Reading the rewritten text back: the declaration is still found at `i`,
   * with the same groups 1 and 2, one space after `version` and the new
   * version as group 3.
   */
  lemma {:induction false} RewrittenReadsBack(c: string, i: nat, name: string, sp: Span, version: string)
    requires OccursAsSpan(c, i, name, sp) && IsQuotedText(version)
    ensures var t := c[..sp.s + 7] + SpacedLiteral(version) + c[sp.e + 1..];
            var sp' := Span(sp.q, sp.s, sp.s + 8, sp.s + 9 + |version|);
            && MatchSpan(t, i, name) == Some(sp')
            && t[sp'.w + 1..sp'.e] == version
  {
    var t := c[..sp.s + 7] + SpacedLiteral(version) + c[sp.e + 1..];
    var sp' := Span(sp.q, sp.s, sp.s + 8, sp.s + 9 + |version|);
    RewrittenChars(c, sp, version, t);
    SpanTransfer(c, t, i, name, sp, version);
    MatchSpanComplete(t, i, name, sp');
    assert t[sp'.w + 1..sp'.e] == version;
  }

  /** The rewritten text, character by character. */
  lemma RewrittenChars(c: string, sp: Span, version: string, t: string)
    requires sp.s + 7 <= sp.e < |c| && t == c[..sp.s + 7] + SpacedLiteral(version) + c[sp.e + 1..]
    ensures |t| > sp.s + 9 + |version|
    ensures forall k :: 0 <= k < sp.s + 7 ==> t[k] == c[k]
    ensures t[sp.s + 7] == ' ' && t[sp.s + 8] == '"' && t[sp.s + 9 + |version|] == '"'
    ensures forall k :: 0 <= k < |version| ==> t[sp.s + 9 + k] == version[k]
  {
    var l := SpacedLiteral(version);
    assert forall k :: 2 <= k < |l| - 1 ==> l[k] == l[2..|l| - 1][k - 2];
  }

  /** An occurrence whose text up to `version` is kept, followed by one space and a quoted literal. */
  lemma SpanTransfer(c: string, t: string, i: nat, name: string, sp: Span, version: string)
    requires OccursAsSpan(c, i, name, sp) && IsQuotedText(version)
    requires |t| > sp.s + 9 + |version|
    requires forall k :: 0 <= k < sp.s + 7 ==> t[k] == c[k]
    requires t[sp.s + 7] == ' ' && t[sp.s + 8] == '"' && t[sp.s + 9 + |version|] == '"'
    requires forall k :: 0 <= k < |version| ==> t[sp.s + 9 + k] == version[k]
    ensures OccursAsSpan(t, i, name, Span(sp.q, sp.s, sp.s + 8, sp.s + 9 + |version|))
  {
    assert forall k :: sp.s + 9 <= k < sp.s + 9 + |version| ==> t[k] == version[k - sp.s - 9];
  }

  /**
   * After applyUpdate with a valid version literal, the declaration is found
   * where it was, with the new version as group 3.
   */
  lemma {:induction false} ApplyUpdateReadsBack(content: string, name: string, version: string, i: nat, sp: Span)
    requires FindSpan(content, name, 0) == Some((i, sp)) && IsQuotedText(version)
    ensures var result := ApplyUpdate(content, name, version);
            var sp' := Span(sp.q, sp.s, sp.s + 8, sp.s + 9 + |version|);
            && i <= |result|
            && MatchSpan(result, i, name) == Some(sp')
            && result[sp'.w + 1..sp'.e] == version
  {
    ApplyUpdateFirst(content, name, version, i, sp);
    FirstOccurrence(content, name, i, sp);
    RewrittenReadsBack(content, i, name, sp, version);
  }

  /** The content after applyUpdate for each key of `keys`, in order. */
  function ApplyAllPlugins(content: string, updates: map<string, string>, keys: seq<string>): string
    requires forall k :: k in keys ==> k in updates
    decreases |keys|
  {
    if keys == [] then content
    else
      var key := keys[|keys| - 1];
      ApplyUpdate(ApplyAllPlugins(content, updates, keys[..|keys| - 1]), key, updates[key])
  }

  /** A build script that declares none of the plugins is left as it was. */
  lemma {:induction false} ApplyAllPluginsNoOccurrence(content: string, updates: map<string, string>, keys: seq<string>)
    requires forall k :: k in keys ==> k in updates
    requires forall k, j: nat, sp :: k in keys && j <= |content| ==> !OccursAsSpan(content, j, k, sp)
    ensures ApplyAllPlugins(content, updates, keys) == content
    decreases |keys|
  {
    if keys != [] {
      var init := keys[..|keys| - 1];
      var key := keys[|keys| - 1];
      assert forall k :: k in init ==> k in keys;
      ApplyAllPluginsNoOccurrence(content, updates, init);
      ApplyUpdateNoMatch(content, key, updates[key]);
    }
  }

  /** setNewPluginVersions without the read and write: `keyOrder` is the merged map's iteration order. */
  method SetNewPluginVersions(content: string, pluginUpdates: map<string, string>, keyOrder: seq<string>) returns (result: string)
    requires forall k :: k in keyOrder <==> k in pluginUpdates
    requires forall i, j :: 0 <= i < j < |keyOrder| ==> keyOrder[i] != keyOrder[j]
    ensures result == ApplyAllPlugins(content, pluginUpdates, keyOrder)
  {
    result := content;
    for i := 0 to |keyOrder|
      invariant result == ApplyAllPlugins(content, pluginUpdates, keyOrder[..i])
    {
      assert keyOrder[..i + 1][..i] == keyOrder[..i];
      assert forall k :: k in keyOrder[..i] ==> k in keyOrder;
      var key := keyOrder[i];
      result := ApplyUpdate(result, key, pluginUpdates[key]);
    }
    assert keyOrder[..|keyOrder|] == keyOrder;
  }
}
