# gradle-versions: a verified model of the update logic

gradle-versions is a Gradle plugin that finds newer releases of a build's
dependencies and plugins and writes them back into the build. This project
models, in Dafny, the logic between dependency resolution and the files it
reads and writes:

- **checkNewVersions** chooses which configurations to check and keys the
  resolved dependencies by `group:name`. It rejects pre-release candidates,
  joins the current and latest versions into recommendations, and renders
  each one as `group:name:{current -> latest}`.
- **Merging recommendations** from every project's report: a key whose
  recommendations disagree is dropped, and a warning is logged for it.
- **versions.props** is parsed into version lines and opaque lines. The
  fuzzy pattern resolver finds the line for a dependency: an exact
  identifier first, otherwise the heaviest matching glob. The line's version
  is updated in place and the document is written back.
- **updatePlugins** rewrites the version literal of the first
  `id "NAME" version "..."` declaration in a build script.
- **updateGradleWrapper** points `distributionUrl=` in
  gradle-wrapper.properties at a new distribution, with the URL's colons
  escaped.

The regular expressions of the Java code are written out as string predicates:

- `\s` is one of space, tab, \n, \x0B, \f and \r;
- `.` matches anything but a line terminator (\n, \r, \u0085, \u2028, \u2029);
- `*?` is the lazy gap of the glob matcher;
- `[^#\s]+` backtracks as far as the rest of the version line needs.

Each pattern search comes with a declarative characterisation, proved in
both directions: what the search returns fits the pattern at the positions
it names, and everything the pattern allows is found. Iteration orders of Java hash sets and maps are parameters
(`ids`, `order`, `keyOrder`): the code does not fix them, and the
properties hold for every order.

Modules, one per file:

- `Wrappers`, `Text`, `Api`: options and results, string helpers, and report records.
- `FuzzyPatternResolver`.
- `VersionsProps`: the line grammar, and a `VersionsProps` class whose `lines` field `Update` changes in place.
- `Merging`: the fold shared by both merge methods.
- `UpdateVersionsPropsTask`, `UpdatePluginsTask`, `UpdateGradleWrapperTask`, `CheckNewVersionsTask`.

In the merge, a key removed after a disagreement is put back by the next
recommendation for it: `v1, v2, v1` ends as `v1`, and `v1, v1, v2` ends
with the key removed. The removal's own comment says it is there to ignore
the conflict (UpdateVersionsPropsTask.java:69); the model follows the code.

## Model

| member | source | states |
|---|---|---|
| FuzzyPatternResolver.Compile | gradle-versions/src/main/java/com/markelliot/gradle/versions/props/FuzzyPatternResolver.java:81-100 | the tokens are the glob split at every `*` (empty ends kept), none contains `*`, joined with `*` they give the glob back, and the weight is the glob's length minus its number of `*` |
| FuzzyPatternResolver.LazyGapIff | gradle-versions/src/main/java/com/markelliot/gradle/versions/props/FuzzyPatternResolver.java:86-97 | the lazy gap `.*?` before the next token succeeds iff some line-terminator-free prefix is followed by text the remaining tokens match |
| FuzzyPatternResolver.MatchFromSound | gradle-versions/src/main/java/com/markelliot/gradle/versions/props/FuzzyPatternResolver.java:86-108 | a full match of the compiled pattern yields fillers without line terminators that, put between the tokens, give the key |
| FuzzyPatternResolver.MatchFromComplete | gradle-versions/src/main/java/com/markelliot/gradle/versions/props/FuzzyPatternResolver.java:86-108 | every such interleaving of the tokens with line-terminator-free fillers is matched |
| FuzzyPatternResolver.MatchFromIff | gradle-versions/src/main/java/com/markelliot/gradle/versions/props/FuzzyPatternResolver.java:86-108 | the compiled pattern matches iff the key is the tokens in order with line-terminator-free text in place of each `*` |
| FuzzyPatternResolver.GlobMatchesIff | gradle-versions/src/main/java/com/markelliot/gradle/versions/props/FuzzyPatternResolver.java:106-108 | Glob.matches holds iff the key is such an interleaving of the glob's own tokens |
| FuzzyPatternResolver.GlobMatchesItself | gradle-versions/src/main/java/com/markelliot/gradle/versions/props/FuzzyPatternResolver.java:106-108 | every glob matches its own text (each `*` standing for itself) |
| FuzzyPatternResolver.Matches | gradle-versions/src/main/java/com/markelliot/gradle/versions/props/FuzzyPatternResolver.java:106-108 | Glob.matches: the compiled pattern matches the whole key; what it accepts is stated by MatchFromIff and GlobMatchesIff |
| FuzzyPatternResolver.Insert | gradle-versions/src/main/java/com/markelliot/gradle/versions/props/FuzzyPatternResolver.java:51 | inserting a glob into a sorted list adds exactly that glob (same multiset plus one) |
| FuzzyPatternResolver.InsertDescending | gradle-versions/src/main/java/com/markelliot/gradle/versions/props/FuzzyPatternResolver.java:110-113 | insertion keeps the list in descending weight order, compareTo's order |
| FuzzyPatternResolver.SortByWeight | gradle-versions/src/main/java/com/markelliot/gradle/versions/props/FuzzyPatternResolver.java:48-52 | the sorted globs are a permutation of the compiled ones, in descending weight |
| FuzzyPatternResolver.CompileGlobs | gradle-versions/src/main/java/com/markelliot/gradle/versions/props/FuzzyPatternResolver.java:41-47 | every compiled glob comes from an identifier with `*` and is that identifier compiled |
| FuzzyPatternResolver.Globs | gradle-versions/src/main/java/com/markelliot/gradle/versions/props/FuzzyPatternResolver.java:41-53 | the compiled `*` identifiers, each exactly once, heaviest first |
| FuzzyPatternResolver.FirstMatch | gradle-versions/src/main/java/com/markelliot/gradle/versions/props/FuzzyPatternResolver.java:61-65 | the result is a glob of the list that matches the key; none means no glob of the list matches |
| FuzzyPatternResolver.PatternFor | gradle-versions/src/main/java/com/markelliot/gradle/versions/props/FuzzyPatternResolver.java:55-68 | a result is one of the identifiers and is either the key itself or a glob that matches the key; which one wins is stated by ExactMatchWins, PatternForGlob, PatternForNone and HeavierGlobWins |
| FuzzyPatternResolver.BestGlobIndex | gradle-versions/src/main/java/com/markelliot/gradle/versions/props/FuzzyPatternResolver.java:41-65 | an independent reference: the first identifier among the matching globs of maximal weight; none iff no glob identifier matches |
| FuzzyPatternResolver.FirstMatchInsert | gradle-versions/src/main/java/com/markelliot/gradle/versions/props/FuzzyPatternResolver.java:48-52 | in a sorted list, the first match after inserting a glob is that glob exactly when it matches and no heavier glob already matched |
| FuzzyPatternResolver.SortedFirstMatchIsBest | gradle-versions/src/main/java/com/markelliot/gradle/versions/props/FuzzyPatternResolver.java:41-65 | the first match in the sorted globs is the heaviest matching glob, ties going to iteration order (the sort is stable) |
| FuzzyPatternResolver.ExactMatchWins | gradle-versions/src/main/java/com/markelliot/gradle/versions/props/FuzzyPatternResolver.java:55-59 | an identifier without `*` equal to the key is returned, even if a heavier glob matches |
| FuzzyPatternResolver.PatternForGlob | gradle-versions/src/main/java/com/markelliot/gradle/versions/props/FuzzyPatternResolver.java:55-67 | without an exact match, patternFor returns the heaviest matching glob, or nothing |
| FuzzyPatternResolver.PatternForResult | gradle-versions/src/main/java/com/markelliot/gradle/versions/props/FuzzyPatternResolver.java:55-67 | a result is always one of the identifiers; one other than the key is a matching glob at least as heavy as every other matching glob |
| FuzzyPatternResolver.PatternForNone | gradle-versions/src/main/java/com/markelliot/gradle/versions/props/FuzzyPatternResolver.java:55-67 | the result is empty iff the key is no exact identifier and no glob matches it |
| FuzzyPatternResolver.GlobKeyResolves | gradle-versions/src/main/java/com/markelliot/gradle/versions/props/FuzzyPatternResolver.java:55-67 | a glob identifier asked for itself always resolves |
| FuzzyPatternResolver.HeavierGlobWins | gradle-versions/src/main/java/com/markelliot/gradle/versions/props/FuzzyPatternResolver.java:48-65 | a matching glob strictly heavier than every other matching glob is the answer |
| Text.JoinSplit | gradle-versions/src/main/java/com/markelliot/gradle/versions/props/FuzzyPatternResolver.java:86 | joining the parts of split(c, -1) with c gives the string back |
| Text.SplitJoin | gradle-versions/src/main/java/com/markelliot/gradle/versions/props/FuzzyPatternResolver.java:86 | splitting a join of separator-free parts gives the parts back |
| Text.SumLengthsSplit | gradle-versions/src/main/java/com/markelliot/gradle/versions/props/FuzzyPatternResolver.java:93 | the parts' lengths add up to the length minus the number of separators, which is the glob weight |
| Text.IndexOf | gradle-versions/src/main/java/com/markelliot/gradle/versions/UpdateGradleWrapperTask.java:58 | the first occurrence at or after `from`, or none when there is none |
| Text.ContainsIff | gradle-versions/src/main/java/com/markelliot/gradle/versions/CheckNewVersionsTask.java:178 | String.contains holds iff the substring occurs at some index |
| VersionsProps.MatchComment | gradle-versions/src/main/java/com/markelliot/gradle/versions/props/VersionsProps.java:38 | the captured comment group is one character or more with no line terminator; MatchCommentSound ties it to the text after `#` |
| VersionsProps.MatchAfterIdentifier | gradle-versions/src/main/java/com/markelliot/gradle/versions/props/VersionsProps.java:38 | what follows the identifier yields a version token without `#` or space and, if any, a well-formed comment; MatchAfterIdentifierSound ties both to their places in the text |
| VersionsProps.SearchIdentifierEnd | gradle-versions/src/main/java/com/markelliot/gradle/versions/props/VersionsProps.java:38 | the identifier end it returns is in range and the remainder after it matches the version part |
| VersionsProps.MatchVersionLine | gradle-versions/src/main/java/com/markelliot/gradle/versions/props/VersionsProps.java:134-145 | a match is a well-formed version line; MatchVersionLineSound ties its identifier, version and comment to the line |
| VersionsProps.ParseLine | gradle-versions/src/main/java/com/markelliot/gradle/versions/props/VersionsProps.java:130-147 | a parsed line is well formed, an opaque line keeps its text verbatim, and an error carries the offending line; ParseLineSound and ParseLineComplete state what a version line captures |
| VersionsProps.IsCommentOrEmpty | gradle-versions/src/main/java/com/markelliot/gradle/versions/props/VersionsProps.java:35 | COMMENT_OR_EMPTY: whitespace only, or whitespace, `#` and text without line terminators; ParseLine keeps such a line verbatim |
| VersionsProps.MatchCommentComplete | gradle-versions/src/main/java/com/markelliot/gradle/versions/props/VersionsProps.java:38 | every `\s*#\s*(.+)` tail is matched |
| VersionsProps.MatchAfterIdentifierComplete | gradle-versions/src/main/java/com/markelliot/gradle/versions/props/VersionsProps.java:38 | every `\s*=\s*version` tail, with or without a comment, is matched |
| VersionsProps.SearchIdentifierEndFinds | gradle-versions/src/main/java/com/markelliot/gradle/versions/props/VersionsProps.java:38 | the backtracking search finds the longest identifier end whose remainder matches |
| VersionsProps.ParseLineComplete | gradle-versions/src/main/java/com/markelliot/gradle/versions/props/VersionsProps.java:130-147 | every line of the version-line grammar parses as a version line with an identifier at least as long as the witness |
| VersionsProps.MatchCommentSound | gradle-versions/src/main/java/com/markelliot/gradle/versions/props/VersionsProps.java:38 | the comment group is the tail after `#` and the whitespace run that follows it, which gives back its last character when it reaches the end |
| VersionsProps.MatchAfterIdentifierSound | gradle-versions/src/main/java/com/markelliot/gradle/versions/props/VersionsProps.java:38 | the version group is the longest `[^#\s]+` after `\s*=\s*`; the comment is absent exactly when nothing follows the version, and otherwise is the comment group of what follows |
| VersionsProps.MatchVersionLineSound | gradle-versions/src/main/java/com/markelliot/gradle/versions/props/VersionsProps.java:134-145 | the identifier is a prefix of the line spanned by `[^#\s:]+:[^#\s]+`, and the version and comment are what the rest of the line captures |
| VersionsProps.ParseLineSound | gradle-versions/src/main/java/com/markelliot/gradle/versions/props/VersionsProps.java:130-147 | a line parsed as a version line is not a comment or blank line, and its identifier, version and comment are the line's own text at those places; with ParseLineComplete, the identifier is the longest that works |
| VersionsProps.MatchCommentEmitted | gradle-versions/src/main/java/com/markelliot/gradle/versions/props/VersionsProps.java:195 | an emitted ` # comment` is read back as that comment |
| VersionsProps.MatchAfterEmitted | gradle-versions/src/main/java/com/markelliot/gradle/versions/props/VersionsProps.java:195 | an emitted ` = version` with or without a comment is read back as that version and comment |
| VersionsProps.MatchVersionLineEmitted | gradle-versions/src/main/java/com/markelliot/gradle/versions/props/VersionsProps.java:184-196 | a well-formed version line, emitted and matched again, is the same line |
| VersionsProps.ParseEmitLine | gradle-versions/src/main/java/com/markelliot/gradle/versions/props/VersionsProps.java:127-147 | parsing an emitted well-formed line gives that line back |
| VersionsProps.Emit | gradle-versions/src/main/java/com/markelliot/gradle/versions/props/VersionsProps.java:171-196 | the text of a line as written back; ParseEmitLine states that a well-formed line reads back as itself and EmitSingleLine that it stays on one line |
| VersionsProps.Parse | gradle-versions/src/main/java/com/markelliot/gradle/versions/props/VersionsProps.java:127-150 | the document read line by line; ParseSpec, ParseAppend and ParseErrorPersists state that it succeeds iff every line parses and otherwise names the first invalid line |
| VersionsProps.IdentifiersOfIff | gradle-versions/src/main/java/com/markelliot/gradle/versions/props/VersionsProps.java:146 | the identifier set holds exactly the identifiers of the version lines |
| VersionsProps.ParseSpec | gradle-versions/src/main/java/com/markelliot/gradle/versions/props/VersionsProps.java:127-150 | parsing succeeds iff every line parses, line by line in order; a failure names the first bad line |
| VersionsProps.ParseAppend | gradle-versions/src/main/java/com/markelliot/gradle/versions/props/VersionsProps.java:130-147 | one more parsed input line appends one parsed line |
| VersionsProps.EmitAll | gradle-versions/src/main/java/com/markelliot/gradle/versions/props/VersionsProps.java:96 | one emitted string per line, in order |
| VersionsProps.Serialize | gradle-versions/src/main/java/com/markelliot/gradle/versions/props/VersionsProps.java:95-97 | writeToString: the emitted lines joined by \n with a final \n; SerializeRoundTrip and SerializeStable state that it reads back as the same document |
| VersionsProps.EmitSingleLine | gradle-versions/src/main/java/com/markelliot/gradle/versions/props/VersionsProps.java:192-196 | an emitted line contains no \n |
| VersionsProps.ParseEmitAll | gradle-versions/src/main/java/com/markelliot/gradle/versions/props/VersionsProps.java:127-150 | parsing the emitted lines of a well-formed document gives the document back |
| VersionsProps.SerializeRoundTrip | gradle-versions/src/main/java/com/markelliot/gradle/versions/props/VersionsProps.java:95-97 | reading back what writeToString produces, split into lines, parses to the same document |
| VersionsProps.SerializeStable | gradle-versions/src/main/java/com/markelliot/gradle/versions/props/VersionsProps.java:95-97 | writing, reading and writing again produces the same text |
| VersionsProps.FirstLineFor | gradle-versions/src/main/java/com/markelliot/gradle/versions/props/VersionsProps.java:65-90 | the index of the first version line for the identifier; none iff there is no such line |
| VersionsProps.SameShapeFirstLine | gradle-versions/src/main/java/com/markelliot/gradle/versions/props/VersionsProps.java:57-93 | changing versions does not move the first line for any identifier |
| VersionsProps.UpdateLines | gradle-versions/src/main/java/com/markelliot/gradle/versions/props/VersionsProps.java:57-93 | update on the resolved pattern, as a value; UpdateOutcome, UpdateIdempotent and UpdateKeepsWellFormed state what it changes and returns |
| VersionsProps.UpdateOutcome | gradle-versions/src/main/java/com/markelliot/gradle/versions/props/VersionsProps.java:57-93 | an update changes only the version of the first line for the resolved pattern, reports the old and new version, and returns nothing (changing nothing) when there is no pattern, no line, or the version is already set |
| VersionsProps.ResolvedUpdate | gradle-versions/src/main/java/com/markelliot/gradle/versions/props/VersionsProps.java:57-93 | when the identifiers are those of the lines, an update keeps the identifiers, a resolved pattern always names a line, and an update that returns no record leaves that line already at the requested version |
| VersionsProps.IdentifiersSameShape | gradle-versions/src/main/java/com/markelliot/gradle/versions/props/VersionsProps.java:75-80 | updating a version leaves the identifier set as it was |
| VersionsProps.UpdateIdempotent | gradle-versions/src/main/java/com/markelliot/gradle/versions/props/VersionsProps.java:57-93 | repeating an update changes nothing and returns no record |
| VersionsProps.UpdateKeepsWellFormed | gradle-versions/src/main/java/com/markelliot/gradle/versions/props/VersionsProps.java:75-80 | an update with a valid version token keeps every line well formed |
| VersionsProps.ResolvedPatternHasLine | gradle-versions/src/main/java/com/markelliot/gradle/versions/props/VersionsProps.java:58-69 | a pattern the resolver returns always has a version line |
| VersionsProps.ParseErrorPersists | gradle-versions/src/main/java/com/markelliot/gradle/versions/props/VersionsProps.java:134-137 | once a line fails, the whole parse fails with it |
| VersionsProps.VersionsProps.From | gradle-versions/src/main/java/com/markelliot/gradle/versions/props/VersionsProps.java:127-150 | the loop builds the parsed lines and their identifier set, or fails with the first invalid line |
| VersionsProps.VersionsProps.Update | gradle-versions/src/main/java/com/markelliot/gradle/versions/props/VersionsProps.java:57-93 | the lines and the returned record are those of UpdateLines on the resolved pattern; the identifiers still match the lines; a resolved pattern always has a line, so returning nothing for a resolved pattern means its line already had the version |
| VersionsProps.VersionsProps.constructor | gradle-versions/src/main/java/com/markelliot/gradle/versions/props/VersionsProps.java:52-55 | the document holds the given lines and the identifier set they define, the set the resolver is built from |
| Merging.Step | gradle-versions/src/main/java/com/markelliot/gradle/versions/UpdateVersionsPropsTask.java:59-75 | one recommendation changes only its own key: the key ends holding the recommended version, or is removed and warned about exactly when it held another version |
| Merging.Merge | gradle-versions/src/main/java/com/markelliot/gradle/versions/UpdateVersionsPropsTask.java:54-77 | the fold over the recommendations in order; MergeIsPerKey, MergedComesFromLast and ReinsertAfterConflict state its outcome per key |
| Merging.MergeIsPerKey | gradle-versions/src/main/java/com/markelliot/gradle/versions/UpdateVersionsPropsTask.java:58-75 | keys do not interfere: a key's presence, version and conflict warning depend only on that key's recommendations, and a warning is logged iff they are not all equal |
| Merging.SettleUnanimous | gradle-versions/src/main/java/com/markelliot/gradle/versions/UpdateVersionsPropsTask.java:61-73 | recommendations that all agree leave that version |
| Merging.SettleFacts | gradle-versions/src/main/java/com/markelliot/gradle/versions/UpdateVersionsPropsTask.java:61-73 | a surviving version is the last recommended; a dropped key had its last two recommendations disagree; a dropped key comes back with the next one |
| Merging.VersionsForIff | gradle-versions/src/main/java/com/markelliot/gradle/versions/UpdateVersionsPropsTask.java:58-60 | a version is recorded for a key iff some recommendation carries that pair |
| Merging.MergedComesFromLast | gradle-versions/src/main/java/com/markelliot/gradle/versions/UpdateVersionsPropsTask.java:58-75 | every merged entry is the last recommendation for its key |
| Merging.ReinsertAfterConflict | gradle-versions/src/main/java/com/markelliot/gradle/versions/UpdateVersionsPropsTask.java:61-73 | v1, v2 drops the key and v1, v2, v1 ends as v1 with one warning |
| Merging.MergeRecommendations | gradle-versions/src/main/java/com/markelliot/gradle/versions/UpdateVersionsPropsTask.java:54-77 | the loop's map and warnings are those of the fold over the recommendations in order |
| UpdateVersionsPropsTask.KeyedDependencies | gradle-versions/src/main/java/com/markelliot/gradle/versions/UpdateVersionsPropsTask.java:60 | one `group:name` recommendation per dependency, in order |
| UpdateVersionsPropsTask.DependencyRecommendations | gradle-versions/src/main/java/com/markelliot/gradle/versions/UpdateVersionsPropsTask.java:56-57 | exactly the dependency recommendations of all reports, keyed `group:name`; their order is stated by DependencyRecommendationsAppend |
| UpdateVersionsPropsTask.DependencyRecommendationsAppend | gradle-versions/src/main/java/com/markelliot/gradle/versions/UpdateVersionsPropsTask.java:56-57 | the flatMap order: one more report appends exactly its recommendations, in their order and multiplicity, so the merge sees them report by report |
| UpdateVersionsPropsTask.MergeDependencyUpdates | gradle-versions/src/main/java/com/markelliot/gradle/versions/UpdateVersionsPropsTask.java:54-77 | the merged map, each entry coming from some report's recommendation for that `group:name` |
| UpdateVersionsPropsTask.LastResolvingTo | gradle-versions/src/main/java/com/markelliot/gradle/versions/UpdateVersionsPropsTask.java:50 | a key of `keys` that resolves to the pattern with no later key resolving to it; none iff no key resolves to it |
| UpdateVersionsPropsTask.ApplyAll | gradle-versions/src/main/java/com/markelliot/gradle/versions/UpdateVersionsPropsTask.java:50 | the document after update for each key in order; ApplyAllLastWins states its outcome |
| UpdateVersionsPropsTask.ApplyAllLastWins | gradle-versions/src/main/java/com/markelliot/gradle/versions/UpdateVersionsPropsTask.java:50 | after all updates, a pattern's line carries the version of the last key resolving to it; the document keeps its shape |
| UpdateVersionsPropsTask.ApplyUpdates | gradle-versions/src/main/java/com/markelliot/gradle/versions/UpdateVersionsPropsTask.java:50 | applying every merged entry once, in the map's iteration order, gives the fold's lines and keeps the document valid |
| UpdatePluginsTask.KeyedPlugins | gradle-versions/src/main/java/com/markelliot/gradle/versions/UpdatePluginsTask.java:99-102 | exactly the plugin-marker recommendations (name ending `.gradle.plugin`), keyed by group; their order is stated by KeyedPluginsAppend |
| UpdatePluginsTask.PluginRecommendations | gradle-versions/src/main/java/com/markelliot/gradle/versions/UpdatePluginsTask.java:94-99 | exactly the plugin-marker recommendations of all reports; their order is stated by PluginRecommendationsAppend |
| UpdatePluginsTask.KeyedPluginsAppend | gradle-versions/src/main/java/com/markelliot/gradle/versions/UpdatePluginsTask.java:99-102 | the filter keeps the order: one more recommendation is appended, keyed by group, exactly when its name ends `.gradle.plugin` |
| UpdatePluginsTask.PluginRecommendationsAppend | gradle-versions/src/main/java/com/markelliot/gradle/versions/UpdatePluginsTask.java:94-99 | the flatMap order: one more report appends exactly its plugin-marker recommendations, in their order |
| UpdatePluginsTask.MergePluginUpdates | gradle-versions/src/main/java/com/markelliot/gradle/versions/UpdatePluginsTask.java:92-119 | the merged map, each entry coming from a plugin-marker recommendation for that plugin id |
| UpdatePluginsTask.OpenEndIff | gradle-versions/src/main/java/com/markelliot/gradle/versions/UpdatePluginsTask.java:64 | group 1 and its quote are found exactly where the pattern allows them: whitespace, or optional whitespace and `(`, then `"` |
| UpdatePluginsTask.CloseEndIff | gradle-versions/src/main/java/com/markelliot/gradle/versions/UpdatePluginsTask.java:66 | group 2 is the longest text the pattern allows there: whitespace, or `)` and whitespace |
| UpdatePluginsTask.VersionQuotesIff | gradle-versions/src/main/java/com/markelliot/gradle/versions/UpdatePluginsTask.java:66 | `version\s+"([^"]+)"` is found exactly where the pattern allows it |
| UpdatePluginsTask.MatchSpan | gradle-versions/src/main/java/com/markelliot/gradle/versions/UpdatePluginsTask.java:62-66 | a match's parts lie in order inside the content |
| UpdatePluginsTask.MatchSpanIff | gradle-versions/src/main/java/com/markelliot/gradle/versions/UpdatePluginsTask.java:62-66 | the matcher accepts an occurrence at an index iff the declarative pattern occurs there with those parts |
| UpdatePluginsTask.FindSpan | gradle-versions/src/main/java/com/markelliot/gradle/versions/UpdatePluginsTask.java:67-68 | find returns the first index where the pattern matches; none iff it matches nowhere |
| UpdatePluginsTask.ApplyUpdate | gradle-versions/src/main/java/com/markelliot/gradle/versions/UpdatePluginsTask.java:61-74 | applyUpdate; ApplyUpdateNoMatch, ApplyUpdateFirst and ApplyUpdateReadsBack state what it changes |
| UpdatePluginsTask.ReplacementKeepsHead | gradle-versions/src/main/java/com/markelliot/gradle/versions/UpdatePluginsTask.java:69-71 | the replacement rebuilds the matched text up to `version` from groups 1 and 2 |
| UpdatePluginsTask.ApplyUpdateNoMatch | gradle-versions/src/main/java/com/markelliot/gradle/versions/UpdatePluginsTask.java:68-73 | without a declaration of the plugin the content is returned unchanged |
| UpdatePluginsTask.FirstOccurrence | gradle-versions/src/main/java/com/markelliot/gradle/versions/UpdatePluginsTask.java:67-68 | the rewritten occurrence is a real occurrence and none starts earlier |
| UpdatePluginsTask.ReplaceAtSplice | gradle-versions/src/main/java/com/markelliot/gradle/versions/UpdatePluginsTask.java:69-71 | replacing an occurrence changes only the text from after `version` to the closing quote |
| UpdatePluginsTask.ApplyUpdateFirst | gradle-versions/src/main/java/com/markelliot/gradle/versions/UpdatePluginsTask.java:61-74 | applyUpdate keeps everything but the first occurrence's old literal, which becomes one space and the new literal |
| UpdatePluginsTask.RewrittenReadsBack | gradle-versions/src/main/java/com/markelliot/gradle/versions/UpdatePluginsTask.java:62-71 | the rewritten text still matches at the same index, with the new version as group 3 |
| UpdatePluginsTask.ApplyUpdateReadsBack | gradle-versions/src/main/java/com/markelliot/gradle/versions/UpdatePluginsTask.java:61-74 | after applyUpdate, the declaration matches at the same place and carries the new version |
| UpdatePluginsTask.ApplyAllPlugins | gradle-versions/src/main/java/com/markelliot/gradle/versions/UpdatePluginsTask.java:52-58 | applyUpdate for each key in order; ApplyAllPluginsNoOccurrence states that a script declaring none of them is unchanged |
| UpdatePluginsTask.ApplyAllPluginsNoOccurrence | gradle-versions/src/main/java/com/markelliot/gradle/versions/UpdatePluginsTask.java:54-56 | a script declaring none of the plugins is left as it was |
| UpdatePluginsTask.SetNewPluginVersions | gradle-versions/src/main/java/com/markelliot/gradle/versions/UpdatePluginsTask.java:52-58 | the loop applies each merged entry once, in the map's iteration order, as the fold does |
| UpdateGradleWrapperTask.EscapeUrl | gradle-versions/src/main/java/com/markelliot/gradle/versions/UpdateGradleWrapperTask.java:66-69 | the escaped URL is one character longer per colon |
| UpdateGradleWrapperTask.UnescapeEscape | gradle-versions/src/main/java/com/markelliot/gradle/versions/UpdateGradleWrapperTask.java:66-69 | escaping loses nothing: unescaping gives the URL back |
| UpdateGradleWrapperTask.EscapedColons | gradle-versions/src/main/java/com/markelliot/gradle/versions/UpdateGradleWrapperTask.java:66-69 | every colon in the result is preceded by a backslash |
| UpdateGradleWrapperTask.EscapeUrlSingleLine | gradle-versions/src/main/java/com/markelliot/gradle/versions/UpdateGradleWrapperTask.java:66-69 | escaping adds no line terminator |
| UpdateGradleWrapperTask.UpdateDistributionUrl | gradle-versions/src/main/java/com/markelliot/gradle/versions/UpdateGradleWrapperTask.java:54-64 | updateDistributionUrl; UpdateDistributionUrlAbsent, UpdateDistributionUrlAt and UpdateDistributionUrlIdempotent state what it changes |
| UpdateGradleWrapperTask.UpdateDistributionUrlAbsent | gradle-versions/src/main/java/com/markelliot/gradle/versions/UpdateGradleWrapperTask.java:56-64 | without `distributionUrl=` the content is returned unchanged |
| UpdateGradleWrapperTask.UpdateDistributionUrlAt | gradle-versions/src/main/java/com/markelliot/gradle/versions/UpdateGradleWrapperTask.java:54-64 | the first `distributionUrl=` and the rest of its line are replaced by the new line; everything else is kept |
| UpdateGradleWrapperTask.FirstUrlLineExists | gradle-versions/src/main/java/com/markelliot/gradle/versions/UpdateGradleWrapperTask.java:54-58 | when `distributionUrl=` occurs, the found position is its first occurrence and its line ends at a line terminator or the end |
| UpdateGradleWrapperTask.UpdateDistributionUrlIdempotent | gradle-versions/src/main/java/com/markelliot/gradle/versions/UpdateGradleWrapperTask.java:56-64 | updating twice to the same single-line URL equals updating once |
| CheckNewVersionsTask.Render | gradle-versions/src/main/java/com/markelliot/gradle/versions/CheckNewVersionsTask.java:102-111 | `group:name:{current -> latest}`; UnrenderRender and RenderInjective state that it loses nothing |
| CheckNewVersionsTask.UnrenderRender | gradle-versions/src/main/java/com/markelliot/gradle/versions/CheckNewVersionsTask.java:102-111 | a rendering whose group and name have no `:` and whose current version has no `>` reads back as the same record |
| CheckNewVersionsTask.RenderInjective | gradle-versions/src/main/java/com/markelliot/gradle/versions/CheckNewVersionsTask.java:102-111 | two such records render alike only when they are equal |
| CheckNewVersionsTask.ContainsDisallowedQualifier | gradle-versions/src/main/java/com/markelliot/gradle/versions/CheckNewVersionsTask.java:177-179 | true iff `-alpha`, `-beta` or `-rc` occurs somewhere in the version |
| CheckNewVersionsTask.Rejections | gradle-versions/src/main/java/com/markelliot/gradle/versions/CheckNewVersionsTask.java:166-175 | the reasons selectOnlyRelease rejects a candidate with; RejectionsIff and QualifiedRejected state when there are any |
| CheckNewVersionsTask.RejectionsIff | gradle-versions/src/main/java/com/markelliot/gradle/versions/CheckNewVersionsTask.java:166-175 | a candidate is kept iff it has no disallowed qualifier and its status is absent or `release`; at most two reasons are given |
| CheckNewVersionsTask.QualifiedRejected | gradle-versions/src/main/java/com/markelliot/gradle/versions/CheckNewVersionsTask.java:168-170 | a disallowed qualifier is rejected whatever the status |
| CheckNewVersionsTask.ResolvedVersions | gradle-versions/src/main/java/com/markelliot/gradle/versions/CheckNewVersionsTask.java:192-195 | the map the puts build; ResolvedVersionsLastWins and ResolvedVersionsKeyed state its entries |
| CheckNewVersionsTask.GetResolvedVersions | gradle-versions/src/main/java/com/markelliot/gradle/versions/CheckNewVersionsTask.java:187-196 | the loop's map is the fold of puts, and every entry is stored under its own `group:name` |
| CheckNewVersionsTask.ResolvedVersionsLastWins | gradle-versions/src/main/java/com/markelliot/gradle/versions/CheckNewVersionsTask.java:192-195 | a key is present iff some dependency has it, and it holds the last such dependency |
| CheckNewVersionsTask.ResolvedVersionsKeyed | gradle-versions/src/main/java/com/markelliot/gradle/versions/CheckNewVersionsTask.java:194 | every entry is stored under its own `group:name` |
| CheckNewVersionsTask.RecsForVersions | gradle-versions/src/main/java/com/markelliot/gradle/versions/CheckNewVersionsTask.java:118-140 | no recommendation has equal current and latest versions |
| CheckNewVersionsTask.RecsForVersionsIff | gradle-versions/src/main/java/com/markelliot/gradle/versions/CheckNewVersionsTask.java:118-140 | a recommendation exists iff its module is in both maps with differing versions, and it carries the current module's group and name, the current version and the latest version |
| CheckNewVersionsTask.RecsForConfiguration | gradle-versions/src/main/java/com/markelliot/gradle/versions/CheckNewVersionsTask.java:113-141 | getRecsForConfiguration on the two resolutions; RecsForVersionsIff and OneRecPerModule state its recommendations |
| CheckNewVersionsTask.OneRecPerModule | gradle-versions/src/main/java/com/markelliot/gradle/versions/CheckNewVersionsTask.java:113-141 | a configuration yields at most one recommendation per `group:name` |
| CheckNewVersionsTask.IsChecked | gradle-versions/src/main/java/com/markelliot/gradle/versions/CheckNewVersionsTask.java:56-58 | the configuration filter; DependencyUpdates states that exactly the configurations it keeps contribute |
| CheckNewVersionsTask.DependencyUpdates | gradle-versions/src/main/java/com/markelliot/gradle/versions/CheckNewVersionsTask.java:54-66 | the project's updates are exactly the recommendations of configurations not named `consistentVersions*` or `unifiedClasspath` |

## Left out

- File and YAML I/O are not modelled. This covers reading and writing
  versions.props, build scripts and gradle-wrapper.properties, and report
  (de)serialisation. The model works on the strings and records those
  calls produce.
- Gradle's dependency resolution is an input. This covers
  `getResolvableCopy`, `getLatestDependencyVersions`, lenient
  resolution, the `:+` dynamic version and the component-selection rule
  engine. Each configuration carries its two resolved first-level
  dependency lists in iteration order. `Rejections` gives the reasons
  `selectOnlyRelease` passes to `reject`; what Gradle then does with
  them is not modelled.
- `taskAction` printing and report assembly
  (CheckNewVersionsTask.java:67-99) are not modelled: console output and a
  YAML file. The plugin classpath configuration goes through
  `RecsForConfiguration` without the name filter.
- Collectors.toMap would throw on two configurations with the same name.
  Gradle configuration names are unique, so the model does not represent
  that case.
- CheckNewGradleVersionTask and GradleVersions are not part of this model:
  they are a network client and Gradle's version ordering.
- Plugin wiring and task registration are not modelled: RootUpdateVersionsPlugin,
  UpdateVersionsPlugin, ClearMarkdownReportTask.
- Logging is not modelled, except the merge's conflict warnings, which the
  fold records as a list of keys.
- Hash iteration orders are parameters and are not pinned. They are the
  order of the resolver's identifier set, the order of the merged maps'
  keys, and the order of the resolved-dependency and configuration sets.
- UpdatePluginsTask.ApplyUpdate: the plugin name and version are inserted
  literally. replaceFirst would treat `$` and `\` in them as
  replacement syntax.
- UpdatePluginsTask.ApplyUpdateReadsBack requires the new version to be
  `[^"]+`, because otherwise group 3 cannot read it back.
- Single-quoted declarations are not matched (`id 'x' version '1'`). Two
  test cases use them, but the pattern in the Java code only allows double quotes.
- CheckNewVersionsTask.UnrenderRender needs group and name without `:`
  and a current version without `>`. The rendering is ambiguous otherwise.
- VersionsProps.SerializeRoundTrip models reading a file back as a split
  at \n only. Files.readAllLines also splits at \r and \r\n.
- Strings are sequences of characters. Java's UTF-16 surrogate pairs are
  not distinguished from other characters.
- FuzzyPatternResolver.Compile: the weight is an unbounded integer. Java's
  int cannot overflow for any identifier that fits in memory.
