/**
 * The versions.props document: a sequence of lines that are either opaque
 * (blank or a full-line comment) or `identifier = version [# comment]`,
 * updated one line at a time in place and written back with every untouched
 * line as it was.
 */
module VersionsProps {
  import opened Wrappers
  import opened Text
  import Resolver = FuzzyPatternResolver

  datatype Line =
    | NonVersionLine(content: string)
    | VersionLine(identifier: string, version: string, comment: Option<string>)

  /** The audit record of an applied update. */
  datatype UpdatedLine = UpdatedLine(dependency: string, oldVersion: string, newVersion: string)

  // ---------------------------------------------------------------------------
  // The line grammar

  /** COMMENT_OR_EMPTY, `\s*#.*|\s*`, matched in full. */
  predicate IsCommentOrEmpty(line: string) {
    var k := RunEnd(line, 0, IsSpace);
    k == |line| || (line[k] == '#' && NoLineTerminator(line[k + 1..]))
  }

  /** `[^#\s]` */
  predicate IsTokenChar(c: char) {
    c != '#' && !IsSpace(c)
  }

  /** `[^#\s:]` */
  predicate IsGroupChar(c: char) {
    IsTokenChar(c) && c != ':'
  }

  /** `[^#\s]+` */
  predicate IsToken(s: string) {
    |s| > 0 && forall i :: 0 <= i < |s| ==> IsTokenChar(s[i])
  }

  /** What the identifier group `[^#\s:]+:[^#\s]+` can capture: a colon-free prefix, `:`, and a non-empty rest. */
  predicate IsIdentifier(id: string) {
    IsToken(id) && exists k :: 0 < k < |id| - 1 && id[k] == ':' && ':' !in id[..k]
  }

  /** What the comment group `.+` can capture after `#\s*`: one whitespace character, or text starting with a non-space. */
  predicate IsComment(c: string) {
    |c| > 0 && NoLineTerminator(c) && (IsSpace(c[0]) ==> |c| == 1)
  }

  predicate WellFormed(line: Line) {
    match line
    case NonVersionLine(content) => IsCommentOrEmpty(content)
    case VersionLine(id, v, c) => IsIdentifier(id) && IsToken(v) && (c.Some? ==> IsComment(c.value))
  }

  /** `\s*#\s*(?<comment>.+)` against the text after the version, in full. */
  function MatchComment(tail: string): (r: Option<string>)
    ensures r.Some? ==> IsComment(r.value)
  {
    var h := RunEnd(tail, 0, IsSpace);
    if h == |tail| || tail[h] != '#' then None
    else
      var rest := tail[h + 1..];
      var k := RunEnd(rest, 0, IsSpace);
      RunEndFacts(rest, 0, IsSpace);
      if k < |rest| then
        if NoLineTerminator(rest[k..]) then Some(rest[k..]) else None
      else if |rest| > 0 && !IsLineTerminator(rest[|rest| - 1]) then Some(rest[|rest| - 1..])
      else None
  }

  /** `\s*=\s*(?<version>[^#\s]+)` and the optional comment, against the text after the identifier. */
  function MatchAfterIdentifier(rest: string): (r: Option<(string, Option<string>)>)
    ensures r.Some? ==> IsToken(r.value.0) && (r.value.1.Some? ==> IsComment(r.value.1.value))
  {
    var e := RunEnd(rest, 0, IsSpace);
    if e == |rest| || rest[e] != '=' then None
    else
      var vs := RunEnd(rest, e + 1, IsSpace);
      var ve := RunEnd(rest, vs, IsTokenChar);
      RunEndFacts(rest, vs, IsTokenChar);
      if ve == vs then None
      else if ve == |rest| then Some((rest[vs..ve], None))
      else
        match MatchComment(rest[ve..])
        case None => None
        case Some(c) => Some((rest[vs..ve], Some(c)))
  }

  /**
   * The greedy `[^#\s]+` after the colon gives back one character at a time
   * until the rest of the line matches: the identifier ends at the largest
   * `end` in [lo, hi] that works.
   */
  function SearchIdentifierEnd(line: string, lo: nat, hi: nat): (r: Option<(nat, string, Option<string>)>)
    requires 1 <= lo && hi <= |line|
    ensures r.Some? ==> lo <= r.value.0 <= hi && MatchAfterIdentifier(line[r.value.0..]) == Some((r.value.1, r.value.2))
    decreases hi
  {
    if hi < lo then None
    else
      match MatchAfterIdentifier(line[hi..])
      case Some(vc) => Some((hi, vc.0, vc.1))
      case None => SearchIdentifierEnd(line, lo, hi - 1)
  }

  /** VERSION_LINE matched in full; None when it does not match. */
  function MatchVersionLine(line: string): (r: Option<Line>)
    ensures r.Some? ==> r.value.VersionLine? && WellFormed(r.value)
  {
    var a := RunEnd(line, 0, IsGroupChar);
    RunEndFacts(line, 0, IsGroupChar);
    if a == 0 || a == |line| || line[a] != ':' then None
    else
      var t := RunEnd(line, a + 1, IsTokenChar);
      RunEndFacts(line, a + 1, IsTokenChar);
      if t == a + 1 then None
      else
        match SearchIdentifierEnd(line, a + 2, t)
        case None => None
        case Some(m) =>
          IdentifierCaptured(line, a, m.0);
          Some(VersionLine(line[..m.0], m.1, m.2))
  }

  /** One line of `from`: opaque when COMMENT_OR_EMPTY matches, else a version line, else the error. */
  function ParseLine(line: string): (r: Result<Line, string>)
    ensures r.Ok? ==> WellFormed(r.value)
    ensures r.Ok? && r.value.NonVersionLine? ==> r.value.content == line
    ensures r.Err? ==> r.error == line
  {
    if IsCommentOrEmpty(line) then Ok(NonVersionLine(line))
    else
      match MatchVersionLine(line)
      case None => Err(line)
      case Some(l) => Ok(l)
  }

  // The shapes the patterns accept, with the positions where their parts start and end

  /** `[^#\s:]+:[^#\s]+` as line[..j], with the colon at `a`. */
  predicate IdentifierAt(line: string, a: nat, j: nat) {
    && 0 < a && a + 2 <= j <= |line| && line[a] == ':'
    && (forall i :: 0 <= i < a ==> IsGroupChar(line[i]))
    && (forall i :: a < i < j ==> IsTokenChar(line[i]))
  }

  /** What IdentifierAt spans is an identifier the group can capture. */
  lemma IdentifierCaptured(line: string, a: nat, j: nat)
    requires IdentifierAt(line, a, j)
    ensures IsIdentifier(line[..j])
  {
    var id := line[..j];
    assert forall i :: 0 <= i < a ==> id[..a][i] == line[i];
    assert id[a] == ':';
  }

  /** `\s*=\s*[^#\s]+` as rest[..ve], with `=` at `e` and the version at [vs, ve). */
  predicate AssignmentAt(rest: string, e: nat, vs: nat, ve: nat) {
    && e < vs < ve <= |rest|
    && AllSpace(rest[..e]) && rest[e] == '=' && AllSpace(rest[e + 1..vs])
    && IsToken(rest[vs..ve])
  }

  /** `\s*#\s*.+` as the whole of tail, with `#` at `w1` and the captured text from `w2`. */
  predicate CommentAt(tail: string, w1: nat, w2: nat) {
    && w1 < w2 < |tail|
    && AllSpace(tail[..w1]) && tail[w1] == '#' && AllSpace(tail[w1 + 1..w2])
    && NoLineTerminator(tail[w2..])
  }

  lemma MatchCommentComplete(tail: string, w1: nat, w2: nat)
    requires CommentAt(tail, w1, w2)
    ensures MatchComment(tail).Some?
  {
    assert forall i :: 0 <= i < w1 ==> tail[..w1][i] == tail[i];
    RunEndAt(tail, 0, w1, IsSpace);
    var rest := tail[w1 + 1..];
    assert forall i :: 0 <= i < w2 - w1 - 1 ==> rest[i] == tail[w1 + 1..w2][i];
    RunEndAtLeast(rest, 0, w2 - w1 - 1, IsSpace);
    var k := RunEnd(rest, 0, IsSpace);
    assert forall i :: 0 <= i < |rest| - k ==> rest[k..][i] == tail[w2..][k - (w2 - w1 - 1) + i];
    if k == |rest| {
      assert rest[|rest| - 1] == tail[w2..][|tail| - 1 - w2];
    }
  }

  lemma MatchAfterIdentifierComplete(rest: string, e: nat, vs: nat, ve: nat, w1: nat, w2: nat)
    requires AssignmentAt(rest, e, vs, ve)
    requires ve == |rest| || CommentAt(rest[ve..], w1, w2)
    ensures MatchAfterIdentifier(rest).Some?
  {
    assert forall i :: 0 <= i < e ==> rest[..e][i] == rest[i];
    RunEndAt(rest, 0, e, IsSpace);
    assert forall i :: e + 1 <= i < vs ==> rest[e + 1..vs][i - e - 1] == rest[i];
    assert rest[vs] == rest[vs..ve][0];
    RunEndAt(rest, e + 1, vs, IsSpace);
    assert forall i :: vs <= i < ve ==> rest[vs..ve][i - vs] == rest[i];
    if ve < |rest| {
      var tail := rest[ve..];
      assert tail[0] == rest[ve];
      if w1 > 0 {
        assert tail[..w1][0] == tail[0];
      }
    }
    RunEndAt(rest, vs, ve, IsTokenChar);
    if ve < |rest| {
      MatchCommentComplete(rest[ve..], w1, w2);
    }
  }

  lemma {:induction false} SearchIdentifierEndFinds(line: string, lo: nat, hi: nat, j: nat)
    requires 1 <= lo <= j <= hi <= |line|
    requires MatchAfterIdentifier(line[j..]).Some?
    ensures SearchIdentifierEnd(line, lo, hi).Some? && SearchIdentifierEnd(line, lo, hi).value.0 >= j
    decreases hi
  {
    if hi > j && MatchAfterIdentifier(line[hi..]).None? {
      SearchIdentifierEndFinds(line, lo, hi - 1, j);
    }
  }

  /**
   * Every line that VERSION_LINE matches is accepted as a version line: the
   * parse fails only on lines neither pattern matches. The identifier taken is
   * the longest the pattern allows.
   */
  lemma ParseLineComplete(line: string, a: nat, j: nat, e: nat, vs: nat, ve: nat, w1: nat, w2: nat)
    requires IdentifierAt(line, a, j)
    requires AssignmentAt(line[j..], e, vs, ve)
    requires ve == |line| - j || CommentAt(line[j..][ve..], w1, w2)
    ensures ParseLine(line).Ok? && ParseLine(line).value.VersionLine?
    ensures |ParseLine(line).value.identifier| >= j
  {
    RunEndAt(line, 0, a, IsGroupChar);
    RunEndAtLeast(line, a + 1, j, IsTokenChar);
    MatchAfterIdentifierComplete(line[j..], e, vs, ve, w1, w2);
    SearchIdentifierEndFinds(line, a + 2, RunEnd(line, a + 1, IsTokenChar), j);
    RunEndAt(line, 0, 0, IsSpace);
  }

  // What a match captures, at the positions the patterns give it

  /**
   * The comment group taken from `tail`: `#` at `w1`, then `\s*` as far as it
   * goes, giving back its last character when it reaches the end, and the
   * rest of the tail from `w2`.
   */
  ghost predicate CommentCapturedAt(tail: string, c: string, w1: nat, w2: nat) {
    CommentAt(tail, w1, w2) && c == tail[w2..] && (IsSpace(tail[w2]) ==> w2 == |tail| - 1)
  }

  /**
   * The version group is rest[vs..ve] after `=` at `e`, taken as far as
   * `[^#\s]` goes; there is a comment exactly when text is left after it, and
   * then the comment group is what that text captures.
   */
  ghost predicate AssignmentCapturedAt(rest: string, v: string, c: Option<string>, e: nat, vs: nat, ve: nat) {
    && AssignmentAt(rest, e, vs, ve) && v == rest[vs..ve]
    && (ve < |rest| ==> !IsTokenChar(rest[ve]))
    && (c.None? <==> ve == |rest|)
    && (c.Some? ==> exists w1, w2 :: CommentCapturedAt(rest[ve..], c.value, w1, w2))
  }

  /** The comment MatchComment returns is the text after `#` and the whitespace that follows it. */
  lemma MatchCommentSound(tail: string)
    requires MatchComment(tail).Some?
    ensures exists w1, w2 :: CommentCapturedAt(tail, MatchComment(tail).value, w1, w2)
  {
    var h := RunEnd(tail, 0, IsSpace);
    var rest := tail[h + 1..];
    var k := RunEnd(rest, 0, IsSpace);
    RunEndFacts(rest, 0, IsSpace);
    var w2 := if k < |rest| then h + 1 + k else |tail| - 1;
    assert forall i :: 0 <= i < |rest| ==> rest[i] == tail[h + 1 + i];
    assert tail[w2..] == rest[w2 - h - 1..];
    CommentRuns(tail, h, w2);
    assert CommentCapturedAt(tail, MatchComment(tail).value, h, w2);
  }

  /** `#` after the leading whitespace, then whitespace up to `w2` and a single line from there, lay out a comment. */
  lemma CommentRuns(tail: string, h: nat, w2: nat)
    requires h == RunEnd(tail, 0, IsSpace) && h < w2 < |tail| && tail[h] == '#'
    requires forall i :: h + 1 <= i < w2 ==> IsSpace(tail[i])
    requires NoLineTerminator(tail[w2..])
    ensures CommentAt(tail, h, w2)
  {
    RunEndFacts(tail, 0, IsSpace);
    var lead, gap := tail[..h], tail[h + 1..w2];
    assert forall i :: 0 <= i < |lead| ==> lead[i] == tail[i];
    assert forall i :: 0 <= i < |gap| ==> gap[i] == tail[h + 1 + i];
  }

  /** The version and comment MatchAfterIdentifier returns are the text at their places in `rest`. */
  lemma MatchAfterIdentifierSound(rest: string)
    requires MatchAfterIdentifier(rest).Some?
    ensures var (v, c) := MatchAfterIdentifier(rest).value;
            exists e, vs, ve :: AssignmentCapturedAt(rest, v, c, e, vs, ve)
  {
    var (v, c) := MatchAfterIdentifier(rest).value;
    var e := RunEnd(rest, 0, IsSpace);
    var vs := RunEnd(rest, e + 1, IsSpace);
    var ve := RunEnd(rest, vs, IsTokenChar);
    AssignmentRuns(rest, e, vs, ve);
    if ve < |rest| {
      MatchCommentSound(rest[ve..]);
    }
    assert AssignmentCapturedAt(rest, v, c, e, vs, ve);
  }

  /** The three runs MatchAfterIdentifier scans lay out an assignment, with the version taken as far as it goes. */
  lemma AssignmentRuns(rest: string, e: nat, vs: nat, ve: nat)
    requires e == RunEnd(rest, 0, IsSpace) && e < |rest| && rest[e] == '='
    requires vs == RunEnd(rest, e + 1, IsSpace) && ve == RunEnd(rest, vs, IsTokenChar) && vs < ve
    ensures AssignmentAt(rest, e, vs, ve) && (ve < |rest| ==> !IsTokenChar(rest[ve]))
  {
    RunEndFacts(rest, 0, IsSpace);
    RunEndFacts(rest, e + 1, IsSpace);
    RunEndFacts(rest, vs, IsTokenChar);
    var lead, gap, v := rest[..e], rest[e + 1..vs], rest[vs..ve];
    assert forall i :: 0 <= i < |lead| ==> lead[i] == rest[i];
    assert forall i :: 0 <= i < |gap| ==> gap[i] == rest[e + 1 + i];
    assert forall i :: 0 <= i < |v| ==> v[i] == rest[vs + i];
  }

  /**
   * A version line VERSION_LINE matches is the line's own text: the identifier
   * is a prefix of the line that the identifier group spans, and the version
   * and comment are what follows it captures.
   */
  lemma MatchVersionLineSound(line: string)
    requires MatchVersionLine(line).Some?
    ensures var l := MatchVersionLine(line).value;
            var j := |l.identifier|;
            && l.VersionLine? && j <= |line| && l.identifier == line[..j]
            && (exists a :: IdentifierAt(line, a, j))
            && exists e, vs, ve :: AssignmentCapturedAt(line[j..], l.version, l.comment, e, vs, ve)
  {
    var a := RunEnd(line, 0, IsGroupChar);
    var t := RunEnd(line, a + 1, IsTokenChar);
    var m := SearchIdentifierEnd(line, a + 2, t).value;
    IdentifierRuns(line, a, t, m.0);
    MatchAfterIdentifierSound(line[m.0..]);
  }

  /** The two runs MatchVersionLine scans span an identifier up to any end the search settles on. */
  lemma IdentifierRuns(line: string, a: nat, t: nat, j: nat)
    requires a == RunEnd(line, 0, IsGroupChar) && 0 < a < |line| && line[a] == ':'
    requires t == RunEnd(line, a + 1, IsTokenChar) && a + 2 <= j <= t
    ensures IdentifierAt(line, a, j)
  {
    RunEndFacts(line, 0, IsGroupChar);
    RunEndFacts(line, a + 1, IsTokenChar);
  }

  /**
   * A line parsed as a version line is no comment or blank line, and its
   * identifier, version and comment are the line's own text at the places the
   * pattern gives them. With ParseLineComplete, which shows the identifier
   * taken is the longest that works, this pins the parse down exactly.
   */
  lemma ParseLineSound(line: string)
    requires ParseLine(line).Ok? && ParseLine(line).value.VersionLine?
    ensures var l := ParseLine(line).value;
            var j := |l.identifier|;
            && !IsCommentOrEmpty(line)
            && j <= |line| && l.identifier == line[..j]
            && (exists a :: IdentifierAt(line, a, j))
            && exists e, vs, ve :: AssignmentCapturedAt(line[j..], l.version, l.comment, e, vs, ve)
  {
    MatchVersionLineSound(line);
  }

  // ---------------------------------------------------------------------------
  // Emitting

  /** Line.emit. */
  function Emit(line: Line): string {
    match line
    case NonVersionLine(content) => content
    case VersionLine(id, v, c) => id + " = " + v + CommentSuffix(c)
  }

  function CommentSuffix(c: Option<string>): string {
    match c
    case None => ""
    case Some(text) => " # " + text
  }

  lemma MatchCommentEmitted(c: string)
    requires IsComment(c)
    ensures MatchComment(" # " + c) == Some(c)
  {
    var tail := " # " + c;
    RunEndAt(tail, 0, 1, IsSpace);
    var rest := tail[2..];
    assert rest == " " + c;
    if !IsSpace(c[0]) {
      RunEndAt(rest, 0, 1, IsSpace);
      assert rest[1..] == c;
    } else {
      RunEndAt(rest, 0, 2, IsSpace);
      assert rest[|rest| - 1..] == c;
    }
  }

  lemma MatchAfterEmitted(v: string, c: Option<string>)
    requires IsToken(v) && (c.Some? ==> IsComment(c.value))
    ensures MatchAfterIdentifier(" = " + v + CommentSuffix(c)) == Some((v, c))
  {
    if c.Some? {
      MatchAfterEmittedComment(v, c.value);
    } else {
      MatchAfterEmittedBare(v);
    }
  }

  lemma MatchAfterEmittedBare(v: string)
    requires IsToken(v)
    ensures MatchAfterIdentifier(" = " + v + CommentSuffix(None)) == Some((v, None))
  {
    var rest := " = " + v + CommentSuffix(None);
    assert rest == " = " + v;
    RunEndAt(rest, 0, 1, IsSpace);
    RunEndAt(rest, 2, 3, IsSpace);
    RunEndAt(rest, 3, 3 + |v|, IsTokenChar);
    assert rest[3..3 + |v|] == v;
  }

  lemma MatchAfterEmittedComment(v: string, c: string)
    requires IsToken(v) && IsComment(c)
    ensures MatchAfterIdentifier(" = " + v + CommentSuffix(Some(c))) == Some((v, Some(c)))
  {
    var rest := " = " + v + CommentSuffix(Some(c));
    RunEndAt(rest, 0, 1, IsSpace);
    RunEndAt(rest, 2, 3, IsSpace);
    RunEndAt(rest, 3, 3 + |v|, IsTokenChar);
    assert rest[3..3 + |v|] == v;
    assert rest[3 + |v|..] == " # " + c;
    MatchCommentEmitted(c);
  }

  /** Re-parsing an emitted version line gives back its identifier, version and comment. */
  lemma {:induction false} MatchVersionLineEmitted(id: string, v: string, c: Option<string>)
    requires WellFormed(VersionLine(id, v, c))
    ensures MatchVersionLine(Emit(VersionLine(id, v, c))) == Some(VersionLine(id, v, c))
  {
    var tail := " = " + v + CommentSuffix(c);
    var line := id + tail;
    assert Emit(VersionLine(id, v, c)) == line;
    var k :| 0 < k < |id| - 1 && id[k] == ':' && ':' !in id[..k];
    forall i | 0 <= i < k ensures IsGroupChar(line[i]) {
      assert id[..k][i] == id[i];
    }
    assert line[k] == ':';
    RunEndAt(line, 0, k, IsGroupChar);
    assert line[|id|] == ' ';
    RunEndAt(line, k + 1, |id|, IsTokenChar);
    assert line[|id|..] == tail;
    MatchAfterEmitted(v, c);
    assert SearchIdentifierEnd(line, k + 2, |id|) == Some((|id|, v, c));
    MatchVersionLineAt(line, k, |id|, (|id|, v, c));
    assert line[..|id|] == id;
  }

  lemma MatchVersionLineAt(line: string, a: nat, t: nat, m: (nat, string, Option<string>))
    requires 0 < a < |line| && line[a] == ':' && a + 1 < t <= |line|
    requires RunEnd(line, 0, IsGroupChar) == a
    requires RunEnd(line, a + 1, IsTokenChar) == t
    requires SearchIdentifierEnd(line, a + 2, t) == Some(m)
    ensures MatchVersionLine(line) == Some(VersionLine(line[..m.0], m.1, m.2))
  {
  }

  /** Parsing an emitted well-formed line gives the line back. */
  lemma ParseEmitLine(line: Line)
    requires WellFormed(line)
    ensures ParseLine(Emit(line)) == Ok(line)
  {
    if line.VersionLine? {
      var text := Emit(line);
      RunEndAt(text, 0, 0, IsSpace);
      assert text[0] == line.identifier[0];
      MatchVersionLineEmitted(line.identifier, line.version, line.comment);
    }
  }

  // ---------------------------------------------------------------------------
  // Documents

  /** VersionsProps.from(Iterable<String>) on lines: the parsed lines, or the first line that is neither kind. */
  function Parse(input: seq<string>): Result<seq<Line>, string>
    decreases |input|
  {
    if input == [] then Ok([])
    else
      match Parse(input[..|input| - 1])
      case Err(e) => Err(e)
      case Ok(prefix) =>
        match ParseLine(input[|input| - 1])
        case Err(e) => Err(e)
        case Ok(l) => Ok(prefix + [l])
  }

  /** The identifiers of the version lines: the set the resolver is built from. */
  function IdentifiersOf(lines: seq<Line>): set<string>
    decreases |lines|
  {
    if lines == [] then {}
    else
      var last := lines[|lines| - 1];
      IdentifiersOf(lines[..|lines| - 1]) + (if last.VersionLine? then {last.identifier} else {})
  }

  lemma {:induction false} IdentifiersOfIff(lines: seq<Line>, x: string)
    ensures x in IdentifiersOf(lines) <==> exists i :: 0 <= i < |lines| && IsLineFor(lines[i], x)
    decreases |lines|
  {
    if lines != [] {
      var init := lines[..|lines| - 1];
      IdentifiersOfIff(init, x);
      if exists i :: 0 <= i < |lines| && IsLineFor(lines[i], x) {
        var i :| 0 <= i < |lines| && IsLineFor(lines[i], x);
        if i < |init| {
          assert init[i] == lines[i];
        }
      }
      if exists i :: 0 <= i < |init| && IsLineFor(init[i], x) {
        var i :| 0 <= i < |init| && IsLineFor(init[i], x);
        assert lines[i] == init[i];
      }
    }
  }

  /**
   * A document parses line by line: on success there is one well-formed line
   * per input line, opaque lines keep their text, and version lines are what
   * the version-line grammar captured; on failure the error is the first line
   * that is neither kind.
   */
  lemma {:induction false} ParseSpec(input: seq<string>)
    ensures Parse(input).Ok? ==>
              && |Parse(input).value| == |input|
              && forall i :: 0 <= i < |input| ==> ParseLine(input[i]) == Ok(Parse(input).value[i])
    ensures Parse(input).Err? ==>
              exists i :: 0 <= i < |input| && input[i] == Parse(input).error && ParseLine(input[i]).Err?
                          && forall j :: 0 <= j < i ==> ParseLine(input[j]).Ok?
    ensures Parse(input).Ok? <==> forall i :: 0 <= i < |input| ==> ParseLine(input[i]).Ok?
    decreases |input|
  {
    if input != [] {
      var init := input[..|input| - 1];
      ParseSpec(init);
      forall i | 0 <= i < |init| ensures init[i] == input[i] { }
      if Parse(init).Err? {
        var i :| 0 <= i < |init| && init[i] == Parse(init).error && ParseLine(init[i]).Err?
                  && forall j :: 0 <= j < i ==> ParseLine(init[j]).Ok?;
        assert input[i] == Parse(input).error && ParseLine(input[i]).Err?;
      } else if ParseLine(input[|input| - 1]).Ok? {
        var prefix := Parse(init).value;
        var l := ParseLine(input[|input| - 1]).value;
        forall i | 0 <= i < |input| ensures ParseLine(input[i]) == Ok((prefix + [l])[i]) {
          if i < |init| {
            assert ParseLine(init[i]) == Ok(prefix[i]);
          }
        }
      }
    }
  }

  lemma ParseAppend(input: seq<string>, text: string, lines: seq<Line>, line: Line)
    requires Parse(input) == Ok(lines) && ParseLine(text) == Ok(line)
    ensures Parse(input + [text]) == Ok(lines + [line])
  {
    assert (input + [text])[..|input|] == input;
  }

  function EmitAll(lines: seq<Line>): (r: seq<string>)
    ensures |r| == |lines| && forall i :: 0 <= i < |lines| ==> r[i] == Emit(lines[i])
  {
    if lines == [] then [] else [Emit(lines[0])] + EmitAll(lines[1..])
  }

  lemma EmitAllAppend(init: seq<Line>, last: Line)
    ensures EmitAll(init + [last]) == EmitAll(init) + [Emit(last)]
  {
    var a := EmitAll(init + [last]);
    var b := EmitAll(init) + [Emit(last)];
    forall i | 0 <= i < |a| ensures a[i] == b[i] {
      if i < |init| {
        assert (init + [last])[i] == init[i];
      }
    }
  }

  /** writeToString: the emitted lines joined by "\n", plus a final "\n". */
  function Serialize(lines: seq<Line>): string {
    (if lines == [] then "" else Join(EmitAll(lines), "\n")) + "\n"
  }

  /** Reading text back into lines at '\n', where a final line terminator ends the last line. */
  function ReadLines(text: string): seq<string> {
    var parts := SplitOn(text, '\n');
    if parts[|parts| - 1] == "" then parts[..|parts| - 1] else parts
  }

  /** An opaque line holds no '\n' (version lines cannot). */
  predicate SingleLine(line: Line) {
    line.NonVersionLine? ==> '\n' !in line.content
  }

  ghost predicate WellFormedDocument(lines: seq<Line>) {
    forall i :: 0 <= i < |lines| ==> WellFormed(lines[i]) && SingleLine(lines[i])
  }

  /** An emitted well-formed line is one line of text. */
  lemma EmitSingleLine(line: Line)
    requires WellFormed(line) && SingleLine(line)
    ensures '\n' !in Emit(line)
  {
    if line.VersionLine? {
      var suffix := CommentSuffix(line.comment);
      var text := line.identifier + " = " + line.version + suffix;
      assert Emit(line) == text;
      forall k | 0 <= k < |text| ensures text[k] != '\n' {
        if k < |line.identifier| {
          assert text[k] == line.identifier[k];
        } else if k < |line.identifier| + 3 {
        } else if k < |line.identifier| + 3 + |line.version| {
          assert text[k] == line.version[k - |line.identifier| - 3];
        } else if k >= |line.identifier| + 6 + |line.version| {
          assert text[k] == line.comment.value[k - |line.identifier| - 6 - |line.version|];
        }
      }
    }
  }

  /** Parsing the emitted lines of a well-formed document gives the document back. */
  lemma {:induction false} ParseEmitAll(lines: seq<Line>)
    requires forall i :: 0 <= i < |lines| ==> WellFormed(lines[i])
    ensures Parse(EmitAll(lines)) == Ok(lines)
    decreases |lines|
  {
    var emitted := EmitAll(lines);
    if lines != [] {
      var init := lines[..|lines| - 1];
      var last := lines[|lines| - 1];
      assert lines == init + [last];
      ParseEmitAll(init);
      ParseEmitLine(last);
      EmitAllAppend(init, last);
      ParseAppend(EmitAll(init), Emit(last), init, last);
    }
  }

  /** The serialized text reads back as the document: parse(writeToString(D)) == D. */
  lemma SerializeRoundTrip(lines: seq<Line>)
    requires lines != []
    requires WellFormedDocument(lines)
    ensures Parse(ReadLines(Serialize(lines))) == Ok(lines)
  {
    var emitted := EmitAll(lines);
    var text := Join(emitted, "\n") + "\n";
    assert Serialize(lines) == text;
    forall i | 0 <= i < |emitted| ensures '\n' !in emitted[i] {
      EmitSingleLine(lines[i]);
    }
    JoinAppendSeparator(emitted, '\n');
    SplitJoin(emitted + [""], '\n');
    assert (emitted + [""])[..|emitted|] == emitted;
    ParseEmitAll(lines);
  }

  lemma {:induction false} JoinAppendSeparator(parts: seq<string>, c: char)
    requires |parts| >= 1
    ensures Join(parts, [c]) + [c] == Join(parts + [""], [c])
  {
    if |parts| == 1 {
      assert Join(parts + [""], [c]) == parts[0] + [c] + Join([""], [c]);
    } else {
      JoinAppendSeparator(parts[1..], c);
      assert (parts + [""])[1..] == parts[1..] + [""];
    }
  }

  /** Writing, reading back and writing again gives the same text, for every well-formed document, empty or not. */
  lemma SerializeStable(lines: seq<Line>)
    requires WellFormedDocument(lines)
    ensures Parse(ReadLines(Serialize(lines))).Ok?
    ensures Serialize(Parse(ReadLines(Serialize(lines))).value) == Serialize(lines)
  {
    if lines == [] {
      assert SplitOn("\n", '\n') == ["", ""];
      assert ReadLines("\n") == [""];
      assert Parse([""]) == Ok([NonVersionLine("")]) by {
        assert IsCommentOrEmpty("");
        ParseAppend([], "", [], NonVersionLine(""));
        assert [] + [""] == [""];
        assert [] + [NonVersionLine("")] == [NonVersionLine("")];
      }
      assert EmitAll([NonVersionLine("")]) == [""];
    } else {
      SerializeRoundTrip(lines);
    }
  }

  // ---------------------------------------------------------------------------
  // Updating

  predicate IsLineFor(line: Line, id: string) {
    line.VersionLine? && line.identifier == id
  }

  /** The first version line whose identifier is `id`. */
  function FirstLineFor(lines: seq<Line>, id: string): (r: Option<nat>)
    ensures r.Some? ==> r.value < |lines| && IsLineFor(lines[r.value], id)
    ensures r.Some? ==> forall j :: 0 <= j < r.value ==> !IsLineFor(lines[j], id)
    ensures r.None? <==> forall j :: 0 <= j < |lines| ==> !IsLineFor(lines[j], id)
  {
    if lines == [] then None
    else if IsLineFor(lines[0], id) then Some(0)
    else
      match FirstLineFor(lines[1..], id)
      case None => None
      case Some(i) => Some(i + 1)
  }

  /**
   * update(identifier, version) once the resolver has answered `pattern`:
   * the new lines and the record, if any.
   */
  function UpdateLines(lines: seq<Line>, pattern: Option<string>, version: string): (seq<Line>, Option<UpdatedLine>) {
    match pattern
    case None => (lines, None)
    case Some(bestMatch) =>
      match FirstLineFor(lines, bestMatch)
      case None => (lines, None)
      case Some(i) =>
        if lines[i].version == version then (lines, None)
        else (lines[i := lines[i].(version := version)], Some(UpdatedLine(bestMatch, lines[i].version, version)))
  }

  /** Two documents with the same lines except, perhaps, for versions. */
  ghost predicate SameShape(a: seq<Line>, b: seq<Line>) {
    && |a| == |b|
    && forall i :: 0 <= i < |a| ==>
         a[i].VersionLine? == b[i].VersionLine?
         && (a[i].NonVersionLine? ==> a[i] == b[i])
         && (a[i].VersionLine? ==> a[i].identifier == b[i].identifier && a[i].comment == b[i].comment)
  }

  lemma {:induction false} SameShapeFirstLine(a: seq<Line>, b: seq<Line>, id: string)
    requires SameShape(a, b)
    ensures FirstLineFor(a, id) == FirstLineFor(b, id)
  {
    var fa, fb := FirstLineFor(a, id), FirstLineFor(b, id);
    if fa.Some? {
      assert IsLineFor(b[fa.value], id);
      if fb.Some? && fb.value < fa.value {
        assert IsLineFor(a[fb.value], id);
      }
    } else if fb.Some? {
      assert IsLineFor(a[fb.value], id);
    }
  }

  /**
   * What an update does: when it returns a record, it has replaced the version
   * of the first line for the resolved pattern, and nothing else, with an old
   * version different from the new one; when it returns nothing, no line
   * changed. Identifiers, comments and opaque lines never change.
   */
  lemma UpdateOutcome(lines: seq<Line>, pattern: Option<string>, version: string)
    ensures var (updated, record) := UpdateLines(lines, pattern, version);
            && SameShape(lines, updated)
            && IdentifiersOf(updated) == IdentifiersOf(lines)
            && (record.None? ==> updated == lines)
            && (record.None? <==>
                  pattern.None? || FirstLineFor(lines, pattern.value).None?
                  || lines[FirstLineFor(lines, pattern.value).value].version == version)
            && (record.Some? ==>
                  && pattern == Some(record.value.dependency)
                  && record.value.newVersion == version
                  && record.value.oldVersion != record.value.newVersion
                  && var i := FirstLineFor(lines, record.value.dependency).value;
                     && lines[i].version == record.value.oldVersion
                     && updated[i] == lines[i].(version := version)
                     && forall j :: 0 <= j < |lines| && j != i ==> updated[j] == lines[j])
  {
    var (updated, record) := UpdateLines(lines, pattern, version);
    IdentifiersSameShape(lines, updated);
  }

  lemma {:induction false} IdentifiersSameShape(a: seq<Line>, b: seq<Line>)
    requires SameShape(a, b)
    ensures IdentifiersOf(a) == IdentifiersOf(b)
  {
    forall x ensures x in IdentifiersOf(a) <==> x in IdentifiersOf(b) {
      IdentifiersOfIff(a, x);
      IdentifiersOfIff(b, x);
      if exists i :: 0 <= i < |a| && IsLineFor(a[i], x) {
        var i :| 0 <= i < |a| && IsLineFor(a[i], x);
        assert IsLineFor(b[i], x);
      }
      if exists i :: 0 <= i < |b| && IsLineFor(b[i], x) {
        var i :| 0 <= i < |b| && IsLineFor(b[i], x);
        assert IsLineFor(a[i], x);
      }
    }
  }

  /** update is idempotent: repeating it returns no record and changes nothing. */
  lemma UpdateIdempotent(lines: seq<Line>, pattern: Option<string>, version: string)
    ensures var updated := UpdateLines(lines, pattern, version).0;
            UpdateLines(updated, pattern, version) == (updated, None)
  {
    var updated := UpdateLines(lines, pattern, version).0;
    UpdateOutcome(lines, pattern, version);
    if pattern.Some? {
      SameShapeFirstLine(lines, updated, pattern.value);
    }
  }

  /** An update with a well-formed version keeps the document well formed. */
  lemma UpdateKeepsWellFormed(lines: seq<Line>, pattern: Option<string>, version: string)
    requires WellFormedDocument(lines)
    requires IsToken(version)
    ensures WellFormedDocument(UpdateLines(lines, pattern, version).0)
  {
    UpdateOutcome(lines, pattern, version);
  }

  /**
   * The resolver is built from this document's own identifiers, so a resolved
   * pattern always names a version line: the "no such line" branch of update
   * is never taken.
   */
  lemma ResolvedPatternHasLine(lines: seq<Line>, order: seq<string>, key: string)
    requires forall x :: x in order <==> x in IdentifiersOf(lines)
    requires Resolver.PatternFor(order, key).Some?
    ensures FirstLineFor(lines, Resolver.PatternFor(order, key).value).Some?
  {
    var p := Resolver.PatternFor(order, key).value;
    Resolver.PatternForResult(order, key);
    IdentifiersOfIff(lines, p);
  }

  /**
   * update on a document whose identifiers the resolver was built from keeps
   * those identifiers, and returns nothing for a resolved pattern only when
   * its line already has the version.
   */
  lemma ResolvedUpdate(lines: seq<Line>, order: seq<string>, identifier: string, version: string)
    requires forall x :: x in order <==> x in IdentifiersOf(lines)
    ensures var p := Resolver.PatternFor(order, identifier);
            var (updated, r) := UpdateLines(lines, p, version);
            && IdentifiersOf(updated) == IdentifiersOf(lines)
            && (p.Some? ==> FirstLineFor(lines, p.value).Some?)
            && (p.Some? && r.None? ==> lines[FirstLineFor(lines, p.value).value].version == version)
  {
    UpdateOutcome(lines, Resolver.PatternFor(order, identifier), version);
    if Resolver.PatternFor(order, identifier).Some? {
      ResolvedPatternHasLine(lines, order, identifier);
    }
  }

  // ---------------------------------------------------------------------------
  // The mutable document

  class VersionsProps {
    var lines: seq<Line>
    /** The identifier set the resolver was built from; fixed at construction. */
    const identifiers: set<string>

    ghost predicate Valid()
      reads this
    {
      identifiers == IdentifiersOf(lines)
    }

    constructor (lines: seq<Line>, identifiers: set<string>)
      requires identifiers == IdentifiersOf(lines)
      ensures this.lines == lines && this.identifiers == identifiers
      ensures Valid()
    {
      this.lines := lines;
      this.identifiers := identifiers;
    }

    /** VersionsProps.from(Iterable<String>). */
    static method From(input: seq<string>) returns (r: Result<VersionsProps, string>)
      ensures r.Ok? <==> Parse(input).Ok?
      ensures r.Ok? ==> fresh(r.value) && r.value.lines == Parse(input).value && r.value.Valid()
      ensures r.Err? ==> Parse(input) == Err(r.error)
    {
      var parsedLines: seq<Line> := [];
      var ids: set<string> := {};
      for i := 0 to |input|
        invariant |parsedLines| == i
        invariant Parse(input[..i]) == Ok(parsedLines)
        invariant ids == IdentifiersOf(parsedLines)
      {
        assert input[..i + 1][..i] == input[..i];
        ghost var prev := parsedLines;
        var line := input[i];
        if IsCommentOrEmpty(line) {
          parsedLines := parsedLines + [NonVersionLine(line)];
        } else {
          var m := MatchVersionLine(line);
          if m.None? {
            ParseErrorPersists(input, i + 1);
            return Err(line);
          }
          parsedLines := parsedLines + [m.value];
          ids := ids + {m.value.identifier};
        }
        assert parsedLines[..|parsedLines| - 1] == prev;
      }
      assert input[..|input|] == input;
      var props := new VersionsProps(parsedLines, ids);
      return Ok(props);
    }

    /** update(identifier, version); `order` is the iteration order of the resolver's identifier set. */
    method Update(identifier: string, version: string, order: seq<string>) returns (r: Option<UpdatedLine>)
      requires Valid()
      requires forall x :: x in order <==> x in identifiers
      modifies this
      ensures (lines, r) == UpdateLines(old(lines), Resolver.PatternFor(order, identifier), version)
      ensures Valid()
      ensures Resolver.PatternFor(order, identifier).Some? ==>
                FirstLineFor(old(lines), Resolver.PatternFor(order, identifier).value).Some?
      ensures r.None? && Resolver.PatternFor(order, identifier).Some? ==>
                old(lines)[FirstLineFor(old(lines), Resolver.PatternFor(order, identifier).value).value].version == version
    {
      ResolvedUpdate(lines, order, identifier, version);
      var maybeMatch := Resolver.PatternFor(order, identifier);
      if maybeMatch.None? {
        return None;
      }
      var bestMatch := maybeMatch.value;
      var i := 0;
      while i < |lines|
        invariant 0 <= i <= |lines|
        invariant lines == old(lines)
        invariant forall j :: 0 <= j < i ==> !IsLineFor(lines[j], bestMatch)
      {
        var line := lines[i];
        if line.VersionLine? && line.identifier == bestMatch {
          if line.version == version {
            return None;
          }
          lines := lines[i := line.(version := version)];
          return Some(UpdatedLine(bestMatch, line.version, version));
        }
        i := i + 1;
      }
      return None;
    }

    /** writeToString. */
    function WriteToString(): string
      reads this
    {
      Serialize(lines)
    }
  }

  lemma {:induction false} ParseErrorPersists(input: seq<string>, n: nat)
    requires n <= |input|
    requires Parse(input[..n]).Err?
    ensures Parse(input) == Parse(input[..n])
    decreases |input| - n
  {
    if n < |input| {
      assert input[..n + 1][..n] == input[..n];
      ParseErrorPersists(input, n + 1);
    } else {
      assert input[..n] == input;
    }
  }
}
