/**
 * The updateGradleWrapper task without its file handling: point the
 * `distributionUrl` property of gradle-wrapper.properties at a new
 * distribution, with the URL's colons escaped as the properties format needs.
 */
module UpdateGradleWrapperTask {
  import opened Wrappers
  import opened Text

  /** The literal that starts the pattern DISTURL, `distributionUrl=.*`. */
  const DistributionUrlKey: string := "distributionUrl="

  /** escapeUrl: every `:` becomes `\:`, every other character is kept. */
  function EscapeUrl(url: string): (r: string)
    ensures |r| == |url| + Count(url, ':')
  {
    if url == [] then []
    else (if url[0] == ':' then "\\:" else [url[0]]) + EscapeUrl(url[1..])
  }

  /** Reads an escaped URL back: `\:` becomes `:`, scanning left to right. */
  function UnescapeUrl(s: string): string {
    if s == [] then []
    else if |s| >= 2 && s[0] == '\\' && s[1] == ':' then ":" + UnescapeUrl(s[2..])
    else [s[0]] + UnescapeUrl(s[1..])
  }

  lemma EscapeUrlStart(url: string)
    ensures EscapeUrl(url) == [] || EscapeUrl(url)[0] != ':'
  {
  }

  /** Escaping loses nothing: unescaping gives the URL back. */
  lemma {:induction false} UnescapeEscape(url: string)
    ensures UnescapeUrl(EscapeUrl(url)) == url
  {
    if url != [] {
      var rest := EscapeUrl(url[1..]);
      UnescapeEscape(url[1..]);
      if url[0] == ':' {
        assert ("\\:" + rest)[2..] == rest;
      } else {
        EscapeUrlStart(url[1..]);
        assert ([url[0]] + rest)[1..] == rest;
      }
    }
  }

  /** No colon of an escaped URL is left bare: each follows a backslash. */
  lemma {:induction false} EscapedColons(url: string)
    ensures var r := EscapeUrl(url);
            forall k :: 0 <= k < |r| && r[k] == ':' ==> 0 < k && r[k - 1] == '\\'
  {
    if url != [] {
      var head := if url[0] == ':' then "\\:" else [url[0]];
      var rest := EscapeUrl(url[1..]);
      EscapedColons(url[1..]);
      EscapeUrlStart(url[1..]);
      var r := head + rest;
      forall k | 0 <= k < |r| && r[k] == ':' ensures 0 < k && r[k - 1] == '\\' {
        if k >= |head| {
          assert r[k] == rest[k - |head|];
          if k > |head| {
            assert r[k - 1] == rest[k - 1 - |head|];
          }
        }
      }
    }
  }

  /** Escaping adds only backslashes, so a URL without line terminators stays without them. */
  lemma {:induction false} EscapeUrlSingleLine(url: string)
    requires NoLineTerminator(url)
    ensures NoLineTerminator(EscapeUrl(url))
  {
    if url != [] {
      EscapeUrlSingleLine(url[1..]);
      var head := if url[0] == ':' then "\\:" else [url[0]];
      assert NoLineTerminator(head);
      var r := head + EscapeUrl(url[1..]);
      forall k | 0 <= k < |r| ensures !IsLineTerminator(r[k]) {
        if k >= |head| {
          assert r[k] == EscapeUrl(url[1..])[k - |head|];
        }
      }
    }
  }

  predicate NotLineTerminator(c: char) {
    !IsLineTerminator(c)
  }

  /** The replacement, inserted literally: `distributionUrl=` and the escaped URL. */
  function UrlLine(url: string): string {
    DistributionUrlKey + EscapeUrl(url)
  }

  /** The content with c[i..e] replaced by the new `distributionUrl=` line. */
  function ReplaceUrlAt(original: string, url: string, i: nat, e: nat): string
    requires i <= e <= |original|
  {
    original[..i] + UrlLine(url) + original[e..]
  }

  /**
   * updateDistributionUrl: the first `distributionUrl=` and the rest of its
   * line (`.` stops at a line terminator) replaced; the content unchanged
   * when there is none.
   */
  function UpdateDistributionUrl(original: string, url: string): string {
    match IndexOf(original, DistributionUrlKey, 0)
    case None => original
    case Some(i) =>
      var e := RunEnd(original, i + |DistributionUrlKey|, NotLineTerminator);
      ReplaceUrlAt(original, url, i, e)
  }

  /** The span DISTURL matches first: `distributionUrl=` at `i`, none earlier, and the rest of the line up to `e`. */
  predicate FirstUrlLineAt(original: string, i: nat, e: nat) {
    && OccursAt(original, DistributionUrlKey, i)
    && (forall j: nat :: j < i ==> !OccursAt(original, DistributionUrlKey, j))
    && i + |DistributionUrlKey| <= e <= |original|
    && (forall k :: i + |DistributionUrlKey| <= k < e ==> NotLineTerminator(original[k]))
    && (e < |original| ==> IsLineTerminator(original[e]))
  }

  /** Without a `distributionUrl=` the content is returned as it was. */
  lemma UpdateDistributionUrlAbsent(original: string, url: string)
    requires forall i: nat :: !OccursAt(original, DistributionUrlKey, i)
    ensures UpdateDistributionUrl(original, url) == original
  {
  }

  /** Otherwise exactly the first match is replaced, and the text around it is kept. */
  lemma UpdateDistributionUrlAt(original: string, url: string, i: nat, e: nat)
    requires FirstUrlLineAt(original, i, e)
    ensures UpdateDistributionUrl(original, url) == ReplaceUrlAt(original, url, i, e)
  {
    assert IndexOf(original, DistributionUrlKey, 0) == Some(i);
    RunEndAt(original, i + |DistributionUrlKey|, e, NotLineTerminator);
  }

  /** A content with a `distributionUrl=` has a first match. */
  lemma FirstUrlLineExists(original: string, i0: nat)
    requires OccursAt(original, DistributionUrlKey, i0)
    ensures var i := IndexOf(original, DistributionUrlKey, 0).value;
            var e := RunEnd(original, i + |DistributionUrlKey|, NotLineTerminator);
            FirstUrlLineAt(original, i, e)
  {
    var i := IndexOf(original, DistributionUrlKey, 0).value;
    RunEndFacts(original, i + |DistributionUrlKey|, NotLineTerminator);
  }

  /** The rewritten content, character by character. */
  lemma ReplacedChars(original: string, url: string, i: nat, e: nat, r: string)
    requires OccursAt(original, DistributionUrlKey, i) && i + |DistributionUrlKey| <= e <= |original|
    requires r == ReplaceUrlAt(original, url, i, e)
    ensures |r| == i + |UrlLine(url)| + |original| - e
    ensures forall k :: 0 <= k < i + |DistributionUrlKey| ==> r[k] == original[k]
    ensures forall k :: 0 <= k < |EscapeUrl(url)| ==> r[i + |DistributionUrlKey| + k] == EscapeUrl(url)[k]
    ensures forall k :: e <= k < |original| ==> r[k - e + i + |UrlLine(url)|] == original[k]
  {
    var n := |DistributionUrlKey|;
    var line := UrlLine(url);
    assert forall k :: i <= k < i + n ==> r[k] == line[k - i] == DistributionUrlKey[k - i] == original[i + (k - i)];
    assert forall k :: 0 <= k < |EscapeUrl(url)| ==> line[n + k] == EscapeUrl(url)[k];
  }

  /**
   * Updating twice to the same single-line URL is the same as updating once:
   * the first match of the result is the line just written.
   */
  lemma UpdateDistributionUrlIdempotent(original: string, url: string)
    requires NoLineTerminator(url)
    ensures UpdateDistributionUrl(UpdateDistributionUrl(original, url), url) == UpdateDistributionUrl(original, url)
  {
    match IndexOf(original, DistributionUrlKey, 0)
    case None =>
    case Some(i) =>
      var n := |DistributionUrlKey|;
      var e := RunEnd(original, i + n, NotLineTerminator);
      FirstUrlLineExists(original, i);
      var r := ReplaceUrlAt(original, url, i, e);
      var e' := i + |UrlLine(url)|;
      ReplacedChars(original, url, i, e, r);
      EscapeUrlSingleLine(url);
      ReplacedFirstLine(original, url, i, e, r);
      UpdateDistributionUrlAt(r, url, i, e');
      ReplaceAgain(original, url, i, e, r);
  }

  /** The line just written is the first match of the rewritten content. */
  lemma ReplacedFirstLine(original: string, url: string, i: nat, e: nat, r: string)
    requires FirstUrlLineAt(original, i, e) && NoLineTerminator(EscapeUrl(url))
    requires |r| == i + |UrlLine(url)| + |original| - e
    requires forall k :: 0 <= k < i + |DistributionUrlKey| ==> r[k] == original[k]
    requires forall k :: 0 <= k < |EscapeUrl(url)| ==> r[i + |DistributionUrlKey| + k] == EscapeUrl(url)[k]
    requires forall k :: e <= k < |original| ==> r[k - e + i + |UrlLine(url)|] == original[k]
    ensures FirstUrlLineAt(r, i, i + |UrlLine(url)|)
  {
    var n := |DistributionUrlKey|;
    var e' := i + |UrlLine(url)|;
    forall j: nat | j < i ensures !OccursAt(r, DistributionUrlKey, j) {
      assert !OccursAt(original, DistributionUrlKey, j);
    }
    forall k | i + n <= k < e' ensures NotLineTerminator(r[k]) {
      assert r[k] == EscapeUrl(url)[k - i - n];
    }
    if e' < |r| {
      assert r[e'] == r[e - e + i + |UrlLine(url)|] == original[e];
    }
  }

  /** Writing the same line over the line just written changes nothing. */
  lemma ReplaceAgain(original: string, url: string, i: nat, e: nat, r: string)
    requires OccursAt(original, DistributionUrlKey, i) && i + |DistributionUrlKey| <= e <= |original|
    requires r == ReplaceUrlAt(original, url, i, e)
    ensures i + |UrlLine(url)| <= |r|
    ensures ReplaceUrlAt(r, url, i, i + |UrlLine(url)|) == r
  {
    var line := UrlLine(url);
    assert r[..i] == original[..i];
    assert r[i + |line|..] == original[e..];
  }
}
