/** The four regular expressions of `find_video_url`, each in two forms:

    - a hand-written scanner (`...At`) that decides, for one start position,
      whether the pattern matches there and what its single group captures,
      following the backtracking order of Python's `re` engine;
    - a declarative description (`...Match`) of what a match at that position
      with that group looks like, written from the pattern's text alone.

    `MatchAtSpec` proves the two agree, in both directions. */
module Patterns {
  import opened Wrappers
  import opened Text

  const HttpScheme := "http://"
  const HttpsScheme := "https://"
  const IframeHost := "fplayer.cc/embed/"
  const HttpIframe := HttpScheme + IframeHost
  const HttpsIframe := HttpsScheme + IframeHost
  const Mp4 := ".mp4"

  /** The four searches, named after what they look for:
      - QuotedIframe   `src="(https?://fplayer\.cc/embed/[^"]+)"`
      - UnquotedIframe `src=(https?://fplayer\.cc/embed/[^\s>]+)`
      - SourceVideo    `source:\s*'(https?://[^']+\.mp4)'`
      - GenericVideo   `(https?://[^'"\s]+\.mp4)` */
  datatype Pattern = QuotedIframe | UnquotedIframe | SourceVideo | GenericVideo

  // ---------------------------------------------------------------------
  // Scanners
  // ---------------------------------------------------------------------

  /** `https?://fplayer\.cc/embed/` at `j`: the position just past it. The
      optional `s` is tried present first, as the greedy `?` does; the other
      branch can then never succeed, so the first success is the only one. */
  function IframePrefixEnd(s: string, j: nat): (r: Option<nat>)
    ensures r.Some? ==> j < r.value <= |s|
  {
    if HasAt(s, j, HttpsIframe) then Some(j + |HttpsIframe|)
    else if HasAt(s, j, HttpIframe) then Some(j + |HttpIframe|)
    else None
  }

  /** `https?://` at `j`: the position just past it. */
  function SchemeEnd(s: string, j: nat): (r: Option<nat>)
    ensures r.Some? ==> j < r.value <= |s|
  {
    if HasAt(s, j, HttpsScheme) then Some(j + |HttpsScheme|)
    else if HasAt(s, j, HttpScheme) then Some(j + |HttpScheme|)
    else None
  }

  /** The largest `m` in `lo + 5 .. e` such that `s[..m]` ends with `.mp4`:
      where `[^'"\s]+\.mp4` stops after the greedy run, ending at `e`, has
      given back characters one at a time until `\.mp4` matches, with the
      `+` keeping at least one character in the run. */
  function LastMp4End(s: string, lo: nat, e: nat): (r: Option<nat>)
    requires lo <= e <= |s|
    ensures r.Some? ==> lo + 5 <= r.value <= e && EndsAt(s, r.value, Mp4)
    ensures forall m :: lo + 5 <= m <= e && EndsAt(s, m, Mp4) ==> r.Some? && m <= r.value
    decreases e
  {
    if e < lo + 5 then None
    else if EndsAt(s, e, Mp4) then Some(e)
    else LastMp4End(s, lo, e - 1)
  }

  function QuotedIframeAt(s: string, i: nat): Option<string>
    requires i <= |s|
  {
    if !HasAt(s, i, "src=\"") then None
    else match IframePrefixEnd(s, i + 5)
      case None => None
      case Some(b) =>
        var e := RunEnd(s, b, NotDoubleQuote);
        if b < e < |s| then Some(s[i + 5..e]) else None
  }

  function UnquotedIframeAt(s: string, i: nat): Option<string>
    requires i <= |s|
  {
    if !HasAt(s, i, "src=") then None
    else match IframePrefixEnd(s, i + 4)
      case None => None
      case Some(b) =>
        var e := RunEnd(s, b, NotSpaceOrGt);
        if b < e then Some(s[i + 4..e]) else None
  }

  /** `'(https?://[^']+\.mp4)'` at `j`, the part of the `source:` pattern
      after its whitespace. `[^']+` cannot pass a `'`, so it gives back
      characters until `\.mp4'` closes at the first quote or the match fails. */
  function QuotedMp4At(s: string, j: nat): Option<string>
    requires j <= |s|
  {
    if !HasAt(s, j, "'") then None
    else match SchemeEnd(s, j + 1)
      case None => None
      case Some(b) =>
        var e := RunEnd(s, b, NotSingleQuote);
        if e < |s| && b + 5 <= e && EndsAt(s, e, Mp4) then Some(s[j + 1..e]) else None
  }

  /** `\s*` can give nothing back: a `'` must follow and is not whitespace. */
  function SourceVideoAt(s: string, i: nat): Option<string>
    requires i <= |s|
  {
    if !HasAt(s, i, "source:") then None
    else QuotedMp4At(s, RunEnd(s, i + 7, Space))
  }

  function GenericVideoAt(s: string, i: nat): Option<string>
    requires i <= |s|
  {
    match SchemeEnd(s, i)
    case None => None
    case Some(b) =>
      var e := RunEnd(s, b, NotQuoteOrSpace);
      match LastMp4End(s, b, e)
      case None => None
      case Some(m) => Some(s[i..m])
  }

  /** What `re.match` of pattern `p` at position `i` yields as group 1. */
  function MatchAt(p: Pattern, s: string, i: nat): Option<string>
    requires i <= |s|
  {
    match p
    case QuotedIframe => QuotedIframeAt(s, i)
    case UnquotedIframe => UnquotedIframeAt(s, i)
    case SourceVideo => SourceVideoAt(s, i)
    case GenericVideo => GenericVideoAt(s, i)
  }

  // ---------------------------------------------------------------------
  // Declarative descriptions
  // ---------------------------------------------------------------------

  /** `https?://fplayer\.cc/embed/` followed by at least one character. */
  predicate IsIframeUrl(g: string) {
    || (StartsWith(g, HttpIframe) && |g| > |HttpIframe|)
    || (StartsWith(g, HttpsIframe) && |g| > |HttpsIframe|)
  }

  /** `https?://`, at least one character, then `.mp4`. */
  predicate IsVideoUrl(g: string) {
    && (|| (StartsWith(g, HttpScheme) && |g| >= |HttpScheme| + 1 + |Mp4|)
        || (StartsWith(g, HttpsScheme) && |g| >= |HttpsScheme| + 1 + |Mp4|))
    && EndsWith(g, Mp4)
  }

  /** The text at `i` reads `src="`, then `g`, then `"`. */
  predicate QuotedIframeMatch(s: string, i: nat, g: string) {
    && HasAt(s, i, "src=\"")
    && HasAt(s, i + 5, g)
    && HasAt(s, i + 5 + |g|, "\"")
    && IsIframeUrl(g)
    && AllAllowed(g, NotDoubleQuote)
  }

  /** The text at `i` reads `src=`, then `g`, and `g` cannot be extended:
      the next character is whitespace or `>`, or the text ends. */
  predicate UnquotedIframeMatch(s: string, i: nat, g: string) {
    && HasAt(s, i, "src=")
    && HasAt(s, i + 4, g)
    && IsIframeUrl(g)
    && AllAllowed(g, NotSpaceOrGt)
    && !AllowedAt(s, i + 4 + |g|, NotSpaceOrGt)
  }

  /** The text at `j` reads `'`, then `g`, then `'`. */
  predicate QuotedMp4Match(s: string, j: nat, g: string) {
    && HasAt(s, j, "'")
    && HasAt(s, j + 1, g)
    && HasAt(s, j + 1 + |g|, "'")
    && IsVideoUrl(g)
    && AllAllowed(g, NotSingleQuote)
  }

  /** The text at `i` reads `source:`, whitespace up to `j`, then `'`, `g`, `'`. */
  predicate SourceVideoMatchVia(s: string, i: nat, j: nat, g: string) {
    && HasAt(s, i, "source:")
    && AllowedRange(s, i + 7, j, Space)
    && QuotedMp4Match(s, j, g)
  }

  ghost predicate SourceVideoMatch(s: string, i: nat, g: string) {
    exists j :: SourceVideoMatchVia(s, i, j, g)
  }

  /** The text at `i` reads `g`, and `g` is the longest video URL there
      whose characters avoid quotes and whitespace: no later end `e` inside
      the same run of such characters also closes a `.mp4`. */
  predicate GenericVideoMatch(s: string, i: nat, g: string) {
    && HasAt(s, i, g)
    && IsVideoUrl(g)
    && AllAllowed(g, NotQuoteOrSpace)
    && forall e :: i + |g| < e <= |s| && AllowedRange(s, i, e, NotQuoteOrSpace) ==> !EndsAt(s, e, Mp4)
  }

  ghost predicate Matches(p: Pattern, s: string, i: nat, g: string) {
    match p
    case QuotedIframe => QuotedIframeMatch(s, i, g)
    case UnquotedIframe => UnquotedIframeMatch(s, i, g)
    case SourceVideo => SourceVideoMatch(s, i, g)
    case GenericVideo => GenericVideoMatch(s, i, g)
  }

  // ---------------------------------------------------------------------
  // Scanners agree with the descriptions
  // ---------------------------------------------------------------------

  /** The embed host and path contain no whitespace and no `>`. */
  lemma HostCharacters()
    ensures AllAllowed(IframeHost, NotSpaceOrGt)
  {
  }

  /** Hence neither do the embed prefixes. */
  lemma IframePrefixCharacters()
    ensures AllAllowed(HttpIframe, NotSpaceOrGt) && AllAllowed(HttpsIframe, NotSpaceOrGt)
    ensures AllAllowed(HttpIframe, NotDoubleQuote) && AllAllowed(HttpsIframe, NotDoubleQuote)
  {
    HostCharacters();
    SchemePrefixCharacters();
  }

  /** The schemes contain no quote or whitespace. */
  lemma SchemePrefixCharacters()
    ensures AllAllowed(HttpScheme, NotQuoteOrSpace) && AllAllowed(HttpsScheme, NotQuoteOrSpace)
    ensures AllAllowed(HttpScheme, NotSpaceOrGt) && AllAllowed(HttpsScheme, NotSpaceOrGt)
    ensures AllAllowed(HttpScheme, NotSingleQuote) && AllAllowed(HttpsScheme, NotSingleQuote)
  {
  }

  /** A string found at `i` consisting of a fixed prefix `p` followed by a
      run of `cls` characters has only `cls` characters, when `p` has. */
  lemma PrefixThenRun(s: string, i: nat, b: nat, e: nat, p: string, cls: CharClass)
    requires i <= b <= e <= |s| && s[i..b] == p
    requires AllAllowed(p, cls) && AllowedRange(s, b, e, cls)
    ensures AllAllowed(s[i..e], cls)
  {
    assert s[i..e] == s[i..b] + s[b..e];
    forall c | c in s[b..e]
      ensures cls.Allows(c)
    {
      var k :| 0 <= k < e - b && s[b..e][k] == c;
      assert s[b + k] == c;
    }
  }

  /** The converse direction: the characters of `s` under a string of
      `cls` characters found at `i` form a `cls` run. */
  lemma RunUnder(s: string, i: nat, g: string, a: nat, cls: CharClass)
    requires HasAt(s, i, g) && AllAllowed(g, cls) && i <= a <= i + |g|
    ensures AllowedRange(s, a, i + |g|, cls)
  {
    CharsAt(s, i, g);
    forall k | a <= k < i + |g|
      ensures cls.Allows(s[k])
    {
      assert g[k - i] in g;
    }
  }

  /** A one-character literal at `k` is that character. */
  lemma CharLiteralAt(s: string, k: nat, c: char)
    requires HasAt(s, k, [c])
    ensures k < |s| && s[k] == c
  {
    assert s[k..k + 1][0] == s[k];
  }

  /** Which of the two iframe prefixes a located iframe URL starts with
      decides where the scanner's prefix ends. */
  lemma IframePrefixOf(s: string, j: nat, g: string)
    requires HasAt(s, j, g) && IsIframeUrl(g)
    ensures StartsWith(g, HttpsIframe) ==> IframePrefixEnd(s, j) == Some(j + |HttpsIframe|)
    ensures !StartsWith(g, HttpsIframe) ==> IframePrefixEnd(s, j) == Some(j + |HttpIframe|)
    ensures IframePrefixEnd(s, j).Some? && IframePrefixEnd(s, j).value < j + |g|
  {
    CharsAt(s, j, g);
    if StartsWith(g, HttpsIframe) {
      PrefixAt(s, j, g, HttpsIframe);
      assert g[4] == 's' != HttpIframe[4];
    } else {
      PrefixAt(s, j, g, HttpIframe);
      assert g[4] == HttpIframe[4] == ':';
      assert s[j + 4] != HttpsIframe[4];
    }
  }

  /** Likewise for the two schemes of a video URL. */
  lemma SchemeOf(s: string, j: nat, g: string)
    requires HasAt(s, j, g) && IsVideoUrl(g)
    ensures StartsWith(g, HttpsScheme) ==> SchemeEnd(s, j) == Some(j + |HttpsScheme|)
    ensures !StartsWith(g, HttpsScheme) ==> SchemeEnd(s, j) == Some(j + |HttpScheme|)
    ensures SchemeEnd(s, j).Some? && SchemeEnd(s, j).value + |Mp4| < j + |g|
  {
    CharsAt(s, j, g);
    if StartsWith(g, HttpsScheme) {
      PrefixAt(s, j, g, HttpsScheme);
      assert g[4] == 's' != HttpScheme[4];
    } else {
      PrefixAt(s, j, g, HttpScheme);
      assert g[4] == HttpScheme[4] == ':';
      assert s[j + 4] != HttpsScheme[4];
    }
  }

  lemma QuotedIframeSound(s: string, i: nat)
    requires i <= |s| && QuotedIframeAt(s, i).Some?
    ensures QuotedIframeMatch(s, i, QuotedIframeAt(s, i).value)
  {
    var b := IframePrefixEnd(s, i + 5).value;
    var e := RunEnd(s, b, NotDoubleQuote);
    var g := s[i + 5..e];
    var p := if HasAt(s, i + 5, HttpsIframe) then HttpsIframe else HttpIframe;
    assert s[i + 5..b] == p;
    assert g[..|p|] == p;
    assert s[e..e + 1] == "\"";
    IframePrefixCharacters();
    PrefixThenRun(s, i + 5, b, e, p, NotDoubleQuote);
  }

  lemma QuotedIframeComplete(s: string, i: nat, g: string)
    requires i <= |s| && QuotedIframeMatch(s, i, g)
    ensures QuotedIframeAt(s, i) == Some(g)
  {
    IframePrefixOf(s, i + 5, g);
    var b := IframePrefixEnd(s, i + 5).value;
    RunUnder(s, i + 5, g, b, NotDoubleQuote);
    CharLiteralAt(s, i + 5 + |g|, '"');
    RunEndUnique(s, b, i + 5 + |g|, NotDoubleQuote);
  }

  lemma UnquotedIframeSound(s: string, i: nat)
    requires i <= |s| && UnquotedIframeAt(s, i).Some?
    ensures UnquotedIframeMatch(s, i, UnquotedIframeAt(s, i).value)
  {
    var b := IframePrefixEnd(s, i + 4).value;
    var e := RunEnd(s, b, NotSpaceOrGt);
    var g := s[i + 4..e];
    var p := if HasAt(s, i + 4, HttpsIframe) then HttpsIframe else HttpIframe;
    assert s[i + 4..b] == p;
    assert g[..|p|] == p;
    IframePrefixCharacters();
    PrefixThenRun(s, i + 4, b, e, p, NotSpaceOrGt);
  }

  lemma UnquotedIframeComplete(s: string, i: nat, g: string)
    requires i <= |s| && UnquotedIframeMatch(s, i, g)
    ensures UnquotedIframeAt(s, i) == Some(g)
  {
    IframePrefixOf(s, i + 4, g);
    var b := IframePrefixEnd(s, i + 4).value;
    RunUnder(s, i + 4, g, b, NotSpaceOrGt);
    RunEndUnique(s, b, i + 4 + |g|, NotSpaceOrGt);
  }

  lemma QuotedMp4Sound(s: string, j: nat)
    requires j <= |s| && QuotedMp4At(s, j).Some?
    ensures QuotedMp4Match(s, j, QuotedMp4At(s, j).value)
  {
    var b := SchemeEnd(s, j + 1).value;
    var e := RunEnd(s, b, NotSingleQuote);
    var g := s[j + 1..e];
    var p := if HasAt(s, j + 1, HttpsScheme) then HttpsScheme else HttpScheme;
    assert s[j + 1..b] == p;
    assert g[..|p|] == p;
    assert g[|g| - |Mp4|..] == s[e - |Mp4|..e];
    assert s[e..e + 1] == "'";
    SchemePrefixCharacters();
    PrefixThenRun(s, j + 1, b, e, p, NotSingleQuote);
  }

  lemma QuotedMp4Complete(s: string, j: nat, g: string)
    requires j <= |s| && QuotedMp4Match(s, j, g)
    ensures QuotedMp4At(s, j) == Some(g)
  {
    SchemeOf(s, j + 1, g);
    var b := SchemeEnd(s, j + 1).value;
    var e := j + 1 + |g|;
    RunUnder(s, j + 1, g, b, NotSingleQuote);
    CharLiteralAt(s, e, '\'');
    RunEndUnique(s, b, e, NotSingleQuote);
    SuffixAt(s, j + 1, g, Mp4);
  }

  lemma SourceVideoSound(s: string, i: nat)
    requires i <= |s| && SourceVideoAt(s, i).Some?
    ensures SourceVideoMatch(s, i, SourceVideoAt(s, i).value)
  {
    var j := RunEnd(s, i + 7, Space);
    QuotedMp4Sound(s, j);
    assert SourceVideoMatchVia(s, i, j, SourceVideoAt(s, i).value);
  }

  lemma SourceVideoComplete(s: string, i: nat, g: string)
    requires i <= |s| && SourceVideoMatch(s, i, g)
    ensures SourceVideoAt(s, i) == Some(g)
  {
    var j: nat :| SourceVideoMatchVia(s, i, j, g);
    CharLiteralAt(s, j, '\'');
    RunEndUnique(s, i + 7, j, Space);
    QuotedMp4Complete(s, j, g);
  }

  lemma GenericVideoSound(s: string, i: nat)
    requires i <= |s| && GenericVideoAt(s, i).Some?
    ensures GenericVideoMatch(s, i, GenericVideoAt(s, i).value)
  {
    var b := SchemeEnd(s, i).value;
    var e := RunEnd(s, b, NotQuoteOrSpace);
    var m := LastMp4End(s, b, e).value;
    var g := s[i..m];
    var p := if HasAt(s, i, HttpsScheme) then HttpsScheme else HttpScheme;
    assert s[i..b] == p;
    assert g[..|p|] == p;
    assert g[|g| - |Mp4|..] == s[m - |Mp4|..m];
    SchemePrefixCharacters();
    PrefixThenRun(s, i, b, m, p, NotQuoteOrSpace);
  }

  lemma GenericVideoComplete(s: string, i: nat, g: string)
    requires i <= |s| && GenericVideoMatch(s, i, g)
    ensures GenericVideoAt(s, i) == Some(g)
  {
    SchemeOf(s, i, g);
    var b := SchemeEnd(s, i).value;
    var e := RunEnd(s, b, NotQuoteOrSpace);
    RunUnder(s, i, g, i, NotQuoteOrSpace);
    assert i + |g| <= e;
    SuffixAt(s, i, g, Mp4);
    var m := LastMp4End(s, b, e).value;
    assert AllowedRange(s, i, m, NotQuoteOrSpace);
  }

  /** Scanner and description agree: `MatchAt` yields `g` at `i` exactly
      when the text at `i` has the shape the pattern describes with group `g`. */
  lemma MatchAtSpec(p: Pattern, s: string, i: nat, g: string)
    requires i <= |s|
    ensures MatchAt(p, s, i) == Some(g) <==> Matches(p, s, i, g)
  {
    match p
    case QuotedIframe =>
      if MatchAt(p, s, i) == Some(g) { QuotedIframeSound(s, i); }
      if Matches(p, s, i, g) { QuotedIframeComplete(s, i, g); }
    case UnquotedIframe =>
      if MatchAt(p, s, i) == Some(g) { UnquotedIframeSound(s, i); }
      if Matches(p, s, i, g) { UnquotedIframeComplete(s, i, g); }
    case SourceVideo =>
      if MatchAt(p, s, i) == Some(g) { SourceVideoSound(s, i); }
      if Matches(p, s, i, g) { SourceVideoComplete(s, i, g); }
    case GenericVideo =>
      if MatchAt(p, s, i) == Some(g) { GenericVideoSound(s, i); }
      if Matches(p, s, i, g) { GenericVideoComplete(s, i, g); }
  }
}
