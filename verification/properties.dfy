/** What `find_video_url` promises, stated against the declarative
    descriptions of the four patterns rather than against the scanners. */
module Properties {
  import opened Wrappers
  import opened Text
  import opened Patterns
  import opened Search
  import opened Downloader

  // ---------------------------------------------------------------------
  // Which pattern wins
  // ---------------------------------------------------------------------

  /** The embed URL is the group of the leftmost quoted `src="..."` match;
      the unquoted form is consulted only when the quoted form matches
      nowhere in the page, and nothing is found only when neither does. */
  lemma LocateIframeSpec(page: string, g: string)
    ensures LocateIframe(page) == Some(g) <==>
      || (exists i: nat :: IsLeftmostMatch(QuotedIframe, page, i, g))
      || (NoMatch(QuotedIframe, page) && exists i: nat :: IsLeftmostMatch(UnquotedIframe, page, i, g))
    ensures LocateIframe(page).None? <==> NoMatch(QuotedIframe, page) && NoMatch(UnquotedIframe, page)
  {
    FindSpec(QuotedIframe, page, g);
    FindSpec(UnquotedIframe, page, g);
  }

  /** The video URL is the group of the leftmost `source: '...'` match; the
      bare form is consulted only when that form matches nowhere in the
      embed's text. */
  lemma LocateVideoSpec(player: string, g: string)
    ensures LocateVideo(player) == Some(g) <==>
      || (exists i: nat :: IsLeftmostMatch(SourceVideo, player, i, g))
      || (NoMatch(SourceVideo, player) && exists i: nat :: IsLeftmostMatch(GenericVideo, player, i, g))
    ensures LocateVideo(player).None? <==> NoMatch(SourceVideo, player) && NoMatch(GenericVideo, player)
  {
    FindSpec(SourceVideo, player, g);
    FindSpec(GenericVideo, player, g);
  }

  // ---------------------------------------------------------------------
  // What the located URLs look like
  // ---------------------------------------------------------------------

  /** An embed URL starts with `http://fplayer.cc/embed/` or
      `https://fplayer.cc/embed/` and has at least one more character; from
      the quoted form it holds no `"`, from the unquoted form no whitespace
      and no `>`. */
  lemma IframeUrlShape(page: string, g: string)
    requires LocateIframe(page) == Some(g)
    ensures IsIframeUrl(g)
    ensures !NoMatch(QuotedIframe, page) ==> '"' !in g
    ensures NoMatch(QuotedIframe, page) ==> forall c :: c in g ==> !IsSpace(c) && c != '>'
  {
    FindSpec(QuotedIframe, page, g);
    if Find(QuotedIframe, page).Some? {
      FindShape(QuotedIframe, page, g);
    } else {
      FindShape(UnquotedIframe, page, g);
    }
  }

  /** A video URL starts with `http://` or `https://`, ends with `.mp4`,
      holds no `'`; from the bare form it also holds no `"` and no
      whitespace. */
  lemma VideoUrlShape(player: string, g: string)
    requires LocateVideo(player) == Some(g)
    ensures StartsWith(g, HttpScheme) || StartsWith(g, HttpsScheme)
    ensures EndsWith(g, Mp4)
    ensures '\'' !in g
    ensures NoMatch(SourceVideo, player) ==> '"' !in g && forall c :: c in g ==> !IsSpace(c)
  {
    FindSpec(SourceVideo, player, g);
    if Find(SourceVideo, player).Some? {
      FindShape(SourceVideo, player, g);
    } else {
      FindShape(GenericVideo, player, g);
    }
  }

  /** The bare-form scanner captures from its start through the LAST `.mp4`
      of the run of non-quote, non-whitespace characters it starts: once a
      `.mp4` ends at `m` inside that run, the captured group reaches `m`. */
  lemma GenericReachesLastMp4(s: string, i: nat, g: string, m: nat)
    requires i <= |s| && GenericVideoAt(s, i) == Some(g)
    requires i + |HttpScheme| + 1 + |Mp4| <= m <= |s|
    requires AllowedRange(s, i, m, NotQuoteOrSpace) && EndsAt(s, m, Mp4)
    ensures m <= i + |g|
  {
    GenericVideoSound(s, i);
  }

  // ---------------------------------------------------------------------
  // Which failure leads to which outcome
  // ---------------------------------------------------------------------

  function Last<T>(xs: seq<T>): T
    requires |xs| > 0
  {
    xs[|xs| - 1]
  }

  /** A failed page fetch ends the run with a network error before any
      text is searched or any embed is fetched. */
  lemma PageFetchFails(pageUrl: string, player: FetchResult)
    ensures FindVideoUrl(pageUrl, Err, player) ==
      Run(None, [FetchingPage, NetworkError], [PageRequest(pageUrl)])
  {
  }

  /** When neither embed pattern matches, nothing is returned, the embed is
      never fetched, and the last status is "player not found". */
  lemma PlayerNotFoundOutcome(pageUrl: string, page: string, player: FetchResult)
    requires NoMatch(QuotedIframe, page) && NoMatch(UnquotedIframe, page)
    ensures FindVideoUrl(pageUrl, Ok(page), player) ==
      Run(None, [FetchingPage, FindingPlayer, PlayerNotFound], [PageRequest(pageUrl)])
  {
    LocateIframeSpec(page, []);
  }

  /** Only the one embed first located is fetched, with the page as
      referer; when that fetch fails the run ends with a network error. */
  lemma PlayerFetchFails(pageUrl: string, page: string, i: nat, g: string)
    requires IsLeftmostMatch(QuotedIframe, page, i, g)
    ensures FindVideoUrl(pageUrl, Ok(page), Err) ==
      Run(None, [FetchingPage, FindingPlayer, ExtractingLink, NetworkError],
          [PageRequest(pageUrl), PlayerRequest(pageUrl, g)])
  {
    LocateIframeSpec(page, g);
  }

  /** The same, when the embed is located by the unquoted form. */
  lemma UnquotedPlayerFetchFails(pageUrl: string, page: string, i: nat, g: string)
    requires NoMatch(QuotedIframe, page) && IsLeftmostMatch(UnquotedIframe, page, i, g)
    ensures FindVideoUrl(pageUrl, Ok(page), Err) ==
      Run(None, [FetchingPage, FindingPlayer, ExtractingLink, NetworkError],
          [PageRequest(pageUrl), PlayerRequest(pageUrl, g)])
  {
    LocateIframeSpec(page, g);
  }

  /** Once an embed `g` is located and its fetch succeeds, the run is
      fixed: exactly `g` is requested after the page, with the page as
      referer; the three steps are shown in order, with "link
      unextractable" added last when neither video pattern matches the
      embed's text; and the result is what is located in that text. */
  lemma FetchedRun(pageUrl: string, page: string, g: string, embed: string)
    requires LocateIframe(page) == Some(g)
    ensures FindVideoUrl(pageUrl, Ok(page), Ok(embed)) ==
      Run(LocateVideo(embed),
          Steps + (if NoMatch(SourceVideo, embed) && NoMatch(GenericVideo, embed) then [LinkUnextractable] else []),
          [PageRequest(pageUrl), PlayerRequest(pageUrl, g)])
  {
    LocateVideoSpec(embed, []);
  }

  /** The run of `FetchedRun`, when `g` is the leftmost quoted-form group. */
  lemma PlayerFetched(pageUrl: string, page: string, i: nat, g: string, embed: string)
    requires IsLeftmostMatch(QuotedIframe, page, i, g)
    ensures FindVideoUrl(pageUrl, Ok(page), Ok(embed)) ==
      Run(LocateVideo(embed),
          Steps +
            (if NoMatch(SourceVideo, embed) && NoMatch(GenericVideo, embed) then [LinkUnextractable] else []),
          [PageRequest(pageUrl), PlayerRequest(pageUrl, g)])
  {
    LocateIframeSpec(page, g);
    FetchedRun(pageUrl, page, g, embed);
  }

  /** The run of `FetchedRun`, when the quoted form matches nowhere and `g`
      is the leftmost unquoted-form group. */
  lemma UnquotedPlayerFetched(pageUrl: string, page: string, i: nat, g: string, embed: string)
    requires NoMatch(QuotedIframe, page) && IsLeftmostMatch(UnquotedIframe, page, i, g)
    ensures FindVideoUrl(pageUrl, Ok(page), Ok(embed)) ==
      Run(LocateVideo(embed),
          Steps +
            (if NoMatch(SourceVideo, embed) && NoMatch(GenericVideo, embed) then [LinkUnextractable] else []),
          [PageRequest(pageUrl), PlayerRequest(pageUrl, g)])
  {
    LocateIframeSpec(page, g);
    FetchedRun(pageUrl, page, g, embed);
  }

  /** A video URL is returned exactly when both fetches succeed, an embed
      is located in the page, and a video is located in the EMBED's text;
      it is then the one located there. The page's text is only ever
      searched for the embed. */
  lemma VideoOnlyFromPlayer(pageUrl: string, page: FetchResult, player: FetchResult)
    ensures FindVideoUrl(pageUrl, page, player).video.Some? <==>
      page.Ok? && !(NoMatch(QuotedIframe, page.body) && NoMatch(UnquotedIframe, page.body)) &&
      player.Ok? && !(NoMatch(SourceVideo, player.body) && NoMatch(GenericVideo, player.body))
    ensures FindVideoUrl(pageUrl, page, player).video.Some? ==>
      FindVideoUrl(pageUrl, page, player).video == LocateVideo(player.body)
  {
    if page.Ok? {
      LocateIframeSpec(page.body, []);
    }
    if player.Ok? {
      LocateVideoSpec(player.body, []);
    }
  }

  /** Two pages in which the same embed is located lead to the same run:
      nothing else about the page's text matters. */
  lemma PageMattersOnlyThroughEmbed(pageUrl: string, t1: string, t2: string, player: FetchResult)
    requires LocateIframe(t1) == LocateIframe(t2)
    ensures FindVideoUrl(pageUrl, Ok(t1), player) == FindVideoUrl(pageUrl, Ok(t2), player)
  {
  }

  /** When the embed is never requested, its response cannot matter. */
  lemma UnrequestedPlayerIgnored(pageUrl: string, page: FetchResult, p1: FetchResult, p2: FetchResult)
    requires |FindVideoUrl(pageUrl, page, p1).requests| == 1
    ensures FindVideoUrl(pageUrl, page, p1) == FindVideoUrl(pageUrl, page, p2)
  {
  }

  /** The three progress steps, in the order the label shows them. */
  const Steps := [FetchingPage, FindingPlayer, ExtractingLink]

  /** Statuses appear in stage order, each at most once: a prefix of the
      three steps, followed on failure by one terminal status that is not a
      step. Step 1 is always shown; step 2 exactly after a
      fetched page; "player not found" exactly when no embed pattern
      matches; step 3 exactly once an embed is located; "link
      unextractable" exactly when both video patterns fail on a fetched
      embed; a network error exactly when a fetch fails. */
  lemma StatusTrace(pageUrl: string, page: FetchResult, player: FetchResult)
    ensures var r := FindVideoUrl(pageUrl, page, player);
      && (FindingPlayer in r.statuses <==> page.Ok?)
      && (PlayerNotFound in r.statuses <==>
            page.Ok? && NoMatch(QuotedIframe, page.body) && NoMatch(UnquotedIframe, page.body))
      && (ExtractingLink in r.statuses <==>
            page.Ok? && !(NoMatch(QuotedIframe, page.body) && NoMatch(UnquotedIframe, page.body)))
      && (LinkUnextractable in r.statuses <==>
            && page.Ok? && !(NoMatch(QuotedIframe, page.body) && NoMatch(UnquotedIframe, page.body))
            && player.Ok? && NoMatch(SourceVideo, player.body) && NoMatch(GenericVideo, player.body))
      && (NetworkError in r.statuses <==>
            page.Err? || (!(NoMatch(QuotedIframe, page.body) && NoMatch(UnquotedIframe, page.body)) && player.Err?))
      && (r.video.Some? <==> Last(r.statuses) == ExtractingLink)
      && (|| r.statuses == Steps
          || (r.statuses[..|r.statuses| - 1] <= Steps && Last(r.statuses) !in Steps))
  {
    if page.Ok? {
      LocateIframeSpec(page.body, []);
    }
    if player.Ok? {
      LocateVideoSpec(player.body, []);
    }
  }
}
