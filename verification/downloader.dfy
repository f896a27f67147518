/** `find_video_url`: fetch the page, locate the fplayer.cc embed in it,
    fetch that embed with the page as referer, and locate an `.mp4` link in
    the embed's text, reporting a status at each step.

    The two HTTP responses are inputs: `Err` stands for every
    `requests.exceptions.RequestException`, which covers both transport
    failures and the non-2xx statuses that `raise_for_status` turns into
    exceptions. */
module Downloader {
  import opened Wrappers
  import opened Text
  import opened Patterns
  import opened Search

  datatype FetchResult = Ok(body: string) | Err

  const UserAgent := "Mozilla/5.0"
  const TimeoutSeconds := 15

  /** One `requests.get`: the URL and the headers sent with it. */
  datatype Request = Request(url: string, userAgent: string, referer: Option<string>, timeout: nat)

  /** The texts written to the status label, by stage. */
  datatype Status =
    | FetchingPage       // step 1/3: fetching the main page
    | FindingPlayer      // step 2/3: looking for the player
    | PlayerNotFound     // error: no video player found
    | ExtractingLink     // step 3/3: extracting the video link
    | LinkUnextractable  // error: player found but no link extracted
    | NetworkError       // network error (the exception text is not modelled)

  /** What one call observably does: its return value, the statuses in the
      order they were shown, and the requests in the order they were sent. */
  datatype Run = Run(video: Option<string>, statuses: seq<Status>, requests: seq<Request>)

  function PageRequest(pageUrl: string): Request {
    Request(pageUrl, UserAgent, None, TimeoutSeconds)
  }

  function PlayerRequest(pageUrl: string, iframeUrl: string): Request {
    Request(iframeUrl, UserAgent, Some(pageUrl), TimeoutSeconds)
  }

  /** The embed URL: the quoted `src="..."` form if it occurs anywhere,
      otherwise the unquoted `src=...` form. */
  function LocateIframe(page: string): (r: Option<string>)
    ensures r.Some? ==> IsIframeUrl(r.value)
  {
    match Find(QuotedIframe, page)
    case Some(u) => FindShape(QuotedIframe, page, u); Some(u)
    case None =>
      match Find(UnquotedIframe, page)
      case Some(u) => FindShape(UnquotedIframe, page, u); Some(u)
      case None => None
  }

  /** The video URL: the `source: '...mp4'` form if it occurs anywhere,
      otherwise the first bare `http(s)://...mp4`. */
  function LocateVideo(player: string): (r: Option<string>)
    ensures r.Some? ==> IsVideoUrl(r.value) && '\'' !in r.value
  {
    match Find(SourceVideo, player)
    case Some(u) => FindShape(SourceVideo, player, u); Some(u)
    case None =>
      match Find(GenericVideo, player)
      case Some(u) => FindShape(GenericVideo, player, u); Some(u)
      case None => None
  }

  function FindVideoUrl(pageUrl: string, page: FetchResult, player: FetchResult): (r: Run)
    ensures |r.statuses| >= 2 && r.statuses[0] == FetchingPage
    ensures 1 <= |r.requests| <= 2 && r.requests[0] == PageRequest(pageUrl)
    ensures r.video.Some? ==> IsVideoUrl(r.video.value) && '\'' !in r.video.value
  {
    match page
    case Err =>
      Run(None, [FetchingPage, NetworkError], [PageRequest(pageUrl)])
    case Ok(text) =>
      match LocateIframe(text)
      case None =>
        Run(None, [FetchingPage, FindingPlayer, PlayerNotFound], [PageRequest(pageUrl)])
      case Some(iframeUrl) =>
        var sent := [PageRequest(pageUrl), PlayerRequest(pageUrl, iframeUrl)];
        match player
        case Err =>
          Run(None, [FetchingPage, FindingPlayer, ExtractingLink, NetworkError], sent)
        case Ok(embed) =>
          match LocateVideo(embed)
          case Some(v) => Run(Some(v), [FetchingPage, FindingPlayer, ExtractingLink], sent)
          case None => Run(None, [FetchingPage, FindingPlayer, ExtractingLink, LinkUnextractable], sent)
  }
}
