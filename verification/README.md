# find_video_url, modelled in Dafny

This project models `find_video_url` from `downloader.py` in the 91pinse downloader. Given a page URL, it:

1. fetches the page;
2. searches the page text for an embedded `fplayer.cc` player: first for the quoted form `src="https?://fplayer.cc/embed/..."`, and only when that occurs nowhere, for the unquoted form `src=https?://fplayer.cc/embed/...`;
3. fetches that one player page, sending the page URL as `Referer`;
4. searches the player text for a video link: first for `source: '...mp4'`, and only when that occurs nowhere, for a bare `http(s)://...mp4`;
5. sets a status label at each step and returns the link, or `None` on any failure.

The model is purely functional.

- **Regular expressions.** Each of the four patterns is a hand-written scanner over `seq<char>` that follows Python's `re` backtracking order (`Patterns.*At`). Each scanner is paired with a declarative description of a match, written from the pattern text alone (`Patterns.*Match`). The two are proved equal in both directions. `Search` adds `re.search`'s leftmost-start rule and proves it against "leftmost match" and "no match".
- **HTTP.** The two fetches are inputs of type `FetchResult`: `Ok(body)` or `Err`. `Err` covers every `requests` exception, including the HTTP errors raised by `raise_for_status`.
- **Observable behaviour.** The pipeline is one function. Its result records the returned link, the statuses in the order they were shown, and the requests in the order they were sent: URL, user agent `Mozilla/5.0`, optional referer, and the 15-second timeout.

`Properties` states what the function promises in terms of the declarative descriptions:

- which pattern wins;
- what the located URLs look like;
- which failure leads to which outcome and status trace;
- that only the player's text is ever searched for a video link.

`downloader.py` does not normalise, rank or de-duplicate URLs. It has no fallback extractor and does not handle `.m3u8` links. In particular:

- only the first located iframe is ever fetched, and a failed fetch of it is fatal;
- every pattern is case-sensitive.

`\s` is modelled as the full set of characters Python's `str.isspace()` accepts (`Text.IsSpace`), not as an abstract predicate.

## Model

| member | source | states |
|---|---|---|
| Text.RunEnd | downloader.py:40 | The end of a greedy character-class run (as `[^\s>]+` consumes it) is the unique position where every earlier character is in the class and the next one is not, or the text ends. |
| Patterns.LastMp4End | downloader.py:56 | Backtracking `[^'"\s]+\.mp4` out of a run picks the largest end that closes a `.mp4` and leaves at least one run character before it. Every other such end lies before it. |
| Patterns.QuotedIframeSound | downloader.py:37 | A quoted-iframe scanner hit at `i` is text reading `src="`, then an `https?://fplayer.cc/embed/` URL with at least one more character and no `"`, then `"`. |
| Patterns.QuotedIframeComplete | downloader.py:37 | Conversely, every such text at `i` makes the scanner return exactly that URL: `[^"]+` stops at the first closing quote. |
| Patterns.UnquotedIframeSound | downloader.py:40 | An unquoted-iframe hit at `i` is `src=` followed by an embed URL without whitespace or `>`, which cannot be extended: the next character is whitespace or `>`, or the text ends. |
| Patterns.UnquotedIframeComplete | downloader.py:40 | Conversely, every such maximal URL after `src=` is what the scanner returns. |
| Patterns.SourceVideoSound | downloader.py:52 | A `source:` hit at `i` is `source:`, then whitespace, then `'`, a URL `https?://` + at least one character + `.mp4` with no `'`, then `'`. |
| Patterns.SourceVideoComplete | downloader.py:52 | Conversely, every such text at `i` makes the scanner return exactly that URL. |
| Patterns.GenericVideoSound | downloader.py:56 | A bare-URL hit at `i` is an `https?://...mp4` URL with no quote or whitespace. No longer end inside the same run of such characters also closes a `.mp4`. |
| Patterns.GenericVideoComplete | downloader.py:56 | Conversely, every such longest URL at `i` is what the scanner returns. |
| Patterns.MatchAtSpec | downloader.py:37-56 | For each of the four patterns, the scanner returns `g` at `i` if and only if the text at `i` matches the pattern's description with group `g`. |
| Search.SearchFrom | downloader.py:37 | A search from position `i` returns a hit at the first position at or after `i` where the pattern matches. It returns nothing only when no such position exists. |
| Search.SearchFindsLeftmost | downloader.py:37 | A reported hit at `i` with group `g` is a match of the pattern's description, and no match of any group starts before `i`. |
| Search.SearchMissesNothing | downloader.py:37 | Whenever the pattern matches at `i`, the search succeeds, at `i` or further left. |
| Search.SearchSpec | downloader.py:37-56 | `re.search` yields start `i` and group `g` if and only if `g` matches at `i` and nothing matches earlier. It fails if and only if the pattern matches nowhere. |
| Search.FindSpec | downloader.py:46 | Group 1 of the search is `g` if and only if `g` is the group of the leftmost match. It is absent if and only if there is no match. |
| Search.FindShape | downloader.py:37-56 | Each pattern's group has its pattern's shape: embed prefix plus a tail free of `"` (quoted) or of whitespace and `>` (unquoted). For video: scheme, at least one character, `.mp4`, free of `'` (source form) or of quotes and whitespace (bare form). |
| Downloader.LocateIframe | downloader.py:37-46 | A located embed URL starts with `http://fplayer.cc/embed/` or `https://fplayer.cc/embed/` and has at least one more character. |
| Downloader.LocateVideo | downloader.py:52-58 | A located video URL starts with `http://` or `https://`, has at least one character before a final `.mp4`, and holds no `'`. |
| Downloader.FindVideoUrl | downloader.py:30-65 | Step 1 is always the first status, and at least two statuses are shown. The page request (no referer, 15 s timeout) is always sent first, and at most one more request is sent. Any returned link is a well-formed `.mp4` URL. |
| Properties.LocateIframeSpec | downloader.py:37-44 | The embed URL is `g` if and only if `g` is the leftmost quoted-form group, or the quoted form matches nowhere and `g` is the leftmost unquoted-form group. Nothing is located if and only if neither form matches. |
| Properties.LocateVideoSpec | downloader.py:52-58 | The video URL is `g` if and only if `g` is the leftmost `source: '...'` group, or that form matches nowhere and `g` is the leftmost bare-URL group. Nothing is located if and only if neither matches. |
| Properties.IframeUrlShape | downloader.py:37-40 | A located embed URL has the embed prefix plus at least one character. It holds no `"` when the quoted form matched somewhere, and no whitespace or `>` when only the unquoted form did. |
| Properties.VideoUrlShape | downloader.py:52-56 | A located video URL starts with `http://` or `https://`, ends with the case-sensitive `.mp4`, and holds no `'`. When only the bare form matched, it also holds no `"` and no whitespace. |
| Properties.GenericReachesLastMp4 | downloader.py:56 | The bare-form scanner's capture at `i` reaches every `.mp4` end inside the run of non-quote, non-whitespace characters that starts at `i`. It therefore captures through the last such `.mp4`. |
| Properties.PageFetchFails | downloader.py:63-65 | A failed page fetch returns nothing, with statuses step 1 then network error. Only the page request is sent, and no text is searched. |
| Properties.PlayerNotFoundOutcome | downloader.py:39-44 | When neither embed pattern matches, nothing is returned, the last status is "player not found", and the embed is never requested. |
| Properties.PlayerFetchFails | downloader.py:46-50 | When the quoted form locates `g`, only `g` is requested, with the page as referer. A failure of that fetch ends the run with a network error and no link. |
| Properties.UnquotedPlayerFetchFails | downloader.py:39-50 | The same holds when `g` is located by the unquoted form because the quoted form matches nowhere. |
| Properties.FetchedRun | downloader.py:46-61 | Once an embed `g` is located and the player fetch succeeds, the run is exact. Exactly `g` is requested, with the page as referer, after the page request. Steps 1, 2 and 3 are shown in that order, with "link unextractable" added last when neither video pattern matches. The result is the video located in the player's text. |
| Properties.PlayerFetched | downloader.py:37-61 | That exact run holds when `g` is the leftmost quoted-form group of the page. |
| Properties.UnquotedPlayerFetched | downloader.py:39-61 | That exact run holds when the quoted form matches nowhere and `g` is the leftmost unquoted-form group. |
| Properties.VideoOnlyFromPlayer | downloader.py:48-61 | A link is returned if and only if both fetches succeed, an embed pattern matches the page, and a video pattern matches the player's text. The link is then the one located in the player's text. |
| Properties.PageMattersOnlyThroughEmbed | downloader.py:36-50 | Two pages in which the same embed is located produce identical runs. The page's text is searched for nothing but the embed. |
| Properties.UnrequestedPlayerIgnored | downloader.py:42-49 | When only the page is requested, the player response has no effect on the run. |
| Properties.StatusTrace | downloader.py:32-61 | Each status is shown if and only if its stage is reached: step 2 after a fetched page; "player not found" when no embed pattern matches; step 3 once an embed is located; "link unextractable" when both video patterns fail; a network error when a fetch fails. A link is returned if and only if step 3 is the last status. Every run shows the steps in order, each at most once: either all three steps, or a prefix of them followed by one terminal status that is not a step. |

## Left out

- GUI setup, message boxes and enabling or disabling buttons (`downloader.py:70-80`, `downloader.py:120-145`): user interface.
- The background thread that runs the download (`downloader.py:80`): concurrency is not what this code is about.
- The network I/O of `requests.get`: each fetch is an `Ok(body)`/`Err` input. The model does not cover response text decoding or what the timeout does in wall-clock time. It records only the request URL, headers and timeout value.
- The `yt_dlp` download and the progress `hook` text (`downloader.py:82-118`): a foreign library and UI formatting.
- `get_download_path` and `open_download_folder` (`downloader.py:11-28`): operating-system and filesystem calls.
- The catch-all "unknown error" branch (`downloader.py:66-68`). Any exception other than a `requests` exception lands there. One example: the player request sends the page URL as its `Referer` header (`downloader.py:49`), and `http.client` encodes header values as Latin-1. A page URL with a non-Latin-1 character can still be fetched, but the player request then raises `UnicodeEncodeError`. Python shows that as "unknown error", not as a network error. The model has no such failure: header encoding is part of the HTTP layer, which is outside the model, and every failed fetch is `Err`.
- The exact Chinese status wording and the exception text in the network-error status: statuses are an enumeration labelled by stage.
- The empty-URL check in `start_download` (`downloader.py:72-74`): it lies outside `find_video_url`.
