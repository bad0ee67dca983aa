# StreamX sniffer: a verified model of URL capture and ranking

`sniffer.py` is a small HTTP backend. For `GET /sniff?platform=…&user=…` it
opens the performer page of `user` on `platform` in a headless browser and
watches everything the page reports: every request and response URL, the
bodies of JSON and JavaScript responses, the page's resource entries, and the
strings held in well-known state objects of the page. Each reported string is
offered to `capture`, which works as follows:

- it turns the escaped ampersand `\u0026` back into `&`;
- it keeps the string only if it looks like an HLS manifest;
- it skips URLs it has already seen;
- it scores each kept URL by a quality heuristic (master playlist first, then
  resolutions from 1080 down to 240).

At the end the list is sorted by score, highest first, and returned as JSON.
`GET /health` reports whether the browser library is installed.

The model covers the following parts:

- **Text** (`text.dfy`) holds substring search, ASCII lower-casing and the
  `\u0026` → `&` replacement, with the facts about the replacement that the
  capture relies on.
- **Scorer** (`scorer.dfy`) is `score_url`. It is checked against the same
  policy written as a priority table of rules.
- **Candidates** (`candidates.dfy`) is the `{url, score}` record of the
  result list.
- **Ranking** (`ranking.dfy`) is the final `found.sort(key=score,
  reverse=True)`. It is specified as a stable insertion sort and implemented
  by a loop. Stability is proved in two steps. First, the entries of every
  score keep their order. Second, any list that is sorted and keeps those
  orders is that one list.
- **Matcher** (`matcher.dfy`) is a hand-written left-to-right scanner for
  `M3U8_PATTERNS` as `re.finditer` runs it. It is proved sound: every match is
  a URL of the manifest shape. It is proved leftmost: no matching position is
  skipped. It is proved complete: a manifest URL between text that holds no
  `http`, and followed by a character that cannot extend it, comes out
  whole.
- **Capture** (`capture.dfy`) is the `capture` closure. It is a class
  `CaptureSession` with the two variables the closure updates, `seen` and
  `found`. `Captured` and `CapturedAll` are the functions that specify one
  call and a run of calls. `Finalize` is the sort.
- **Seeds** (`seeds.dfy`) is the `urls_to_try` table, including its fallback
  for unknown platforms.
- **Handler** (`handler.dfy`) holds the status and payload decisions of
  `do_GET`, written as a pure function of the following:
  - the path;
  - the decoded query pairs;
  - whether the browser library is installed;
  - how the capture ended.
- **Sniffer** (`sniffer.dfy`) is `sniff_platform` with the browser abstracted.
  The model uses the following pieces:
  - `browse` maps a page URL to a `Visit`.
  - A `Visit` holds the page's traffic in order, then its resource entries,
    then its page strings. Each of the last two is `None` when that step
    raised.
  - The callbacks `on_request` and `on_response` are methods over the
    session.
  - `Serve` connects `do_GET` to a real sniff.

The code decides the following details:

- The content type of a response is compared as a whole string
  (sniffer.py:80). A JSON body announced with a `charset` parameter is
  therefore not scanned.
- The query part of a manifest URL is every character except whitespace,
  `"`, `'`, `<` and `>` (sniffer.py:22). Whitespace is Python's `str.isspace`
  set.
- `parse_qs` drops blank values. A `user=` with nothing after it is therefore
  a missing user.

## Model

| member | source | states |
|---|---|---|
| Scorer.ScoreUrl | sniffer.py:25-33 | every score is one of 50, 60, 65, 70, 75, 80, 90, 100; the score is 100 exactly when the URL contains `master`; it is the default 65 exactly when none of the eight markers occurs |
| Scorer.ScoreUrlFollowsRules | sniffer.py:25-33 | on every URL the if chain gives the score of the first rule of the priority table (master, 1080, 720, 480, 360, 240, index/playlist) that fires, or 65 |
| Scorer.MasterOutranksResolutions | sniffer.py:26-27 | a URL naming `master` scores strictly higher than any URL that does not, whatever resolution either names |
| Text.Unescape | sniffer.py:63-64 | the replacement never lengthens a URL and yields the empty string only for the empty string |
| Text.UnescapeLeavesNoEscape | sniffer.py:64 | no `\u0026` is left after the replacement, since the pass cannot create one |
| Text.UnescapeFixedPoint | sniffer.py:64 | the replacement changes a string exactly when the string contains `\u0026` |
| Text.UnescapeIdempotent | sniffer.py:64 | replacing twice equals replacing once |
| Text.UnescapeAppend | sniffer.py:64 | the replacement works piecewise when the second piece cannot complete an escape begun in the first |
| Text.EscapedAndLiteralAgree | sniffer.py:64 | a URL with its ampersand escaped and the same URL with a literal ampersand become the same string |
| Text.Lower | sniffer.py:66 | lower-casing keeps the length, leaves no capital letter, changes exactly the capitals, and turns each character into one of its own case |
| Text.LowerMatchesAt | sniffer.py:66 | a lower-case word occurs at a position of the lower-cased URL exactly when it occurs there in the URL in some mix of letter cases |
| Text.LowerContains | sniffer.py:66 | a lower-case word occurs in the lower-cased URL exactly when the URL holds it in some mix of letter cases |
| Capture.IsM3u8 | sniffer.py:65-67 | a URL passes the manifest condition exactly when it contains `.m3u8`, or holds both `playlist` and `hls` in any mix of letter cases, or contains `/hls/live/` |
| Capture.CapturedUrls | sniffer.py:62-70 | one capture adds exactly the unescaped URL when it is non-empty, passes the manifest condition and is unseen; otherwise, and always for the empty string, nothing changes |
| Capture.CapturedWellFormed | sniffer.py:64-70 | one capture keeps the list free of repeated URLs, and keeps every entry non-empty, unescaped, accepted and scored by `score_url` |
| Capture.CapturedSameUrl | sniffer.py:64-68 | a string whose unescaped form was already captured changes nothing |
| Capture.EscapedThenLiteral | sniffer.py:64-70 | the escaped and the literal spelling of one URL, offered in either order, collapse to one entry |
| Capture.CapturedAllWellFormed | sniffer.py:62-70 | any run of captures keeps the list well formed |
| Capture.CapturedAllAppend | sniffer.py:62-71 | capturing two runs in turn equals capturing their concatenation |
| Capture.CapturedAllExtends | sniffer.py:68-70 | capture only appends: the earlier list is a prefix of the later one and no URL is lost |
| Capture.CapturedAllSettles | sniffer.py:68 | after a run, none of its strings would be accepted again |
| Capture.CapturedAllSettled | sniffer.py:63-68 | a run of strings none of which is accepted leaves the list unchanged |
| Capture.CapturedAllTwice | sniffer.py:62-70 | offering the same run twice equals offering it once |
| Capture.CapturedAllUrls | sniffer.py:62-70 | after a run, the list holds exactly its earlier URLs plus the unescaped form of every non-empty offered string that passes the manifest condition |
| Capture.CaptureSession.constructor | sniffer.py:36-37 | the session starts with an empty `seen` set and an empty `found` list, and its invariant holds |
| Capture.CaptureSession.Observe | sniffer.py:62-71 | `capture(url)` updates `found` as `Captured` specifies and keeps the invariant: `seen` is exactly the URLs of `found`, with none repeated and all stored correctly |
| Capture.CaptureSession.ObserveAll | sniffer.py:105 | capturing each string of a list in order gives `CapturedAll` of the list and keeps the invariant |
| Capture.CaptureSession.Finalize | sniffer.py:137 | the final sort leaves `found` equal to the stable descending sort of the old list: non-increasing scores, the same multiset of entries, `seen` untouched, invariant kept |
| Ranking.SortByScoreCorrect | sniffer.py:137 | the sorted list has non-increasing scores, is a permutation of its input, and keeps the entries of each score in input order |
| Ranking.StableSortIsUnique | sniffer.py:137 | two lists sorted by score that agree on the entries of each score, in order, are equal |
| Ranking.IsStableSortOf | sniffer.py:137 | any sorted list that keeps each score's entries in input order is exactly `SortByScore` of the input, the only result a stable sort can give |
| Ranking.SortByScoreKeepsEntries | sniffer.py:137 | sorting keeps the same entries and the same URLs, and a list without repeated URLs stays without them |
| Ranking.SortExample | sniffer.py:137 | entries found in the order A (65), B (100), C (65) finalise as B, A, C |
| Ranking.SortStable | sniffer.py:137 | the loop computes `SortByScore`: sorted, a permutation, with each score's entries in input order |
| Seeds.PageUrls | sniffer.py:39-45 | one page per sniff: the table's entry for a known platform, and the default platform's entry for any other |
| Seeds.KnownPlatforms | sniffer.py:39-43 | exactly stripchat, chaturbate and jerkmate have an entry |
| Seeds.UnknownPlatformFallsBack | sniffer.py:45 | an unknown platform opens `https://stripchat.com/<user>`, the same page as stripchat |
| Seeds.PageUrlsInjective | sniffer.py:40-42 | on one platform, different users get different pages |
| Seeds.PlatformsOpenDifferentPages | sniffer.py:40-42 | the three platforms open three different pages for the same user |
| Matcher.PathSplitGood | sniffer.py:20-21 | within a run of path characters, the split the scanner picks is a valid one: the directory part is empty or ends in `/`, and the name is host characters ending in `.m3u8` after at least one character |
| Matcher.ScanMatches | sniffer.py:83 | every span the scan reports is a successful match attempt, and the spans come in order without overlapping |
| Matcher.ScanCovers | sniffer.py:83 | the scan is leftmost: every position where an attempt succeeds lies inside a reported span |
| Matcher.MatchAtIsManifest | sniffer.py:18-23 | a match is a manifest URL: its parts fit the classes of the pattern and reassemble to exactly the matched text |
| Matcher.MatchAt | sniffer.py:18-23 | the pattern tried at one position: a successful attempt ends after its start and within the text. What it matches is stated by `MatchAtIsManifest` and `MatchAtRendered` |
| Matcher.FindAll | sniffer.py:83-84 | `[m.group(0) for m in finditer(body)]`: one string per span of the leftmost, non-overlapping scan, in order, each the text of its span |
| Matcher.FindAllSound | sniffer.py:18-23 | every string `finditer` yields renders a valid manifest URL |
| Matcher.FindAllMissesNothing | sniffer.py:83 | no position where the pattern matches is skipped: it lies inside one of the reported matches |
| Matcher.MatchAtRendered | sniffer.py:18-23 | a manifest URL followed by a character that cannot extend it matches from its first character to exactly its last |
| Matcher.FindAllEmbedded | sniffer.py:18-23 | a manifest URL between text free of `http`, followed by a character that cannot extend it (or by nothing), is the one match found, exactly |
| Matcher.FindAllRoundTrip | sniffer.py:18-23 | scanning a manifest URL on its own gives back exactly that URL |
| Matcher.FindAllInJson | sniffer.py:83-84 | a manifest URL held as a JSON string value comes out whole, with its query and without the closing quote |
| Handler.FirstValue | sniffer.py:167-168 | the value found is the earliest non-blank value given for the name, since every value given for it before that one is blank; there is none exactly when every value given for the name is blank |
| Handler.HandleGet | sniffer.py:154-191 | `/health` gives 200 and the library flag; `/sniff` without a user gives 400 with exactly `{"error":"no user"}`; `/sniff` with a user gives 200 with the user, the requested platform (stripchat when none is given), `count` equal to the number of URLs, and no URLs when the capture raised; any other path gives 404 with no body |
| Handler.RaisedCaptureAnswersEmpty | sniffer.py:176-186 | a capture that raised still answers 200 with no URLs and a count of 0 |
| Handler.BlankUserIsNoUser | sniffer.py:167-173 | `user=` with a blank value is answered 400 `{"error":"no user"}` |
| Handler.OutcomeOnlyReachesSniff | sniffer.py:158-191 | every request other than a sniff that names a user gets the same answer whatever the capture did |
| Handler.PlatformDefaults | sniffer.py:167 | a sniff without a `platform` value is for stripchat |
| Sniffer.SniffedRanked | sniffer.py:35-138 | the result of a sniff is sorted by score and holds no URL twice. Every entry is unescaped, accepted and scored, and the URLs are exactly the accepted ones among all the strings the browser reported |
| Sniffer.ManifestAccepted | sniffer.py:65-67 | every URL the scanner can report passes the capture's manifest condition once unescaped |
| Sniffer.ScannedBodyKept | sniffer.py:80-84 | every manifest URL found in a scanned response body ends up, unescaped, in the result list |
| Sniffer.BodyUrls | sniffer.py:80-84 | a response yields scanned URLs only when it is a success, its content type is one of the three scanned types compared whole, and its body could be read; every URL it yields is a valid manifest URL |
| Sniffer.JsonResponseKept | sniffer.py:76-84 | a successful `application/json` response holding a manifest URL as a string value gets that URL into the result list |
| Sniffer.CharsetJsonNotScanned | sniffer.py:80 | a body announced as `application/json; charset=utf-8` yields no scanned URLs, since the type is compared whole |
| Sniffer.OnRequest | sniffer.py:73-74 | `on_request` captures the request URL and keeps the session invariant |
| Sniffer.OnResponse | sniffer.py:76-86 | `on_response` captures the response URL. Then, for a successful JSON or JavaScript response with a readable body, it captures every match in the body, in order |
| Sniffer.OnEvent | sniffer.py:88-89 | each event goes to the callback of its kind, with that callback's effect |
| Sniffer.ObserveTraffic | sniffer.py:73-89 | the page's traffic, event by event, captures `EventsUrls` of the events in order |
| Sniffer.VisitPage | sniffer.py:91-130 | one page captures its traffic, then its resource entries, then its page strings; a step that raised contributes nothing |
| Sniffer.SniffPlatform | sniffer.py:35-138 | `sniff_platform` returns `Sniffed`: ranked, free of repeated URLs, with exactly the accepted URLs of every page visited |
| Sniffer.SniffOutcome | sniffer.py:176-180 | the capture raises exactly when the browser library is missing, since the engine name left unbound by sniffer.py:12-16 fails at line 47, or when the browser cannot be started; otherwise it completes with a ranked, well-formed list |
| Sniffer.Serve | sniffer.py:154-191 | `do_GET` answers as `HandleGet` decides, runs the capture only for a sniff that names a user, and returns URLs that are ranked and well formed; without the browser library a sniff naming a user answers 200 with no URLs and a count of 0 |

## Left out

- Browser launch, context and page setup, navigation with its timeout, the
  ten-second wait and `browser.close` (sniffer.py:47-60, 88-96, 135). These
  are an external engine. What a page yields is the `Visit` given by
  `browse`.
- The JavaScript run in the page (sniffer.py:100-104, 110-128). The resource
  names and page strings it returns are arbitrary lists in `Visit`. Its own
  filters and its depth-4 walk over the state objects are not modelled.
- Timing and concurrency of the callbacks. The model takes a page's traffic
  before its two evaluations and lets no event of one page arrive during
  another. In the browser, events can interleave with the evaluations.
  `on_response` also awaits `resp.text()` (sniffer.py:82), so other
  callbacks' captures can land between a response's URL and the matches in
  its body. The model treats each response as one unit (`EventUrls`). Only
  the discovery order can differ, and with it the order of entries of equal
  score; the set of URLs captured is the same.
- Sniffer.SniffOutcome: the capture raises when the browser library is
  missing or the browser cannot be started. An exception from
  `browser.close` after the pages were captured is not modelled. There the
  source answers with no URLs and the model answers with the captured list.
- HTTP framing: the status line, headers, CORS, `do_OPTIONS`, `json.dumps`
  serialisation, `wfile` writes, `log_message` and the server loop
  (sniffer.py:141-153, 194-200).
- The `PLAYWRIGHT_OK` import probe (sniffer.py:12-16). It is the
  `playwrightOk` parameter, and when it is false the capture raises.
- All `print` logging.
- `urlparse` and the parsing inside `parse_qs`: splitting on `&` and `=`,
  percent-decoding and `+`. The query is given as decoded `(name, value)`
  pairs in order.
- Text.Lower: models `str.lower` on ASCII letters only. Unicode case
  mappings are not modelled.
- The literal alternatives `playlist.m3u8`, `index.m3u8` and `master.m3u8` of
  `M3U8_PATTERNS` (sniffer.py:21). Every string they match is also matched by
  the first alternative, at the same place and the same length, so they are
  left out.
- The `timeout` parameter of `sniff_platform` (sniffer.py:35) is only used for
  navigation, which is not modelled.
