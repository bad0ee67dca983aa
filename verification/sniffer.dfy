/** One sniff of a performer page, with the browser abstracted to what it
    reports: the requests and responses the page makes, the resource
    entries the page lists and the strings found in its state objects.
    Every such string is offered to the capture session; the bodies of
    JSON and JavaScript responses are scanned for manifest URLs first. */
module Sniffer {
  import opened Wrappers
  import opened Text
  import opened Candidates
  import opened Ranking
  import opened Matcher
  import opened Capture
  import opened Seeds
  import Handler

  /** The content types whose bodies are scanned, compared as whole strings. */
  const ScannedTypes: seq<string> := ["application/json", "text/javascript", "application/javascript"]

  /** A response as the page sees it: its URL, whether the status is a
      success, its content type (empty when the header is missing) and its
      text, or `None` when reading the body fails. */
  datatype NetResponse = NetResponse(url: string, ok: bool, contentType: string, body: Option<string>)

  /** What the page does while it loads, in the order it happens. */
  datatype Event = Request(url: string) | Reply(response: NetResponse)

  /** What opening one page yields: its traffic, then the names of its
      resource entries and then the strings taken from its state objects;
      each of the last two is `None` when the navigation or the evaluation
      in the page raised. */
  datatype Visit = Visit(events: seq<Event>, resources: Option<seq<string>>, pageStrings: Option<seq<string>>)

  /** The manifest URLs found in a response body, when the body is scanned. */
  function BodyUrls(r: NetResponse): (urls: seq<string>)
    ensures urls != [] ==> r.ok && r.contentType in ScannedTypes && r.body.Some?
    ensures forall m :: m in urls ==> exists u :: ValidManifest(u) && Render(u) == m
  {
    if r.ok && r.contentType in ScannedTypes && r.body.Some? then
      FindAllSound(r.body.value);
      FindAll(r.body.value)
    else []
  }

  /** The strings one event offers to the capture, in order. */
  function EventUrls(e: Event): seq<string>
  {
    match e
    case Request(url) => [url]
    case Reply(r) => [r.url] + BodyUrls(r)
  }

  function EventsUrls(events: seq<Event>): seq<string>
  {
    if events == [] then []
    else EventsUrls(events[..|events| - 1]) + EventUrls(events[|events| - 1])
  }

  function Values(o: Option<seq<string>>): seq<string>
  {
    match o
    case None => []
    case Some(v) => v
  }

  /** The strings one page visit offers to the capture, in order. */
  function VisitUrls(v: Visit): seq<string>
  {
    EventsUrls(v.events) + Values(v.resources) + Values(v.pageStrings)
  }

  /** The strings a sniff over `pages` offers, page after page. */
  function PagesUrls(pages: seq<string>, browse: string -> Visit): seq<string>
  {
    if pages == [] then []
    else PagesUrls(pages[..|pages| - 1], browse) + VisitUrls(browse(pages[|pages| - 1]))
  }

  /** The result list of a sniff: everything offered, captured in order,
      then ranked. */
  function Sniffed(platform: string, user: string, browse: string -> Visit): seq<Candidate>
  {
    SortByScore(CapturedAll([], PagesUrls(PageUrls(platform, user), browse)))
  }

  /** The result of a sniff is ranked, holds no URL twice, holds only
      unescaped, accepted and scored entries, and holds exactly the
      accepted URLs of everything the browser reported. */
  lemma SniffedRanked(platform: string, user: string, browse: string -> Visit)
    ensures SortedByScore(Sniffed(platform, user, browse))
    ensures WellFormed(Sniffed(platform, user, browse))
    ensures Urls(Sniffed(platform, user, browse)) == AcceptedUrls(PagesUrls(PageUrls(platform, user), browse))
  {
    var raws := PagesUrls(PageUrls(platform, user), browse);
    var found := CapturedAll([], raws);
    CapturedAllWellFormed([], raws);
    CapturedAllUrls([], raws);
    SortByScoreCorrect(found);
    SortByScoreKeepsEntries(found);
    assert forall c :: c in SortByScore(found) ==> c in found;
    assert forall i :: 0 <= i < |SortByScore(found)| ==> SortByScore(found)[i] in found;
  }

  predicate NoBackslash(s: string)
  {
    forall k :: 0 <= k < |s| ==> s[k] != '\\'
  }

  lemma ClassNoBackslash(s: string, cl: CharClass)
    requires AllIn(s, cl) && cl != Query
    ensures NoBackslash(s)
  {
    forall k | 0 <= k < |s| ensures s[k] != '\\' {
      assert InClass(s[k], cl);
    }
  }

  lemma NoBackslashAppend(a: string, b: string)
    requires NoBackslash(a) && NoBackslash(b)
    ensures NoBackslash(a + b)
  {
  }

  /** The part of a rendered manifest URL before its query: free of
      backslashes and ending in the suffix. */
  lemma ManifestFront(u: ManifestUrl) returns (front: string)
    requires ValidManifest(u)
    ensures Render(u) == front + QueryText(u.query)
    ensures NoBackslash(front) && |Suffix| <= |front| && front[|front| - |Suffix|..] == Suffix
  {
    ClassNoBackslash(u.host, Host);
    ClassNoBackslash(u.name, Host);
    if u.dir != [] {
      ClassNoBackslash(u.dir, Path);
    }
    var f := SchemeText(u.secure);
    NoBackslashAppend(f, u.host);
    f := f + u.host;
    NoBackslashAppend(f, "/");
    f := f + "/";
    NoBackslashAppend(f, u.dir);
    f := f + u.dir;
    NoBackslashAppend(f, u.name);
    f := f + u.name;
    NoBackslashAppend(f, Suffix);
    front := f + Suffix;
  }

  /** Every manifest URL the scanner can report passes the capture's
      manifest condition once unescaped: its name ends in `.m3u8`, and nothing
      before the query can hold an escape. */
  lemma ManifestAccepted(u: ManifestUrl)
    requires ValidManifest(u)
    ensures Render(u) != [] && IsM3u8(Unescape(Render(u)))
  {
    var front := ManifestFront(u);
    var qt := QueryText(u.query);
    UnescapeWithoutBackslash(front);
    UnescapeAppend(front, qt);
    ContainsAt(front, Suffix, |front| - |Suffix|);
    ContainsInPrefix(front, Unescape(qt), Suffix);
  }

  /** Every manifest URL found in a scanned body ends up in the result list
      of the capture, unescaped. */
  lemma ScannedBodyKept(found: seq<Candidate>, r: NetResponse, k: nat)
    requires r.ok && r.contentType in ScannedTypes && r.body.Some?
    requires k < |FindAll(r.body.value)|
    ensures Unescape(FindAll(r.body.value)[k]) in Urls(CapturedAll(found, EventUrls(Reply(r))))
  {
    var m := FindAll(r.body.value)[k];
    FindAllSound(r.body.value);
    assert m in FindAll(r.body.value);
    var u :| ValidManifest(u) && Render(u) == m;
    ManifestAccepted(u);
    CapturedAllUrls(found, EventUrls(Reply(r)));
    assert m in EventUrls(Reply(r));
  }

  /** A JSON response that names a manifest URL as a string value gets that
      URL into the result list. */
  lemma JsonResponseKept(found: seq<Candidate>, url: string, u: ManifestUrl)
    requires ValidManifest(u)
    ensures Unescape(Render(u)) in
      Urls(CapturedAll(found, EventUrls(Reply(NetResponse(url, true, "application/json", Some(JsonOpen + Render(u) + JsonClose))))))
  {
    var r := NetResponse(url, true, "application/json", Some(JsonOpen + Render(u) + JsonClose));
    FindAllInJson(u);
    assert r.contentType in ScannedTypes;
    ScannedBodyKept(found, r, 0);
  }

  /** The content type is compared whole: a JSON body announced with a
      charset parameter is not scanned. */
  lemma CharsetJsonNotScanned(url: string, body: string)
    ensures BodyUrls(NetResponse(url, true, "application/json; charset=utf-8", Some(body))) == []
  {
    var t := "application/json; charset=utf-8";
    assert t != ScannedTypes[0] && t != ScannedTypes[1] && t != ScannedTypes[2] by {
      assert |t| != |ScannedTypes[0]| && |t| != |ScannedTypes[1]| && |t| != |ScannedTypes[2]|;
    }
  }

  /** `on_request`: the request URL is offered. */
  method OnRequest(session: CaptureSession, url: string)
    requires session.Valid()
    modifies session
    ensures session.Valid()
    ensures session.found == CapturedAll(old(session.found), EventUrls(Request(url)))
  {
    assert [url][..0] == [];
    session.Observe(url);
  }

  /** `on_response`: the response URL is offered, then, for a successful
      JSON or JavaScript response whose text can be read, every manifest URL
      the scanner finds in it. */
  method OnResponse(session: CaptureSession, r: NetResponse)
    requires session.Valid()
    modifies session
    ensures session.Valid()
    ensures session.found == CapturedAll(old(session.found), EventUrls(Reply(r)))
  {
    assert [r.url][..0] == [];
    session.Observe(r.url);
    var scanned: seq<string> := [];
    if r.ok && r.contentType in ScannedTypes {
      match r.body {
        case Some(text) =>
          scanned := FindAll(text);
          session.ObserveAll(scanned);
        case None =>
      }
    }
    assert scanned == BodyUrls(r);
    CapturedAllAppend(old(session.found), [r.url], scanned);
  }

  /** One event, handed to the callback of its kind. */
  method OnEvent(session: CaptureSession, e: Event)
    requires session.Valid()
    modifies session
    ensures session.Valid()
    ensures session.found == CapturedAll(old(session.found), EventUrls(e))
  {
    match e {
      case Request(url) => OnRequest(session, url);
      case Reply(r) => OnResponse(session, r);
    }
  }

  lemma EventsUrlsStep(events: seq<Event>, i: nat)
    requires i < |events|
    ensures EventsUrls(events[..i + 1]) == EventsUrls(events[..i]) + EventUrls(events[i])
  {
    assert events[..i + 1][..i] == events[..i];
  }

  /** The traffic of a page, event by event, as the two callbacks see it. */
  method ObserveTraffic(session: CaptureSession, events: seq<Event>)
    requires session.Valid()
    modifies session
    ensures session.Valid()
    ensures session.found == CapturedAll(old(session.found), EventsUrls(events))
  {
    var start := session.found;
    var i := 0;
    while i < |events|
      invariant 0 <= i <= |events| && session.Valid()
      invariant session.found == CapturedAll(start, EventsUrls(events[..i]))
    {
      EventsUrlsStep(events, i);
      CapturedAllAppend(start, EventsUrls(events[..i]), EventUrls(events[i]));
      OnEvent(session, events[i]);
      i := i + 1;
    }
    assert events[..i] == events;
  }

  /** Opening one page: its traffic as it happens, then its resource
      entries, then the strings of its state objects. */
  method VisitPage(session: CaptureSession, v: Visit)
    requires session.Valid()
    modifies session
    ensures session.Valid()
    ensures session.found == CapturedAll(old(session.found), VisitUrls(v))
  {
    var start := session.found;
    var traffic := EventsUrls(v.events);
    ObserveTraffic(session, v.events);
    CapturedAllAppend(start, traffic, Values(v.resources));
    if v.resources.Some? {
      session.ObserveAll(v.resources.value);
    }
    CapturedAllAppend(start, traffic + Values(v.resources), Values(v.pageStrings));
    if v.pageStrings.Some? {
      session.ObserveAll(v.pageStrings.value);
    }
  }

  /** `sniff_platform`: open every page of the platform, capture what they
      report, then rank the result list. */
  method SniffPlatform(platform: string, user: string, browse: string -> Visit) returns (result: seq<Candidate>)
    ensures result == Sniffed(platform, user, browse)
    ensures SortedByScore(result) && WellFormed(result)
    ensures Urls(result) == AcceptedUrls(PagesUrls(PageUrls(platform, user), browse))
  {
    var pages := PageUrls(platform, user);
    var session := new CaptureSession();
    var i := 0;
    while i < |pages|
      invariant 0 <= i <= |pages| && session.Valid()
      invariant session.found == CapturedAll([], PagesUrls(pages[..i], browse))
    {
      assert pages[..i + 1][..i] == pages[..i];
      CapturedAllAppend([], PagesUrls(pages[..i], browse), VisitUrls(browse(pages[i])));
      VisitPage(session, browse(pages[i]));
      i := i + 1;
    }
    assert pages[..i] == pages;
    session.Finalize();
    result := session.found;
    SniffedRanked(platform, user, browse);
  }

  /** How the capture of a sniff request ends. Without the browser library
      the name of the engine is unbound, so the capture raises at once; it
      also raises when the browser cannot be started; otherwise it yields
      the ranked list. */
  function SniffOutcome(params: Handler.Params, playwrightOk: bool, browser: Option<string -> Visit>): (o: Handler.Outcome)
    ensures o.Raised? <==> !playwrightOk || browser.None?
    ensures o.Completed? ==> SortedByScore(o.urls) && WellFormed(o.urls)
  {
    if !playwrightOk then Handler.Raised
    else
      match browser
      case None => Handler.Raised
      case Some(browse) =>
        var platform, user := Handler.Param(params, "platform", "stripchat"), Handler.Param(params, "user", "");
        SniffedRanked(platform, user, browse);
        Handler.Completed(Sniffed(platform, user, browse))
  }

  /** `do_GET`: only a sniff that names a user runs the capture, and without
      the browser library such a sniff degrades to an empty answer. */
  method Serve(path: string, params: Handler.Params, playwrightOk: bool, browser: Option<string -> Visit>)
    returns (r: Handler.Response)
    ensures r == Handler.HandleGet(path, params, playwrightOk, SniffOutcome(params, playwrightOk, browser))
    ensures r.payload.SniffPayload? ==> SortedByScore(r.payload.urls) && WellFormed(r.payload.urls)
    ensures path == "/sniff" && Handler.FirstValue(params, "user").Some? && !playwrightOk ==>
      r.status == 200 && r.payload.urls == [] && r.payload.count == 0
  {
    var platform := Handler.Param(params, "platform", "stripchat");
    var user := Handler.Param(params, "user", "");
    if path == "/sniff" && user != [] {
      var outcome := Handler.Raised;
      if playwrightOk && browser.Some? {
        var urls := SniffPlatform(platform, user, browser.value);
        outcome := Handler.Completed(urls);
      }
      r := Handler.HandleGet(path, params, playwrightOk, outcome);
    } else {
      Handler.OutcomeOnlyReachesSniff(path, params, playwrightOk, Handler.Raised, SniffOutcome(params, playwrightOk, browser));
      r := Handler.HandleGet(path, params, playwrightOk, Handler.Raised);
    }
  }
}
