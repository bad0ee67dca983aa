/** The decisions of the HTTP handler's GET route: which status and which
    payload a request gets, given the decoded path and query, whether the
    browser library is installed, and how the capture ended. */
module Handler {
  import opened Wrappers
  import opened Candidates

  /** How a capture ended: with its ranked result list, or with an
      exception that escaped it. */
  datatype Outcome = Completed(urls: seq<Candidate>) | Raised

  /** The payloads the route writes; `NoBody` is a response with headers
      only. */
  datatype Payload =
    | HealthPayload(ok: bool, playwright: bool)
    | ErrorPayload(text: string)
    | SniffPayload(platform: string, user: string, urls: seq<Candidate>, count: int)
    | NoBody

  datatype Response = Response(status: int, payload: Payload)

  /** The exact bytes of the answer to a sniff without a user. */
  const NoUserText: string := "{\"error\":\"no user\"}"

  /** The query's decoded `name=value` pairs, in order. */
  type Params = seq<(string, string)>

  /** The first value of `name`, as `parse_qs(query)[name][0]` sees it:
      blank values are dropped, so the first non-blank one, if any. */
  function FirstValue(params: Params, name: string): (r: Option<string>)
    ensures r.Some? ==> r.value != [] && (name, r.value) in params
    ensures r.None? <==> forall k :: 0 <= k < |params| && params[k].0 == name ==> params[k].1 == []
    ensures r.Some? ==> exists k :: 0 <= k < |params| && params[k] == (name, r.value) && BlankBefore(params, name, k)
  {
    if params == [] then None
    else if params[0].0 == name && params[0].1 != [] then
      assert params[0] == (name, params[0].1) && BlankBefore(params, name, 0);
      Some(params[0].1)
    else
      var r := FirstValue(params[1..], name);
      if r.Some? then
        var k :| 0 <= k < |params[1..]| && params[1..][k] == (name, r.value) && BlankBefore(params[1..], name, k);
        assert params[k + 1] == (name, r.value) && BlankBefore(params, name, k + 1);
        r
      else r
  }

  /** Every value given for `name` before position `k` is blank. */
  predicate BlankBefore(params: Params, name: string, k: nat)
    requires k <= |params|
  {
    forall j :: 0 <= j < k && params[j].0 == name ==> params[j].1 == []
  }

  /** `qs.get(name, [default])[0]`. */
  function Param(params: Params, name: string, default: string): string
  {
    match FirstValue(params, name)
    case Some(v) => v
    case None => default
  }

  /** The GET route. */
  function HandleGet(path: string, params: Params, playwrightOk: bool, outcome: Outcome): (r: Response)
    ensures r.status in {200, 400, 404}
    ensures r.status == 404 <==> path != "/health" && path != "/sniff"
    ensures r.status == 400 <==> path == "/sniff" && FirstValue(params, "user").None?
    ensures r.status == 400 ==> r.payload == ErrorPayload(NoUserText)
    ensures path == "/health" ==> r.payload == HealthPayload(true, playwrightOk)
    ensures r.status == 404 ==> r.payload == NoBody
    ensures r.payload.SniffPayload? <==> r.status == 200 && path == "/sniff"
    ensures r.payload.SniffPayload? ==>
      && r.payload.count == |r.payload.urls|
      && r.payload.urls == (if outcome.Raised? then [] else outcome.urls)
      && Some(r.payload.user) == FirstValue(params, "user")
      && r.payload.platform == (match FirstValue(params, "platform") case Some(p) => p case None => "stripchat")
  {
    if path == "/health" then
      Response(200, HealthPayload(true, playwrightOk))
    else if path == "/sniff" then
      var platform := Param(params, "platform", "stripchat");
      var user := Param(params, "user", "");
      if user == [] then
        Response(400, ErrorPayload(NoUserText))
      else
        var urls := match outcome { case Completed(found) => found case Raised => [] };
        Response(200, SniffPayload(platform, user, urls, |urls|))
    else
      Response(404, NoBody)
  }

  /** A capture that raised still answers 200, with no URLs and a count of
      zero. */
  lemma RaisedCaptureAnswersEmpty(params: Params, playwrightOk: bool)
    requires FirstValue(params, "user").Some?
    ensures HandleGet("/sniff", params, playwrightOk, Raised).status == 200
    ensures HandleGet("/sniff", params, playwrightOk, Raised).payload.urls == []
    ensures HandleGet("/sniff", params, playwrightOk, Raised).payload.count == 0
  {
  }

  /** A user given only with a blank value is no user. */
  lemma BlankUserIsNoUser(playwrightOk: bool, outcome: Outcome)
    ensures HandleGet("/sniff", [("platform", "chaturbate"), ("user", "")], playwrightOk, outcome)
         == Response(400, ErrorPayload(NoUserText))
  {
    var params := [("platform", "chaturbate"), ("user", "")];
    assert params[1..][1..] == [];
  }

  /** The capture's outcome only matters to a sniff that names a user:
      every other request gets the same answer whatever the capture did. */
  lemma OutcomeOnlyReachesSniff(path: string, params: Params, playwrightOk: bool, a: Outcome, b: Outcome)
    requires path != "/sniff" || FirstValue(params, "user").None?
    ensures HandleGet(path, params, playwrightOk, a) == HandleGet(path, params, playwrightOk, b)
  {
  }

  /** Without a `platform` value the sniff is for the default platform. */
  lemma PlatformDefaults(params: Params, playwrightOk: bool, outcome: Outcome)
    requires FirstValue(params, "user").Some? && FirstValue(params, "platform").None?
    ensures HandleGet("/sniff", params, playwrightOk, outcome).payload.platform == "stripchat"
  {
  }
}
