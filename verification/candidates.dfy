/** The record the capture session stores for every accepted URL. */
module Candidates {

  /** One discovered manifest URL together with its quality score
      (the `{'url': ..., 'score': ...}` dictionaries of the result list). */
  datatype Candidate = Candidate(url: string, score: int)

  /** The URLs held by a result list. */
  function Urls(found: seq<Candidate>): set<string>
  {
    set c | c in found :: c.url
  }

  /** No URL occurs twice in a result list. */
  predicate Distinct(found: seq<Candidate>)
  {
    forall i, j :: 0 <= i < j < |found| ==> found[i].url != found[j].url
  }
}
