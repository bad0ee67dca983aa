/** The capture session of one sniff: every string the browser reports is
    offered to `capture`, which keeps the manifest URLs it has not seen
    before, each with its score, in discovery order. */
module Capture {
  import opened Text
  import opened Scorer
  import opened Candidates
  import opened Ranking

  /** The cheap manifest condition applied to every offered URL: a `.m3u8` name,
      or `playlist` and `hls` in any letter case, or a `/hls/live/` path. */
  predicate IsM3u8(url: string)
    ensures IsM3u8(url) <==>
      || Contains(url, ".m3u8")
      || (ContainsIgnoringCase(url, "playlist") && ContainsIgnoringCase(url, "hls"))
      || Contains(url, "/hls/live/")
  {
    LowerContains(url, "playlist");
    LowerContains(url, "hls");
    || Contains(url, ".m3u8")
    || (Contains(Lower(url), "playlist") && Contains(Lower(url), "hls"))
    || Contains(url, "/hls/live/")
  }

  /** What an entry of the result list always looks like: a non-empty URL
      that passed the manifest condition, holds no escape, and carries its own
      score. */
  predicate Stored(c: Candidate)
  {
    c.url != [] && IsM3u8(c.url) && !Contains(c.url, Escape) && c.score == ScoreUrl(c.url)
  }

  /** The invariant of the result list. */
  predicate WellFormed(found: seq<Candidate>)
  {
    Distinct(found) && forall i :: 0 <= i < |found| ==> Stored(found[i])
  }

  /** The offered string is kept: it is not empty, its unescaped form passes
      the manifest condition and is not in the list yet. */
  predicate Accepts(found: seq<Candidate>, raw: string)
  {
    raw != [] && IsM3u8(Unescape(raw)) && Unescape(raw) !in Urls(found)
  }

  /** The result list after one call of `capture(raw)`. */
  function Captured(found: seq<Candidate>, raw: string): seq<Candidate>
  {
    if Accepts(found, raw) then found + [Candidate(Unescape(raw), ScoreUrl(Unescape(raw)))]
    else found
  }

  /** The result list after `capture` is called on each string of `raws`,
      in order. */
  function CapturedAll(found: seq<Candidate>, raws: seq<string>): seq<Candidate>
  {
    if raws == [] then found
    else Captured(CapturedAll(found, raws[..|raws| - 1]), raws[|raws| - 1])
  }

  lemma UrlsAppend(found: seq<Candidate>, c: Candidate)
    ensures Urls(found + [c]) == Urls(found) + {c.url}
  {
    assert forall x :: x in found + [c] <==> x in found || x == c;
  }

  /** One capture adds at most the unescaped URL, and adds it exactly when
      it is accepted; an empty string changes nothing. */
  lemma CapturedUrls(found: seq<Candidate>, raw: string)
    ensures Urls(Captured(found, raw)) == Urls(found) + (if Accepts(found, raw) then {Unescape(raw)} else {})
    ensures Captured(found, raw) == found <==> !Accepts(found, raw)
    ensures raw == [] ==> Captured(found, raw) == found
  {
    if Accepts(found, raw) {
      UrlsAppend(found, Candidate(Unescape(raw), ScoreUrl(Unescape(raw))));
    }
  }

  /** One capture keeps the result list well formed: no URL twice, and every
      entry unescaped, accepted and scored. */
  lemma CapturedWellFormed(found: seq<Candidate>, raw: string)
    requires WellFormed(found)
    ensures WellFormed(Captured(found, raw))
  {
    if Accepts(found, raw) {
      var url := Unescape(raw);
      var r := Captured(found, raw);
      UnescapeLeavesNoEscape(raw);
      assert |url| > 0;
      forall i | 0 <= i < |found| ensures found[i].url != url {
        assert found[i] in found;
      }
      assert Stored(r[|found|]);
    }
  }

  /** Offering a string whose unescaped form equals that of a string already
      offered changes nothing: the two spellings collapse to one entry. */
  lemma CapturedSameUrl(found: seq<Candidate>, raw: string, other: string)
    requires Unescape(other) == Unescape(raw)
    ensures Captured(Captured(found, raw), other) == Captured(found, raw)
  {
    var f := Captured(found, raw);
    CapturedUrls(found, raw);
    if raw == [] {
      assert other == [];
    }
  }

  /** Hence a URL offered with its ampersands escaped, then literally (or the
      other way round), is stored once, in its literal form. */
  lemma EscapedThenLiteral(found: seq<Candidate>, front: string, back: string)
    ensures Captured(Captured(found, front + Escape + back), front + "&" + back)
         == Captured(found, front + Escape + back)
    ensures Captured(Captured(found, front + "&" + back), front + Escape + back)
         == Captured(found, front + "&" + back)
  {
    EscapedAndLiteralAgree(front, back);
    CapturedSameUrl(found, front + Escape + back, front + "&" + back);
    CapturedSameUrl(found, front + "&" + back, front + Escape + back);
  }

  /** A run of captures keeps the result list well formed. */
  lemma {:induction false} CapturedAllWellFormed(found: seq<Candidate>, raws: seq<string>)
    requires WellFormed(found)
    ensures WellFormed(CapturedAll(found, raws))
    decreases |raws|
  {
    if raws != [] {
      CapturedAllWellFormed(found, raws[..|raws| - 1]);
      CapturedWellFormed(CapturedAll(found, raws[..|raws| - 1]), raws[|raws| - 1]);
    }
  }

  /** Capturing two runs one after the other is capturing their
      concatenation. */
  lemma {:induction false} CapturedAllAppend(found: seq<Candidate>, a: seq<string>, b: seq<string>)
    ensures CapturedAll(found, a + b) == CapturedAll(CapturedAll(found, a), b)
    decreases |b|
  {
    if b == [] {
      assert a + b == a;
    } else {
      assert (a + b)[..|a + b| - 1] == a + b[..|b| - 1];
      CapturedAllAppend(found, a, b[..|b| - 1]);
    }
  }

  /** Capture only ever appends: the list before is a prefix of the list
      after, and no URL is lost. */
  lemma {:induction false} CapturedAllExtends(found: seq<Candidate>, raws: seq<string>)
    ensures found <= CapturedAll(found, raws)
    ensures Urls(found) <= Urls(CapturedAll(found, raws))
    decreases |raws|
  {
    if raws != [] {
      var f := CapturedAll(found, raws[..|raws| - 1]);
      CapturedAllExtends(found, raws[..|raws| - 1]);
      CapturedUrls(f, raws[|raws| - 1]);
    }
  }

  /** After a run of captures, none of the strings of the run would be
      accepted again. */
  lemma {:induction false} CapturedAllSettles(found: seq<Candidate>, raws: seq<string>)
    ensures forall k :: 0 <= k < |raws| ==> !Accepts(CapturedAll(found, raws), raws[k])
    decreases |raws|
  {
    if raws != [] {
      var init, last := raws[..|raws| - 1], raws[|raws| - 1];
      var g := CapturedAll(found, init);
      CapturedAllSettles(found, init);
      CapturedUrls(g, last);
      forall k | 0 <= k < |raws| ensures !Accepts(Captured(g, last), raws[k]) {
        if k < |raws| - 1 {
          assert raws[k] == init[k];
        }
      }
    }
  }

  /** A run of strings none of which would be accepted changes nothing. */
  lemma {:induction false} CapturedAllSettled(found: seq<Candidate>, raws: seq<string>)
    requires forall k :: 0 <= k < |raws| ==> !Accepts(found, raws[k])
    ensures CapturedAll(found, raws) == found
    decreases |raws|
  {
    if raws != [] {
      var init := raws[..|raws| - 1];
      assert forall k :: 0 <= k < |init| ==> init[k] == raws[k];
      CapturedAllSettled(found, init);
    }
  }

  /** Offering the same run of strings a second time changes nothing. */
  lemma CapturedAllTwice(found: seq<Candidate>, raws: seq<string>)
    ensures CapturedAll(CapturedAll(found, raws), raws) == CapturedAll(found, raws)
  {
    CapturedAllSettles(found, raws);
    CapturedAllSettled(CapturedAll(found, raws), raws);
  }

  /** The URLs a run of captures accepts, as a set: the unescaped form of
      every non-empty offered string that passes the manifest condition. */
  function AcceptedUrls(raws: seq<string>): set<string>
  {
    set r | r in raws && r != [] && IsM3u8(Unescape(r)) :: Unescape(r)
  }

  /** Whatever the order and the repetitions, a run of captures ends up
      holding exactly the URLs it held before and the accepted ones. */
  lemma {:induction false} CapturedAllUrls(found: seq<Candidate>, raws: seq<string>)
    ensures Urls(CapturedAll(found, raws)) == Urls(found) + AcceptedUrls(raws)
    decreases |raws|
  {
    if raws != [] {
      var init, last := raws[..|raws| - 1], raws[|raws| - 1];
      assert raws == init + [last];
      CapturedAllUrls(found, init);
      CapturedUrls(CapturedAll(found, init), last);
      assert forall r :: r in raws <==> r in init || r == last;
      if last != [] && IsM3u8(Unescape(last)) {
        assert AcceptedUrls(raws) == AcceptedUrls(init) + {Unescape(last)};
      } else {
        assert AcceptedUrls(raws) == AcceptedUrls(init);
      }
    }
  }

  /** The state `capture` works on: the set of URLs seen so far and the list
      of accepted entries. */
  class CaptureSession {
    var seen: set<string>
    var found: seq<Candidate>

    ghost predicate Valid()
      reads this
    {
      seen == Urls(found) && WellFormed(found)
    }

    constructor ()
      ensures Valid() && seen == {} && found == []
    {
      seen := {};
      found := [];
    }

    /** `capture(url)`: unescape, filter, and append when the URL is new. */
    method Observe(raw: string)
      requires Valid()
      modifies this
      ensures Valid()
      ensures found == Captured(old(found), raw) && seen == Urls(found)
    {
      CapturedWellFormed(found, raw);
      CapturedUrls(found, raw);
      if raw == [] {
        return;
      }
      var url := Unescape(raw);
      var isM3u8 := IsM3u8(url);
      if isM3u8 && url !in seen {
        seen := seen + {url};
        found := found + [Candidate(url, ScoreUrl(url))];
      }
    }

    /** `for e in entries: capture(e)`. */
    method ObserveAll(raws: seq<string>)
      requires Valid()
      modifies this
      ensures Valid()
      ensures found == CapturedAll(old(found), raws)
    {
      var i := 0;
      while i < |raws|
        invariant 0 <= i <= |raws| && Valid()
        invariant found == CapturedAll(old(found), raws[..i])
      {
        assert raws[..i + 1][..i] == raws[..i];
        Observe(raws[i]);
        i := i + 1;
      }
      assert raws[..i] == raws;
    }

    /** `found.sort(key=score, reverse=True)` at the end of the session. */
    method Finalize()
      requires Valid()
      modifies this
      ensures Valid()
      ensures found == SortByScore(old(found)) && seen == old(seen)
      ensures SortedByScore(found) && multiset(found) == multiset(old(found))
    {
      SortByScoreKeepsEntries(found);
      var sorted := SortStable(found);
      assert forall i :: 0 <= i < |sorted| ==> sorted[i] in found;
      found := sorted;
    }
  }
}
