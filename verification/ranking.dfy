/** Finalisation of a capture: the result list is sorted by score, highest
    first, and the sort is stable, so equal scores keep discovery order. */
module Ranking {
  import opened Candidates

  /** Scores never increase along the list. */
  predicate SortedByScore(s: seq<Candidate>)
  {
    forall i, j :: 0 <= i < j < |s| ==> s[i].score >= s[j].score
  }

  /** The entries of `s` whose score is `k`, in their order in `s`. */
  function WithScore(s: seq<Candidate>, k: int): seq<Candidate>
  {
    if s == [] then []
    else (if s[0].score == k then [s[0]] else []) + WithScore(s[1..], k)
  }

  /** Places `c` after every entry whose score is at least its own. */
  function Insert(c: Candidate, r: seq<Candidate>): seq<Candidate>
  {
    if r == [] || r[0].score < c.score then [c] + r
    else [r[0]] + Insert(c, r[1..])
  }

  /** Stable insertion sort, descending by score: each entry, in discovery
      order, is placed behind all earlier entries that score at least as high. */
  function SortByScore(s: seq<Candidate>): seq<Candidate>
  {
    if s == [] then [] else Insert(s[|s| - 1], SortByScore(s[..|s| - 1]))
  }

  lemma {:induction false} WithScoreAppend(a: seq<Candidate>, b: seq<Candidate>, k: int)
    ensures WithScore(a + b, k) == WithScore(a, k) + WithScore(b, k)
    decreases |a|
  {
    if a == [] {
      assert a + b == b;
    } else {
      var h := if a[0].score == k then [a[0]] else [];
      assert (a + b)[0] == a[0];
      assert (a + b)[1..] == a[1..] + b;
      WithScoreAppend(a[1..], b, k);
      calc {
        WithScore(a + b, k);
        h + WithScore(a[1..] + b, k);
        h + (WithScore(a[1..], k) + WithScore(b, k));
        (h + WithScore(a[1..], k)) + WithScore(b, k);
      }
    }
  }

  lemma {:induction false} WithScoreAbsent(s: seq<Candidate>, k: int)
    requires forall i :: 0 <= i < |s| ==> s[i].score != k
    ensures WithScore(s, k) == []
    decreases |s|
  {
    if s != [] {
      WithScoreAbsent(s[1..], k);
    }
  }

  /** Inserting into a sorted list keeps it sorted. */
  lemma {:induction false} InsertSorted(c: Candidate, r: seq<Candidate>)
    requires SortedByScore(r)
    ensures SortedByScore(Insert(c, r))
    decreases |r|
  {
    if r != [] && r[0].score >= c.score {
      var out, rest := Insert(c, r), Insert(c, r[1..]);
      InsertSorted(c, r[1..]);
      InsertMembers(c, r[1..]);
      assert out == [r[0]] + rest;
      forall i, j | 0 <= i < j < |out| ensures out[i].score >= out[j].score {
        if i == 0 {
          assert out[j] == rest[j - 1];
          assert rest[j - 1] in rest;
        } else {
          assert out[i] == rest[i - 1] && out[j] == rest[j - 1];
        }
      }
    }
  }

  /** Inserting adds exactly one copy of `c`. */
  lemma {:induction false} InsertPermutes(c: Candidate, r: seq<Candidate>)
    ensures multiset(Insert(c, r)) == multiset(r) + multiset{c}
    decreases |r|
  {
    if r != [] && r[0].score >= c.score {
      InsertPermutes(c, r[1..]);
      assert r == [r[0]] + r[1..];
    }
  }

  /** In a sorted list, `c` lands behind every entry of its own score. */
  lemma {:induction false} InsertWithScore(c: Candidate, r: seq<Candidate>, k: int)
    requires SortedByScore(r)
    ensures WithScore(Insert(c, r), k) == WithScore(r, k) + (if c.score == k then [c] else [])
    decreases |r|
  {
    var out := Insert(c, r);
    if r == [] || r[0].score < c.score {
      assert out[0] == c && out[1..] == r;
      if k == c.score {
        WithScoreAbsent(r, k);
      }
    } else {
      InsertWithScore(c, r[1..], k);
      assert out[0] == r[0] && out[1..] == Insert(c, r[1..]);
    }
  }

  /** The sorted list is ordered by score, is a permutation of its input, and
      keeps the entries of every score in their input order (stability). */
  lemma {:induction false} SortByScoreCorrect(s: seq<Candidate>)
    ensures SortedByScore(SortByScore(s))
    ensures multiset(SortByScore(s)) == multiset(s)
    ensures forall k :: WithScore(SortByScore(s), k) == WithScore(s, k)
    decreases |s|
  {
    if s != [] {
      var p, x := s[..|s| - 1], s[|s| - 1];
      assert s == p + [x];
      SortByScoreCorrect(p);
      InsertSorted(x, SortByScore(p));
      InsertPermutes(x, SortByScore(p));
      forall k ensures WithScore(SortByScore(s), k) == WithScore(s, k) {
        InsertWithScore(x, SortByScore(p), k);
        WithScoreAppend(p, [x], k);
      }
    }
  }

  lemma {:induction false} WithScoreHead(s: seq<Candidate>)
    requires s != []
    ensures WithScore(s, s[0].score) == [s[0]] + WithScore(s[1..], s[0].score)
  {
  }

  lemma {:induction false} WithScoreMember(s: seq<Candidate>, k: int)
    ensures forall x :: x in WithScore(s, k) <==> x in s && x.score == k
    decreases |s|
  {
    if s != [] {
      WithScoreMember(s[1..], k);
      assert s == [s[0]] + s[1..];
    }
  }

  /** The first entry of a sorted list has the highest score. */
  lemma HeadScoresHighest(s: seq<Candidate>, x: Candidate)
    requires SortedByScore(s) && x in s
    ensures x.score <= s[0].score
  {
    var i :| 0 <= i < |s| && s[i] == x;
    if i > 0 {
      assert s[0].score >= s[i].score;
    }
  }

  /** Lists with the same entries per score hold the same entries. */
  lemma SameEntries(r: seq<Candidate>, t: seq<Candidate>, x: Candidate)
    requires forall k :: WithScore(r, k) == WithScore(t, k)
    requires x in t
    ensures x in r
  {
    WithScoreMember(t, x.score);
    WithScoreMember(r, x.score);
    assert x in WithScore(t, x.score);
    assert WithScore(r, x.score) == WithScore(t, x.score);
  }

  /** Two sorted lists with the same entries per score start alike. */
  lemma SameHead(r: seq<Candidate>, t: seq<Candidate>)
    requires r != [] && t != []
    requires SortedByScore(r) && SortedByScore(t)
    requires forall k :: WithScore(r, k) == WithScore(t, k)
    ensures r[0] == t[0]
  {
    var m := r[0].score;
    assert t[0] in t && r[0] in r;
    SameEntries(r, t, t[0]);
    SameEntries(t, r, r[0]);
    HeadScoresHighest(r, t[0]);
    HeadScoresHighest(t, r[0]);
    assert t[0].score == m;
    WithScoreHead(r);
    WithScoreHead(t);
    assert WithScore(r, m) == WithScore(t, m);
    assert r[0] == WithScore(r, m)[0] == WithScore(t, m)[0] == t[0];
  }

  /** Removing a common first entry keeps the per-score lists equal. */
  lemma SameTailsPerScore(r: seq<Candidate>, t: seq<Candidate>, k: int)
    requires r != [] && t != [] && r[0] == t[0]
    requires WithScore(r, k) == WithScore(t, k)
    ensures WithScore(r[1..], k) == WithScore(t[1..], k)
  {
    var h := if r[0].score == k then [r[0]] else [];
    assert WithScore(r, k) == h + WithScore(r[1..], k);
    assert WithScore(t, k) == h + WithScore(t[1..], k);
    assert WithScore(r[1..], k) == WithScore(r, k)[|h|..];
    assert WithScore(t[1..], k) == WithScore(t, k)[|h|..];
  }

  /** A list that is sorted by score and agrees with `s` on the entries of every
      score IS the stable sort of `s`: the two properties pin the result down,
      so SortByScore is the only order Python's stable sort can produce. */
  lemma {:induction false} StableSortIsUnique(r: seq<Candidate>, t: seq<Candidate>)
    requires SortedByScore(r) && SortedByScore(t)
    requires forall k :: WithScore(r, k) == WithScore(t, k)
    ensures r == t
    decreases |r|
  {
    if r == [] || t == [] {
      var u := if r == [] then t else r;
      if u != [] {
        WithScoreHead(u);
        assert false;
      }
    } else {
      SameHead(r, t);
      forall k ensures WithScore(r[1..], k) == WithScore(t[1..], k) {
        SameTailsPerScore(r, t, k);
      }
      StableSortIsUnique(r[1..], t[1..]);
      assert r == [r[0]] + r[1..] && t == [t[0]] + t[1..];
    }
  }

  /** Hence the finalised list is characterised without reference to the
      algorithm: sorted by score, with the entries of every score in discovery
      order. */
  lemma IsStableSortOf(r: seq<Candidate>, s: seq<Candidate>)
    requires SortedByScore(r)
    requires forall k :: WithScore(r, k) == WithScore(s, k)
    ensures r == SortByScore(s)
  {
    SortByScoreCorrect(s);
    StableSortIsUnique(r, SortByScore(s));
  }

  /** Inserting a URL the list does not hold keeps the URLs distinct. */
  lemma {:induction false} InsertKeepsDistinct(c: Candidate, r: seq<Candidate>)
    requires Distinct(r) && c.url !in Urls(r)
    ensures Distinct(Insert(c, r))
    decreases |r|
  {
    if r != [] && r[0].score >= c.score {
      var rest := Insert(c, r[1..]);
      assert Urls(r[1..]) <= Urls(r);
      InsertKeepsDistinct(c, r[1..]);
      InsertMembers(c, r[1..]);
      assert Insert(c, r) == [r[0]] + rest;
      forall j | 0 <= j < |rest| ensures rest[j].url != r[0].url {
        assert rest[j] in rest;
      }
    } else {
      forall j | 0 <= j < |r| ensures r[j].url != c.url {
        assert r[j] in r;
      }
    }
  }

  lemma {:induction false} InsertMembers(c: Candidate, r: seq<Candidate>)
    ensures forall x :: x in Insert(c, r) <==> x == c || x in r
    decreases |r|
  {
    if r != [] && r[0].score >= c.score {
      InsertMembers(c, r[1..]);
      assert r == [r[0]] + r[1..];
    }
  }

  /** Sorting keeps exactly the same entries, hence the same URLs, and a list
      without repeated URLs stays without them. */
  lemma {:induction false} SortByScoreKeepsEntries(s: seq<Candidate>)
    ensures forall x :: x in SortByScore(s) <==> x in s
    ensures Urls(SortByScore(s)) == Urls(s)
    ensures Distinct(s) ==> Distinct(SortByScore(s))
    decreases |s|
  {
    if s != [] {
      var p, x := s[..|s| - 1], s[|s| - 1];
      assert s == p + [x];
      SortByScoreKeepsEntries(p);
      InsertMembers(x, SortByScore(p));
      if Distinct(s) {
        assert x.url !in Urls(p) by {
          forall y | y in p ensures y.url != x.url {
            var i :| 0 <= i < |p| && p[i] == y;
            assert s[i] == y;
          }
        }
        InsertKeepsDistinct(x, SortByScore(p));
      }
    }
  }

  /** The worked example: discovered in the order A (65), B (100), C (65), the
      list finalises as B, A, C. */
  lemma SortExample(a: string, b: string, c: string)
    ensures SortByScore([Candidate(a, 65), Candidate(b, 100), Candidate(c, 65)])
         == [Candidate(b, 100), Candidate(a, 65), Candidate(c, 65)]
  {
    var ca, cb, cc := Candidate(a, 65), Candidate(b, 100), Candidate(c, 65);
    var s := [ca, cb, cc];
    assert s[..2][..1] == [ca] && [ca][..0] == [];
    assert SortByScore([ca]) == [ca];
    assert s[..2] == [ca, cb];
    assert SortByScore([ca, cb]) == Insert(cb, [ca]) == [cb, ca];
    assert Insert(cc, [ca]) == [ca, cc];
    assert Insert(cc, [cb, ca]) == [cb, ca, cc];
  }

  /** Stable insertion sort by descending score (`found.sort(key=score,
      reverse=True)`): each entry is moved past the prefix of entries that
      score at least as high. */
  method SortStable(s: seq<Candidate>) returns (r: seq<Candidate>)
    ensures r == SortByScore(s)
    ensures SortedByScore(r) && multiset(r) == multiset(s)
    ensures forall k :: WithScore(r, k) == WithScore(s, k)
  {
    r := [];
    var i := 0;
    while i < |s|
      invariant 0 <= i <= |s|
      invariant r == SortByScore(s[..i])
    {
      var c := s[i];
      var j := 0;
      while j < |r| && r[j].score >= c.score
        invariant 0 <= j <= |r|
        invariant forall m :: 0 <= m < j ==> r[m].score >= c.score
      {
        j := j + 1;
      }
      InsertAfterPrefix(c, r, j);
      r := r[..j] + [c] + r[j..];
      assert s[..i + 1][..i] == s[..i];
      i := i + 1;
    }
    assert s[..|s|] == s;
    SortByScoreCorrect(s);
  }

  /** Splicing `c` in at the first position whose score is below its own is
      what Insert does. */
  lemma {:induction false} InsertAfterPrefix(c: Candidate, r: seq<Candidate>, j: nat)
    requires j <= |r|
    requires forall m :: 0 <= m < j ==> r[m].score >= c.score
    requires j == |r| || r[j].score < c.score
    ensures Insert(c, r) == r[..j] + [c] + r[j..]
    decreases j
  {
    if j > 0 {
      InsertAfterPrefix(c, r[1..], j - 1);
      assert r[1..][..j - 1] == r[..j][1..];
      assert r[1..][j - 1..] == r[j..];
    }
  }
}
