/** The quality heuristic that ranks captured manifest URLs. */
module Scorer {
  import opened Text

  /** The eight values the heuristic can produce. */
  const Scale: set<int> := {50, 60, 65, 70, 75, 80, 90, 100}

  /** The score of a URL that names no marker at all. */
  const DefaultScore := 65

  /** A URL names one of the markers the heuristic looks for. */
  predicate HasMarker(url: string)
  {
    Contains(url, "master") || Contains(url, "1080") || Contains(url, "720") ||
    Contains(url, "480") || Contains(url, "360") || Contains(url, "240") ||
    Contains(url, "index") || Contains(url, "playlist")
  }

  /** The first marker found wins: a master playlist beats every resolution, the
      resolutions rank from 1080 down to 240, and a bare index or playlist
      name sits between 720 and 1080. */
  function ScoreUrl(url: string): (r: int)
    ensures r in Scale
    ensures r == 100 <==> Contains(url, "master")
    ensures r == DefaultScore <==> !HasMarker(url)
  {
    if Contains(url, "master") then 100
    else if Contains(url, "1080") then 90
    else if Contains(url, "720") then 80
    else if Contains(url, "480") then 70
    else if Contains(url, "360") then 60
    else if Contains(url, "240") then 50
    else if Contains(url, "index") || Contains(url, "playlist") then 75
    else DefaultScore
  }

  /** One line of the ranking table: any of `markers` earns `score`. */
  datatype Rule = Rule(markers: seq<string>, score: int)

  /** The ranking policy written as data, in priority order. */
  const Rules: seq<Rule> := [
    Rule(["master"], 100),
    Rule(["1080"], 90),
    Rule(["720"], 80),
    Rule(["480"], 70),
    Rule(["360"], 60),
    Rule(["240"], 50),
    Rule(["index", "playlist"], 75)
  ]

  predicate Fires(rule: Rule, url: string)
  {
    exists k :: 0 <= k < |rule.markers| && Contains(url, rule.markers[k])
  }

  /** The score of the first rule in `rules` that fires, or the default. */
  function FirstMatch(rules: seq<Rule>, url: string): int
  {
    if rules == [] then DefaultScore
    else if Fires(rules[0], url) then rules[0].score
    else FirstMatch(rules[1..], url)
  }

  /** The if-chain and the table agree on every URL: the chain evaluates the
      rules in table order and nothing else. */
  lemma ScoreUrlFollowsRules(url: string)
    ensures ScoreUrl(url) == FirstMatch(Rules, url)
  {
    var rs := Rules;
    assert Fires(rs[0], url) <==> Contains(url, "master") by { assert rs[0].markers[0] == "master"; }
    assert Fires(rs[1], url) <==> Contains(url, "1080") by { assert rs[1].markers[0] == "1080"; }
    assert Fires(rs[2], url) <==> Contains(url, "720") by { assert rs[2].markers[0] == "720"; }
    assert Fires(rs[3], url) <==> Contains(url, "480") by { assert rs[3].markers[0] == "480"; }
    assert Fires(rs[4], url) <==> Contains(url, "360") by { assert rs[4].markers[0] == "360"; }
    assert Fires(rs[5], url) <==> Contains(url, "240") by { assert rs[5].markers[0] == "240"; }
    assert Fires(rs[6], url) <==> Contains(url, "index") || Contains(url, "playlist") by {
      assert rs[6].markers[0] == "index" && rs[6].markers[1] == "playlist";
    }
    var t1, t2, t3 := rs[1..], rs[2..], rs[3..];
    var t4, t5, t6, t7 := rs[4..], rs[5..], rs[6..], rs[7..];
    assert t7 == [];
    assert FirstMatch(t6, url) == if Fires(rs[6], url) then 75 else DefaultScore by { assert t6[1..] == t7; }
    assert FirstMatch(t5, url) == if Fires(rs[5], url) then 50 else FirstMatch(t6, url) by { assert t5[1..] == t6; }
    assert FirstMatch(t4, url) == if Fires(rs[4], url) then 60 else FirstMatch(t5, url) by { assert t4[1..] == t5; }
    assert FirstMatch(t3, url) == if Fires(rs[3], url) then 70 else FirstMatch(t4, url) by { assert t3[1..] == t4; }
    assert FirstMatch(t2, url) == if Fires(rs[2], url) then 80 else FirstMatch(t3, url) by { assert t2[1..] == t3; }
    assert FirstMatch(t1, url) == if Fires(rs[1], url) then 90 else FirstMatch(t2, url) by { assert t1[1..] == t2; }
  }

  /** A master playlist outranks every resolution hint, whatever else the URL
      names. */
  lemma MasterOutranksResolutions(url: string, other: string)
    requires Contains(url, "master")
    requires !Contains(other, "master")
    ensures ScoreUrl(url) > ScoreUrl(other)
  {
  }
}
