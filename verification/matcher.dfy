/** A hand-written scanner for the manifest-URL pattern of the sniffer
    (`M3U8_PATTERNS`), with the leftmost, greedy, backtracking choices of
    Python's `re.finditer` spelled out:

      https?://[H]+/(?:[P]+/)?(?:[H]+\.m3u8|...)(?:\?[Q]*)?

    where H is letters, digits, `.`, `-` and `_`; P is H plus `/`; Q is every
    character except whitespace, `"`, `'`, `<` and `>`. The three literal
    alternatives `playlist.m3u8`, `index.m3u8` and `master.m3u8` are already
    matched by the first alternative, so only that one is modelled. */
module Matcher {
  import opened Wrappers
  import opened Text

  predicate IsHostChar(c: char)
  {
    'a' <= c <= 'z' || 'A' <= c <= 'Z' || '0' <= c <= '9' || c == '.' || c == '-' || c == '_'
  }

  predicate IsPathChar(c: char)
  {
    IsHostChar(c) || c == '/'
  }

  /** Python's `\s` on text: the characters for which `str.isspace` holds. */
  predicate IsSpace(c: char)
  {
    '\t' <= c <= '\r' || '\U{1C}' <= c <= ' ' || c == '\U{85}' || c == '\U{A0}' ||
    c == '\U{1680}' || '\U{2000}' <= c <= '\U{200A}' || c == '\U{2028}' || c == '\U{2029}' ||
    c == '\U{202F}' || c == '\U{205F}' || c == '\U{3000}'
  }

  predicate IsQueryChar(c: char)
  {
    !IsSpace(c) && c != '"' && c != '\'' && c != '<' && c != '>'
  }

  /** The three character classes of the pattern. */
  datatype CharClass = Host | Path | Query

  predicate InClass(c: char, cl: CharClass)
  {
    match cl
    case Host => IsHostChar(c)
    case Path => IsPathChar(c)
    case Query => IsQueryChar(c)
  }

  /** Every character of `s[i..j]` is in class `cl`. */
  predicate InRange(s: string, i: nat, j: nat, cl: CharClass)
    requires i <= j <= |s|
  {
    forall k {:trigger InClass(s[k], cl)} :: i <= k < j ==> InClass(s[k], cl)
  }

  predicate AllIn(s: string, cl: CharClass)
  {
    InRange(s, 0, |s|, cl)
  }

  /** End of the longest run of `inClass` characters starting at `i`: where a
      greedy `[...]+` or `[...]*` stops. */
  function RunEnd(s: string, i: nat, cl: CharClass): (e: nat)
    requires i <= |s|
    ensures i <= e <= |s|
    decreases |s| - i
  {
    if i < |s| && InClass(s[i], cl) then RunEnd(s, i + 1, cl) else i
  }

  /** The run is made of class characters and stops at the first other one. */
  lemma {:induction false} RunEndStops(s: string, i: nat, cl: CharClass)
    requires i <= |s|
    ensures InRange(s, i, RunEnd(s, i, cl), cl)
    ensures RunEnd(s, i, cl) == |s| || !InClass(s[RunEnd(s, i, cl)], cl)
    decreases |s| - i
  {
    if i < |s| && InClass(s[i], cl) {
      RunEndStops(s, i + 1, cl);
    }
  }

  /** `https?://` at `i`: where the host starts. */
  function SchemeEnd(s: string, i: nat): Option<nat>
    requires i <= |s|
  {
    if "https://" <= s[i..] then Some(i + 8)
    else if "http://" <= s[i..] then Some(i + 7)
    else None
  }

  const Suffix: string := ".m3u8"

  /** `s[e - 5..e]` is the suffix `.m3u8`, read character by character. */
  predicate SuffixAt(s: string, e: nat)
    requires |Suffix| <= e <= |s|
  {
    s[e - 5] == '.' && s[e - 4] == 'm' && s[e - 3] == '3' && s[e - 2] == 'u' && s[e - 1] == '8'
  }

  lemma SuffixAtIff(s: string, e: nat)
    requires |Suffix| <= e <= |s|
    ensures SuffixAt(s, e) <==> s[e - |Suffix|..e] == Suffix
  {
    if SuffixAt(s, e) {
      assert s[e - |Suffix|..e] == Suffix;
    }
  }

  /** `[H]+\.m3u8` backtracking from the end `e` of the host-character run
      that starts at `g`: the last `.m3u8` in the run with a non-empty name
      before it. */
  function NameEndFrom(s: string, g: nat, e: nat): (r: Option<nat>)
    requires g <= e <= |s|
    ensures r.Some? ==> g + |Suffix| < r.value <= e && SuffixAt(s, r.value)
    decreases e
  {
    if e < g + |Suffix| + 1 then None
    else if SuffixAt(s, e) then Some(e)
    else NameEndFrom(s, g, e - 1)
  }

  /** Where the file name `[H]+\.m3u8` starting at `g` ends, if it matches. */
  function NameEnd(s: string, g: nat): (r: Option<nat>)
    requires g <= |s|
    ensures r.Some? ==> g + |Suffix| < r.value <= |s| && SuffixAt(s, r.value)
  {
    NameEndFrom(s, g, RunEnd(s, g, Host))
  }

  /** The name found is made of host characters. */
  lemma NameEndHostChars(s: string, g: nat)
    requires g <= |s| && NameEnd(s, g).Some?
    ensures InRange(s, g, NameEnd(s, g).value, Host)
  {
    var e := RunEnd(s, g, Host);
    RunEndStops(s, g, Host);
    assert NameEnd(s, g).value <= e;
  }

  /** How the optional directory group and the file name divide the path. */
  datatype Split = Split(dirEnd: nat, nameEnd: nat)

  /** The optional group `(?:[P]+/)?` is greedy: directory ends `g` are tried
      from the longest down (each must follow a `/` and leave a non-empty
      group), and only when none lets the name match is the group skipped. */
  function PathSplit(s: string, p0: nat, g: nat): (r: Option<Split>)
    requires p0 <= g <= |s|
    ensures r.Some? ==> p0 <= r.value.dirEnd && r.value.dirEnd + |Suffix| < r.value.nameEnd <= |s|
    decreases g
  {
    if g < p0 + 2 then
      match NameEnd(s, p0)
      case Some(e) => Some(Split(p0, e))
      case None => None
    else if s[g - 1] == '/' && NameEnd(s, g).Some? then Some(Split(g, NameEnd(s, g).value))
    else PathSplit(s, p0, g - 1)
  }

  /** Within a run `s[p0..g]` of path characters, the division PathSplit
      finds is a valid one: an optional directory group (empty, or non-empty
      and ending in `/`) and a file name of host characters that ends in
      `.m3u8` after at least one character. */
  lemma {:induction false} PathSplitGood(s: string, p0: nat, g: nat)
    requires p0 <= g <= |s| && InRange(s, p0, g, Path)
    requires PathSplit(s, p0, g).Some?
    ensures PathSplit(s, p0, g).value.dirEnd <= g
    ensures PathShape(s, p0, PathSplit(s, p0, g).value.dirEnd, PathSplit(s, p0, g).value.nameEnd)
    decreases g
  {
    if g < p0 + 2 {
      NameEndHostChars(s, p0);
    } else if s[g - 1] == '/' && NameEnd(s, g).Some? {
      NameEndHostChars(s, g);
    } else {
      PathSplitGood(s, p0, g - 1);
    }
  }

  /** The optional query `(?:\?[Q]*)?` after the name ending at `e`. */
  function QueryEnd(s: string, e: nat): (r: nat)
    requires e <= |s|
    ensures e <= r <= |s|
  {
    if e < |s| && s[e] == '?' then RunEnd(s, e + 1, Query) else e
  }

  /** After `host/`: the path, divided as PathSplit chooses, then the query. */
  function PathAndQuery(s: string, p0: nat): (r: Option<nat>)
    requires p0 <= |s|
    ensures r.Some? ==> p0 < r.value <= |s|
  {
    match PathSplit(s, p0, RunEnd(s, p0, Path))
    case None => None
    case Some(sp) => Some(QueryEnd(s, sp.nameEnd))
  }

  /** After the scheme: a non-empty host, a `/`, and the rest. */
  function HostAndRest(s: string, j: nat): (r: Option<nat>)
    requires j <= |s|
    ensures r.Some? ==> j < r.value <= |s|
  {
    var h := RunEnd(s, j, Host);
    if h == j || h == |s| || s[h] != '/' then None
    else PathAndQuery(s, h + 1)
  }

  /** The end of the match of the whole pattern that starts at `i`, if any. */
  function MatchAt(s: string, i: nat): (r: Option<nat>)
    requires i <= |s|
    ensures r.Some? ==> i < r.value <= |s|
  {
    match SchemeEnd(s, i)
    case None => None
    case Some(j) => HostAndRest(s, j)
  }

  /** The outcome of trying the pattern at each position of `s`. */
  function Attempts(s: string): (a: seq<Option<nat>>)
    ensures |a| == |s| && Forward(a)
  {
    seq(|s|, i requires 0 <= i < |s| => MatchAt(s, i))
  }

  /** Every successful attempt ends after it starts and within the text. */
  predicate Forward(a: seq<Option<nat>>)
  {
    forall i :: 0 <= i < |a| && a[i].Some? ==> i < a[i].value <= |a|
  }

  datatype Span = Span(start: nat, end: nat)

  /** `finditer` from `pos`: the leftmost match, then the search resumes where
      it ended. */
  function Scan(a: seq<Option<nat>>, pos: nat): (spans: seq<Span>)
    requires Forward(a) && pos <= |a|
    ensures forall k :: 0 <= k < |spans| ==> pos <= spans[k].start < spans[k].end <= |a|
    decreases |a| - pos
  {
    if pos == |a| then []
    else
      match a[pos]
      case Some(e) => [Span(pos, e)] + Scan(a, e)
      case None => Scan(a, pos + 1)
  }

  /** Each reported span is a successful attempt, and the spans come in order
      without overlapping. */
  lemma {:induction false} ScanMatches(a: seq<Option<nat>>, pos: nat)
    requires Forward(a) && pos <= |a|
    ensures forall k :: 0 <= k < |Scan(a, pos)| ==> a[Scan(a, pos)[k].start] == Some(Scan(a, pos)[k].end)
    ensures forall k :: 0 <= k < |Scan(a, pos)| - 1 ==> Scan(a, pos)[k].end <= Scan(a, pos)[k + 1].start
    decreases |a| - pos
  {
    if pos < |a| {
      match a[pos]
      case Some(e) =>
        ScanMatches(a, e);
      case None =>
        ScanMatches(a, pos + 1);
    }
  }

  /** The scan is leftmost: a position where an attempt succeeds lies inside a
      reported span (the `k`-th), possibly one that starts at it. */
  lemma {:induction false} ScanCovers(a: seq<Option<nat>>, pos: nat, p: nat) returns (k: nat)
    requires Forward(a) && pos <= p < |a| && a[p].Some?
    ensures k < |Scan(a, pos)| && Scan(a, pos)[k].start <= p < Scan(a, pos)[k].end
    decreases |a| - pos
  {
    var spans := Scan(a, pos);
    match a[pos]
    case Some(e) =>
      assert spans == [Span(pos, e)] + Scan(a, e);
      if p < e {
        k := 0;
      } else {
        var k' := ScanCovers(a, e, p);
        k := k' + 1;
      }
    case None =>
      assert spans == Scan(a, pos + 1);
      k := ScanCovers(a, pos + 1, p);
  }

  /** Positions where every attempt fails are passed over. */
  lemma {:induction false} ScanSkips(a: seq<Option<nat>>, pos: nat, q: nat)
    requires Forward(a) && pos <= q <= |a|
    requires forall i :: pos <= i < q ==> a[i].None?
    ensures Scan(a, pos) == Scan(a, q)
    decreases q - pos
  {
    if pos < q {
      ScanSkips(a, pos + 1, q);
    }
  }

  /** Every manifest URL in `text`, as `[m.group(0) for m in finditer(text)]`. */
  function FindAll(text: string): (ms: seq<string>)
    ensures |ms| == |Scan(Attempts(text), 0)|
    ensures forall k :: 0 <= k < |ms| ==>
      ms[k] == text[Scan(Attempts(text), 0)[k].start..Scan(Attempts(text), 0)[k].end]
  {
    var spans := Scan(Attempts(text), 0);
    seq(|spans|, k requires 0 <= k < |spans| => text[spans[k].start..spans[k].end])
  }

  // ---------------------------------------------------------------------
  // The language of the pattern, stated independently of the scanner.

  /** The parts of a URL of the manifest shape
      `http[s]://host/[dir]name.m3u8[?query]`. */
  datatype ManifestUrl = ManifestUrl(secure: bool, host: string, dir: string, name: string, query: Option<string>)

  predicate ValidManifest(u: ManifestUrl)
  {
    && |u.host| > 0 && AllIn(u.host, Host)
    && (u.dir == [] || (|u.dir| >= 2 && u.dir[|u.dir| - 1] == '/' && AllIn(u.dir, Path)))
    && |u.name| > 0 && AllIn(u.name, Host)
    && (u.query.Some? ==> AllIn(u.query.value, Query))
  }

  function SchemeText(secure: bool): string
  {
    if secure then "https://" else "http://"
  }

  function QueryText(q: Option<string>): string
  {
    match q
    case None => ""
    case Some(t) => "?" + t
  }

  function Render(u: ManifestUrl): string
  {
    SchemeText(u.secure) + u.host + "/" + u.dir + u.name + Suffix + QueryText(u.query)
  }

  // ---------------------------------------------------------------------
  // How a match lies in the text, as the steps of the pattern read it.

  /** `s[p0..n]` is an optional directory part `s[p0..d]` (empty, or ending
      in `/` after at least one character) and a name of host characters
      ending in `.m3u8` after at least one character. */
  predicate PathShape(s: string, p0: nat, d: nat, n: nat)
  {
    && p0 <= d && d + |Suffix| < n <= |s|
    && (d == p0 || (d >= p0 + 2 && s[d - 1] == '/'))
    && InRange(s, p0, d, Path) && InRange(s, d, n, Host) && SuffixAt(s, n)
  }

  /** `s[j..n]` is a non-empty host, a `/` at `h`, and a path. */
  predicate HostPathShape(s: string, j: nat, h: nat, d: nat, n: nat)
  {
    && j < h < |s| && s[h] == '/' && InRange(s, j, h, Host)
    && PathShape(s, h + 1, d, n)
  }

  /** The query, if any, runs from `n` to `e`, and nothing at `n` or `e`
      could extend the path or the query. */
  predicate QueryShape(s: string, n: nat, e: nat)
  {
    && n <= e <= |s|
    && (n == |s| || !InClass(s[n], Path))
    && (e == n ==> n == |s| || s[n] != '?')
    && (e > n ==> s[n] == '?' && InRange(s, n + 1, e, Query) && (e == |s| || !InClass(s[e], Query)))
  }

  /** `x[i..e]` is laid out as a manifest URL with the parts starting at `j`
      (host), `h` (`/`), `d` (name) and `n` (query), and nothing after it
      could extend it. */
  predicate LaidOut(x: string, i: nat, secure: bool, j: nat, h: nat, d: nat, n: nat, e: nat)
  {
    && j == i + |SchemeText(secure)| && j <= |x| && x[i..j] == SchemeText(secure)
    && HostPathShape(x, j, h, d, n) && QueryShape(x, n, e)
  }

  // ---------------------------------------------------------------------
  // Soundness: every match has the manifest shape.


  lemma SchemeParts(s: string, i: nat) returns (secure: bool)
    requires i <= |s| && SchemeEnd(s, i).Some?
    ensures SchemeEnd(s, i).value == i + |SchemeText(secure)| <= |s|
    ensures s[i..SchemeEnd(s, i).value] == SchemeText(secure)
  {
    secure := "https://" <= s[i..];
  }

  /** Characters `s[i..j]` all in `cl` make a slice all in `cl`. */
  lemma SliceAllIn(s: string, i: nat, j: nat, cl: CharClass)
    requires i <= j <= |s| && InRange(s, i, j, cl)
    ensures AllIn(s[i..j], cl)
  {
    forall k | 0 <= k < j - i ensures InClass(s[i..j][k], cl) {
      assert s[i..j][k] == s[i + k];
    }
  }

  /** The path step of a match: a directory part, a name and its suffix. */
  lemma PathSteps(s: string, p0: nat) returns (d: nat, n: nat)
    requires p0 <= |s| && PathAndQuery(s, p0).Some?
    ensures PathShape(s, p0, d, n) && PathAndQuery(s, p0) == Some(QueryEnd(s, n))
  {
    var g := RunEnd(s, p0, Path);
    RunEndStops(s, p0, Path);
    var sp := PathSplit(s, p0, g).value;
    PathSplitGood(s, p0, g);
    d, n := sp.dirEnd, sp.nameEnd;
  }

  /** The host step and the path step of a match. */
  lemma HostAndRestSteps(s: string, j: nat) returns (h: nat, d: nat, n: nat)
    requires j <= |s| && HostAndRest(s, j).Some?
    ensures HostPathShape(s, j, h, d, n) && HostAndRest(s, j) == Some(QueryEnd(s, n))
  {
    h := RunEnd(s, j, Host);
    RunEndStops(s, j, Host);
    d, n := PathSteps(s, h + 1);
  }

  /** All steps of a match found at `i`. */
  lemma MatchSteps(s: string, i: nat) returns (secure: bool, j: nat, h: nat, d: nat, n: nat)
    requires i <= |s| && MatchAt(s, i).Some?
    ensures j == i + |SchemeText(secure)| <= |s| && s[i..j] == SchemeText(secure)
    ensures HostPathShape(s, j, h, d, n) && MatchAt(s, i) == Some(QueryEnd(s, n))
  {
    secure := SchemeParts(s, i);
    j := i + |SchemeText(secure)|;
    h, d, n := HostAndRestSteps(s, j);
  }

  /** The optional query after the name ending at `n`. */
  lemma QueryParts(s: string, n: nat) returns (q: Option<string>)
    requires n <= |s|
    ensures s[n..QueryEnd(s, n)] == QueryText(q)
    ensures q.Some? ==> AllIn(q.value, Query)
  {
    if n < |s| && s[n] == '?' {
      var e := QueryEnd(s, n);
      RunEndStops(s, n + 1, Query);
      SliceAllIn(s, n + 1, e, Query);
      q := Some(s[n + 1..e]);
      assert s[n..e] == [s[n]] + s[n + 1..e];
    } else {
      q := None;
    }
  }

  lemma Join(s: string, i: nat, j: nat, k: nat)
    requires i <= j <= k <= |s|
    ensures s[i..k] == s[i..j] + s[j..k]
  {
  }

  lemma Reassemble(s: string, i: nat, j: nat, h: nat, d: nat, m: nat, n: nat, e: nat)
    requires i <= j <= h < d <= m <= n <= e <= |s|
    ensures s[i..e] == s[i..j] + s[j..h] + s[h..h + 1] + s[h + 1..d] + s[d..m] + s[m..n] + s[n..e]
  {
    Join(s, i, j, h);
    Join(s, i, h, h + 1);
    Join(s, i, h + 1, d);
    Join(s, i, d, m);
    Join(s, i, m, n);
    Join(s, i, n, e);
  }

  /** The parts cut out of a laid-out match satisfy their classes. */
  lemma PartsValid(s: string, secure: bool, j: nat, h: nat, d: nat, n: nat, q: Option<string>)
    requires HostPathShape(s, j, h, d, n) && (q.Some? ==> AllIn(q.value, Query))
    ensures ValidManifest(ManifestUrl(secure, s[j..h], s[h + 1..d], s[d..n - |Suffix|], q))
  {
    SliceAllIn(s, j, h, Host);
    SliceAllIn(s, h + 1, d, Path);
    SliceAllIn(s, d, n - |Suffix|, Host);
    if d > h + 1 {
      assert s[h + 1..d][d - h - 2] == s[d - 1];
    }
  }

  /** The parts cut out of a laid-out match render back to the match. */
  lemma PartsRender(s: string, i: nat, secure: bool, j: nat, h: nat, d: nat, n: nat, e: nat, q: Option<string>)
    requires j == i + |SchemeText(secure)| && j < h && h + 1 <= d && d + |Suffix| < n <= e <= |s|
    requires s[i..j] == SchemeText(secure) && s[h] == '/' && SuffixAt(s, n) && s[n..e] == QueryText(q)
    ensures Render(ManifestUrl(secure, s[j..h], s[h + 1..d], s[d..n - |Suffix|], q)) == s[i..e]
  {
    Reassemble(s, i, j, h, d, n - |Suffix|, n, e);
    SuffixAtIff(s, n);
    assert s[h..h + 1] == "/";
  }

  /** Text laid out as the steps of a match reads is a manifest URL. */
  lemma Assemble(s: string, i: nat, secure: bool, j: nat, h: nat, d: nat, n: nat, e: nat, q: Option<string>)
    returns (u: ManifestUrl)
    requires j == i + |SchemeText(secure)| <= |s| && s[i..j] == SchemeText(secure)
    requires HostPathShape(s, j, h, d, n) && n <= e <= |s|
    requires s[n..e] == QueryText(q) && (q.Some? ==> AllIn(q.value, Query))
    ensures ValidManifest(u) && Render(u) == s[i..e]
  {
    PartsValid(s, secure, j, h, d, n, q);
    PartsRender(s, i, secure, j, h, d, n, e, q);
    u := ManifestUrl(secure, s[j..h], s[h + 1..d], s[d..n - |Suffix|], q);
  }

  /** A match found at `i` is a manifest URL: its parts satisfy the character
      classes of the pattern and reassemble to exactly the matched text. */
  lemma MatchAtIsManifest(s: string, i: nat) returns (u: ManifestUrl)
    requires i <= |s| && MatchAt(s, i).Some?
    ensures ValidManifest(u) && Render(u) == s[i..MatchAt(s, i).value]
  {
    var secure, j, h, d, n := MatchSteps(s, i);
    var q := QueryParts(s, n);
    u := Assemble(s, i, secure, j, h, d, n, QueryEnd(s, n), q);
  }

  /** Everything `FindAll` reports is a manifest URL. */
  lemma FindAllSound(text: string)
    ensures forall m :: m in FindAll(text) ==> exists u :: ValidManifest(u) && Render(u) == m
  {
    var a := Attempts(text);
    var spans := Scan(a, 0);
    ScanMatches(a, 0);
    forall m | m in FindAll(text) ensures exists u :: ValidManifest(u) && Render(u) == m {
      var k :| 0 <= k < |FindAll(text)| && FindAll(text)[k] == m;
      assert a[spans[k].start] == MatchAt(text, spans[k].start);
      var u := MatchAtIsManifest(text, spans[k].start);
    }
  }

  /** A position where the pattern matches is never skipped: it lies inside
      some match that `FindAll` reports. */
  lemma FindAllMissesNothing(text: string, p: nat) returns (k: nat)
    requires p < |text| && MatchAt(text, p).Some?
    ensures k < |FindAll(text)|
    ensures Scan(Attempts(text), 0)[k].start <= p < Scan(Attempts(text), 0)[k].end
  {
    k := ScanCovers(Attempts(text), 0, p);
  }

  // ---------------------------------------------------------------------
  // Completeness: a manifest URL in the text is extracted exactly.

  lemma {:induction false} RunEndIs(s: string, i: nat, e: nat, cl: CharClass)
    requires i <= e <= |s| && InRange(s, i, e, cl)
    requires e == |s| || !InClass(s[e], cl)
    ensures RunEnd(s, i, cl) == e
    decreases e - i
  {
    if i < e {
      assert InClass(s[i], cl);
      RunEndIs(s, i + 1, e, cl);
    }
  }

  /** Directory ends that do not follow a `/` are passed over. */
  lemma {:induction false} PathSplitSkips(s: string, p0: nat, g: nat, d: nat)
    requires p0 <= d <= g <= |s| && InRange(s, d, g, Host)
    ensures PathSplit(s, p0, g) == PathSplit(s, p0, d)
    decreases g
  {
    if g > d && g >= p0 + 2 {
      assert InClass(s[g - 1], Host);
      PathSplitSkips(s, p0, g - 1, d);
    }
  }

  lemma SchemeOf(x: string, i: nat, secure: bool)
    requires i + |SchemeText(secure)| <= |x| && x[i..i + |SchemeText(secure)|] == SchemeText(secure)
    ensures SchemeEnd(x, i) == Some(i + |SchemeText(secure)|)
  {
    var y := x[i..];
    if secure {
      assert "https://" <= y;
    } else {
      assert y[4] == ':';
      assert "http://" <= y;
    }
  }

  /** Host characters are path characters. */
  lemma HostInPath(s: string, i: nat, j: nat)
    requires i <= j <= |s| && InRange(s, i, j, Host)
    ensures InRange(s, i, j, Path)
  {
    forall k | i <= k < j ensures InClass(s[k], Path) {
      assert InClass(s[k], Host);
    }
  }

  /** A path made of a directory part and a name ending in `.m3u8`, followed
      by a character outside the path class, is divided exactly there. */
  lemma PathSplitOf(x: string, p0: nat, d: nat, n: nat)
    requires PathShape(x, p0, d, n) && (n == |x| || !InClass(x[n], Path))
    ensures PathSplit(x, p0, RunEnd(x, p0, Path)) == Some(Split(d, n))
  {
    HostInPath(x, d, n);
    RunEndIs(x, p0, n, Path);
    RunEndIs(x, d, n, Host);
    assert NameEnd(x, d) == Some(n);
    PathSplitSkips(x, p0, n, d);
  }

  lemma QueryOf(x: string, n: nat, e: nat)
    requires QueryShape(x, n, e)
    ensures QueryEnd(x, n) == e
  {
    if e > n {
      RunEndIs(x, n + 1, e, Query);
    }
  }

  /** The path and query steps succeed on text laid out as a path and a query. */
  lemma PathAndQueryOf(x: string, p0: nat, d: nat, n: nat, e: nat)
    requires PathShape(x, p0, d, n) && QueryShape(x, n, e)
    ensures PathAndQuery(x, p0) == Some(e)
  {
    PathSplitOf(x, p0, d, n);
    QueryOf(x, n, e);
  }

  /** The host, path and query steps succeed on text laid out as them. */
  lemma HostAndRestOf(x: string, j: nat, h: nat, d: nat, n: nat, e: nat)
    requires HostPathShape(x, j, h, d, n) && QueryShape(x, n, e)
    ensures HostAndRest(x, j) == Some(e)
  {
    RunEndIs(x, j, h, Host);
    PathAndQueryOf(x, h + 1, d, n, e);
  }

  lemma MatchAtFrom(x: string, i: nat, j: nat, e: nat)
    requires i <= |x| && SchemeEnd(x, i) == Some(j) && HostAndRest(x, j) == Some(e)
    ensures MatchAt(x, i) == Some(e)
  {
  }

  /** Every step of the pattern succeeds on text laid out as a manifest URL. */
  lemma MatchAtOf(x: string, i: nat, secure: bool, j: nat, h: nat, d: nat, n: nat, e: nat)
    requires LaidOut(x, i, secure, j, h, d, n, e)
    ensures MatchAt(x, i) == Some(e)
  {
    SchemeOf(x, i, secure);
    HostAndRestOf(x, j, h, d, n, e);
    MatchAtFrom(x, i, j, e);
  }

  /** What may follow a manifest URL without extending it. */
  predicate Ends(u: ManifestUrl, post: string)
  {
    post == [] ||
    (u.query.Some? && !InClass(post[0], Query)) ||
    (u.query.None? && !InClass(post[0], Path) && post[0] != '?')
  }

  /** A slice of a prefix is a slice of the whole. */
  lemma PrefixSlice(s: string, m: nat, i: nat, j: nat)
    requires i <= j <= m <= |s|
    ensures s[..m][i..j] == s[i..j]
  {
  }

  /** Where the parts of a rendered manifest URL sit in it. */
  lemma RenderSlices(u: ManifestUrl) returns (a0: nat, a1: nat, a2: nat, a3: nat, a4: nat)
    ensures a0 == |SchemeText(u.secure)| && a1 == a0 + |u.host| && a2 == a1 + 1 + |u.dir|
    ensures a3 == a2 + |u.name| && a4 == a3 + |Suffix| && a4 + |QueryText(u.query)| == |Render(u)|
    ensures Render(u)[..a0] == SchemeText(u.secure) && Render(u)[a0..a1] == u.host && Render(u)[a1] == '/'
    ensures Render(u)[a1 + 1..a2] == u.dir && Render(u)[a2..a3] == u.name
    ensures Render(u)[a3..a4] == Suffix && Render(u)[a4..] == QueryText(u.query)
  {
    var r := Render(u);
    var l1 := SchemeText(u.secure) + u.host;
    var l2 := l1 + "/";
    var l3 := l2 + u.dir;
    var l4 := l3 + u.name;
    var l5 := l4 + Suffix;
    assert r == l5 + QueryText(u.query);
    a0, a1, a2, a3, a4 := |SchemeText(u.secure)|, |l1|, |l3|, |l4|, |l5|;
    assert r[..a4] == l5;
    PrefixSlice(r, a4, a3, a4);
    PrefixSlice(r, a4, a2, a3);
    PrefixSlice(r, a4, a1 + 1, a2);
    PrefixSlice(r, a4, a0, a1);
    PrefixSlice(r, a4, 0, a0);
    assert l5[a3..a4] == Suffix;
    assert l5[a2..a3] == u.name by { assert l5[..a3] == l4; PrefixSlice(l5, a3, a2, a3); }
    assert l5[a1 + 1..a2] == u.dir by { assert l5[..a2] == l3; PrefixSlice(l5, a2, a1 + 1, a2); }
    assert l5[a0..a1] == u.host by { assert l5[..a1] == l1; PrefixSlice(l5, a1, a0, a1); }
    assert l5[..a0] == SchemeText(u.secure) by { assert l5[..a1] == l1; PrefixSlice(l5, a1, 0, a0); }
    assert l5[a1] == '/' by { assert l5[..a1 + 1] == l2; }
  }

  /** A slice of the middle part of `a + b + c`. */
  lemma InfixSlice(a: string, b: string, c: string, i: nat, j: nat)
    requires i <= j <= |b|
    ensures (a + b + c)[|a| + i..|a| + j] == b[i..j]
  {
  }

  /** The parts of `r` as they sit in `pre + r + post`. */
  lemma Layout(x: string, pre: string, r: string, post: string, a0: nat, a1: nat, a2: nat, a3: nat, a4: nat)
    requires x == pre + r + post
    requires a0 <= a1 < a2 <= a3 <= a4 <= |r|
    ensures x[|pre|..|pre| + a0] == r[..a0] && x[|pre| + a0..|pre| + a1] == r[a0..a1] && x[|pre| + a1] == r[a1]
    ensures x[|pre| + a1 + 1..|pre| + a2] == r[a1 + 1..a2] && x[|pre| + a2..|pre| + a3] == r[a2..a3]
    ensures x[|pre| + a3..|pre| + a4] == r[a3..a4] && x[|pre| + a4..|pre| + |r|] == r[a4..]
    ensures x[|pre| + |r|..] == post
  {
    InfixSlice(pre, r, post, 0, a0);
    InfixSlice(pre, r, post, a0, a1);
    InfixSlice(pre, r, post, a1 + 1, a2);
    InfixSlice(pre, r, post, a2, a3);
    InfixSlice(pre, r, post, a3, a4);
    InfixSlice(pre, r, post, a4, |r|);
  }

  /** Positions of the parts of `pre + r + post` when `r` has the layout
      of `u`. */
  lemma InfixLayout(x: string, pre: string, r: string, post: string, u: ManifestUrl, a0: nat, a1: nat, a2: nat, a3: nat, a4: nat)
    returns (j: nat, h: nat, d: nat, n: nat, e: nat)
    requires x == pre + r + post
    requires a0 == |SchemeText(u.secure)| && a1 == a0 + |u.host| && a2 == a1 + 1 + |u.dir|
    requires a3 == a2 + |u.name| && a4 == a3 + |Suffix| && a4 + |QueryText(u.query)| == |r|
    requires r[..a0] == SchemeText(u.secure) && r[a0..a1] == u.host && r[a1] == '/'
    requires r[a1 + 1..a2] == u.dir && r[a2..a3] == u.name
    requires r[a3..a4] == Suffix && r[a4..] == QueryText(u.query)
    ensures j == |pre| + |SchemeText(u.secure)| && h == j + |u.host| && d == h + 1 + |u.dir|
    ensures n == d + |u.name| + |Suffix| && e == n + |QueryText(u.query)| && e == |pre| + |r|
    ensures |x| == e + |post|
    ensures x[|pre|..j] == SchemeText(u.secure) && x[j..h] == u.host && x[h] == '/'
    ensures x[h + 1..d] == u.dir && x[d..n - |Suffix|] == u.name
    ensures x[n - |Suffix|..n] == Suffix && x[n..e] == QueryText(u.query) && x[e..] == post
  {
    Layout(x, pre, r, post, a0, a1, a2, a3, a4);
    j, h, d, n, e := |pre| + a0, |pre| + a1, |pre| + a2, |pre| + a4, |pre| + |r|;
  }

  /** A slice equal to a string all in `cl` is a range all in `cl`. */
  lemma RangeOfSlice(x: string, i: nat, j: nat, t: string, cl: CharClass)
    requires i <= j <= |x| && x[i..j] == t && AllIn(t, cl)
    ensures InRange(x, i, j, cl)
  {
    forall k | i <= k < j ensures InClass(x[k], cl) {
      assert x[k] == t[k - i];
    }
  }

  /** The host and path of a rendered manifest URL, read off the text around
      it, have the shape the path step reads. */
  lemma RenderedHostPath(x: string, u: ManifestUrl, j: nat, h: nat, d: nat, n: nat)
    requires ValidManifest(u)
    requires h == j + |u.host| && d == h + 1 + |u.dir| && n == d + |u.name| + |Suffix| <= |x|
    requires x[j..h] == u.host && x[h] == '/'
    requires x[h + 1..d] == u.dir && x[d..n - |Suffix|] == u.name && x[n - |Suffix|..n] == Suffix
    ensures HostPathShape(x, j, h, d, n)
  {
    RangeOfSlice(x, j, h, u.host, Host);
    if u.dir != [] {
      RangeOfSlice(x, h + 1, d, u.dir, Path);
      assert x[d - 1] == x[h + 1..d][|u.dir| - 1];
    }
    RangeOfSlice(x, d, n - |Suffix|, u.name, Host);
    SuffixAtIff(x, n);
    forall k | d <= k < n ensures InClass(x[k], Host) {
      if k >= n - |Suffix| {
        assert x[k] == x[n - |Suffix|..n][k - (n - |Suffix|)];
      }
    }
  }

  /** The query of a rendered manifest URL, read off the text around it, has
      the shape the query step reads, up to the character after it. */
  lemma RenderedQuery(x: string, u: ManifestUrl, post: string, n: nat, e: nat)
    requires ValidManifest(u) && Ends(u, post)
    requires e == n + |QueryText(u.query)| && |x| == e + |post|
    requires x[n..e] == QueryText(u.query) && x[e..] == post
    ensures QueryShape(x, n, e)
  {
    if e < |x| {
      assert x[e] == x[e..][0] == post[0];
    }
    if u.query.Some? {
      assert x[n..e] == "?" + u.query.value;
      assert x[n] == x[n..e][0];
      assert x[n + 1..e] == x[n..e][1..];
      RangeOfSlice(x, n + 1, e, u.query.value, Query);
    }
  }

  /** The character classes of the parts of a rendered manifest URL, read off
      the text around it. */
  lemma RenderedChars(x: string, pre: string, u: ManifestUrl, post: string, j: nat, h: nat, d: nat, n: nat, e: nat)
    requires ValidManifest(u) && Ends(u, post)
    requires j == |pre| + |SchemeText(u.secure)| && h == j + |u.host| && d == h + 1 + |u.dir|
    requires n == d + |u.name| + |Suffix| && e == n + |QueryText(u.query)| && |x| == e + |post|
    requires x[j..h] == u.host && x[h] == '/'
    requires x[h + 1..d] == u.dir && x[d..n - |Suffix|] == u.name
    requires x[n - |Suffix|..n] == Suffix && x[n..e] == QueryText(u.query) && x[e..] == post
    ensures HostPathShape(x, j, h, d, n) && QueryShape(x, n, e)
  {
    RenderedHostPath(x, u, j, h, d, n);
    SuffixAtIff(x, n);
    RenderedQuery(x, u, post, n, e);
  }

  /** The layout of `pre + r + post`, when `r` has the layout of `u`, in the
      terms the steps of the pattern read. */
  lemma InfixFacts(x: string, pre: string, r: string, post: string, u: ManifestUrl, a0: nat, a1: nat, a2: nat, a3: nat, a4: nat)
    returns (j: nat, h: nat, d: nat, n: nat, e: nat)
    requires x == pre + r + post
    requires ValidManifest(u) && Ends(u, post)
    requires a0 == |SchemeText(u.secure)| && a1 == a0 + |u.host| && a2 == a1 + 1 + |u.dir|
    requires a3 == a2 + |u.name| && a4 == a3 + |Suffix| && a4 + |QueryText(u.query)| == |r|
    requires r[..a0] == SchemeText(u.secure) && r[a0..a1] == u.host && r[a1] == '/'
    requires r[a1 + 1..a2] == u.dir && r[a2..a3] == u.name
    requires r[a3..a4] == Suffix && r[a4..] == QueryText(u.query)
    ensures e == |pre| + |r| && LaidOut(x, |pre|, u.secure, j, h, d, n, e)
  {
    j, h, d, n, e := InfixLayout(x, pre, r, post, u, a0, a1, a2, a3, a4);
    RenderedChars(x, pre, u, post, j, h, d, n, e);
  }

  /** A manifest URL followed by a character that cannot extend it is matched,
      from its first character, exactly to its last (`e`). */
  lemma MatchAtRendered(x: string, pre: string, u: ManifestUrl, post: string, e: nat)
    requires x == pre + Render(u) + post && e == |pre| + |Render(u)|
    requires ValidManifest(u) && Ends(u, post)
    ensures MatchAt(x, |pre|) == Some(e)
  {
    var a0, a1, a2, a3, a4 := RenderSlices(u);
    var j, h, d, n, e' := InfixFacts(x, pre, Render(u), post, u, a0, a1, a2, a3, a4);
    MatchAtOf(x, |pre|, u.secure, j, h, d, n, e);
  }

  // ---------------------------------------------------------------------
  // Extraction from surrounding text.

  /** Both schemes begin with `http`. */
  lemma SchemesStartWithHttp(y: string)
    ensures "https://" <= y ==> "http" <= y
    ensures "http://" <= y ==> "http" <= y
  {
    if "https://" <= y {
      assert y[..4] == "https://"[..4];
    }
    if "http://" <= y {
      assert y[..4] == "http://"[..4];
    }
  }

  /** No match starts where `http` does not. */
  lemma NoMatchWithoutHttp(x: string, i: nat)
    requires i <= |x| && !("http" <= x[i..])
    ensures MatchAt(x, i) == None
  {
    SchemesStartWithHttp(x[i..]);
  }

  /** Before position `m`, where `http` starts, text free of `http` has no
      `http` starting in it, not even one that runs into position `m`. */
  lemma HttpNotInside(x: string, m: nat, i: nat)
    requires i + 4 <= m <= |x| && !("http" <= x[..m][i..])
    ensures !("http" <= x[i..])
  {
    assert x[i..][..4] == x[..m][i..][..4];
  }

  lemma HttpNotAcross(x: string, m: nat, i: nat)
    requires i < m < i + 4 && m < |x| && x[m] == 'h'
    ensures !("http" <= x[i..])
  {
    var t := m - i;
    assert x[i..][t] == 'h';
    assert "http"[t] != 'h';
  }

  lemma HttpNotIn(x: string, m: nat, i: nat)
    requires i < m <= |x| && !Contains(x[..m], "http") && "http" <= x[m..]
    ensures !("http" <= x[i..])
  {
    if i + 4 <= m {
      NotContainsAt(x[..m], "http", i);
      HttpNotInside(x, m, i);
    } else {
      assert x[m] == x[m..][0];
      HttpNotAcross(x, m, i);
    }
  }

  /** A manifest URL starts with `http`. */
  lemma RenderStartsWithHttp(u: ManifestUrl, post: string)
    ensures "http" <= Render(u) + post
  {
    var a0, a1, a2, a3, a4 := RenderSlices(u);
    var r := Render(u) + post;
    assert r[..a0] == SchemeText(u.secure);
    assert r[..4] == SchemeText(u.secure)[..4];
  }

  /** The attempts before `m`, where `http` starts, all fail when the text
      before `m` is free of `http`. */
  lemma AttemptsBefore(x: string, m: nat)
    requires m <= |x| && !Contains(x[..m], "http") && "http" <= x[m..]
    ensures forall i :: 0 <= i < m ==> Attempts(x)[i].None?
  {
    forall i | 0 <= i < m ensures Attempts(x)[i].None? {
      HttpNotIn(x, m, i);
      NoMatchWithoutHttp(x, i);
    }
  }

  /** The attempts from `m` on all fail when the text from `m` on is free of
      `http`. */
  lemma AttemptsAfter(x: string, m: nat)
    requires m <= |x| && !Contains(x[m..], "http")
    ensures forall i :: m <= i < |x| ==> Attempts(x)[i].None?
  {
    forall i | m <= i < |x| ensures Attempts(x)[i].None? {
      NotContainsAt(x[m..], "http", i - m);
      assert x[m..][i - m..] == x[i..];
      NoMatchWithoutHttp(x, i);
    }
  }

  /** The scan of text with exactly one successful attempt, at `p`, reports
      exactly that one. */
  lemma ScanSingle(a: seq<Option<nat>>, p: nat, e: nat)
    requires Forward(a) && p < |a| && a[p] == Some(e)
    requires forall i :: 0 <= i < p ==> a[i].None?
    requires forall i :: e <= i < |a| ==> a[i].None?
    ensures Scan(a, 0) == [Span(p, e)]
  {
    ScanSkips(a, 0, p);
    ScanSkips(a, e, |a|);
    assert Scan(a, p) == [Span(p, e)] + Scan(a, e);
  }

  /** Text where the pattern matches at `p` only, up to `e`, and nowhere
      else outside that match, yields exactly that match. */
  lemma FindAllSingle(x: string, p: nat, e: nat, m: string)
    requires p < |x| && MatchAt(x, p) == Some(e) && x[p..e] == m
    requires forall i :: 0 <= i < p ==> Attempts(x)[i].None?
    requires forall i :: e <= i < |x| ==> Attempts(x)[i].None?
    ensures FindAll(x) == [m]
  {
    ScanSingle(Attempts(x), p, e);
  }

  /** Where the three parts of `pre + r + post` sit. */
  lemma ConcatParts(x: string, pre: string, r: string, post: string)
    requires x == pre + r + post
    ensures x[..|pre|] == pre && x[|pre|..] == r + post
    ensures x[|pre|..|pre| + |r|] == r && x[|pre| + |r|..] == post
  {
  }

  /** Around a match that starts with `http`, text free of `http` holds no
      other match. */
  lemma NoOtherMatch(x: string, pre: string, r: string, post: string, e: nat)
    requires x == pre + r + post && e == |pre| + |r|
    requires "http" <= r + post
    requires !Contains(pre, "http") && !Contains(post, "http")
    ensures forall i :: 0 <= i < |pre| ==> Attempts(x)[i].None?
    ensures forall i :: e <= i < |x| ==> Attempts(x)[i].None?
    ensures x[|pre|..e] == r
  {
    ConcatParts(x, pre, r, post);
    AttemptsBefore(x, |pre|);
    AttemptsAfter(x, e);
  }

  /** A match found at the end of a prefix free of `http`, followed by a
      suffix free of `http`, is the only match in the text. */
  lemma FindAllAround(x: string, pre: string, r: string, post: string, e: nat)
    requires x == pre + r + post && e == |pre| + |r|
    requires "http" <= r + post && MatchAt(x, |pre|) == Some(e)
    requires !Contains(pre, "http") && !Contains(post, "http")
    ensures FindAll(x) == [r]
  {
    NoOtherMatch(x, pre, r, post, e);
    FindAllSingle(x, |pre|, e, r);
  }

  lemma FindAllIn(x: string, pre: string, u: ManifestUrl, post: string)
    requires x == pre + Render(u) + post
    requires ValidManifest(u) && Ends(u, post)
    requires !Contains(pre, "http") && !Contains(post, "http")
    ensures FindAll(x) == [Render(u)]
  {
    var e := |pre| + |Render(u)|;
    MatchAtRendered(x, pre, u, post, e);
    RenderStartsWithHttp(u, post);
    FindAllAround(x, pre, Render(u), post, e);
  }

  /** A manifest URL between text free of `http`, followed by a character
      that cannot extend it, is the one URL found, exactly. */
  lemma FindAllEmbedded(pre: string, u: ManifestUrl, post: string)
    requires ValidManifest(u) && Ends(u, post)
    requires !Contains(pre, "http") && !Contains(post, "http")
    ensures FindAll(pre + Render(u) + post) == [Render(u)]
  {
    FindAllIn(pre + Render(u) + post, pre, u, post);
  }

  /** Scanning a manifest URL on its own gives back exactly that URL. */
  lemma FindAllRoundTrip(u: ManifestUrl)
    requires ValidManifest(u)
    ensures FindAll(Render(u)) == [Render(u)]
  {
    assert Render(u) == "" + Render(u) + "";
    FindAllIn(Render(u), "", u, "");
  }

  /** A string without the letter `t` holds no `http`. */
  lemma NoHttpWithoutT(s: string)
    requires forall k :: 0 <= k < |s| ==> s[k] != 't'
    ensures !Contains(s, "http")
  {
    if Contains(s, "http") {
      ContainsNeedsChar(s, "http", 1);
    }
  }

  /** The text a JSON page puts around the manifest URL it embeds. */
  const JsonOpen: string := "{\"hlsUrl\":\""
  const JsonClose: string := "\"}"

  /** Neither side of the JSON field holds `http`. */
  lemma JsonOpenClean()
    ensures !Contains(JsonOpen, "http")
  {
    NoHttpWithoutT(JsonOpen);
  }

  lemma JsonCloseClean()
    ensures !Contains(JsonClose, "http")
  {
    NoHttpWithoutT(JsonClose);
  }

  /** The closing quote cannot extend a URL. */
  lemma JsonCloseEnds(u: ManifestUrl)
    ensures Ends(u, JsonClose)
  {
    assert !InClass(JsonClose[0], Query) && !InClass(JsonClose[0], Path);
  }

  /** Found as a JSON string value, a manifest URL comes out whole, query
      included, and without the closing quote. */
  lemma FindAllInJson(u: ManifestUrl)
    requires ValidManifest(u)
    ensures FindAll(JsonOpen + Render(u) + JsonClose) == [Render(u)]
  {
    JsonOpenClean();
    JsonCloseClean();
    JsonCloseEnds(u);
    FindAllEmbedded(JsonOpen, u, JsonClose);
  }
}
