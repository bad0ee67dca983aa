/** String helpers the sniffer relies on: substring search (Python's `p in s`),
    ASCII lower-casing (`str.lower`) and the escape-to-ampersand replacement
    applied to every captured URL. */
module Text {

  /** `p` occurs somewhere in `s`, as Python's `p in s`. */
  predicate Contains(s: string, p: string)
    decreases |s|
  {
    p <= s || (|s| > 0 && Contains(s[1..], p))
  }

  /** A match at position `i` is a match of `Contains`. */
  lemma {:induction false} ContainsAt(s: string, p: string, i: nat)
    requires i <= |s| && p <= s[i..]
    ensures Contains(s, p)
    decreases i
  {
    if i > 0 {
      assert s[1..][i - 1..] == s[i..];
      ContainsAt(s[1..], p, i - 1);
    }
  }

  /** Where `Contains` fails, no position holds a match. */
  lemma NotContainsAt(s: string, p: string, i: nat)
    requires i <= |s| && !Contains(s, p)
    ensures !(p <= s[i..])
  {
    if p <= s[i..] {
      ContainsAt(s, p, i);
    }
  }

  /** `Contains` finds exactly the occurrences that a position witnesses. */
  lemma {:induction false} ContainsWitness(s: string, p: string) returns (i: nat)
    requires Contains(s, p)
    ensures i <= |s| && p <= s[i..]
    decreases |s|
  {
    if p <= s {
      i := 0;
    } else {
      var k := ContainsWitness(s[1..], p);
      assert s[1..][k..] == s[k + 1..];
      i := k + 1;
    }
  }

  /** An occurrence in a prefix is an occurrence in the whole string. */
  lemma ContainsInPrefix(a: string, b: string, p: string)
    requires Contains(a, p)
    ensures Contains(a + b, p)
  {
    var i := ContainsWitness(a, p);
    assert p <= (a + b)[i..] by {
      assert forall k :: 0 <= k < |p| ==> (a + b)[i..][k] == a[i..][k];
    }
    ContainsAt(a + b, p, i);
  }

  /** Every character of an occurrence of `p` occurs in `s`. */
  lemma ContainsNeedsChar(s: string, p: string, t: nat)
    requires Contains(s, p) && t < |p|
    ensures exists k :: 0 <= k < |s| && s[k] == p[t]
  {
    var i := ContainsWitness(s, p);
    assert s[i + t] == p[t];
  }

  function LowerChar(c: char): char
  {
    if 'A' <= c <= 'Z' then (c as int + ('a' as int - 'A' as int)) as char else c
  }

  predicate IsUpper(c: char)
  {
    'A' <= c <= 'Z'
  }

  /** `c` is `d` or, for a lower-case letter `d`, its capital. */
  predicate SameLetter(c: char, d: char)
  {
    c == d || ('a' <= d <= 'z' && c as int + 32 == d as int)
  }

  /** `str.lower` restricted to the ASCII letters: no capital is left, only
      capitals change, and each character becomes one of its own case. */
  function Lower(s: string): (r: string)
    ensures |r| == |s|
    ensures forall i :: 0 <= i < |r| ==> !IsUpper(r[i])
    ensures forall i :: 0 <= i < |s| ==> (r[i] == s[i] <==> !IsUpper(s[i]))
    ensures forall i :: 0 <= i < |s| ==> SameLetter(s[i], r[i])
  {
    seq(|s|, i requires 0 <= i < |s| => LowerChar(s[i]))
  }

  /** `p` occurs at `i` in `s` when letter case is ignored. */
  predicate MatchesIgnoringCase(s: string, p: string, i: nat)
  {
    i + |p| <= |s| && forall k :: 0 <= k < |p| ==> SameLetter(s[i + k], p[k])
  }

  /** A lower-case pattern matches the lower-cased string at `i` exactly when
      it matches the string itself there, ignoring case. */
  lemma LowerMatchesAt(s: string, p: string, i: nat)
    requires forall k :: 0 <= k < |p| ==> !IsUpper(p[k])
    requires i <= |s|
    ensures p <= Lower(s)[i..] <==> MatchesIgnoringCase(s, p, i)
  {
    var l := Lower(s);
    if p <= l[i..] {
      forall k | 0 <= k < |p| ensures SameLetter(s[i + k], p[k]) {
        assert p[k] == l[i + k];
      }
    }
    if MatchesIgnoringCase(s, p, i) {
      forall k | 0 <= k < |p| ensures l[i..][k] == p[k] {
        assert SameLetter(s[i + k], p[k]);
      }
    }
  }

  /** `p` occurs somewhere in `s` when letter case is ignored. */
  predicate ContainsIgnoringCase(s: string, p: string)
  {
    exists i :: 0 <= i <= |s| && MatchesIgnoringCase(s, p, i)
  }

  /** The lower-cased string contains a lower-case pattern exactly when the
      string contains it in some mix of letter cases. */
  lemma LowerContains(s: string, p: string)
    requires forall k :: 0 <= k < |p| ==> !IsUpper(p[k])
    ensures Contains(Lower(s), p) <==> ContainsIgnoringCase(s, p)
  {
    if Contains(Lower(s), p) {
      var i := ContainsWitness(Lower(s), p);
      LowerMatchesAt(s, p, i);
    }
    if exists i :: 0 <= i <= |s| && MatchesIgnoringCase(s, p, i) {
      var i :| 0 <= i <= |s| && MatchesIgnoringCase(s, p, i);
      LowerMatchesAt(s, p, i);
      ContainsAt(Lower(s), p, i);
    }
  }

  /** The six-character escape (backslash, `u0026`) that pages embed for `&`. */
  const Escape: string := "\\u0026"

  /** `s.replace('\\u0026', '&')`: one left-to-right pass replacing every
      non-overlapping occurrence of the escape by an ampersand. */
  function Unescape(s: string): (r: string)
    ensures |r| <= |s|
    ensures |r| == 0 <==> |s| == 0
    decreases |s|
  {
    if |s| == 0 then []
    else if Escape <= s then "&" + Unescape(s[|Escape|..])
    else [s[0]] + Unescape(s[1..])
  }

  /** A prefix made of characters that the replacement never produces was
      copied from the input unchanged. */
  lemma {:induction false} UnescapeCopiesPlainPrefix(t: string, w: string)
    requires forall k :: 0 <= k < |w| ==> w[k] != '&' && w[k] != '\\'
    requires w <= Unescape(t)
    ensures w <= t
    decreases |t|
  {
    if |w| > 0 {
      assert w[0] == Unescape(t)[0] == if Escape <= t then '&' else t[0];
      if Escape <= t {
        assert false;
      } else {
        assert Unescape(t) == [t[0]] + Unescape(t[1..]);
        assert w[1..] <= Unescape(t[1..]);
        UnescapeCopiesPlainPrefix(t[1..], w[1..]);
      }
    }
  }

  /** After the replacement no escape is left: the pass cannot create one. */
  lemma {:induction false} UnescapeLeavesNoEscape(s: string)
    ensures !Contains(Unescape(s), Escape)
    decreases |s|
  {
    var r := Unescape(s);
    if |s| == 0 {
    } else if Escape <= s {
      UnescapeLeavesNoEscape(s[|Escape|..]);
      assert r[1..] == Unescape(s[|Escape|..]);
      assert r[0] == '&';
    } else {
      UnescapeLeavesNoEscape(s[1..]);
      assert r[1..] == Unescape(s[1..]);
      if Escape <= r {
        assert Escape[1..] <= Unescape(s[1..]);
        UnescapeCopiesPlainPrefix(s[1..], Escape[1..]);
      }
    }
  }

  /** The replacement changes a string exactly when it holds the escape, so
      applying it twice is the same as applying it once. */
  lemma {:induction false} UnescapeFixedPoint(s: string)
    ensures Unescape(s) == s <==> !Contains(s, Escape)
    decreases |s|
  {
    if |s| == 0 {
    } else if Escape <= s {
      assert |Unescape(s)| < |s| by {
        assert |Unescape(s[|Escape|..])| <= |s| - |Escape|;
      }
    } else {
      UnescapeFixedPoint(s[1..]);
      assert s == [s[0]] + s[1..];
    }
  }

  /** Replacing twice gives the same string as replacing once. */
  lemma UnescapeIdempotent(s: string)
    ensures Unescape(Unescape(s)) == Unescape(s)
  {
    UnescapeLeavesNoEscape(s);
    UnescapeFixedPoint(Unescape(s));
  }

  /** `b` does not start with a character that the escape holds after its
      backslash, so no escape can begin in front of `b` and run into it. */
  predicate CleanStart(b: string)
  {
    b == [] || b[0] !in Escape[1..]
  }

  /** In front of a clean start, an escape begins the whole string exactly
      when it begins the front part. */
  lemma EscapeAtFront(a: string, b: string)
    requires a != [] && CleanStart(b)
    ensures Escape <= a + b <==> Escape <= a
  {
    if |a| >= |Escape| {
      assert (a + b)[..|Escape|] == a[..|Escape|];
    } else if b != [] {
      assert (a + b)[|a|] == b[0];
      assert Escape[|a|] in Escape[1..];
    }
  }

  /** The replacement works piecewise across a clean start. */
  lemma {:induction false} UnescapeAppend(a: string, b: string)
    requires CleanStart(b)
    ensures Unescape(a + b) == Unescape(a) + Unescape(b)
    decreases |a|
  {
    if a == [] {
      assert a + b == b;
    } else {
      EscapeAtFront(a, b);
      if Escape <= a {
        assert (a + b)[|Escape|..] == a[|Escape|..] + b;
        UnescapeAppend(a[|Escape|..], b);
      } else {
        assert (a + b)[1..] == a[1..] + b;
        UnescapeAppend(a[1..], b);
      }
    }
  }

  /** A URL whose ampersand is written as the escape and the same URL written
      with a literal ampersand become the same string. */
  lemma EscapedAndLiteralAgree(front: string, back: string)
    ensures Unescape(front + Escape + back) == Unescape(front + "&" + back)
  {
    assert front + Escape + back == front + (Escape + back);
    assert front + "&" + back == front + ("&" + back);
    UnescapeAppend(front, Escape + back);
    UnescapeAppend(front, "&" + back);
    assert (Escape + back)[|Escape|..] == back;
    assert ("&" + back)[1..] == back;
  }

  /** The replacement leaves a string without a backslash as it is. */
  lemma UnescapeWithoutBackslash(s: string)
    requires forall k :: 0 <= k < |s| ==> s[k] != '\\'
    ensures Unescape(s) == s
  {
    if Contains(s, Escape) {
      ContainsNeedsChar(s, Escape, 0);
    }
    UnescapeFixedPoint(s);
  }
}
