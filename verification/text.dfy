/** The handful of Python string operations the modelled code relies on:
    `lower`, `isspace`, `lstrip`/`strip`, `find`, `endswith`,
    `replace(pat, "")` and the substring test `a in b`. */
module Text {
  import opened Wrappers

  /** Lower-casing of one character, restricted to ASCII letters. */
  function LowerChar(c: char): char {
    if 'A' <= c <= 'Z' then (c as int + 32) as char else c
  }

  /** `s.lower()` on ASCII letters; every other character is kept. */
  function Lower(s: string): (r: string)
    ensures |r| == |s|
    ensures forall i | 0 <= i < |s| :: r[i] == LowerChar(s[i])
  {
    seq(|s|, i requires 0 <= i < |s| => LowerChar(s[i]))
  }

  /** Lower-casing twice is lower-casing once. */
  lemma LowerIdempotent(s: string)
    ensures Lower(Lower(s)) == Lower(s)
  {
  }

  /** The characters for which Python's `str.isspace` holds. */
  predicate IsSpace(c: char) {
    || '\t' <= c <= '\r'
    || '\U{1C}' <= c <= ' '
    || c == '\U{85}' || c == '\U{A0}' || c == '\U{1680}'
    || '\U{2000}' <= c <= '\U{200A}'
    || c == '\U{2028}' || c == '\U{2029}' || c == '\U{202F}'
    || c == '\U{205F}' || c == '\U{3000}'
  }

  /** `s.lstrip()`: the longest suffix of `s` that does not start with whitespace. */
  function LStrip(s: string): (r: string)
    ensures |r| <= |s| && r == s[|s| - |r|..]
    ensures forall i | 0 <= i < |s| - |r| :: IsSpace(s[i])
    ensures r == [] || !IsSpace(r[0])
  {
    if |s| > 0 && IsSpace(s[0]) then LStrip(s[1..]) else s
  }

  /** `s.rstrip()`: the longest prefix of `s` that does not end with whitespace. */
  function RStrip(s: string): (r: string)
    ensures |r| <= |s| && r == s[..|r|]
    ensures forall i | |r| <= i < |s| :: IsSpace(s[i])
    ensures r == [] || !IsSpace(r[|r| - 1])
  {
    if |s| > 0 && IsSpace(s[|s| - 1]) then RStrip(s[..|s| - 1]) else s
  }

  /** `s.strip()`: whitespace removed from both ends. */
  function Strip(s: string): string {
    RStrip(LStrip(s))
  }

  /** `s.find(c)` for a one-character needle: the first index of `c`, or
      `None` where Python returns -1. */
  function Find(s: string, c: char): (r: Option<nat>)
    ensures r.None? <==> c !in s
    ensures r.Some? ==> r.value < |s| && s[r.value] == c && c !in s[..r.value]
  {
    if |s| == 0 then None
    else if s[0] == c then Some(0)
    else
      match Find(s[1..], c)
      case None => None
      case Some(i) =>
        assert s[..i + 1] == [s[0]] + s[1..][..i];
        Some(i + 1)
  }

  /** `s.endswith(suffix)`. */
  predicate EndsWith(s: string, suffix: string) {
    |suffix| <= |s| && s[|s| - |suffix|..] == suffix
  }

  /** `s.startswith(prefix)`. */
  predicate StartsWith(s: string, prefix: string) {
    |prefix| <= |s| && s[..|prefix|] == prefix
  }

  /** Python's `needle in hay` on strings: `needle` occurs at some position of `hay`. */
  predicate IsSubstring(needle: string, hay: string)
    decreases |hay|
  {
    StartsWith(hay, needle) || (|hay| > 0 && IsSubstring(needle, hay[1..]))
  }

  /** The empty string occurs in every string. */
  lemma EmptyIsSubstring(hay: string)
    ensures IsSubstring("", hay)
  {
  }

  /** `s.replace(pat, "")`: occurrences of `pat` found left to right without
      overlap are deleted, and the text left behind is not searched again. */
  function RemoveAll(s: string, pat: string): (r: string)
    requires |pat| > 0
    ensures |r| <= |s|
    ensures forall x | x in r :: x in s
    decreases |s|
  {
    if |s| < |pat| then s
    else if s[..|pat|] == pat then RemoveAll(s[|pat|..], pat)
    else [s[0]] + RemoveAll(s[1..], pat)
  }

  /** Deleting a one-character pattern leaves no occurrence of that character. */
  lemma {:induction false} RemoveAllCharAbsent(s: string, c: char)
    ensures c !in RemoveAll(s, [c])
    decreases |s|
  {
    if |s| >= 1 {
      if s[..1] == [c] {
        RemoveAllCharAbsent(s[1..], c);
      } else {
        assert s[0] != c by { assert s[..1] == [s[0]]; }
        RemoveAllCharAbsent(s[1..], c);
      }
    }
  }

  /** `s` with every occurrence of `c` left out and the other characters
      kept in order. */
  function Without(s: string, c: char): (r: string)
    ensures c !in r
    ensures forall x | x in r :: x in s
    decreases |s|
  {
    if |s| == 0 then [] else (if s[0] == c then [] else [s[0]]) + Without(s[1..], c)
  }

  /** Filtering a concatenation filters each part. */
  lemma {:induction false} WithoutConcat(a: string, b: string, c: char)
    ensures Without(a + b, c) == Without(a, c) + Without(b, c)
    decreases |a|
  {
    if |a| > 0 {
      assert (a + b)[0] == a[0];
      assert (a + b)[1..] == a[1..] + b;
      WithoutConcat(a[1..], b, c);
    } else {
      assert a + b == b;
    }
  }

  /** Filtering out a character that does not occur changes nothing. */
  lemma {:induction false} WithoutAbsent(s: string, c: char)
    requires c !in s
    ensures Without(s, c) == s
    decreases |s|
  {
    if |s| > 0 {
      WithoutAbsent(s[1..], c);
      assert s == [s[0]] + s[1..];
    }
  }

  /** Deleting a one-character pattern is filtering that character out. */
  lemma {:induction false} RemoveAllCharIsWithout(s: string, c: char)
    ensures RemoveAll(s, [c]) == Without(s, c)
    decreases |s|
  {
    if |s| >= 1 {
      assert s[..1] == [s[0]];
      RemoveAllCharIsWithout(s[1..], c);
    }
  }

  /** `replace` passes over a prefix that holds no first character of the
      pattern. */
  lemma {:induction false} RemoveAllSkipsPrefix(p: string, q: string, pat: string)
    requires |pat| > 0 && pat[0] !in p
    ensures RemoveAll(p + q, pat) == p + RemoveAll(q, pat)
    decreases |p|
  {
    var s := p + q;
    if |p| == 0 {
      assert s == q;
    } else if |s| < |pat| {
      assert RemoveAll(q, pat) == q;
    } else {
      assert s[..|pat|] != pat by { assert s[..|pat|][0] == p[0]; }
      assert RemoveAll(s, pat) == [p[0]] + RemoveAll(p[1..] + q, pat) by {
        assert s[0] == p[0];
        assert s[1..] == p[1..] + q;
      }
      RemoveAllSkipsPrefix(p[1..], q, pat);
      var rest := RemoveAll(q, pat);
      assert [p[0]] + (p[1..] + rest) == p + rest;
    }
  }

  /** Lower-casing a concatenation lower-cases each part. */
  lemma LowerConcat(a: string, b: string)
    ensures Lower(a + b) == Lower(a) + Lower(b)
  {
  }

  /** `lstrip` removes exactly the leading whitespace: stripping whitespace
      in front of a text that does not start with whitespace gives the text. */
  lemma {:induction false} LStripSkipsLeadingSpace(ws: string, body: string)
    requires forall i | 0 <= i < |ws| :: IsSpace(ws[i])
    requires body == [] || !IsSpace(body[0])
    ensures LStrip(ws + body) == body
    decreases |ws|
  {
    if |ws| > 0 {
      assert (ws + body)[1..] == ws[1..] + body;
      LStripSkipsLeadingSpace(ws[1..], body);
    } else {
      assert ws + body == body;
    }
  }

  /** `rstrip` removes exactly the trailing whitespace. */
  lemma {:induction false} RStripSkipsTrailingSpace(body: string, ws: string)
    requires forall i | 0 <= i < |ws| :: IsSpace(ws[i])
    requires body == [] || !IsSpace(body[|body| - 1])
    ensures RStrip(body + ws) == body
    decreases |ws|
  {
    if |ws| > 0 {
      assert (body + ws)[..|body + ws| - 1] == body + ws[..|ws| - 1];
      RStripSkipsTrailingSpace(body, ws[..|ws| - 1]);
    } else {
      assert body + ws == body;
    }
  }

  /** `strip` removes exactly the whitespace around a text that neither
      starts nor ends with whitespace. */
  lemma StripSurroundingSpace(before: string, t: string, after: string)
    requires forall i | 0 <= i < |before| :: IsSpace(before[i])
    requires forall i | 0 <= i < |after| :: IsSpace(after[i])
    requires t != [] && !IsSpace(t[0]) && !IsSpace(t[|t| - 1])
    ensures Strip(before + t + after) == t
  {
    assert before + t + after == before + (t + after);
    LStripSkipsLeadingSpace(before, t + after);
    RStripSkipsTrailingSpace(t, after);
  }

  /** A text without whitespace at either end is its own `strip`. */
  lemma StripUnchanged(s: string)
    requires s == [] || (!IsSpace(s[0]) && !IsSpace(s[|s| - 1]))
    ensures Strip(s) == s
  {
  }

  /** `find` stops at the first occurrence: after a prefix without `c`, the
      `c` that follows is the one found. */
  lemma {:induction false} FindAfterPrefix(p: string, c: char, q: string)
    requires c !in p
    ensures Find(p + [c] + q, c) == Some(|p|)
    decreases |p|
  {
    var s := p + [c] + q;
    if |p| > 0 {
      assert s[0] == p[0];
      assert s[1..] == p[1..] + [c] + q;
      FindAfterPrefix(p[1..], c, q);
    }
  }
}
