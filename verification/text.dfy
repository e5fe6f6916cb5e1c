/** String primitives the fence-stripping code relies on, with the meaning they
    have in ECMAScript: `String.prototype.trim`, `startsWith`, `endsWith` and
    `substring`. Strings are sequences of characters. */
module Text {

  /** The characters `String.prototype.trim` removes: ECMAScript WhiteSpace
      (tab, vertical tab, form feed, space, no-break space, byte order mark and
      the Unicode space separators) and LineTerminator (LF, CR, LS, PS). */
  const WhitespaceChars: set<char> := {
    '\t', '\n', '\U{000B}', '\U{000C}', '\r', ' ', '\U{00A0}', '\U{1680}',
    '\U{2000}', '\U{2001}', '\U{2002}', '\U{2003}', '\U{2004}', '\U{2005}',
    '\U{2006}', '\U{2007}', '\U{2008}', '\U{2009}', '\U{200A}',
    '\U{2028}', '\U{2029}', '\U{202F}', '\U{205F}', '\U{3000}', '\U{FEFF}'
  }

  predicate IsWhitespace(c: char) {
    c in WhitespaceChars
  }

  /** Printable ASCII other than space: none of it is whitespace. */
  predicate IsVisible(c: char) {
    '!' <= c <= '~'
  }

  lemma VisibleIsNotWhitespace(c: char)
    requires IsVisible(c)
    ensures !IsWhitespace(c)
  {
    assert forall w | w in WhitespaceChars :: !IsVisible(w);
  }

  /** A string that starts and ends with visible characters is trimmed. */
  lemma VisibleEndsTrimmed(s: string)
    requires s != [] ==> IsVisible(s[0]) && IsVisible(s[|s| - 1])
    ensures Trimmed(s)
  {
    if s != [] {
      VisibleIsNotWhitespace(s[0]);
      VisibleIsNotWhitespace(s[|s| - 1]);
    }
  }

  predicate AllWhitespace(s: string) {
    forall i :: 0 <= i < |s| ==> IsWhitespace(s[i])
  }

  lemma WhitespaceJoin(a: string, b: string)
    requires AllWhitespace(a) && AllWhitespace(b)
    ensures AllWhitespace(a + b)
  {
    forall i | 0 <= i < |a + b|
      ensures IsWhitespace((a + b)[i])
    {
      if i < |a| {
        assert (a + b)[i] == a[i];
      } else {
        assert (a + b)[i] == b[i - |a|];
      }
    }
  }

  /** Neither end of `s` is whitespace: the shape every trimmed string has. */
  predicate Trimmed(s: string) {
    s == [] || (!IsWhitespace(s[0]) && !IsWhitespace(s[|s| - 1]))
  }

  predicate StartsWith(s: string, prefix: string) {
    |prefix| <= |s| && s[..|prefix|] == prefix
  }

  predicate EndsWith(s: string, suffix: string) {
    |suffix| <= |s| && s[|s| - |suffix|..] == suffix
  }

  /** `startsWith` compares the prefix character by character against the
      front of the string; anything glued after a prefix keeps it. */
  lemma StartsWithMeaning(s: string, prefix: string)
    ensures StartsWith(s, prefix) <==>
      |prefix| <= |s| && forall i :: 0 <= i < |prefix| ==> s[i] == prefix[i]
    ensures StartsWith(prefix + s, prefix)
  {
    if |prefix| <= |s| && forall i :: 0 <= i < |prefix| ==> s[i] == prefix[i] {
      assert s[..|prefix|] == prefix;
    }
    assert (prefix + s)[..|prefix|] == prefix;
  }

  /** `endsWith` compares the suffix character by character against the
      back of the string; anything glued before a suffix keeps it. */
  lemma EndsWithMeaning(s: string, suffix: string)
    ensures EndsWith(s, suffix) <==>
      |suffix| <= |s| && forall i :: 0 <= i < |suffix| ==> s[|s| - |suffix| + i] == suffix[i]
    ensures EndsWith(s + suffix, suffix)
  {
    if |suffix| <= |s| && forall i :: 0 <= i < |suffix| ==> s[|s| - |suffix| + i] == suffix[i] {
      assert s[|s| - |suffix|..] == suffix;
    }
    var t := s + suffix;
    assert t[|t| - |suffix|..] == suffix;
  }

  function Clamp(x: int, len: nat): (r: nat)
    ensures r <= len
    ensures 0 <= x <= len ==> r == x
  {
    if x < 0 then 0 else if x > len then len else x
  }

  /** `s.substring(start, end)`: both arguments are clamped into [0, |s|]
      and swapped when out of order, so the call never fails. */
  function Substring(s: string, start: int, end: int): (r: string)
    ensures |r| <= |s|
    ensures 0 <= start <= end <= |s| ==> r == s[start..end]
    ensures 0 <= end <= start <= |s| ==> r == s[end..start]
    ensures start <= 0 && |s| <= end ==> r == s
  {
    var a := Clamp(start, |s|);
    var b := Clamp(end, |s|);
    if a <= b then s[a..b] else s[b..a]
  }

  /** `s.substring(start)`, which reads the end as the string's length. */
  function SubstringFrom(s: string, start: int): (r: string)
    ensures 0 <= start <= |s| ==> r == s[start..]
    ensures |s| < start ==> r == []
  {
    Substring(s, start, |s|)
  }

  /** Leading whitespace removed: the result is a suffix of `s`, everything
      cut off is whitespace, and the result does not start with whitespace. */
  function TrimStart(s: string): (r: string)
    ensures |r| <= |s| && r == s[|s| - |r|..]
    ensures AllWhitespace(s[..|s| - |r|])
    ensures r == [] || !IsWhitespace(r[0])
  {
    if |s| > 0 && IsWhitespace(s[0]) then
      var q := s[1..];
      var r := TrimStart(q);
      assert q[|q| - |r|..] == s[|s| - |r|..];
      assert s[..|s| - |r|] == [s[0]] + q[..|q| - |r|];
      WhitespaceJoin([s[0]], q[..|q| - |r|]);
      r
    else
      assert s[..0] == [];
      s
  }

  /** Trailing whitespace removed: the result is a prefix of `s`, everything
      cut off is whitespace, and the result does not end with whitespace. */
  function TrimEnd(s: string): (r: string)
    ensures |r| <= |s| && r == s[..|r|]
    ensures AllWhitespace(s[|r|..])
    ensures r == [] || !IsWhitespace(r[|r| - 1])
  {
    if |s| > 0 && IsWhitespace(s[|s| - 1]) then
      var p := s[..|s| - 1];
      var r := TrimEnd(p);
      assert s[|r|..] == p[|r|..] + [s[|s| - 1]];
      WhitespaceJoin(p[|r|..], [s[|s| - 1]]);
      r
    else
      s
  }

  /** `String.prototype.trim`. */
  function Trim(s: string): (r: string)
    ensures |r| <= |s|
    ensures Trimmed(r)
    ensures r == [] <==> AllWhitespace(s)
  {
    var t := TrimStart(s);
    assert t != [] ==> !AllWhitespace(s) by {
      if t != [] {
        assert t[0] == s[|s| - |t|];
      }
    }
    assert t == [] ==> AllWhitespace(s) by {
      if t == [] {
        assert s[..|s|] == s;
      }
    }
    var r := TrimEnd(t);
    assert r == [] ==> AllWhitespace(t) by {
      if r == [] {
        assert t[0..] == t;
      }
    }
    r
  }

  lemma {:induction false} TrimStartExact(s: string, lo: nat)
    requires lo <= |s|
    requires AllWhitespace(s[..lo])
    requires lo == |s| || !IsWhitespace(s[lo])
    ensures TrimStart(s) == s[lo..]
    decreases lo
  {
    if lo > 0 {
      assert IsWhitespace(s[..lo][0]);
      assert s[1..][..lo - 1] == s[1..lo];
      assert forall i :: 0 <= i < lo - 1 ==> s[1..lo][i] == s[..lo][i + 1];
      TrimStartExact(s[1..], lo - 1);
      assert s[1..][lo - 1..] == s[lo..];
    }
  }

  lemma {:induction false} TrimEndExact(s: string, hi: nat)
    requires hi <= |s|
    requires AllWhitespace(s[hi..])
    requires hi == 0 || !IsWhitespace(s[hi - 1])
    ensures TrimEnd(s) == s[..hi]
    decreases |s| - hi
  {
    if hi < |s| {
      assert IsWhitespace(s[hi..][|s| - 1 - hi]);
      var p := s[..|s| - 1];
      assert p[hi..] == s[hi..|s| - 1];
      assert forall i :: 0 <= i < |p| - hi ==> p[hi..][i] == s[hi..][i];
      TrimEndExact(p, hi);
      assert p[..hi] == s[..hi];
    }
  }

  /** Trim is characterised by its cut points: whatever slice `s[lo..hi]`
      has only whitespace around it and no whitespace at its ends is exactly
      what `trim` returns. */
  lemma TrimExact(s: string, lo: nat, hi: nat)
    requires lo <= hi <= |s|
    requires AllWhitespace(s[..lo]) && AllWhitespace(s[hi..])
    requires lo < hi ==> !IsWhitespace(s[lo]) && !IsWhitespace(s[hi - 1])
    ensures Trim(s) == s[lo..hi]
  {
    if lo < hi {
      TrimAroundText(s, lo, hi);
    } else {
      BlankTrimsToNothing(s, lo);
    }
  }

  lemma TrimAroundText(s: string, lo: nat, hi: nat)
    requires lo < hi <= |s|
    requires AllWhitespace(s[..lo]) && AllWhitespace(s[hi..])
    requires !IsWhitespace(s[lo]) && !IsWhitespace(s[hi - 1])
    ensures TrimEnd(TrimStart(s)) == s[lo..hi]
  {
    TrimStartExact(s, lo);
    TrimEndOfSuffix(s, lo, hi);
  }

  /** Once the leading whitespace is gone, trimming the end leaves the
      text between the cut points. */
  lemma TrimEndOfSuffix(s: string, lo: nat, hi: nat)
    requires lo < hi <= |s|
    requires AllWhitespace(s[hi..]) && !IsWhitespace(s[hi - 1])
    ensures TrimEnd(s[lo..]) == s[lo..hi]
  {
    var t := s[lo..];
    SuffixSlices(s, lo, hi);
    assert AllWhitespace(t[hi - lo..]);
    TrimEndExact(t, hi - lo);
  }

  /** How the slices of a suffix `s[lo..]` sit in `s`. */
  lemma SuffixSlices(s: string, lo: nat, hi: nat)
    requires lo < hi <= |s|
    ensures s[lo..][hi - lo..] == s[hi..]
    ensures s[lo..][hi - lo - 1] == s[hi - 1]
    ensures s[lo..][..hi - lo] == s[lo..hi]
  {
  }

  lemma BlankTrimsToNothing(s: string, k: nat)
    requires k <= |s|
    requires AllWhitespace(s[..k]) && AllWhitespace(s[k..])
    ensures Trim(s) == []
  {
    forall i | 0 <= i < |s|
      ensures IsWhitespace(s[i])
    {
      if i < k {
        assert s[..k][i] == s[i];
      } else {
        assert s[k..][i - k] == s[i];
      }
    }
  }

  /** Trim returns a slice of its input with only whitespace cut away on
      either side: the middle is left untouched. */
  lemma TrimSlice(s: string) returns (lo: nat, hi: nat)
    ensures lo <= hi <= |s|
    ensures Trim(s) == s[lo..hi]
    ensures AllWhitespace(s[..lo]) && AllWhitespace(s[hi..])
  {
    var t := TrimStart(s);
    var r := TrimEnd(t);
    lo := |s| - |t|;
    hi := lo + |r|;
    assert t[..|r|] == s[lo..hi];
    assert t[|r|..] == s[hi..];
  }

  lemma TrimIdempotent(s: string)
    ensures Trim(Trim(s)) == Trim(s)
  {
    TrimmedIsFixed(Trim(s));
  }

  lemma TrimmedIsFixed(s: string)
    requires Trimmed(s)
    ensures Trim(s) == s
  {
    assert s[..0] == [] && s[|s|..] == [];
    TrimExact(s, 0, |s|);
    assert s[0..|s|] == s;
  }

  lemma Regroup(a: string, b: string, c: string, d: string, e: string)
    ensures a + b + c + d + e == a + (b + c + d) + e
  {
  }

  /** Whitespace padding on either side of a trimmed string is all `trim`
      removes. */
  lemma TrimPadded(before: string, x: string, after: string)
    requires AllWhitespace(before) && AllWhitespace(after)
    requires Trimmed(x)
    ensures Trim(before + x + after) == x
  {
    var s := before + x + after;
    var lo, hi := |before|, |before| + |x|;
    assert s[..lo] == before;
    assert s[hi..] == after;
    assert s[lo..hi] == x;
    TrimExact(s, lo, hi);
  }

  lemma {:induction false} TrimStartStopsAt(s: string, j: nat)
    requires j < |s| && !IsWhitespace(s[j])
    ensures |s| - |TrimStart(s)| <= j
    decreases j
  {
    if j > 0 && IsWhitespace(s[0]) {
      TrimStartStopsAt(s[1..], j - 1);
    }
  }

  /** Trimming a string that ends in a non-blank suffix with non-blank ends
      keeps that suffix in place. */
  lemma TrimKeepsSuffix(s: string, suffix: string)
    requires EndsWith(s, suffix)
    requires suffix != [] && Trimmed(suffix)
    ensures EndsWith(Trim(s), suffix)
  {
    var k := |s| - |suffix|;
    assert s[k] == suffix[0];
    TrimStartStopsAt(s, k);
    var t := TrimStart(s);
    assert t[|t| - 1] == s[|s| - 1] == suffix[|suffix| - 1];
    assert TrimEnd(t) == t;
    assert t[|t| - |suffix|..] == s[k..];
  }
}
