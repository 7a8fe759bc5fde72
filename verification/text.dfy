/**
 * The Python `str` operations the client relies on, over `string` (a sequence of
 * Unicode scalar values, as a Python 3 `str` is): `strip`, `startswith`, `in`,
 * `split(sep)`, `split(sep, 1)` and `sep.join`.
 */
module Text {
  import opened Wrappers

  /**
   * The characters for which Python's `str.isspace` holds; `str.strip()` with no
   * argument removes exactly these from both ends.
   */
  const Whitespace: set<char> := {
    '\t', '\n', '\U{000B}', '\U{000C}', '\r',
    '\U{001C}', '\U{001D}', '\U{001E}', '\U{001F}', ' ',
    '\U{0085}', '\U{00A0}', '\U{1680}',
    '\U{2000}', '\U{2001}', '\U{2002}', '\U{2003}', '\U{2004}', '\U{2005}',
    '\U{2006}', '\U{2007}', '\U{2008}', '\U{2009}', '\U{200A}',
    '\U{2028}', '\U{2029}', '\U{202F}', '\U{205F}', '\U{3000}'
  }

  /** The length of the longest prefix of `s` made of characters in `cs`. */
  function LeadingIn(s: string, cs: set<char>): (n: nat)
    ensures n <= |s|
    ensures forall k :: 0 <= k < n ==> s[k] in cs
    ensures n == |s| || s[n] !in cs
  {
    if s != [] && s[0] in cs then 1 + LeadingIn(s[1..], cs) else 0
  }

  /** The length of the longest suffix of `s` made of characters in `cs`. */
  function TrailingIn(s: string, cs: set<char>): (n: nat)
    ensures n <= |s|
    ensures forall k :: |s| - n <= k < |s| ==> s[k] in cs
    ensures n == |s| || s[|s| - 1 - n] !in cs
  {
    if s != [] && s[|s| - 1] in cs then 1 + TrailingIn(s[..|s| - 1], cs) else 0
  }

  /** Python's `s.rstrip(cs)`. */
  function StripRight(s: string, cs: set<char>): (r: string)
    ensures |r| <= |s| && r == s[..|r|]
    ensures r == [] || r[|r| - 1] !in cs
    ensures forall k :: |r| <= k < |s| ==> s[k] in cs
  {
    s[..|s| - TrailingIn(s, cs)]
  }

  /** Python's `s.lstrip(cs)`. */
  function StripLeft(s: string, cs: set<char>): string
  {
    s[LeadingIn(s, cs)..]
  }

  /**
   * Python's `s.strip(cs)`: the result is the part of `s` left after removing
   * the longest run of characters in `cs` at each end.
   */
  function Strip(s: string, cs: set<char>): (r: string)
    ensures r == [] || (r[0] !in cs && r[|r| - 1] !in cs)
    ensures var i := LeadingIn(s, cs);
      && i + |r| <= |s|
      && r == s[i..i + |r|]
      && forall k :: i + |r| <= k < |s| ==> s[k] in cs
  {
    var t := StripRight(s, cs);
    var i, j := LeadingIn(t, cs), LeadingIn(s, cs);
    assert t != [] ==> i == j by {
      if t != [] {
        assert t[|t| - 1] !in cs;
      }
    }
    StripLeft(t, cs)
  }

  /** `rstrip` of a text after a prefix that does not end in a stripped character touches only the text. */
  lemma StripRightAppend(p: string, q: string, cs: set<char>)
    requires p != [] && p[|p| - 1] !in cs
    ensures StripRight(p + q, cs) == p + StripRight(q, cs)
  {
    var n := TrailingIn(q, cs);
    var m := TrailingIn(p + q, cs);
    assert (p + q)[|p| - 1] !in cs;
    assert forall k :: 0 <= k < |q| ==> (p + q)[|p| + k] == q[k];
    assert m == n;
    assert (p + q)[..|p + q| - m] == p + q[..|q| - n];
  }

  /** Stripping after a right strip is the same as stripping. */
  lemma StripAfterStripRight(s: string, cs: set<char>)
    ensures Strip(StripRight(s, cs), cs) == Strip(s, cs)
  {
    var t := StripRight(s, cs);
    assert TrailingIn(t, cs) == 0;
    assert StripRight(t, cs) == t;
  }

  /** Stripping removes exactly the padding around a text that neither starts nor ends with a stripped character. */
  lemma StripPadding(p: string, x: string, q: string, cs: set<char>)
    requires forall k :: 0 <= k < |p| ==> p[k] in cs
    requires forall k :: 0 <= k < |q| ==> q[k] in cs
    requires x != [] && x[0] !in cs && x[|x| - 1] !in cs
    ensures Strip(p + x + q, cs) == x
  {
    var s := p + x + q;
    LeadingPadding(p, x, q, cs);
    var r := Strip(s, cs);
    assert s[|p| + |x| - 1] == x[|x| - 1] && s[|p|] == x[0];
    assert forall k :: |p| + |x| <= k < |s| ==> s[k] == q[k - |p| - |x|];
    assert |r| == |x|;
    assert s[|p|..|p| + |x|] == x;
  }

  /** The leading run of stripped characters in front of such a text is the padding. */
  lemma LeadingPadding(p: string, x: string, q: string, cs: set<char>)
    requires forall k :: 0 <= k < |p| ==> p[k] in cs
    requires x != [] && x[0] !in cs
    ensures LeadingIn(p + x + q, cs) == |p|
  {
    var s := p + x + q;
    assert s[|p|] == x[0];
    assert forall k :: 0 <= k < |p| ==> s[k] == p[k];
  }

  /** Python's `s.startswith(prefix)`. */
  predicate StartsWith(s: string, prefix: string)
  {
    |prefix| <= |s| && s[..|prefix|] == prefix
  }

  /** `pat` occurs in `s` starting at index `i`. */
  predicate OccursAt(s: string, pat: string, i: int)
  {
    0 <= i && i + |pat| <= |s| && forall k :: i <= k < i + |pat| ==> s[k] == pat[k - i]
  }

  /** An occurrence in `s[1..]` is an occurrence in `s` one place later. */
  lemma OccursShift(s: string, pat: string, j: int)
    requires s != [] && 0 <= j
    ensures OccursAt(s, pat, j + 1) <==> OccursAt(s[1..], pat, j)
  {
    if OccursAt(s[1..], pat, j) {
      forall k | j + 1 <= k < j + 1 + |pat| ensures s[k] == pat[k - (j + 1)] {
        assert s[1..][k - 1] == s[k];
      }
    }
    if OccursAt(s, pat, j + 1) {
      forall k | j <= k < j + |pat| ensures s[1..][k] == pat[k - j] {
        assert s[k + 1] == pat[k + 1 - (j + 1)];
      }
    }
  }

  /** Python's `s.find(pat)`: the leftmost index at which `pat` occurs, if any. */
  function IndexOf(s: string, pat: string): (r: Option<nat>)
    ensures r.Some? ==> OccursAt(s, pat, r.value) && forall j :: 0 <= j < r.value ==> !OccursAt(s, pat, j)
    ensures r.None? ==> forall j :: !OccursAt(s, pat, j)
    decreases |s|
  {
    if |s| < |pat| then None
    else if s[..|pat|] == pat then
      assert forall k :: 0 <= k < |pat| ==> s[k] == s[..|pat|][k] == pat[k - 0];
      Some(0)
    else
      var r := IndexOf(s[1..], pat);
      assert !OccursAt(s, pat, 0);
      assert forall j :: 1 <= j ==> (OccursAt(s, pat, j) <==> OccursAt(s[1..], pat, j - 1)) by {
        forall j | 1 <= j ensures OccursAt(s, pat, j) <==> OccursAt(s[1..], pat, j - 1) {
          OccursShift(s, pat, j - 1);
        }
      }
      match r
      case None => None
      case Some(i) => Some(i + 1)
  }

  /** Python's `pat in s`. */
  predicate Contains(s: string, pat: string)
  {
    IndexOf(s, pat).Some?
  }

  /** A one-character pattern occurs exactly where that character stands. */
  lemma OccursChar(s: string, c: char, j: int)
    ensures OccursAt(s, [c], j) <==> 0 <= j < |s| && s[j] == c
  {
    if 0 <= j < |s| && s[j] == c {
      assert forall k :: j <= k < j + 1 ==> s[k] == [c][k - j];
    }
  }

  /** For a one-character pattern, `in` on strings is membership of the character. */
  lemma ContainsChar(s: string, c: char)
    ensures Contains(s, [c]) <==> c in s
  {
    if c in s {
      var i :| 0 <= i < |s| && s[i] == c;
      assert OccursAt(s, [c], i);
    }
    if Contains(s, [c]) {
      var i := IndexOf(s, [c]).value;
      assert s[i..i + 1][0] == s[i];
    }
  }

  /** The leftmost occurrence of a character is the one after a prefix free of it. */
  lemma IndexOfChar(a: string, c: char, b: string)
    requires c !in a
    ensures IndexOf(a + [c] + b, [c]) == Some(|a|)
  {
    var s := a + [c] + b;
    OccursChar(s, c, |a|);
    var i := IndexOf(s, [c]).value;
    OccursChar(s, c, i);
    assert s[i] == c;
  }

  /** Python's `sep.join(parts)`. */
  function Join(parts: seq<string>, sep: string): string
    decreases |parts|
  {
    if |parts| == 0 then []
    else if |parts| == 1 then parts[0]
    else parts[0] + sep + Join(parts[1..], sep)
  }

  /** Joining two non-empty lists puts one separator between their joins. */
  lemma {:induction false} JoinAppend(xs: seq<string>, ys: seq<string>, sep: string)
    requires xs != [] && ys != []
    ensures Join(xs + ys, sep) == Join(xs, sep) + sep + Join(ys, sep)
    decreases |xs|
  {
    if |xs| == 1 {
      assert (xs + ys)[1..] == ys;
    } else {
      assert (xs + ys)[1..] == xs[1..] + ys;
      JoinAppend(xs[1..], ys, sep);
    }
  }

  /**
   * Python's `s.split(sep)` for a non-empty separator: the pieces between the
   * non-overlapping occurrences of `sep`, found left to right. Joining the pieces
   * back with `sep` gives `s`, and no piece contains `sep`.
   */
  function SplitOn(s: string, sep: string): (parts: seq<string>)
    requires |sep| > 0
    ensures |parts| >= 1
    ensures Join(parts, sep) == s
    ensures forall k :: 0 <= k < |parts| ==> !Contains(parts[k], sep)
    decreases |s|
  {
    match IndexOf(s, sep)
    case None => [s]
    case Some(i) =>
      var head, rest := s[..i], SplitOn(s[i + |sep|..], sep);
      FreeBefore(s, sep, i);
      Around(s, sep, i);
      [head] + rest
  }

  /** The text before the leftmost occurrence of `sep` does not contain `sep`. */
  lemma FreeBefore(s: string, sep: string, i: nat)
    requires |sep| > 0 && i <= |s|
    requires forall j :: 0 <= j < i ==> !OccursAt(s, sep, j)
    ensures !Contains(s[..i], sep)
  {
    var head := s[..i];
    forall j | OccursAt(head, sep, j) ensures OccursAt(s, sep, j) && j < i {
      assert forall k :: j <= k < j + |sep| ==> head[k] == s[k];
    }
  }

  /** An occurrence of `sep` cuts `s` into the text before it, `sep`, and the text after it. */
  lemma Around(s: string, sep: string, i: nat)
    requires OccursAt(s, sep, i)
    ensures s == s[..i] + sep + s[i + |sep|..]
  {
    forall k | 0 <= k < |sep| ensures s[i..i + |sep|][k] == sep[k] {
      assert s[i + k] == sep[(i + k) - i];
    }
    assert s[i..i + |sep|] == sep;
    assert s == s[..i] + s[i..i + |sep|] + s[i + |sep|..];
  }

  /** A string in which `sep` does not occur is a single piece. */
  lemma SplitNone(s: string, sep: string)
    requires |sep| > 0
    requires forall j :: !OccursAt(s, sep, j)
    ensures SplitOn(s, sep) == [s]
  {
  }

  /** A string in which `sep` occurs exactly once splits into the parts before and after it. */
  lemma SplitOnce(s: string, sep: string, i: nat)
    requires |sep| > 0
    requires OccursAt(s, sep, i)
    requires forall j :: OccursAt(s, sep, j) ==> j == i
    ensures SplitOn(s, sep) == [s[..i], s[i + |sep|..]]
  {
    var rest := s[i + |sep|..];
    forall j ensures !OccursAt(rest, sep, j) {
      if OccursAt(rest, sep, j) {
        assert s[i + |sep| + j..i + |sep| + j + |sep|] == rest[j..j + |sep|];
        assert OccursAt(s, sep, i + |sep| + j);
      }
    }
  }

  /** Two non-overlapping occurrences of `sep` make at least three pieces. */
  lemma SplitTwice(s: string, sep: string, i: nat, j: nat)
    requires |sep| > 0
    requires OccursAt(s, sep, i) && OccursAt(s, sep, j) && i + |sep| <= j
    ensures |SplitOn(s, sep)| >= 3
  {
    var first := IndexOf(s, sep).value;
    assert first <= i;
    var rest := s[first + |sep|..];
    assert OccursAt(rest, sep, j - first - |sep|) by {
      assert rest[j - first - |sep|..j - first] == s[j..j + |sep|];
    }
    assert |SplitOn(rest, sep)| >= 2;
  }

  /** Two separate occurrences that survive a strip still split the stripped text in three or more. */
  lemma SplitTwiceAfterStrip(s: string, cs: set<char>, sep: string, i: nat, j: nat)
    requires sep != [] && sep[0] !in cs && sep[|sep| - 1] !in cs
    requires OccursAt(s, sep, i) && OccursAt(s, sep, j) && i + |sep| <= j
    ensures |SplitOn(Strip(s, cs), sep)| >= 3
  {
    var lo, r := LeadingIn(s, cs), Strip(s, cs);
    OccursAfterStrip(s, cs, sep, i);
    OccursAfterStrip(s, cs, sep, j);
    var a: nat, b: nat := i - lo, j - lo;
    SplitTwice(r, sep, a, b);
  }

  /**
   * Splitting on a one-character separator undoes joining with it, provided no
   * part contains that character.
   */
  lemma {:induction false} SplitJoin(parts: seq<string>, c: char)
    requires |parts| >= 1
    requires forall k :: 0 <= k < |parts| ==> c !in parts[k]
    ensures SplitOn(Join(parts, [c]), [c]) == parts
    decreases |parts|
  {
    if |parts| == 1 {
      ContainsChar(parts[0], c);
    } else {
      var rest := Join(parts[1..], [c]);
      var joined := parts[0] + [c] + rest;
      assert Join(parts, [c]) == joined;
      IndexOfChar(parts[0], c, rest);
      assert joined[..|parts[0]|] == parts[0];
      assert joined[|parts[0]| + 1..] == rest;
      SplitJoin(parts[1..], c);
    }
  }

  /** No piece of a split on a one-character separator contains that character. */
  lemma SplitPiecesFree(s: string, c: char)
    ensures forall k :: 0 <= k < |SplitOn(s, [c])| ==> c !in SplitOn(s, [c])[k]
  {
    var parts := SplitOn(s, [c]);
    forall k | 0 <= k < |parts| ensures c !in parts[k] {
      ContainsChar(parts[k], c);
    }
  }

  /**
   * Python's `s.split(c, 1)` unpacked into two names: `None` when the unpacking
   * would raise (no `c` in `s`), otherwise the parts before and after the first `c`.
   */
  function Partition(s: string, c: char): (r: Option<(string, string)>)
    ensures r.None? <==> c !in s
    ensures r.Some? ==> s == r.value.0 + [c] + r.value.1 && c !in r.value.0
  {
    ContainsChar(s, c);
    match IndexOf(s, [c])
    case None => None
    case Some(i) =>
      assert s[i..i + 1][0] == s[i];
      assert c !in s[..i] by {
        if c in s[..i] {
          var j :| 0 <= j < i && s[j] == c;
          assert OccursAt(s, [c], j);
        }
      }
      assert s == s[..i] + [c] + s[i + 1..];
      Some((s[..i], s[i + 1..]))
  }

  /** `split(c, 1)` cuts at the first `c`: the one after a prefix free of `c`. */
  lemma PartitionAt(a: string, c: char, b: string)
    requires c !in a
    ensures Partition(a + [c] + b, c) == Some((a, b))
  {
    var s := a + [c] + b;
    assert c in s by { assert s[|a|] == c; }
    var (x, y) := Partition(s, c).value;
    assert s[|x|] == c && s[|a|] == c;
    assert forall k :: 0 <= k < |a| ==> s[k] == a[k];
    assert forall k :: 0 <= k < |x| ==> s[k] == x[k];
    assert |x| == |a|;
    assert x == s[..|a|] == a;
    assert y == s[|a| + 1..] == b;
  }

  /** An occurrence inside a slice of `s` is an occurrence in `s`, shifted by the slice's start. */
  lemma OccursInSlice(s: string, lo: nat, hi: nat, pat: string, j: int)
    requires lo <= hi <= |s|
    requires OccursAt(s[lo..hi], pat, j)
    ensures OccursAt(s, pat, lo + j)
  {
    forall k | lo + j <= k < lo + j + |pat| ensures s[k] == pat[k - (lo + j)] {
      assert s[lo..hi][k - lo] == s[k];
    }
  }

  /** An occurrence of `pat` that lies inside a slice of `s` is an occurrence in that slice. */
  lemma OccursInsideSlice(s: string, lo: nat, hi: nat, pat: string, j: int)
    requires lo <= j && j + |pat| <= hi <= |s|
    requires OccursAt(s, pat, j)
    ensures OccursAt(s[lo..hi], pat, j - lo)
  {
    forall k | j - lo <= k < j - lo + |pat| ensures s[lo..hi][k] == pat[k - (j - lo)] {
      assert s[lo..hi][k] == s[k + lo];
    }
  }

  /**
   * Stripping characters that the pattern neither starts nor ends with keeps
   * each occurrence of the pattern, shifted left by what was stripped in front.
   */
  lemma OccursAfterStrip(s: string, cs: set<char>, pat: string, j: int)
    requires pat != [] && pat[0] !in cs && pat[|pat| - 1] !in cs
    requires OccursAt(s, pat, j)
    ensures LeadingIn(s, cs) <= j
    ensures OccursAt(Strip(s, cs), pat, j - LeadingIn(s, cs))
  {
    var lo := LeadingIn(s, cs);
    var r := Strip(s, cs);
    OccursBetweenRuns(s, cs, pat, j, lo, lo + |r|);
  }

  /**
   * An occurrence of a pattern that starts and ends outside `cs` lies between
   * a leading and a trailing run of characters in `cs`.
   */
  lemma OccursBetweenRuns(s: string, cs: set<char>, pat: string, j: int, lo: nat, hi: nat)
    requires lo <= hi <= |s|
    requires forall k :: 0 <= k < lo ==> s[k] in cs
    requires forall k :: hi <= k < |s| ==> s[k] in cs
    requires pat != [] && pat[0] !in cs && pat[|pat| - 1] !in cs
    requires OccursAt(s, pat, j)
    ensures lo <= j && OccursAt(s[lo..hi], pat, j - lo)
  {
    assert s[j] == pat[0] && s[j + |pat| - 1] == pat[|pat| - 1];
    assert s[j] !in cs && s[j + |pat| - 1] !in cs;
    OccursInsideSlice(s, lo, hi, pat, j);
  }

  /** A pattern that does not occur at a position of `s` does not occur at the matching position of a slice. */
  lemma NotOccursInSlice(s: string, lo: nat, hi: nat, pat: string, j: int)
    requires lo <= hi <= |s|
    requires !OccursAt(s, pat, lo + j)
    ensures !OccursAt(s[lo..hi], pat, j)
  {
    if 0 <= j && j + |pat| <= hi - lo {
      var k :| lo + j <= k < lo + j + |pat| && s[k] != pat[k - (lo + j)];
      assert s[lo..hi][k - lo] == s[k];
    }
  }
}
