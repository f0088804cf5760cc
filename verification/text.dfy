/**
 * Character classes and string operations of Python's `str` that the crawler
 * relies on. Strings are sequences of Unicode code points, as in Python.
 */
module Text {

  /** `str.isspace()`, which is also the `\s` class of `re` on `str` patterns. */
  predicate IsSpace(c: char) {
    || ('\t' <= c <= '\r')
    || ('\U{1C}' <= c <= '\U{1F}')
    || c == ' ' || c == '\U{85}' || c == '\U{A0}' || c == '\U{1680}'
    || ('\U{2000}' <= c <= '\U{200A}')
    || c == '\U{2028}' || c == '\U{2029}' || c == '\U{202F}' || c == '\U{205F}'
    || c == '\U{3000}'
  }

  /** The `\d` class, restricted to ASCII digits. */
  predicate IsDigit(c: char) {
    '0' <= c <= '9'
  }

  predicate IsAsciiLetter(c: char) {
    'a' <= c <= 'z' || 'A' <= c <= 'Z'
  }

  /** `str.isalnum()` for code points up to U+00FF; every later code point counts as non-alphanumeric. */
  predicate IsAlnum(c: char) {
    || IsDigit(c) || IsAsciiLetter(c)
    || c == '\U{AA}' || c == '\U{B2}' || c == '\U{B3}' || c == '\U{B5}'
    || c == '\U{B9}' || c == '\U{BA}'
    || ('\U{BC}' <= c <= '\U{BE}')
    || ('\U{C0}' <= c <= '\U{FF}' && c != '\U{D7}' && c != '\U{F7}')
  }

  /** The `\w` class of `re`: alphanumerics and the underscore. */
  predicate IsWordChar(c: char) {
    IsAlnum(c) || c == '_'
  }

  /** Upper-case letters of ASCII and Latin-1, the ones `str.lower()` maps 32 code points down. */
  predicate IsUpper(c: char) {
    'A' <= c <= 'Z' || ('\U{C0}' <= c <= '\U{DE}' && c != '\U{D7}')
  }

  function LowerChar(c: char): (r: char)
    ensures !IsUpper(r)
    ensures r == c <==> !IsUpper(c)
    ensures IsDigit(r) <==> IsDigit(c)
    ensures IsSpace(r) <==> IsSpace(c)
  {
    if IsUpper(c) then (c as int + 32) as char else c
  }

  /** `str.lower()` on ASCII and Latin-1; other code points are left as they are. */
  function Lower(s: string): (r: string)
    ensures |r| == |s|
    ensures forall i :: 0 <= i < |s| ==> r[i] == LowerChar(s[i])
  {
    seq(|s|, i requires 0 <= i < |s| => LowerChar(s[i]))
  }

  predicate IsLower(s: string) {
    forall i :: 0 <= i < |s| ==> !IsUpper(s[i])
  }

  lemma LowerIsLower(s: string)
    ensures IsLower(Lower(s))
  {
  }

  lemma LowerOfLower(s: string)
    requires IsLower(s)
    ensures Lower(s) == s
  {
  }

  lemma LowerIdempotent(s: string)
    ensures Lower(Lower(s)) == Lower(s)
  {
  }

  lemma LowerPrefix(s: string, n: nat)
    requires n <= |s|
    ensures Lower(s)[..n] == Lower(s[..n])
  {
  }

  lemma LowerAppend(a: string, b: string)
    ensures Lower(a + b) == Lower(a) + Lower(b)
  {
  }

  // ------------------------------------------------------------------
  // Substrings (Python's `in` on strings), prefixes and suffixes
  // ------------------------------------------------------------------

  predicate ContainsAt(s: string, t: string, i: int) {
    0 <= i && i + |t| <= |s| && s[i..i + |t|] == t
  }

  /** `t in s` for two strings. */
  predicate Contains(s: string, t: string) {
    exists i | 0 <= i <= |s| - |t| :: ContainsAt(s, t, i)
  }

  /** `any(t in s for t in ts)`. */
  predicate ContainsAny(s: string, ts: seq<string>) {
    exists t | t in ts :: Contains(s, t)
  }

  predicate StartsWith(s: string, p: string) {
    |p| <= |s| && s[..|p|] == p
  }

  /** `s[:n]`: the first `n` characters, or all of `s` when it is shorter. */
  function Take(s: string, n: nat): (r: string)
    ensures |r| == if |s| <= n then |s| else n
    ensures StartsWith(s, r)
  {
    if |s| <= n then s else s[..n]
  }

  predicate EndsWith(s: string, p: string) {
    |p| <= |s| && s[|s| - |p|..] == p
  }

  /** `any(s.endswith(t) for t in ts)`. */
  predicate EndsWithAny(s: string, ts: seq<string>) {
    exists t | t in ts :: EndsWith(s, t)
  }

  lemma ContainsEmpty(s: string)
    ensures Contains(s, "")
  {
    assert ContainsAt(s, "", 0);
  }

  lemma ContainsSelf(s: string)
    ensures Contains(s, s)
  {
    assert ContainsAt(s, s, 0);
  }

  lemma ContainsInEmpty(t: string)
    requires Contains("", t)
    ensures t == ""
  {
  }

  lemma ContainsLeft(a: string, b: string, t: string)
    requires Contains(a, t)
    ensures Contains(a + b, t)
  {
    var i :| 0 <= i <= |a| - |t| && ContainsAt(a, t, i);
    assert (a + b)[i..i + |t|] == a[i..i + |t|];
    assert ContainsAt(a + b, t, i);
  }

  lemma ContainsRight(a: string, b: string, t: string)
    requires Contains(b, t)
    ensures Contains(a + b, t)
  {
    var i :| 0 <= i <= |b| - |t| && ContainsAt(b, t, i);
    assert (a + b)[|a| + i..|a| + i + |t|] == b[i..i + |t|];
    assert ContainsAt(a + b, t, |a| + i);
  }

  /** Containment is transitive: a substring of a substring is a substring. */
  lemma ContainsTrans(s: string, t: string, u: string)
    requires Contains(s, t) && Contains(t, u)
    ensures Contains(s, u)
  {
    var i :| 0 <= i <= |s| - |t| && ContainsAt(s, t, i);
    var j :| 0 <= j <= |t| - |u| && ContainsAt(t, u, j);
    forall k | 0 <= k < |u|
      ensures s[i + j + k] == u[k]
    {
      assert u[k] == t[j + k] == s[i + j + k];
    }
    assert s[i + j..i + j + |u|] == u;
    assert ContainsAt(s, u, i + j);
  }

  lemma PrefixContained(s: string, p: string)
    requires StartsWith(s, p)
    ensures Contains(s, p)
  {
    assert ContainsAt(s, p, 0);
  }

  /** A character of a substring is a character of the string. */
  lemma ContainsChar(s: string, t: string, c: char)
    requires Contains(s, t) && c in t
    ensures c in s
  {
    var i :| 0 <= i <= |s| - |t| && ContainsAt(s, t, i);
    var k :| 0 <= k < |t| && t[k] == c;
    assert s[i + k] == t[k];
  }

  /**
   * An occurrence of `t` in `a + [c] + b` lies on one side of `c` when `c`
   * does not occur in `t`.
   */
  lemma ContainsAcross(a: string, c: char, b: string, t: string)
    requires Contains(a + [c] + b, t) && c !in t
    ensures Contains(a, t) || Contains(b, t)
  {
    var s := a + [c] + b;
    var i :| 0 <= i <= |s| - |t| && ContainsAt(s, t, i);
    assert s[|a|] == c;
    forall p | i <= p < i + |t|
      ensures s[p] != c
    {
      assert s[p] == t[p - i];
    }
    if i + |t| <= |a| {
      assert a[i..i + |t|] == s[i..i + |t|];
      assert ContainsAt(a, t, i);
    } else {
      assert i > |a|;
      assert b[i - |a| - 1..i - |a| - 1 + |t|] == s[i..i + |t|];
      assert ContainsAt(b, t, i - |a| - 1);
    }
  }

  lemma ContainsAnyLeft(a: string, b: string, ts: seq<string>)
    requires ContainsAny(a, ts)
    ensures ContainsAny(a + b, ts)
  {
    var t :| t in ts && Contains(a, t);
    ContainsLeft(a, b, t);
  }

  lemma ContainsAnyRight(a: string, b: string, ts: seq<string>)
    requires ContainsAny(b, ts)
    ensures ContainsAny(a + b, ts)
  {
    var t :| t in ts && Contains(b, t);
    ContainsRight(a, b, t);
  }

  // ------------------------------------------------------------------
  // Stripping
  // ------------------------------------------------------------------

  /** `s.lstrip(chars)` where `drop` says which characters are in `chars`. */
  function TrimLeftBy(s: string, drop: char -> bool): (r: string)
    ensures EndsWith(s, r)
    ensures r == [] || !drop(r[0])
    ensures forall i :: 0 <= i < |s| - |r| ==> drop(s[i])
    decreases |s|
  {
    if s != [] && drop(s[0]) then TrimLeftBy(s[1..], drop) else s
  }

  /** The end of the longest run of characters satisfying `p` from `k`. */
  function RunEnd(s: string, k: nat, p: char -> bool): (r: nat)
    requires k <= |s|
    ensures k <= r <= |s|
    ensures forall m | k <= m < r :: p(s[m])
    ensures r == |s| || !p(s[r])
    decreases |s| - k
  {
    if k < |s| && p(s[k]) then RunEnd(s, k + 1, p) else k
  }

  /** A run of `p` from `k` that stops at `n` ends at `n`. */
  lemma {:induction false} RunEndIs(s: string, k: nat, p: char -> bool, n: nat)
    requires k <= n <= |s|
    requires forall m | k <= m < n :: p(s[m])
    requires n == |s| || !p(s[n])
    ensures RunEnd(s, k, p) == n
    decreases n - k
  {
    if k < n {
      RunEndIs(s, k + 1, p, n);
    }
  }

  /** Every character of a suffix occurs in the whole. */
  lemma SuffixChars(s: string, r: string)
    requires EndsWith(s, r)
    ensures forall ch | ch in r :: ch in s
  {
    forall ch | ch in r
      ensures ch in s
    {
      var i :| 0 <= i < |r| && r[i] == ch;
      assert s[|s| - |r| + i] == ch;
    }
  }

  /** `s.rstrip(chars)` where `drop` says which characters are in `chars`. */
  function TrimRightBy(s: string, drop: char -> bool): (r: string)
    ensures StartsWith(s, r)
    ensures r == [] || !drop(r[|r| - 1])
    ensures forall i :: |r| <= i < |s| ==> drop(s[i])
    decreases |s|
  {
    if s != [] && drop(s[|s| - 1]) then TrimRightBy(s[..|s| - 1], drop) else s
  }

  /** `s.strip(chars)`. */
  function StripBy(s: string, drop: char -> bool): string {
    TrimRightBy(TrimLeftBy(s, drop), drop)
  }

  /** `s.strip()`: removes leading and trailing whitespace. */
  function Strip(s: string): (r: string)
    ensures r == [] || (!IsSpace(r[0]) && !IsSpace(r[|r| - 1]))
    ensures Contains(s, r)
  {
    var l := TrimLeftBy(s, IsSpace);
    var r := TrimRightBy(l, IsSpace);
    assert ContainsAt(s, r, |s| - |l|) by {
      assert s[|s| - |l|..] == l;
      assert l[..|r|] == r;
    }
    r
  }

  function RStrip(s: string): string {
    TrimRightBy(s, IsSpace)
  }

  lemma TrimLeftNoop(s: string, drop: char -> bool)
    requires s == [] || !drop(s[0])
    ensures TrimLeftBy(s, drop) == s
  {
  }

  lemma TrimRightNoop(s: string, drop: char -> bool)
    requires s == [] || !drop(s[|s| - 1])
    ensures TrimRightBy(s, drop) == s
  {
  }

  /** Stripping one dropped character from each end of a word with kept ends gives the word back. */
  lemma StripByEnclosed(x: char, m: string, drop: char -> bool)
    requires drop(x) && m != [] && !drop(m[0]) && !drop(m[|m| - 1])
    ensures StripBy([x] + m + [x], drop) == m
  {
    var g := [x] + m + [x];
    assert g[1..] == m + [x];
    TrimLeftNoop(m + [x], drop);
    assert (m + [x])[..|m|] == m;
    TrimRightNoop(m, drop);
  }

  lemma StripByNoop(s: string, drop: char -> bool)
    requires s == [] || (!drop(s[0]) && !drop(s[|s| - 1]))
    ensures StripBy(s, drop) == s
  {
    TrimLeftNoop(s, drop);
    TrimRightNoop(s, drop);
  }

  // ------------------------------------------------------------------
  // Searching for and splitting at a character
  // ------------------------------------------------------------------

  /** `s.find(c)`: the first index of `c`, or -1. */
  function IndexOf(s: string, c: char): (r: int)
    ensures -1 <= r < |s|
    ensures r == -1 <==> c !in s
    ensures r >= 0 ==> s[r] == c && c !in s[..r]
  {
    if s == [] then -1
    else if s[0] == c then 0
    else
      var k := IndexOf(s[1..], c);
      if k < 0 then -1
      else
        assert s[..k + 1] == [s[0]] + s[1..][..k];
        k + 1
  }

  /** The first index of `c` is at most any index holding `c`. */
  lemma {:induction false} IndexOfAtMost(s: string, c: char, j: nat)
    requires j < |s| && s[j] == c
    ensures 0 <= IndexOf(s, c) <= j
    decreases j
  {
    if s[0] != c {
      assert s[1..][j - 1] == c;
      IndexOfAtMost(s[1..], c, j - 1);
    }
  }

  /** The first index of `c` is the index of an occurrence with no `c` before it. */
  lemma IndexOfIs(s: string, c: char, j: nat)
    requires j < |s| && s[j] == c && c !in s[..j]
    ensures IndexOf(s, c) == j
  {
    IndexOfAtMost(s, c, j);
    assert forall k | 0 <= k < j :: s[k] != c by {
      forall k | 0 <= k < j
        ensures s[k] != c
      {
        assert s[..j][k] == s[k];
      }
    }
  }

  /** `s.rfind(c)`: the last index of `c`, or -1. */
  function LastIndexOf(s: string, c: char): (r: int)
    ensures -1 <= r < |s|
    ensures r == -1 <==> c !in s
    ensures r >= 0 ==> s[r] == c && c !in s[r + 1..]
  {
    if s == [] then -1
    else if s[|s| - 1] == c then |s| - 1
    else
      var k := LastIndexOf(s[..|s| - 1], c);
      if k < 0 then -1
      else
        assert s[k + 1..] == s[..|s| - 1][k + 1..] + [s[|s| - 1]];
        k
  }

  /** The last index of `c` is at least any index holding `c`. */
  lemma {:induction false} LastIndexOfAtLeast(s: string, c: char, j: nat)
    requires j < |s| && s[j] == c
    ensures j <= LastIndexOf(s, c)
    decreases |s|
  {
    if s[|s| - 1] != c {
      assert s[..|s| - 1][j] == c;
      LastIndexOfAtLeast(s[..|s| - 1], c, j);
    }
  }

  /** The last index of `c` is the index of an occurrence with no `c` after it. */
  lemma LastIndexOfIs(s: string, c: char, j: nat)
    requires j < |s| && s[j] == c && c !in s[j + 1..]
    ensures LastIndexOf(s, c) == j
  {
    LastIndexOfAtLeast(s, c, j);
    assert forall k | j < k < |s| :: s[k] != c by {
      forall k | j < k < |s|
        ensures s[k] != c
      {
        assert s[j + 1..][k - j - 1] == s[k];
      }
    }
  }

  /** `s.split(c, 1)[0]`: everything before the first `c`. */
  function BeforeFirst(s: string, c: char): (r: string)
    ensures c !in r
    ensures StartsWith(s, r)
    ensures c !in s ==> r == s
  {
    var i := IndexOf(s, c);
    if i < 0 then s else s[..i]
  }

  /** `s.split(c)[-1]`: everything after the last `c`, or `s` when there is none. */
  function AfterLast(s: string, c: char): (r: string)
    ensures c !in r
    ensures EndsWith(s, r)
    ensures c !in s ==> r == s
  {
    var i := LastIndexOf(s, c);
    if i < 0 then s else s[i + 1..]
  }

  /** `s.rsplit(c, 1)[0]`: everything before the last `c`, or `s` when there is none. */
  function BeforeLast(s: string, c: char): (r: string)
    ensures StartsWith(s, r)
  {
    var i := LastIndexOf(s, c);
    if i < 0 then s else s[..i]
  }

  /** `s.split(c)`: the pieces between occurrences of `c`, in order. */
  function SplitOn(s: string, c: char): (r: seq<string>)
    ensures |r| >= 1
    ensures forall k :: 0 <= k < |r| ==> c !in r[k]
    decreases |s|
  {
    var i := IndexOf(s, c);
    if i < 0 then [s] else [s[..i]] + SplitOn(s[i + 1..], c)
  }

  /** The last piece of a split is what follows the last separator. */
  lemma {:induction false} SplitOnLastPiece(p: string, c: char, name: string)
    requires c !in name
    ensures var r := SplitOn(p + [c] + name, c); r[|r| - 1] == name
    decreases |p|
  {
    var s := p + [c] + name;
    IndexOfAtMost(s, c, |p|);
    var i := IndexOf(s, c);
    var tail := SplitOn(s[i + 1..], c);
    assert SplitOn(s, c) == [s[..i]] + tail;
    if i == |p| {
      assert s[i + 1..] == name;
      assert IndexOf(name, c) == -1;
      assert tail == [name];
    } else {
      assert s[i + 1..] == p[i + 1..] + [c] + name;
      SplitOnLastPiece(p[i + 1..], c, name);
    }
  }

  /** `s.replace(a, b)` for single characters. */
  function ReplaceChar(s: string, a: char, b: char): (r: string)
    ensures |r| == |s|
    ensures forall i :: 0 <= i < |s| ==> r[i] == (if s[i] == a then b else s[i])
  {
    seq(|s|, i requires 0 <= i < |s| => if s[i] == a then b else s[i])
  }

  /** `s.replace(pat, rep)`: non-overlapping occurrences, scanned left to right. */
  function ReplaceAll(s: string, pat: string, rep: string): string
    requires pat != ""
    decreases |s|
  {
    if |s| < |pat| then s
    else if s[..|pat|] == pat then rep + ReplaceAll(s[|pat|..], pat, rep)
    else [s[0]] + ReplaceAll(s[1..], pat, rep)
  }

  lemma NotContainsTail(s: string, t: string)
    requires |s| > 0 && !Contains(s, t)
    ensures !Contains(s[1..], t)
  {
    forall i | 0 <= i <= |s[1..]| - |t|
      ensures !ContainsAt(s[1..], t, i)
    {
      assert s[1..][i..i + |t|] == s[i + 1..i + 1 + |t|];
      assert !ContainsAt(s, t, i + 1);
    }
  }

  /** A string without the pattern is left alone by `replace`. */
  lemma {:induction false} ReplaceAllAbsent(s: string, pat: string, rep: string)
    requires pat != "" && !Contains(s, pat)
    ensures ReplaceAll(s, pat, rep) == s
    decreases |s|
  {
    if |s| >= |pat| {
      assert !ContainsAt(s, pat, 0);
      NotContainsTail(s, pat);
      ReplaceAllAbsent(s[1..], pat, rep);
    }
  }

  /** A character in neither the pattern nor the replacement survives `replace` exactly where it occurred. */
  lemma {:induction false} ReplaceAllKeepsChar(s: string, pat: string, rep: string, c: char)
    requires pat != "" && c !in pat && c !in rep
    ensures c in ReplaceAll(s, pat, rep) <==> c in s
    decreases |s|
  {
    if |s| >= |pat| {
      if s[..|pat|] == pat {
        ReplaceAllKeepsChar(s[|pat|..], pat, rep, c);
        assert s == pat + s[|pat|..];
      } else {
        ReplaceAllKeepsChar(s[1..], pat, rep, c);
        assert s == [s[0]] + s[1..];
      }
    }
  }
}
