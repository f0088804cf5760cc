/**
 * The parts of `urllib.parse` the crawler uses: `urlparse` (scheme, network
 * location, path, parameters, query, fragment), the key set of `parse_qs`,
 * and `unquote`. `urljoin` is not modelled here; it is an input of the model
 * (see `Web.World`).
 */
module Urls {
  import opened Text

  datatype Parts = Parts(
    scheme: string,
    netloc: string,
    path: string,
    params: string,
    query: string,
    fragment: string)

  /** Characters `urlsplit` accepts in a scheme. */
  predicate IsSchemeChar(c: char) {
    IsAsciiLetter(c) || IsDigit(c) || c == '+' || c == '-' || c == '.'
  }

  /** Leading C0 control characters and spaces are stripped before splitting. */
  predicate IsC0OrSpace(c: char) {
    c <= ' '
  }

  /** Tab, carriage return and line feed are removed anywhere in the URL. */
  function RemoveUnsafe(s: string): (r: string)
    ensures '\t' !in r && '\r' !in r && '\n' !in r
    ensures |r| <= |s|
  {
    if s == [] then []
    else if s[0] == '\t' || s[0] == '\r' || s[0] == '\n' then RemoveUnsafe(s[1..])
    else [s[0]] + RemoveUnsafe(s[1..])
  }

  predicate IsNetlocDelimiter(c: char) {
    c == '/' || c == '?' || c == '#'
  }

  /** Splits `s` at the first `/`, `?` or `#`. */
  function SplitNetloc(s: string): (r: (string, string))
    ensures r.0 + r.1 == s
    ensures forall i :: 0 <= i < |r.0| ==> !IsNetlocDelimiter(r.0[i])
    ensures r.1 == [] || IsNetlocDelimiter(r.1[0])
  {
    var n := RunEnd(s, 0, c => !IsNetlocDelimiter(c));
    assert s[..n] + s[n..] == s;
    (s[..n], s[n..])
  }

  /** Schemes for which `urlparse` separates `;params` from the last path segment. */
  const UsesParams: seq<string> := [
    "", "ftp", "hdl", "prospero", "http", "imap", "https", "shttp", "rtsp",
    "rtsps", "rtspu", "sip", "sips", "mms", "sftp", "tel"
  ]

  /** `_splitparams`: the path up to the first `;` after the last `/`, and what follows it. */
  function SplitParams(p: string): (r: (string, string))
    ensures StartsWith(p, r.0)
  {
    var i := ParamsCut(p);
    if i < 0 then (p, "") else (p[..i], p[i + 1..])
  }

  /** The index of the first `;` after the last `/` of `p`, or -1. */
  function ParamsCut(p: string): (i: int)
    ensures -1 <= i < |p|
    ensures i >= 0 ==> p[i] == ';'
  {
    var slash := LastIndexOf(p, '/');
    var from := if slash < 0 then 0 else slash;
    var j := IndexOf(p[from..], ';');
    if j < 0 then -1 else from + j
  }

  /** Separates `scheme:` from the rest, as `urlsplit` does. */
  function SplitScheme(u: string): (r: (string, string))
  {
    var colon := IndexOf(u, ':');
    if colon > 0 && IsAsciiLetter(u[0]) && forall k | 0 <= k < colon :: IsSchemeChar(u[k])
    then (Lower(u[..colon]), u[colon + 1..])
    else ("", u)
  }

  /** Path, parameters, query and fragment of what follows the network location. */
  function SplitTail(scheme: string, rest: string): (r: (string, string, string, string))
  {
    var fragment := if '#' in rest then rest[IndexOf(rest, '#') + 1..] else "";
    var noFragment := BeforeFirst(rest, '#');
    var query := if '?' in noFragment then noFragment[IndexOf(noFragment, '?') + 1..] else "";
    var pathAndParams := BeforeFirst(noFragment, '?');
    var pp := if scheme in UsesParams && ';' in pathAndParams then SplitParams(pathAndParams) else (pathAndParams, "");
    (pp.0, pp.1, query, fragment)
  }

  /** `urllib.parse.urlparse` without its validity checks. */
  function Parse(url: string): (r: Parts)
    ensures forall i :: 0 <= i < |r.netloc| ==> !IsNetlocDelimiter(r.netloc[i])
  {
    var u := RemoveUnsafe(TrimLeftBy(url, IsC0OrSpace));
    var (scheme, afterScheme) := SplitScheme(u);
    var netSplit := if StartsWith(afterScheme, "//") then SplitNetloc(afterScheme[2..]) else ("", afterScheme);
    var tail := SplitTail(scheme, netSplit.1);
    Parts(scheme, netSplit.0, tail.0, tail.1, tail.2, tail.3)
  }

  predicate NoUnsafe(s: string) {
    '\t' !in s && '\r' !in s && '\n' !in s
  }

  lemma NoUnsafeAppend(u: string, v: string)
    ensures NoUnsafe(u + v) <==> NoUnsafe(u) && NoUnsafe(v)
  {
    assert forall c :: c in u + v <==> c in u || c in v;
  }

  lemma {:induction false} RemoveUnsafeKeeps(s: string)
    requires NoUnsafe(s)
    ensures RemoveUnsafe(s) == s
    decreases |s|
  {
    if s != [] {
      assert NoUnsafe(s[1..]) by { assert forall c | c in s[1..] :: c in s; }
      RemoveUnsafeKeeps(s[1..]);
    }
  }

  /** A scheme of scheme characters before the first `:` is split off and lower-cased. */
  lemma SplitSchemeWritten(scheme: string, after: string)
    requires scheme != [] && IsAsciiLetter(scheme[0])
    requires forall k | 0 <= k < |scheme| :: IsSchemeChar(scheme[k])
    ensures SplitScheme(scheme + ":" + after) == (Lower(scheme), after)
  {
    var u := scheme + ":" + after;
    assert u[..|scheme|] == scheme;
    assert ':' !in scheme by {
      forall k | 0 <= k < |scheme|
        ensures scheme[k] != ':'
      {
        assert IsSchemeChar(scheme[k]);
      }
    }
    IndexOfIs(u, ':', |scheme|);
    assert u[|scheme| + 1..] == after;
  }

  /** The network location runs up to the first delimiter. */
  lemma SplitNetlocWritten(host: string, rest: string)
    requires forall k | 0 <= k < |host| :: !IsNetlocDelimiter(host[k])
    requires rest == [] || IsNetlocDelimiter(rest[0])
    ensures SplitNetloc(host + rest).0 == host
  {
    var s := host + rest;
    assert forall m | 0 <= m < |host| :: s[m] == host[m];
    RunEndIs(s, 0, c => !IsNetlocDelimiter(c), |host|);
    assert s[..|host|] == host;
  }

  /**
   * `scheme://host` followed by `rest`, with a scheme of scheme characters,
   * a host free of delimiters, and a rest that is empty or starts a path,
   * query or fragment; no tab or line break anywhere.
   */
  predicate Written(scheme: string, host: string, rest: string) {
    && scheme != [] && IsAsciiLetter(scheme[0])
    && (forall k | 0 <= k < |scheme| :: IsSchemeChar(scheme[k]))
    && (forall k | 0 <= k < |host| :: !IsNetlocDelimiter(host[k]))
    && (rest == [] || IsNetlocDelimiter(rest[0]))
    && NoUnsafe(host) && NoUnsafe(rest)
  }

  /**
   * A URL written as `scheme://host` followed by a path, query or fragment
   * parses to that scheme (lower-cased) and that host.
   */
  lemma ParseWritten(scheme: string, host: string, rest: string)
    requires Written(scheme, host, rest)
    ensures Parse(scheme + "://" + host + rest).scheme == Lower(scheme)
    ensures Parse(scheme + "://" + host + rest).netloc == host
  {
    var url := scheme + "://" + host + rest;
    assert NoUnsafe(url) by {
      assert NoUnsafe(scheme) by {
        forall k | 0 <= k < |scheme|
          ensures scheme[k] != '\t' && scheme[k] != '\r' && scheme[k] != '\n'
        {
          assert IsSchemeChar(scheme[k]);
        }
      }
      NoUnsafeAppend(scheme, "://");
      NoUnsafeAppend(scheme + "://", host);
      NoUnsafeAppend(scheme + "://" + host, rest);
    }
    var after := "//" + (host + rest);
    assert url == scheme + ":" + after;
    assert TrimLeftBy(url, IsC0OrSpace) == url by {
      assert !IsC0OrSpace(url[0]);
    }
    RemoveUnsafeKeeps(url);
    SplitSchemeWritten(scheme, after);
    assert StartsWith(after, "//") && after[2..] == host + rest by {
      assert after[..2] == "//";
    }
    SplitNetlocWritten(host, rest);
  }

  /** `urlparse` raises `ValueError` when the network location has an unmatched bracket. */
  predicate ValidNetloc(netloc: string) {
    ('[' in netloc) == (']' in netloc)
  }

  // ------------------------------------------------------------------
  // unquote and parse_qs
  // ------------------------------------------------------------------

  predicate IsHex(c: char) {
    IsDigit(c) || 'a' <= c <= 'f' || 'A' <= c <= 'F'
  }

  function HexValue(c: char): (r: nat)
    requires IsHex(c)
    ensures r < 16
  {
    if IsDigit(c) then c as int - '0' as int
    else if 'a' <= c <= 'f' then c as int - 'a' as int + 10
    else c as int - 'A' as int + 10
  }

  /** `%XX` escapes that decode to an ASCII character. */
  predicate AsciiEscapeAt(s: string, i: nat) {
    i + 3 <= |s| && s[i] == '%' && IsHex(s[i + 1]) && IsHex(s[i + 2])
    && HexValue(s[i + 1]) * 16 + HexValue(s[i + 2]) < 128
  }

  /** `urllib.parse.unquote` for escapes of ASCII characters; every other text is kept. */
  function Unquote(s: string): (r: string)
    ensures '%' !in s ==> r == s
    ensures |r| <= |s|
    decreases |s|
  {
    if s == [] then []
    else if AsciiEscapeAt(s, 0) then
      [(HexValue(s[1]) * 16 + HexValue(s[2])) as char] + Unquote(s[3..])
    else
      assert '%' !in s ==> '%' !in s[1..];
      [s[0]] + Unquote(s[1..])
  }

  /**
   * `k in parse_qs(query)`: some `&`-separated field has an `=`, a non-empty
   * value, and a name that decodes (with `+` read as a space) to `k`.
   */
  predicate HasQueryKey(query: string, k: string) {
    exists field | field in SplitOn(query, '&') ::
      && '=' in field
      && IndexOf(field, '=') + 1 < |field|
      && Unquote(ReplaceChar(field[..IndexOf(field, '=')], '+', ' ')) == k
  }

  /** A query of one plain pair `k=v` with a non-empty value has the key `k`. */
  lemma HasQueryKeyOfPair(k: string, v: string)
    requires '&' !in k && '=' !in k && '%' !in k && '+' !in k
    requires '&' !in v && v != ""
    ensures HasQueryKey(k + "=" + v, k)
  {
    var field := k + "=" + v;
    assert '&' !in field by {
      assert forall c | c in field :: c in k || c == '=' || c in v;
    }
    assert SplitOn(field, '&') == [field];
    assert field[|k|] == '=' && field[..|k|] == k;
    IndexOfIs(field, '=', |k|);
    assert ReplaceChar(k, '+', ' ') == k;
  }

  /** `any(k in parse_qs(query) for k in keys)`. */
  predicate HasAnyQueryKey(query: string, keys: seq<string>) {
    exists k | k in keys :: HasQueryKey(query, k)
  }

  /** A query whose pairs are all blank, or which has no `=`, has no keys. */
  lemma NoEqualsNoKeys(query: string, k: string)
    requires '=' !in query
    ensures !HasQueryKey(query, k)
  {
    forall field | field in SplitOn(query, '&')
      ensures '=' !in field
    {
      SplitPiecesInside(query, '&', field, '=');
    }
  }

  lemma SplitPiecesInside(s: string, c: char, piece: string, x: char)
    requires piece in SplitOn(s, c) && x !in s
    ensures x !in piece
    decreases |s|
  {
    var i := IndexOf(s, c);
    if i >= 0 && piece != s[..i] {
      SplitPiecesInside(s[i + 1..], c, piece, x);
    }
  }
}
