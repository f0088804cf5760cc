/**
 * The metadata side of core/extractor.py: the meeting-type and date
 * detectors, which read the first 500 characters of a text, and the record
 * built for each downloaded file. Text extraction from PDF, DOC and DOCX
 * files is not modelled.
 */
module Extractor {
  import opened Wrappers
  import opened Text
  import opened Ranking
  import Downloader

  /** How much of the text the detectors read. */
  const HeadLength: nat := 500

  /** `text[:500].lower()`. */
  function HeadLower(text: string): (r: string)
    ensures |r| <= HeadLength
  {
    Lower(Take(text, HeadLength))
  }

  // ------------------------------------------------------------------
  // detect_meeting_type
  // ------------------------------------------------------------------

  const KeywordsComite: seq<string> := ["comitê de investimentos", "comite de investimentos"]
  const KeywordsConselho: seq<string> := ["conselho de administração", "conselho administrativo", "conselho fiscal"]

  const Committee: string := "Comitê de Investimentos"
  const Council: string := "Conselho"
  const UnknownType: string := "Desconhecido"

  /** `detect_meeting_type`: committee keywords first, then council keywords, else unknown. */
  function DetectMeetingType(text: string): (r: string)
    ensures r == Committee || r == Council || r == UnknownType
    ensures r == Committee <==> ContainsAny(HeadLower(text), KeywordsComite)
    ensures r == Council <==> !ContainsAny(HeadLower(text), KeywordsComite) && ContainsAny(HeadLower(text), KeywordsConselho)
  {
    var low := HeadLower(text);
    if ContainsAny(low, KeywordsComite) then Committee
    else if ContainsAny(low, KeywordsConselho) then Council
    else UnknownType
  }

  /** The detectors read through the same window whatever follows the first 500 characters. */
  lemma HeadIgnoresTail(text: string, tail: string)
    requires |text| >= HeadLength
    ensures HeadLower(text + tail) == HeadLower(text)
  {
    assert (text + tail)[..HeadLength] == text[..HeadLength];
  }

  /** The head of the lower-cased text is the lower-cased head. */
  lemma HeadOfLower(text: string)
    ensures HeadLower(Lower(text)) == HeadLower(text)
  {
    if |text| > HeadLength {
      LowerPrefix(text, HeadLength);
    }
    LowerIdempotent(Take(text, HeadLength));
  }

  /** Only the first 500 characters decide the meeting type. */
  lemma MeetingTypeReadsHead(text: string, tail: string)
    requires |text| >= HeadLength
    ensures DetectMeetingType(text + tail) == DetectMeetingType(text)
  {
    HeadIgnoresTail(text, tail);
  }

  /** The meeting type does not depend on letter case. */
  lemma MeetingTypeIgnoresCase(text: string)
    ensures DetectMeetingType(Lower(text)) == DetectMeetingType(text)
  {
    HeadOfLower(text);
  }

  // ------------------------------------------------------------------
  // extract_meeting_date
  // ------------------------------------------------------------------

  const NoDate: string := "Data não identificada"

  /** `\b` before a word character at `i`. */
  predicate BoundaryBefore(s: string, i: nat)
    requires i <= |s|
  {
    i == 0 || !IsWordChar(s[i - 1])
  }

  /** `\b` after a word character ending at `j`. */
  predicate BoundaryAfter(s: string, j: nat)
    requires j <= |s|
  {
    j == |s| || !IsWordChar(s[j])
  }

  /** `\d{n}` at `k`. */
  predicate DigitsAt(s: string, k: nat, n: nat) {
    k + n <= |s| && forall m | k <= m < k + n :: IsDigit(s[m])
  }

  /**
   * The end of `\d{1,2}` at `k`. The pattern element after it is never a
   * digit, so the only `\d{1,2}` that can lead to a match takes two digits
   * when there are two and one otherwise.
   */
  function ShortNumberEnd(s: string, k: nat): (r: Option<nat>)
    ensures r.Some? ==> k < r.value <= |s| && r.value <= k + 2 && DigitsAt(s, k, r.value - k)
    ensures r.Some? ==> (r.value == k + 2 <==> k + 1 < |s| && IsDigit(s[k + 1]))
    ensures r.None? <==> !(k < |s| && IsDigit(s[k]))
  {
    if k < |s| && IsDigit(s[k]) then
      if k + 1 < |s| && IsDigit(s[k + 1]) then Some(k + 2) else Some(k + 1)
    else None
  }

  /** `[a-zç]`. */
  predicate IsMonthChar(c: char) {
    'a' <= c <= 'z' || c == 'ç'
  }

  /**
   * The numeric pattern `\b\d{1,2}/\d{1,2}/\d{4}\b` at `i`: the end of its
   * match, if any. Each `\d{1,2}` is followed by `/`, so at most one way of
   * matching exists.
   */
  function NumericDateAt(s: string, i: nat): (r: Option<nat>)
    ensures r.Some? ==> i < r.value <= |s| && IsDigit(s[i])
  {
    if i >= |s| || !BoundaryBefore(s, i) then None
    else match ShortNumberEnd(s, i)
      case None => None
      case Some(a) =>
        if !(a < |s| && s[a] == '/') then None
        else match ShortNumberEnd(s, a + 1)
          case None => None
          case Some(b) =>
            if b < |s| && s[b] == '/' && DigitsAt(s, b + 1, 4) && BoundaryAfter(s, b + 5) then Some(b + 5)
            else None
  }

  /** `\s+de\s+` at `k`: the end of the match. */
  function DeAt(s: string, k: nat): (r: Option<nat>)
    requires k <= |s|
    ensures r.Some? ==> k < r.value <= |s|
  {
    var a := RunEnd(s, k, IsSpace);
    if a == k || !(a + 2 <= |s| && s[a] == 'd' && s[a + 1] == 'e') then None
    else
      var b := RunEnd(s, a + 2, IsSpace);
      if b == a + 2 then None else Some(b)
  }

  /**
   * The written pattern `\b\d{1,2}\s+de\s+[a-zç]+\s+de\s+\d{4}\b` at `i`:
   * the end of its match, if any. Every run is followed by a character it
   * cannot contain, so each run is taken whole.
   */
  function WrittenDateAt(s: string, i: nat): (r: Option<nat>)
    ensures r.Some? ==> i < r.value <= |s| && IsDigit(s[i])
  {
    if i >= |s| || !BoundaryBefore(s, i) then None
    else match ShortNumberEnd(s, i)
      case None => None
      case Some(a) =>
        match DeAt(s, a)
        case None => None
        case Some(b) =>
          var c := RunEnd(s, b, IsMonthChar);
          if c == b then None
          else match DeAt(s, c)
            case None => None
            case Some(d) =>
              if DigitsAt(s, d, 4) && BoundaryAfter(s, d + 4) then Some(d + 4) else None
  }

  /** `re.search`: the leftmost position from `k` on where `m` matches. */
  function FirstMatchFrom(m: (string, nat) -> Option<nat>, s: string, k: nat): (r: Option<nat>)
    ensures r.Some? ==> k <= r.value <= |s| && m(s, r.value).Some?
    ensures r.Some? ==> forall x | k <= x < r.value :: m(s, x).None?
    ensures r.None? ==> forall x | k <= x <= |s| :: m(s, x).None?
    decreases |s| + 1 - k
  {
    if k > |s| then None
    else if m(s, k).Some? then Some(k)
    else FirstMatchFrom(m, s, k + 1)
  }

  /** Some position of `s` starts a match of `m`. */
  predicate HasMatch(m: (string, nat) -> Option<nat>, s: string) {
    exists x | 0 <= x <= |s| :: m(s, x).Some?
  }

  /** The leftmost match of `m` in `s`, as a string. */
  function LeftmostMatch(m: (string, nat) -> Option<nat>, s: string): (r: Option<string>)
    requires forall x | 0 <= x <= |s| :: m(s, x).Some? ==> x < m(s, x).value <= |s|
    ensures r.Some? <==> HasMatch(m, s)
    ensures r.Some? ==> exists x | 0 <= x <= |s| ::
      && m(s, x).Some? && r.value == s[x..m(s, x).value]
      && forall y | 0 <= y < x :: m(s, y).None?
  {
    match FirstMatchFrom(m, s, 0)
    case None => None
    case Some(x) => Some(s[x..m(s, x).value])
  }

  /**
   * `extract_meeting_date`: the leftmost numeric date of the lower-cased
   * head, else its leftmost written date, else the sentinel.
   */
  function ExtractMeetingDate(text: string): (r: string)
    ensures r == NoDate <==> !HasMatch(NumericDateAt, HeadLower(text)) && !HasMatch(WrittenDateAt, HeadLower(text))
    ensures r != NoDate ==> |r| > 0 && IsDigit(r[0]) && Contains(HeadLower(text), r)
  {
    var low := HeadLower(text);
    DateMatchesStartWithDigit(low);
    match FirstDate(NumericDateAt, low)
    case Some(d) => d
    case None =>
      match FirstDate(WrittenDateAt, low)
      case Some(d) => d
      case None => NoDate
  }

  /** The leftmost match of a date pattern: present exactly when the pattern matches, and a digit-led substring. */
  function FirstDate(m: (string, nat) -> Option<nat>, s: string): (r: Option<string>)
    requires forall x | 0 <= x <= |s| :: m(s, x).Some? ==> x < |s| && IsDigit(s[x]) && x < m(s, x).value <= |s|
    ensures r.Some? <==> HasMatch(m, s)
    ensures r.Some? ==> |r.value| > 0 && IsDigit(r.value[0]) && r.value != NoDate && Contains(s, r.value)
    ensures r.Some? ==> exists x | 0 <= x <= |s| ::
      && m(s, x).Some? && r.value == s[x..m(s, x).value]
      && forall y | 0 <= y < x :: m(s, y).None?
  {
    match LeftmostMatch(m, s)
    case Some(d) => MatchFacts(m, s, d); Some(d)
    case None => None
  }

  /** Both date patterns match only non-empty spans that start with a digit. */
  lemma DateMatchesStartWithDigit(s: string)
    ensures forall x | 0 <= x <= |s| :: NumericDateAt(s, x).Some? ==> x < |s| && IsDigit(s[x]) && x < NumericDateAt(s, x).value <= |s|
    ensures forall x | 0 <= x <= |s| :: WrittenDateAt(s, x).Some? ==> x < |s| && IsDigit(s[x]) && x < WrittenDateAt(s, x).value <= |s|
  {
    forall x | 0 <= x <= |s| && NumericDateAt(s, x).Some?
      ensures x < |s| && IsDigit(s[x]) && x < NumericDateAt(s, x).value <= |s|
    {
    }
    forall x | 0 <= x <= |s| && WrittenDateAt(s, x).Some?
      ensures x < |s| && IsDigit(s[x]) && x < WrittenDateAt(s, x).value <= |s|
    {
    }
  }

  /** A match of a pattern that starts with a digit is a non-empty substring that starts with a digit. */
  lemma MatchFacts(m: (string, nat) -> Option<nat>, s: string, d: string)
    requires forall x | 0 <= x <= |s| :: m(s, x).Some? ==> x < |s| && IsDigit(s[x]) && x < m(s, x).value <= |s|
    requires exists x | 0 <= x <= |s| :: m(s, x).Some? && d == s[x..m(s, x).value]
    ensures d != NoDate && Contains(s, d) && IsDigit(d[0])
  {
    var x :| 0 <= x <= |s| && m(s, x).Some? && d == s[x..m(s, x).value];
    assert ContainsAt(s, d, x);
    assert NoDate[0] == 'D';
  }

  /** With a numeric date anywhere in the head, the written pattern is not consulted. */
  lemma NumericDateFirst(text: string, i: nat)
    requires i <= |HeadLower(text)| && NumericDateAt(HeadLower(text), i).Some?
    ensures var low := HeadLower(text);
      exists x | 0 <= x <= i :: NumericDateAt(low, x).Some? && ExtractMeetingDate(text) == low[x..NumericDateAt(low, x).value]
  {
    var low := HeadLower(text);
    var x := FirstMatchFrom(NumericDateAt, low, 0).value;
  }

  /** Only the first 500 characters decide the date. */
  lemma MeetingDateReadsHead(text: string, tail: string)
    requires |text| >= HeadLength
    ensures ExtractMeetingDate(text + tail) == ExtractMeetingDate(text)
  {
    HeadIgnoresTail(text, tail);
  }

  // ------------------------------------------------------------------
  // extract_metadata_from_files
  // ------------------------------------------------------------------

  /** The metadata dictionary of one downloaded file. */
  datatype Record = Record(
    rpps: Option<string>, uf: Option<string>,
    fileName: string, filePath: string, formato: string,
    fileUrl: string, sourcePage: string,
    tipoReuniao: Option<string>, dataReuniao: Option<string>)

  /** `a or b` on optional strings: `a` when it is a non-empty string, else `b`. */
  function OrElse(a: Option<string>, b: Option<string>): (r: Option<string>)
    ensures a.Some? && a.value != "" ==> r == a
    ensures !(a.Some? && a.value != "") ==> r == b
  {
    if a.Some? && a.value != "" then a else b
  }

  /** The components of a POSIX path: empty components and `.` dropped. */
  function PathParts(p: string): (r: seq<string>)
    ensures forall k | 0 <= k < |r| :: r[k] != "" && r[k] != "." && '/' !in r[k]
  {
    KeepParts(SplitOn(p, '/'))
  }

  function KeepParts(xs: seq<string>): (r: seq<string>)
    requires forall k | 0 <= k < |xs| :: '/' !in xs[k]
    ensures forall k | 0 <= k < |r| :: r[k] != "" && r[k] != "." && '/' !in r[k]
    ensures |r| <= |xs|
  {
    if xs == [] then []
    else
      assert forall k | 0 <= k < |xs| - 1 :: xs[1..][k] == xs[k + 1];
      if xs[0] == "" || xs[0] == "." then KeepParts(xs[1..]) else [xs[0]] + KeepParts(xs[1..])
  }

  /** A kept last component stays last. */
  lemma {:induction false} KeepPartsLast(xs: seq<string>)
    requires forall k | 0 <= k < |xs| :: '/' !in xs[k]
    requires xs != [] && xs[|xs| - 1] != "" && xs[|xs| - 1] != "."
    ensures var r := KeepParts(xs); r != [] && r[|r| - 1] == xs[|xs| - 1]
    decreases |xs|
  {
    if |xs| > 1 {
      assert forall k | 0 <= k < |xs| - 1 :: xs[1..][k] == xs[k + 1];
      KeepPartsLast(xs[1..]);
    }
  }

  /** The name of `dir/name` is `name`, whatever the directory. */
  lemma PathNameOfJoin(dir: string, name: string)
    requires name != "" && name != "." && '/' !in name
    ensures PathName(dir + "/" + name) == name
  {
    SplitOnLastPiece(dir, '/', name);
    KeepPartsLast(SplitOn(dir + "/" + name, '/'));
  }

  /** The root of a POSIX path: `//` for exactly two leading slashes, `/` for one or more than two. */
  function PathRoot(p: string): (r: string)
    ensures r == "" || r == "/" || r == "//"
    ensures r == "" <==> !StartsWith(p, "/")
    ensures r == "//" <==> StartsWith(p, "//") && !StartsWith(p, "///")
  {
    if StartsWith(p, "//") && !StartsWith(p, "///") then "//"
    else if StartsWith(p, "/") then "/"
    else ""
  }

  /** `"/".join(parts)`. */
  function JoinParts(parts: seq<string>): string
  {
    if parts == [] then ""
    else if |parts| == 1 then parts[0]
    else parts[0] + "/" + JoinParts(parts[1..])
  }

  /** `str(Path(p))`: the root followed by the kept components; `.` for an empty relative path. */
  function PathString(p: string): (r: string)
    ensures r != ""
  {
    var s := PathRoot(p) + JoinParts(PathParts(p));
    if s == "" then "." else s
  }

  /** `Path(p).name`: the last kept component, or "" when there is none. */
  function PathName(p: string): (r: string)
    ensures r != "." && '/' !in r
  {
    var parts := PathParts(p);
    if parts == [] then "" else parts[|parts| - 1]
  }

  /** `Path(p).suffix` of a name: from its last dot, unless the dot is first or last. */
  function Suffix(name: string): (r: string)
    ensures r == "" || (r[0] == '.' && |r| >= 2 && EndsWith(name, r) && '.' !in r[1..] && |r| < |name|)
    ensures forall i | 0 < i < |name| - 1 && name[i] == '.' && '.' !in name[i + 1..] :: r == name[i..]
  {
    var i := LastIndexOf(name, '.');
    LastDotIs(name);
    if 0 < i < |name| - 1 then DotSuffix(name, i); name[i..] else ""
  }

  /** The text from an inner dot with no dot after it is a suffix. */
  lemma DotSuffix(name: string, i: int)
    requires 0 < i < |name| - 1 && name[i] == '.' && '.' !in name[i + 1..]
    ensures var r := name[i..]; r[0] == '.' && |r| >= 2 && EndsWith(name, r) && '.' !in r[1..] && |r| < |name|
  {
    assert name[i..][1..] == name[i + 1..];
  }

  /** Any inner dot with no dot after it is the last dot. */
  lemma LastDotIs(name: string)
    ensures forall j | 0 < j < |name| - 1 && name[j] == '.' && '.' !in name[j + 1..] :: LastIndexOf(name, '.') == j
  {
    forall j | 0 < j < |name| - 1 && name[j] == '.' && '.' !in name[j + 1..]
      ensures LastIndexOf(name, '.') == j
    {
      LastIndexOfIs(name, '.', j);
    }
  }

  /** The record of one entry. */
  function RecordOf(e: Downloader.Entry, info: Option<Downloader.RppsInfo>): (r: Record)
    ensures r.rpps == OrElse(e.rpps, Downloader.RppsName(info))
    ensures r.uf == OrElse(e.uf, Downloader.RppsUf(info))
    ensures r.filePath == PathString(e.filePath) && r.fileName == PathName(e.filePath)
    ensures r.formato == Lower(Suffix(PathName(e.filePath)))
    ensures r.fileUrl == e.fileUrl && r.sourcePage == e.sourcePage
    ensures r.tipoReuniao.None? && r.dataReuniao.None?
  {
    var name := PathName(e.filePath);
    Record(OrElse(e.rpps, Downloader.RppsName(info)), OrElse(e.uf, Downloader.RppsUf(info)),
           name, PathString(e.filePath), Lower(Suffix(name)),
           e.fileUrl, e.sourcePage, None, None)
  }

  /**
   * The record of a file saved as `dir/name` carries that name and its
   * lower-cased extension, and leaves the meeting fields for later.
   */
  lemma RecordOfSavedFile(e: Downloader.Entry, info: Option<Downloader.RppsInfo>, dir: string, name: string)
    requires e.filePath == dir + "/" + name && name != "" && name != "." && '/' !in name
    ensures RecordOf(e, info).fileName == name
    ensures RecordOf(e, info).formato == Lower(Suffix(name))
  {
    PathNameOfJoin(dir, name);
  }

  /** A record is the one built for an entry. */
  function RecordFor(info: Option<Downloader.RppsInfo>): (Downloader.Entry, Record) -> bool {
    (e, r) => r == RecordOf(e, info)
  }

  /** `extract_metadata_from_files`: one record per entry, in order. */
  method ExtractMetadataFromFiles(entries: seq<Downloader.Entry>, info: Option<Downloader.RppsInfo>) returns (records: seq<Record>)
    ensures |records| == |entries|
    ensures forall k | 0 <= k < |entries| :: records[k] == RecordOf(entries[k], info)
  {
    records := [];
    for k := 0 to |entries|
      invariant |records| == k
      invariant Pointwise(RecordFor(info), entries, records)
    {
      PointwiseStep(RecordFor(info), entries, records, RecordOf(entries[k], info));
      records := records + [RecordOf(entries[k], info)];
    }
  }
}
