/**
 * The filename heuristics of core/downloader.py: the text normaliser, the
 * plausibility filter shared with discovery, the link-text blacklist, the
 * document-extension test, the filename sanitiser and the
 * Content-Disposition parser.
 */
module Filenames {
  import opened Wrappers
  import opened Text
  import opened Urls

  /**
   * Terms whose presence in a normalised name marks it as not being meeting
   * minutes, in the order of the source's list, one constant per line of it.
   */
  const FilenameBlacklist: seq<string> :=
    FinancialTerms + NormativeTerms + MembershipTerms + LegislationTerms
    + GuidanceTerms + RegistrationTerms + PlanningTerms + FormTerms
    + AgreementTerms + NewsTerms + ResultTerms + StudyTerms

  const FinancialTerms: seq<string> := ["balanc", "demonstr", "extrato", "relatorio", "gestao", "contas", "financeiro", "orcament"]
  const NormativeTerms: seq<string> := ["portaria", "resolucao", "resolucoes", "estatuto", "regimento", "normativo", "normativos"]
  const MembershipTerms: seq<string> := ["membro-", "membros", "composicao", "certificado", "certificacao", "certificado-", "credenciamento"]
  const LegislationTerms: seq<string> := ["lei", "decreto", "norma", "normas", "legislacao", "instrucao"]
  const GuidanceTerms: seq<string> := ["boletim", "informativo", "cartilha", "manual", "tutorial", "guia", "orientacao", "folder"]
  const RegistrationTerms: seq<string> := ["cronograma", "calendario", "recadastramento", "cadastro", "prova-de-vida"]
  const PlanningTerms: seq<string> := ["planejamento", "politica", "informe", "censo", "organograma", "fluxograma"]
  const FormTerms: seq<string> := ["formulario", "requerimento", "solicitacao", "declaracao"]
  const AgreementTerms: seq<string> := ["termo", "convenio", "contrato", "licitacao", "edital", "concurso", "adesao"]
  const NewsTerms: seq<string> := ["noticia", "noticias", "evento", "publicacao", "revista"]
  const ResultTerms: seq<string> := ["gabarito", "resultado", "classificacao", "convocacao"]
  const StudyTerms: seq<string> := ["estudo", "atuarial", "governanca"]

  /** Link texts that mark an investment-policy document. */
  const BlacklistText: seq<string> := ["política de investimentos", "politica de investimentos", "policy"]

  /** The extensions of the downloader's `DOC_EXTS`, in its order. */
  const DownloaderDocExts: seq<string> := [".pdf", ".doc", ".docx", ".htm", ".html", ".xlsx", ".xls"]

  // ------------------------------------------------------------------
  // normalize_text
  // ------------------------------------------------------------------

  predicate IsAscii(c: char) {
    c < '\U{80}'
  }

  /**
   * NFKD decomposition followed by `encode("ASCII", "ignore")` for one code
   * point of ASCII or Latin-1: accented letters lose their accent, the
   * compatibility characters keep their ASCII part, the rest disappears.
   */
  function AsciiFold(c: char): (r: string)
    ensures forall i :: 0 <= i < |r| ==> IsAscii(r[i])
    ensures IsAscii(c) ==> r == [c]
  {
    if IsAscii(c) then [c]
    else if c == '\U{A0}' || c == '\U{A8}' || c == '\U{AF}' || c == '\U{B4}' || c == '\U{B8}' then " "
    else if c == '\U{AA}' then "a"
    else if c == '\U{BA}' then "o"
    else if c == '\U{B2}' then "2"
    else if c == '\U{B3}' then "3"
    else if c == '\U{B9}' then "1"
    else if c == '\U{BC}' then "14"
    else if c == '\U{BD}' then "12"
    else if c == '\U{BE}' then "34"
    else if '\U{C0}' <= c <= '\U{C5}' then "A"
    else if c == '\U{C7}' then "C"
    else if '\U{C8}' <= c <= '\U{CB}' then "E"
    else if '\U{CC}' <= c <= '\U{CF}' then "I"
    else if c == '\U{D1}' then "N"
    else if '\U{D2}' <= c <= '\U{D6}' then "O"
    else if '\U{D9}' <= c <= '\U{DC}' then "U"
    else if c == '\U{DD}' then "Y"
    else if '\U{E0}' <= c <= '\U{E5}' then "a"
    else if c == '\U{E7}' then "c"
    else if '\U{E8}' <= c <= '\U{EB}' then "e"
    else if '\U{EC}' <= c <= '\U{EF}' then "i"
    else if c == '\U{F1}' then "n"
    else if '\U{F2}' <= c <= '\U{F6}' then "o"
    else if '\U{F9}' <= c <= '\U{FC}' then "u"
    else if c == '\U{FD}' || c == '\U{FF}' then "y"
    else ""
  }

  function FoldAscii(s: string): (r: string)
    ensures forall i :: 0 <= i < |r| ==> IsAscii(r[i])
    ensures (forall i :: 0 <= i < |s| ==> IsAscii(s[i])) ==> r == s
  {
    if s == [] then [] else AsciiFold(s[0]) + FoldAscii(s[1..])
  }

  /** No two consecutive spaces, and `' '` is the only whitespace character. */
  predicate SingleSpaced(s: string) {
    && (forall i :: 0 <= i < |s| && IsSpace(s[i]) ==> s[i] == ' ')
    && (forall i :: 0 <= i < |s| - 1 ==> !(s[i] == ' ' && s[i + 1] == ' '))
  }

  /** `re.sub(r"\s+", " ", s)`: every run of whitespace becomes one space. */
  function CollapseSpaces(s: string): (r: string)
    ensures SingleSpaced(r)
    ensures forall i :: 0 <= i < |r| ==> r[i] == ' ' || (r[i] in s && !IsSpace(r[i]))
    ensures s == [] <==> r == []
    ensures s != [] ==> (r[0] == ' ' <==> IsSpace(s[0]))
    decreases |s|
  {
    if s == [] then []
    else
      SuffixChars(s, s[1..]);
      if IsSpace(s[0]) then
        var rest := TrimLeftBy(s[1..], IsSpace);
        var c := CollapseSpaces(rest);
        SuffixChars(s[1..], rest);
        CollapseStep(' ', c, rest, s);
        [' '] + c
      else
        var c := CollapseSpaces(s[1..]);
        CollapseStep(s[0], c, s[1..], s);
        [s[0]] + c
  }

  /**
   * The one-pass reading of `re.sub(r"\s+", " ", s)`: copy every
   * non-whitespace character, write one space for the first whitespace
   * character of a run (`afterSpace` says the previous one was whitespace),
   * and drop the rest of the run.
   */
  function CollapseStream(s: string, afterSpace: bool): string
    decreases |s|
  {
    if s == [] then []
    else if !IsSpace(s[0]) then [s[0]] + CollapseStream(s[1..], false)
    else if afterSpace then CollapseStream(s[1..], true)
    else [' '] + CollapseStream(s[1..], true)
  }

  /** Inside a run, the stream skips to the run's end. */
  lemma {:induction false} StreamSkipsRun(s: string)
    ensures CollapseStream(s, true) == CollapseStream(TrimLeftBy(s, IsSpace), false)
    decreases |s|
  {
    if s != [] && IsSpace(s[0]) {
      StreamSkipsRun(s[1..]);
    }
  }

  /** `CollapseSpaces` agrees with the one-pass reading: each whitespace run becomes one space, all else is copied. */
  lemma {:induction false} CollapseSpacesStreams(s: string)
    ensures CollapseSpaces(s) == CollapseStream(s, false)
    decreases |s|
  {
    if s != [] {
      if IsSpace(s[0]) {
        var rest := TrimLeftBy(s[1..], IsSpace);
        StreamSkipsRun(s[1..]);
        CollapseSpacesStreams(rest);
      } else {
        CollapseSpacesStreams(s[1..]);
      }
    }
  }

  /**
   * One step of `CollapseSpaces`: a character put in front of a collapsed
   * tail keeps the result single-spaced and made of spaces and characters of `s`.
   */
  lemma CollapseStep(x: char, c: string, t: string, s: string)
    requires SingleSpaced(c)
    requires forall i :: 0 <= i < |c| ==> c[i] == ' ' || (c[i] in t && !IsSpace(c[i]))
    requires forall ch | ch in t :: ch in s
    requires x == ' ' || (x in s && !IsSpace(x))
    requires x == ' ' && c != [] ==> c[0] != ' '
    ensures SingleSpaced([x] + c)
    ensures forall i :: 0 <= i < |[x] + c| ==> ([x] + c)[i] == ' ' || (([x] + c)[i] in s && !IsSpace(([x] + c)[i]))
  {
    var r := [x] + c;
    forall i | 0 < i < |r|
      ensures r[i] == c[i - 1]
    {
    }
  }

  /**
   * What `normalize_text` produces: ASCII only, no upper case, no hyphen,
   * single spaces as the only whitespace, nothing to strip at either end.
   */
  predicate IsNormal(s: string) {
    && (forall i :: 0 <= i < |s| ==> IsAscii(s[i]) && !IsUpper(s[i]) && s[i] != '-')
    && SingleSpaced(s)
    && (s == [] || (s[0] != ' ' && s[|s| - 1] != ' '))
  }

  /** `normalize_text`: fold to ASCII, lower-case, hyphens to spaces, collapse whitespace, strip. */
  function NormalizeText(s: string): (r: string)
    ensures IsNormal(r)
  {
    var lowered := Lower(FoldAscii(s));
    var unhyphenated := ReplaceChar(lowered, '-', ' ');
    assert forall i :: 0 <= i < |unhyphenated| ==> IsAscii(unhyphenated[i]) && !IsUpper(unhyphenated[i]) && unhyphenated[i] != '-';
    var collapsed := CollapseSpaces(unhyphenated);
    var r := Strip(collapsed);
    StripKeepsSingleSpaced(collapsed);
    r
  }

  lemma StripKeepsSingleSpaced(s: string)
    requires SingleSpaced(s)
    ensures SingleSpaced(Strip(s))
    ensures forall i :: 0 <= i < |Strip(s)| ==> Strip(s)[i] in s
  {
    var r := Strip(s);
    var k :| 0 <= k <= |s| - |r| && ContainsAt(s, r, k);
    assert forall i | 0 <= i < |r| :: r[i] == s[k + i];
  }

  /** Normalised text is a fixed point of the normaliser. */
  lemma NormalizeFixesNormal(s: string)
    requires IsNormal(s)
    ensures NormalizeText(s) == s
  {
    assert FoldAscii(s) == s;
    LowerOfLower(s);
    assert ReplaceChar(s, '-', ' ') == s;
    CollapseSingleSpaced(s);
    TrimLeftNoop(s, IsSpace);
    TrimRightNoop(s, IsSpace);
  }

  lemma {:induction false} CollapseSingleSpaced(s: string)
    requires SingleSpaced(s)
    ensures CollapseSpaces(s) == s
    decreases |s|
  {
    if s != [] {
      assert SingleSpaced(s[1..]);
      if IsSpace(s[0]) {
        assert s[0] == ' ';
        assert |s| == 1 || !IsSpace(s[1]);
        TrimLeftNoop(s[1..], IsSpace);
      }
      CollapseSingleSpaced(s[1..]);
    }
  }

  /** Normalising twice is normalising once. */
  lemma NormalizeIdempotent(s: string)
    ensures NormalizeText(NormalizeText(s)) == NormalizeText(s)
  {
    NormalizeFixesNormal(NormalizeText(s));
  }

  // ------------------------------------------------------------------
  // Plausibility filter and link-text blacklist
  // ------------------------------------------------------------------

  /** `is_probably_meeting_document`: no blacklist term occurs in the normalised text. */
  predicate IsProbablyMeetingDocument(text: string) {
    !ContainsAny(NormalizeText(text), FilenameBlacklist)
  }

  /** A term that contains a character absent from `s` cannot occur in `s`. */
  lemma AbsentCharExcludes(s: string, t: string, c: char)
    requires c in t && c !in s
    ensures !Contains(s, t)
  {
    var k :| 0 <= k < |t| && t[k] == c;
    forall i | 0 <= i <= |s| - |t|
      ensures !ContainsAt(s, t, i)
    {
      assert s[i..i + |t|][k] == s[i + k] != c;
    }
  }

  /** Hyphenated blacklist terms (`membro-`, `certificado-`, `prova-de-vida`) can never match. */
  lemma HyphenatedTermsNeverMatch(text: string, term: string)
    requires '-' in term
    ensures !Contains(NormalizeText(text), term)
  {
    AbsentCharExcludes(NormalizeText(text), term, '-');
  }

  /**
   * The shape every reject term has: at least three characters, one of them
   * an `e`, `i`, `o`, `u` or `l`.
   */
  predicate TermShape(t: string) {
    |t| >= 3 && ('e' in t || 'i' in t || 'o' in t || 'u' in t || 'l' in t)
  }

  lemma BlacklistShape()
    ensures forall t | t in FilenameBlacklist :: TermShape(t)
  {
    FinancialTermsShape();
    NormativeTermsShape();
    MembershipTermsShape();
    LegislationTermsShape();
    GuidanceTermsShape();
    RegistrationTermsShape();
    PlanningTermsShape();
    FormTermsShape();
    AgreementTermsShape();
    NewsTermsShape();
    ResultTermsShape();
    StudyTermsShape();
  }

  lemma FinancialTermsShape() ensures forall t | t in FinancialTerms :: TermShape(t) { }
  lemma NormativeTermsShape() ensures forall t | t in NormativeTerms :: TermShape(t) { }
  lemma MembershipTermsShape() ensures forall t | t in MembershipTerms :: TermShape(t) { }
  lemma LegislationTermsShape() ensures forall t | t in LegislationTerms :: TermShape(t) { }
  lemma GuidanceTermsShape() ensures forall t | t in GuidanceTerms :: TermShape(t) { }
  lemma RegistrationTermsShape() ensures forall t | t in RegistrationTerms :: TermShape(t) { }
  lemma PlanningTermsShape() ensures forall t | t in PlanningTerms :: TermShape(t) { }
  lemma FormTermsShape() ensures forall t | t in FormTerms :: TermShape(t) { }
  lemma AgreementTermsShape() ensures forall t | t in AgreementTerms :: TermShape(t) { }
  lemma NewsTermsShape() ensures forall t | t in NewsTerms :: TermShape(t) { }
  lemma ResultTermsShape() ensures forall t | t in ResultTerms :: TermShape(t) { }
  lemma StudyTermsShape() ensures forall t | t in StudyTerms :: TermShape(t) { }

  /** Empty text (and so a missing name) is accepted. */
  lemma EmptyTextIsPlausible()
    ensures IsProbablyMeetingDocument("")
  {
    NormalizeFixesNormal("");
    BlacklistShape();
  }

  /**
   * A lower-case ASCII name without whitespace and without doubled, leading
   * or trailing hyphens normalises to itself with its hyphens made spaces.
   */
  lemma NormalizeSimpleName(s: string)
    requires forall i :: 0 <= i < |s| ==> IsAscii(s[i]) && !IsUpper(s[i]) && !IsSpace(s[i])
    requires s != [] ==> s[0] != '-' && s[|s| - 1] != '-'
    requires forall i :: 0 <= i < |s| - 1 ==> !(s[i] == '-' && s[i + 1] == '-')
    ensures NormalizeText(s) == ReplaceChar(s, '-', ' ')
  {
    assert FoldAscii(s) == s;
    LowerOfLower(s);
    var r := ReplaceChar(s, '-', ' ');
    assert IsNormal(r);
    CollapseSingleSpaced(r);
    TrimLeftNoop(r, IsSpace);
    TrimRightNoop(r, IsSpace);
  }

  /** A balance sheet's file name. */
  const BalanceSheetName: string := "balanco-2023.pdf"

  /** The file name of the third minutes of 2024. */
  const NumberedMinutesName: string := "ata-03-2024.pdf"

  /** A simple name whose hyphen-to-space form holds a reject term is rejected. */
  lemma SimpleNameRejected(s: string, term: string)
    requires forall i :: 0 <= i < |s| ==> IsAscii(s[i]) && !IsUpper(s[i]) && !IsSpace(s[i])
    requires s != [] ==> s[0] != '-' && s[|s| - 1] != '-'
    requires forall i :: 0 <= i < |s| - 1 ==> !(s[i] == '-' && s[i + 1] == '-')
    requires term in FilenameBlacklist && Contains(ReplaceChar(s, '-', ' '), term)
    ensures !IsProbablyMeetingDocument(s)
  {
    NormalizeSimpleName(s);
  }

  /** A balance sheet is rejected. */
  lemma BalanceSheetRejected()
    ensures !IsProbablyMeetingDocument(BalanceSheetName)
  {
    var s := BalanceSheetName;
    assert s == "balanco-2023.pdf";
    var r := ReplaceChar(s, '-', ' ');
    assert ContainsAt(r, "balanc", 0) by {
      assert r[..6] == "balanc";
    }
    assert FinancialTerms[0] == "balanc";
    assert forall i :: 0 <= i < |s| ==> IsAscii(s[i]) && !IsUpper(s[i]) && !IsSpace(s[i]);
    assert forall i :: 0 <= i < |s| - 1 ==> !(s[i] == '-' && s[i + 1] == '-');
    SimpleNameRejected(s, "balanc");
  }

  /** Text with none of the letters `e`, `i`, `o`, `u`, `l` holds no reject term. */
  lemma NoTermWithoutLetters(r: string)
    requires 'e' !in r && 'i' !in r && 'o' !in r && 'u' !in r && 'l' !in r
    ensures !ContainsAny(r, FilenameBlacklist)
  {
    BlacklistShape();
    forall t | t in FilenameBlacklist
      ensures !Contains(r, t)
    {
      if 'e' in t {
        AbsentCharExcludes(r, t, 'e');
      } else if 'i' in t {
        AbsentCharExcludes(r, t, 'i');
      } else if 'o' in t {
        AbsentCharExcludes(r, t, 'o');
      } else if 'u' in t {
        AbsentCharExcludes(r, t, 'u');
      } else {
        AbsentCharExcludes(r, t, 'l');
      }
    }
  }

  /** A simple name with none of the letters `e`, `i`, `o`, `u`, `l` is accepted. */
  lemma SimpleNameAccepted(s: string)
    requires forall i :: 0 <= i < |s| ==> IsAscii(s[i]) && !IsUpper(s[i]) && !IsSpace(s[i])
    requires s != [] ==> s[0] != '-' && s[|s| - 1] != '-'
    requires forall i :: 0 <= i < |s| - 1 ==> !(s[i] == '-' && s[i + 1] == '-')
    requires 'e' !in s && 'i' !in s && 'o' !in s && 'u' !in s && 'l' !in s
    ensures IsProbablyMeetingDocument(s)
  {
    var r := ReplaceChar(s, '-', ' ');
    assert 'e' !in r && 'i' !in r && 'o' !in r && 'u' !in r && 'l' !in r;
    NoTermWithoutLetters(r);
    NormalizeSimpleName(s);
  }

  /** Minutes named after their number and year are accepted. */
  lemma NumberedMinutesAccepted()
    ensures IsProbablyMeetingDocument(NumberedMinutesName)
  {
    var s := NumberedMinutesName;
    assert s == "ata-03-2024.pdf";
    assert forall i :: 0 <= i < |s| ==> IsAscii(s[i]) && !IsUpper(s[i]) && !IsSpace(s[i]);
    assert forall i :: 0 <= i < |s| - 1 ==> !(s[i] == '-' && s[i + 1] == '-');
    SimpleNameAccepted(s);
  }

  /** `is_blacklisted`: the lower-cased text mentions an investment policy. */
  predicate IsBlacklisted(s: string) {
    ContainsAny(Lower(s), BlacklistText)
  }

  /** `looks_like_doc_url`: the lower-cased URL, cut at the first `?`, ends with a document extension. */
  predicate LooksLikeDocUrl(href: string) {
    href != "" && EndsWithAny(BeforeFirst(Lower(href), '?'), DownloaderDocExts)
  }

  // ------------------------------------------------------------------
  // sanitize_filename and Content-Disposition
  // ------------------------------------------------------------------

  /** Characters `sanitize_filename` keeps. */
  predicate IsFilenameChar(c: char) {
    IsAlnum(c) || c == ' ' || c == '.' || c == '_' || c == '-'
  }

  function KeepFilenameChars(s: string): (r: string)
    ensures forall i :: 0 <= i < |r| ==> IsFilenameChar(r[i])
    ensures |r| <= |s|
    ensures (forall i :: 0 <= i < |s| ==> IsFilenameChar(s[i])) ==> r == s
  {
    if s == [] then []
    else (if IsFilenameChar(s[0]) then [s[0]] else []) + KeepFilenameChars(s[1..])
  }

  /** Filtering distributes over concatenation: the kept characters stay in their order. */
  lemma {:induction false} KeepFilenameCharsAppend(a: string, b: string)
    ensures KeepFilenameChars(a + b) == KeepFilenameChars(a) + KeepFilenameChars(b)
    decreases |a|
  {
    if a == [] {
      assert a + b == b;
    } else {
      assert (a + b)[0] == a[0];
      assert (a + b)[1..] == a[1..] + b;
      KeepFilenameCharsAppend(a[1..], b);
    }
  }

  /** A name made of kept characters only, with no trailing whitespace. */
  predicate IsSanitized(s: string) {
    && (forall i :: 0 <= i < |s| ==> IsFilenameChar(s[i]))
    && (s == [] || !IsSpace(s[|s| - 1]))
  }

  /** `sanitize_filename`: keep alphanumerics and ` ._-`, in order, then strip trailing whitespace. */
  function SanitizeFilename(name: string): (r: string)
    ensures IsSanitized(r)
    ensures |r| <= |name|
    ensures StartsWith(KeepFilenameChars(name), r)
    ensures forall i | |r| <= i < |KeepFilenameChars(name)| :: IsSpace(KeepFilenameChars(name)[i])
  {
    RStrip(KeepFilenameChars(name))
  }

  /** A sanitized name is left as it is. */
  lemma SanitizeFixesSanitized(s: string)
    requires IsSanitized(s)
    ensures SanitizeFilename(s) == s
  {
    TrimRightNoop(s, IsSpace);
  }

  lemma SanitizeIdempotent(name: string)
    ensures SanitizeFilename(SanitizeFilename(name)) == SanitizeFilename(name)
  {
    SanitizeFixesSanitized(SanitizeFilename(name));
  }

  /** `re.search(r'filename\*?=([^;]+)', cd)` at position `i`: the start of the captured value. */
  function FilenameParamAt(cd: string, i: nat): (r: Option<nat>)
    ensures r.Some? ==> i + 9 <= r.value < |cd| && cd[r.value] != ';'
  {
    if !(i + 8 <= |cd| && cd[i..i + 8] == "filename") then None
    else
      var j := i + 8;
      var k := if j < |cd| && cd[j] == '*' then j + 1 else j;
      if k + 1 < |cd| && cd[k] == '=' && cd[k + 1] != ';' then Some(k + 1) else None
  }

  /** Length of the run of characters other than `;` starting at `k`. */
  function ValueRun(cd: string, k: nat): (n: nat)
    requires k <= |cd|
    ensures k + n <= |cd|
    ensures forall m :: k <= m < k + n ==> cd[m] != ';'
    ensures k + n == |cd| || cd[k + n] == ';'
    decreases |cd| - k
  {
    if k == |cd| || cd[k] == ';' then 0 else 1 + ValueRun(cd, k + 1)
  }

  /** The captured group `([^;]+)` of a match whose value starts at `k`. */
  function ParamValue(cd: string, k: nat): (r: string)
    requires k <= |cd|
    ensures ';' !in r
  {
    cd[k..k + ValueRun(cd, k)]
  }

  /** The leftmost match of the filename parameter at or after `i`, as the captured group. */
  function FindFilenameParam(cd: string, i: nat): (r: Option<string>)
    ensures r.Some? ==> r.value != "" && ';' !in r.value
    ensures r.None? <==> forall p | i <= p < |cd| :: FilenameParamAt(cd, p).None?
    decreases |cd| - i
  {
    if i >= |cd| then None
    else match FilenameParamAt(cd, i)
      case Some(k) =>
        assert cd[k..k + ValueRun(cd, k)][0] == cd[k];
        Some(ParamValue(cd, k))
      case None => FindFilenameParam(cd, i + 1)
  }

  /** The value found is the captured group of the leftmost match. */
  lemma {:induction false} FindFilenameParamFirst(cd: string, i: nat) returns (p: nat)
    requires FindFilenameParam(cd, i).Some?
    ensures i <= p < |cd| && FilenameParamAt(cd, p).Some?
    ensures forall q | i <= q < p :: FilenameParamAt(cd, q).None?
    ensures FindFilenameParam(cd, i).value == ParamValue(cd, FilenameParamAt(cd, p).value)
    decreases |cd| - i
  {
    if FilenameParamAt(cd, i).Some? {
      p := i;
    } else {
      p := FindFilenameParamFirst(cd, i + 1);
    }
  }

  /** A match at `p` with none before it is the one `FindFilenameParam` reports. */
  lemma {:induction false} FindFilenameParamAt(cd: string, i: nat, p: nat)
    requires i <= p < |cd| && FilenameParamAt(cd, p).Some?
    requires forall q | i <= q < p :: FilenameParamAt(cd, q).None?
    ensures FindFilenameParam(cd, i) == Some(ParamValue(cd, FilenameParamAt(cd, p).value))
    decreases p - i
  {
    if i < p {
      FindFilenameParamAt(cd, i + 1, p);
    }
  }

  /**
   * `filename_from_content_disposition`: `None` when the header is missing,
   * empty or has no filename parameter; otherwise the parameter's value,
   * stripped of whitespace and quotes, percent-decoded and sanitised.
   */
  function FilenameFromContentDisposition(cd: Option<string>): (r: Option<string>)
    ensures cd.None? || cd == Some("") ==> r.None?
    ensures cd.Some? && cd.value != "" ==>
      (r.None? <==> forall p | 0 <= p < |cd.value| :: FilenameParamAt(Lower(cd.value), p).None?)
    ensures r.Some? ==> IsSanitized(r.value)
  {
    if cd.None? || cd.value == "" then None
    else match FindFilenameParam(Lower(cd.value), 0)
      case None => None
      case Some(group) =>
        Some(SanitizeFilename(Unquote(StripQuotes(group))))
  }

  /**
   * A name read from the header is the sanitised, percent-decoded,
   * quote-stripped value of the leftmost `filename` parameter of the
   * lower-cased header.
   */
  lemma ContentDispositionFirstMatch(cd: string) returns (p: nat)
    requires FilenameFromContentDisposition(Some(cd)).Some?
    ensures p < |cd| && FilenameParamAt(Lower(cd), p).Some?
    ensures forall q | 0 <= q < p :: FilenameParamAt(Lower(cd), q).None?
    ensures FilenameFromContentDisposition(Some(cd)).value
      == SanitizeFilename(Unquote(StripQuotes(ParamValue(Lower(cd), FilenameParamAt(Lower(cd), p).value))))
  {
    p := FindFilenameParamFirst(Lower(cd), 0);
  }

  /** `.strip().strip('"').strip("'")`. */
  function StripQuotes(v: string): string {
    StripBy(StripBy(Strip(v), c => c == '"'), c => c == '\'')
  }

  /** What a server writes before the quoted file name. */
  const AttachmentPrefix: string := "attachment; filename="

  /** The header a server writes for a quoted file name. */
  function AttachmentHeader(name: string): string {
    AttachmentPrefix + Quoted(name)
  }

  function Quoted(name: string): string {
    ['"'] + name + ['"']
  }

  /** Lower-casing keeps a sanitized name sanitized and its first character non-blank. */
  lemma LowerKeepsSanitized(n: string)
    requires IsSanitized(n)
    ensures IsSanitized(Lower(n))
  {
    forall i | 0 <= i < |n|
      ensures IsFilenameChar(Lower(n)[i])
    {
      assert IsFilenameChar(n[i]);
    }
  }

  /** Lower-casing the header lower-cases the name in it. */
  lemma HeaderLowered(n: string)
    ensures Lower(AttachmentHeader(n)) == AttachmentHeader(Lower(n))
  {
    LowerAppend(AttachmentPrefix, Quoted(n));
    LowerAppend(['"'] + n, ['"']);
    LowerAppend(['"'], n);
    LowerOfLower(AttachmentPrefix);
  }

  /** The prefix holds `filename=` at position 12 and no earlier `f`. */
  lemma AttachmentPrefixShape()
    ensures |AttachmentPrefix| == 21
    ensures AttachmentPrefix[12..20] == "filename" && AttachmentPrefix[20] == '='
    ensures forall q | 0 <= q < 12 :: AttachmentPrefix[q] != 'f'
  {
  }

  /**
   * After a 21-character prefix whose only `filename=` starts at 12, the
   * leftmost filename parameter captures the whole `;`-free rest.
   */
  lemma FirstParamAfter(pre: string, v: string)
    requires |pre| == 21 && pre[12..20] == "filename" && pre[20] == '='
    requires forall q | 0 <= q < 12 :: pre[q] != 'f'
    requires v != [] && ';' !in v
    ensures FindFilenameParam(pre + v, 0) == Some(v)
  {
    var cd := pre + v;
    assert cd[12..20] == pre[12..20];
    assert cd[20] == '=' && cd[21] == v[0];
    assert FilenameParamAt(cd, 12) == Some(21);
    forall q | 0 <= q < 12
      ensures FilenameParamAt(cd, q).None?
    {
      assert cd[q..q + 8][0] == cd[q] == pre[q];
    }
    FindFilenameParamAt(cd, 0, 12);
    assert FindFilenameParam(cd, 0) == Some(ParamValue(cd, 21));
    assert cd[21..] == v;
    ValueRunToEnd(cd, 21);
    assert ParamValue(cd, 21) == cd[21..|cd|] == v;
  }

  /** A sanitized name holds no `;`, `%` or quote: sanitizing removes them. */
  lemma SanitizedPlain(m: string)
    requires IsSanitized(m)
    ensures ';' !in m && '%' !in m && '"' !in m && '\'' !in m
  {
    forall i | 0 <= i < |m|
      ensures m[i] != ';' && m[i] != '%' && m[i] != '"' && m[i] != '\''
    {
      assert IsFilenameChar(m[i]);
    }
  }

  /** In a header built from a sanitized name, the first filename parameter captures the quoted name. */
  lemma HeaderParam(m: string)
    requires IsSanitized(m)
    ensures FindFilenameParam(AttachmentHeader(m), 0) == Some(Quoted(m))
  {
    AttachmentPrefixShape();
    SanitizedPlain(m);
    assert ';' !in Quoted(m);
    FirstParamAfter(AttachmentPrefix, Quoted(m));
  }

  /** With no `;` after `k`, the value runs to the end. */
  lemma {:induction false} ValueRunToEnd(cd: string, k: nat)
    requires k <= |cd| && ';' !in cd[k..]
    ensures ValueRun(cd, k) == |cd| - k
    decreases |cd| - k
  {
    if k < |cd| {
      assert cd[k] == cd[k..][0];
      assert cd[k + 1..] == cd[k..][1..];
      ValueRunToEnd(cd, k + 1);
    }
  }

  /** Stripping a quoted sanitized name gives the name back. */
  lemma QuotesStripped(m: string)
    requires m != [] && IsSanitized(m) && !IsSpace(m[0])
    ensures StripQuotes(Quoted(m)) == m
  {
    var g := Quoted(m);
    StripByNoop(g, IsSpace);
    StripByEnclosed('"', m, c => c == '"');
    StripByNoop(m, c => c == '\'');
  }

  /**
   * Round trip: a sanitized name written as `attachment; filename="<name>"`
   * is read back, lower-cased, from the header.
   */
  lemma ContentDispositionRoundTrip(n: string)
    requires n != [] && IsSanitized(n) && !IsSpace(n[0])
    ensures FilenameFromContentDisposition(Some(AttachmentHeader(n))) == Some(Lower(n))
  {
    var m := Lower(n);
    var cd := AttachmentHeader(n);
    LowerKeepsSanitized(n);
    HeaderLowered(n);
    HeaderParam(m);
    assert FindFilenameParam(Lower(cd), 0) == Some(Quoted(m));
    assert cd != [] by {
      assert |cd| == |AttachmentPrefix| + |Quoted(n)|;
    }
    assert FilenameFromContentDisposition(Some(cd)) == Some(SanitizeFilename(Unquote(StripQuotes(Quoted(m)))));
    SanitizedPlain(m);
    QuotesStripped(m);
    SanitizeFixesSanitized(m);
  }
}
