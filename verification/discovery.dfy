/**
 * The heuristics of core/discovery.py: URL predicates, the relevance score
 * of a link, the two page extractors and the ranking of elements worth
 * clicking in the browser.
 */
module Discovery {
  import opened Wrappers
  import opened Text
  import opened Urls
  import opened Ranking
  import opened Web
  import opened Filenames

  const MaxCrawlDepth: int := 3
  const MaxPagesFromSite: nat := 120

  /** The extensions of discovery's `DOC_EXTS`, in its order. */
  const DocExts: seq<string> := [".pdf", ".doc", ".docx", ".xls", ".xlsx", ".htm", ".html"]

  /** Words that hint at minutes, meetings, committees, investments and councils. */
  const HeurKeywords: seq<string> := [
    "ata", "atas",
    "reuni", "reunião", "reuniao",
    "comit", "comitê", "comite",
    "invest", "investimento", "investimentos",
    "conselho", "consel", "deliberativo", "fiscal"
  ]

  /** URL fragments that never lead to minutes: gazettes, tenders, news, login, HR. */
  const GlobalBlacklist: seq<string> := [
    "diariomunicipal", "diario-oficial", "diariooficial",
    "licitacao", "licitacoes", "pregao", "compras",
    "edital", "concurso",
    "legislacao", "legislação", "lei", "leis",
    "noticia", "notícias", "noticias",
    "ouvidoria",
    "portal-da-transparencia", "portal_transparencia", "transparencia",
    "contato", "fale-conosco", "faleconosco",
    "login", "auth", "sso", "senha",
    "rh", "recursos-humanos"
  ]

  /** Texts of general navigation elements the browser never clicks (with the source's repeated entry). */
  const NavBlacklistText: seq<string> := [
    "portal da transparência", "transparência", "transparencia",
    "ouvidoria", "notícias", "notícias", "noticia", "noticias",
    "legislação", "lei", "leis", "estatuto", "regimento",
    "contato", "fale conosco", "home", "início", "inicio",
    "institucional", "quem somos"
  ]

  // ------------------------------------------------------------------
  // URL predicates
  // ------------------------------------------------------------------

  /** `domain_of`: the network location, or "" when `urlparse` rejects the URL. */
  function DomainOf(url: string): (r: string)
    ensures ValidNetloc(r)
    ensures forall i :: 0 <= i < |r| ==> !IsNetlocDelimiter(r[i])
    ensures ValidNetloc(Parse(url).netloc) ==> r == Parse(url).netloc
    ensures !ValidNetloc(Parse(url).netloc) ==> r == ""
  {
    var netloc := Parse(url).netloc;
    if ValidNetloc(netloc) then netloc else ""
  }

  /**
   * The domain of `scheme://host/...` is the host, unless the host has an
   * unmatched bracket, in which case `urlparse` fails and the domain is "".
   */
  lemma DomainOfWritten(scheme: string, host: string, rest: string)
    requires Written(scheme, host, rest)
    ensures DomainOf(scheme + "://" + host + rest) == if ValidNetloc(host) then host else ""
  {
    ParseWritten(scheme, host, rest);
  }

  /** Two written URLs with well-formed hosts share a domain exactly when their hosts are equal. */
  lemma SameDomainWritten(s1: string, h1: string, r1: string, s2: string, h2: string, r2: string)
    requires Written(s1, h1, r1) && Written(s2, h2, r2)
    requires ValidNetloc(h1) && ValidNetloc(h2)
    ensures SameDomain(s1 + "://" + h1 + r1, s2 + "://" + h2 + r2) <==> h1 == h2
  {
    DomainOfWritten(s1, h1, r1);
    DomainOfWritten(s2, h2, r2);
  }

  predicate SameDomain(a: string, b: string) {
    DomainOf(a) == DomainOf(b)
  }

  /** `url_blacklisted`: the lower-cased URL contains a blacklisted fragment. */
  predicate UrlBlacklisted(url: string) {
    url != "" && ContainsAny(Lower(url), GlobalBlacklist)
  }

  /** `looks_like_file`: the lower-cased URL, cut at the first `?`, ends with a document extension. */
  predicate LooksLikeFile(url: string) {
    url != "" && EndsWithAny(BeforeFirst(Lower(url), '?'), DocExts)
  }

  /** Path words of a download hub. */
  const HubPathTokens: seq<string> := ["download", "downloads", "arquivo", "arquivos", "document", "docs", "publica"]

  /** Query keys of a download hub's category. */
  const HubQueryKeys: seq<string> := ["cat", "categoria", "idcategoria", "tipo", "idcat"]

  /** `is_download_hub_candidate`: a download-like path together with a category query key. */
  predicate IsDownloadHubCandidate(url: string) {
    url != "" && HubParts(Parse(url).path, Parse(url).query)
  }

  /** The hub test on a parsed URL's path and query. */
  predicate HubParts(path: string, query: string) {
    ContainsAny(Lower(path), HubPathTokens) && HasAnyQueryKey(Lower(query), HubQueryKeys)
  }

  /** A URL whose query has no `=` is never a hub, whatever its path. */
  lemma HubNeedsQueryKey(url: string)
    requires '=' !in Lower(Parse(url).query)
    ensures !IsDownloadHubCandidate(url)
  {
    forall k | k in HubQueryKeys
      ensures !HasQueryKey(Lower(Parse(url).query), k)
    {
      NoEqualsNoKeys(Lower(Parse(url).query), k);
    }
  }

  /** A URL whose path has none of the hub words is never a hub, whatever its query. */
  lemma HubNeedsPathToken(url: string)
    requires !ContainsAny(Lower(Parse(url).path), HubPathTokens)
    ensures !IsDownloadHubCandidate(url)
  {
  }

  /** The two document-extension tests agree: they use the same seven extensions. */
  lemma LooksLikeFileAgreesWithDownloader(url: string)
    ensures LooksLikeFile(url) <==> LooksLikeDocUrl(url)
  {
    var u := BeforeFirst(Lower(url), '?');
    forall t | t in DocExts
      ensures t in DownloaderDocExts
    {
    }
    forall t | t in DownloaderDocExts
      ensures t in DocExts
    {
    }
  }

  /** Whether a URL looks like a file does not depend on the case of its letters. */
  lemma LooksLikeFileIgnoresCase(url: string)
    ensures LooksLikeFile(Lower(url)) <==> LooksLikeFile(url)
  {
    LowerIdempotent(url);
  }

  /** Only the part before the first `?` decides whether a URL looks like a file. */
  lemma LooksLikeFileIgnoresQuery(p: string, q: string)
    requires '?' !in p
    ensures LooksLikeFile(p + "?" + q) <==> LooksLikeFile(p)
  {
    var lp := Lower(p);
    LowerAppend(p + "?", q);
    LowerAppend(p, "?");
    assert Lower("?") == "?";
    assert '?' !in lp by {
      forall i | 0 <= i < |lp|
        ensures lp[i] != '?'
      {
        assert lp[i] == LowerChar(p[i]);
      }
    }
    var s := lp + "?" + Lower(q);
    assert s[|lp|] == '?' && s[..|lp|] == lp;
    IndexOfIs(s, '?', |lp|);
    assert BeforeFirst(s, '?') == lp;
    if p == "" {
      forall t | t in DocExts
        ensures !EndsWith("", t)
      {
      }
    }
  }

  /** Blacklisting ignores case: a URL and its lower-cased form are treated alike. */
  lemma UrlBlacklistedIgnoresCase(url: string)
    ensures UrlBlacklisted(Lower(url)) <==> UrlBlacklisted(url)
  {
    LowerIdempotent(url);
  }

  /** A blacklisted fragment is a plain substring: text added on either side keeps a URL blacklisted. */
  lemma UrlBlacklistedExtends(a: string, b: string)
    requires UrlBlacklisted(a)
    ensures UrlBlacklisted(a + b) && UrlBlacklisted(b + a)
  {
    LowerAppend(a, b);
    LowerAppend(b, a);
    ContainsAnyLeft(Lower(a), Lower(b), GlobalBlacklist);
    ContainsAnyRight(Lower(b), Lower(a), GlobalBlacklist);
  }

  /**
   * A non-empty URL with a hub path word and a category key that has a
   * value is a hub; with `HubNeedsQueryKey` and `HubNeedsPathToken`, both
   * parts are needed and together they are enough.
   */
  lemma HubFromParts(url: string, t: string, k: string)
    requires url != ""
    requires t in HubPathTokens && Contains(Lower(Parse(url).path), t)
    requires k in HubQueryKeys && HasQueryKey(Lower(Parse(url).query), k)
    ensures IsDownloadHubCandidate(url)
  {
  }

  /** The kind of page the heuristic is for: `downloads.php?cat=7` is a hub. */
  lemma HubExample()
    ensures HubParts("/downloads.php", "cat=7")
  {
    HubExamplePath();
    HubExampleQuery();
  }

  lemma HubExamplePath()
    ensures ContainsAny(Lower("/downloads.php"), HubPathTokens)
  {
    var path := Lower("/downloads.php");
    assert path == "/downloads.php";
    assert ContainsAt(path, "download", 1);
    assert Contains(path, "download");
    assert HubPathTokens[0] == "download";
  }

  lemma HubExampleQuery()
    ensures HasAnyQueryKey(Lower("cat=7"), HubQueryKeys)
  {
    assert Lower("cat=7") == "cat" + "=" + "7";
    HasQueryKeyOfPair("cat", "7");
    assert HubQueryKeys[0] == "cat";
  }

  // ------------------------------------------------------------------
  // element_text_score
  // ------------------------------------------------------------------

  /** Path words of pages that tend to list documents. */
  const DocPathTokens: seq<string> := ["ata", "atas", "download", "downloads", "arquivo", "document", "docs"]

  /** Texts of generic navigation that lower the score. */
  const NavPenaltyTerms: seq<string> := ["portal da transparência", "transparência", "transparencia", "ouvidoria", "noticia", "notícias"]

  const ScoreFloor: int := -32
  const ScoreCeiling: int := 8 * 15 + 12

  /** Eight points for every keyword found in `full`. */
  function KeywordPoints(full: string, ks: seq<string>): (r: int)
    ensures 0 <= r <= 8 * |ks|
  {
    if ks == [] then 0
    else (if Contains(full, ks[0]) then 8 else 0) + KeywordPoints(full, ks[1..])
  }

  /** The keywords found in `full`, in order. */
  function FoundKeywords(full: string, ks: seq<string>): (r: seq<string>)
    ensures forall k :: k in r <==> k in ks && Contains(full, k)
  {
    if ks == [] then []
    else (if Contains(full, ks[0]) then [ks[0]] else []) + FoundKeywords(full, ks[1..])
  }

  /** Each keyword found adds exactly 8: the points count the keywords found, overlapping ones included. */
  lemma {:induction false} KeywordPointsCount(full: string, ks: seq<string>)
    ensures KeywordPoints(full, ks) == 8 * |FoundKeywords(full, ks)|
    decreases |ks|
  {
    if ks != [] {
      KeywordPointsCount(full, ks[1..]);
    }
  }

  /** Two different keywords found in the text both count. */
  lemma {:induction false} KeywordPointsStack(full: string, ks: seq<string>, i: nat, j: nat)
    requires i < j < |ks|
    requires Contains(full, ks[i]) && Contains(full, ks[j])
    ensures KeywordPoints(full, ks) >= 16
    decreases i
  {
    if i > 0 {
      KeywordPointsStack(full, ks[1..], i - 1, j - 1);
    } else {
      assert ks[1..][j - 1] == ks[j];
      KeywordPointsFound(full, ks[1..], j - 1);
    }
  }

  lemma {:induction false} KeywordPointsFound(full: string, ks: seq<string>, j: nat)
    requires j < |ks| && Contains(full, ks[j])
    ensures KeywordPoints(full, ks) >= 8
    decreases j
  {
    if j > 0 {
      KeywordPointsFound(full, ks[1..], j - 1);
    }
  }

  /** Keywords longer than the text are never found. */
  lemma {:induction false} KeywordPointsNone(full: string, ks: seq<string>)
    requires forall k | k in ks :: |k| > |full|
    ensures KeywordPoints(full, ks) == 0
    decreases |ks|
  {
    if ks != [] {
      KeywordPointsNone(full, ks[1..]);
    }
  }

  /** `re.search(r"\b(19|20)\d{2}\b", s)` matches at `i`. */
  predicate YearAt(s: string, i: int) {
    && 0 <= i && i + 4 <= |s|
    && ((s[i] == '1' && s[i + 1] == '9') || (s[i] == '2' && s[i + 1] == '0'))
    && IsDigit(s[i + 2]) && IsDigit(s[i + 3])
    && (i == 0 || !IsWordChar(s[i - 1]))
    && (i + 4 == |s| || !IsWordChar(s[i + 4]))
  }

  predicate HasYear(s: string) {
    exists i | 0 <= i <= |s| - 4 :: YearAt(s, i)
  }

  /** Six points when the link mentions a document-listing word. */
  function DocPathBonus(h: string): int {
    if ContainsAny(h, DocPathTokens) then 6 else 0
  }

  /** Six points when text or link mentions a year of the 1900s or 2000s. */
  function YearBonus(full: string): int {
    if HasYear(full) then 6 else 0
  }

  /** Twelve points off for generic navigation. */
  function NavPenalty(full: string): int {
    if ContainsAny(full, NavPenaltyTerms) then 12 else 0
  }

  /** Twenty points off for a blacklisted link. */
  function BlacklistPenalty(h: string): int {
    if UrlBlacklisted(h) then 20 else 0
  }

  /**
   * `element_text_score`: keyword points over text and URL, a bonus for a
   * document-like URL and for a year, penalties for navigation and for a
   * blacklisted URL.
   */
  function ElementTextScore(text: string, href: string): (r: int)
    ensures ScoreFloor <= r <= ScoreCeiling
  {
    var h := Lower(href);
    var full := Lower(text) + " " + h;
    KeywordPoints(full, HeurKeywords) + DocPathBonus(h) + YearBonus(full) - NavPenalty(full) - BlacklistPenalty(h)
  }

  /** Every keyword has at least three characters. */
  lemma KeywordsLong()
    ensures forall k | k in HeurKeywords :: |k| >= 3
  {
  }

  /** Every navigation penalty term has at least six characters. */
  lemma PenaltyTermsLong()
    ensures forall k | k in NavPenaltyTerms :: |k| >= 6
  {
  }

  /** An element with neither text nor link scores zero. */
  lemma EmptyElementScoresZero(text: string, href: string)
    requires text == "" && href == ""
    ensures ElementTextScore(text, href) == 0
  {
    var h := Lower(href);
    var full := Lower(text) + " " + h;
    assert |full| == 1 && h == [];
    assert KeywordPoints(full, HeurKeywords) == 0 by {
      KeywordsLong();
      KeywordPointsNone(full, HeurKeywords);
    }
    assert NavPenalty(full) == 0 by {
      PenaltyTermsLong();
    }
    assert DocPathBonus(h) == 0 by {
      forall k | k in DocPathTokens
        ensures !Contains(h, k)
      {
        assert |k| > 0;
      }
    }
    assert YearBonus(full) == 0;
    assert BlacklistPenalty(h) == 0;
  }

  /** "comitê" contains "comit": a committee link collects at least 16 keyword points. */
  lemma CommitteeKeywordsStack(text: string, href: string)
    requires Contains(Lower(text) + " " + Lower(href), "comitê")
    ensures KeywordPoints(Lower(text) + " " + Lower(href), HeurKeywords) >= 16
  {
    var full := Lower(text) + " " + Lower(href);
    assert HeurKeywords[5] == "comit" && HeurKeywords[6] == "comitê";
    PrefixContained("comitê", "comit");
    ContainsTrans(full, "comitê", "comit");
    KeywordPointsStack(full, HeurKeywords, 5, 6);
  }

  // ------------------------------------------------------------------
  // extract_docs_from_html
  // ------------------------------------------------------------------

  /**
   * The contribution of one anchor: a file-shaped link when its file name
   * or its text is plausible, otherwise a download page whose text or URL
   * carries a keyword.
   */
  function AnchorDoc(join: (string, string) -> string, base: string, a: Anchor): (r: seq<string>)
    ensures |r| <= 1
    ensures r != [] ==> r[0] == join(base, Strip(a.href)) && !UrlBlacklisted(r[0])
    ensures LooksLikeFile(join(base, Strip(a.href))) ==>
      (r != [] <==>
        (!UrlBlacklisted(join(base, Strip(a.href)))
         && (IsProbablyMeetingDocument(AfterLast(join(base, Strip(a.href)), '/')) || IsProbablyMeetingDocument(a.text))))
    ensures !LooksLikeFile(join(base, Strip(a.href))) ==>
      (r != [] <==>
        (!UrlBlacklisted(join(base, Strip(a.href)))
         && (Contains(Lower(join(base, Strip(a.href))), "download") || Contains(Lower(join(base, Strip(a.href))), "arquivo"))
         && ContainsAny(Lower(a.text + " " + join(base, Strip(a.href))), HeurKeywords)))
  {
    var abs := join(base, Strip(a.href));
    if UrlBlacklisted(abs) then []
    else if LooksLikeFile(abs) then
      if IsProbablyMeetingDocument(AfterLast(abs, '/')) || IsProbablyMeetingDocument(a.text) then [abs] else []
    else
      var full := Lower(a.text + " " + abs);
      if (Contains(Lower(abs), "download") || Contains(Lower(abs), "arquivo")) && ContainsAny(full, HeurKeywords)
      then [abs] else []
  }

  /** The contribution of one embedded frame. */
  function FrameDoc(join: (string, string) -> string, base: string, f: Frame): (r: seq<string>)
    ensures |r| <= 1
    ensures r != [] ==> f.Source() != "" && r[0] == join(base, f.Source()) && !UrlBlacklisted(r[0])
    ensures r != [] && LooksLikeFile(r[0]) ==> IsProbablyMeetingDocument(AfterLast(r[0], '/'))
    ensures f.Source() != "" && !UrlBlacklisted(join(base, f.Source())) && LooksLikeFile(join(base, f.Source())) ==>
      (r == [join(base, f.Source())] <==> IsProbablyMeetingDocument(AfterLast(join(base, f.Source()), '/')))
    ensures f.Source() != "" && !UrlBlacklisted(join(base, f.Source())) && !LooksLikeFile(join(base, f.Source())) ==>
      (r == [join(base, f.Source())] <==> Contains(Lower(join(base, f.Source())), "download"))
  {
    var src := f.Source();
    if src == "" then []
    else
      var abs := join(base, src);
      if UrlBlacklisted(abs) then []
      else if LooksLikeFile(abs) then
        if IsProbablyMeetingDocument(AfterLast(abs, '/')) then [abs] else []
      else if Contains(Lower(abs), "download") then [abs]
      else []
  }

  /** A document URL quoted in a script, kept when neither blacklisted nor implausibly named. */
  function ScriptDoc(m: string): (r: seq<string>)
    ensures r == [] || r == [m]
    ensures r == [m] <==> !UrlBlacklisted(m) && IsProbablyMeetingDocument(AfterLast(m, '/'))
  {
    if !UrlBlacklisted(m) && IsProbablyMeetingDocument(AfterLast(m, '/')) then [m] else []
  }

  /** Every URL the extractor collects, repeats included, in the order it collects them. */
  function DocCandidates(join: (string, string) -> string, base: string, page: Page): seq<string>
  {
    FlatMap(page.anchors, a => AnchorDoc(join, base, a))
    + FlatMap(page.frames, f => FrameDoc(join, base, f))
    + FlatMap(page.scriptDocUrls, ScriptDoc)
    + (if IsDownloadHubCandidate(base) then [base] else [])
    + FlatMap(page.wpdmdlHrefs, u => [join(base, u)])
  }

  /** `extract_docs_from_html`: the candidates, first occurrences only, in order. */
  function ExtractDocsFromHtml(join: (string, string) -> string, base: string, page: Page): (r: seq<string>)
    ensures page.html == "" ==> r == []
    ensures NoDup(r)
    ensures forall u :: u in r <==> page.html != "" && u in DocCandidates(join, base, page)
  {
    if page.html == "" then [] else Dedup(DocCandidates(join, base, page))
  }

  /** The extracted documents keep the order in which they were first collected. */
  lemma ExtractDocsKeepOrder(join: (string, string) -> string, base: string, page: Page)
    requires page.html != ""
    ensures forall i, j | 0 <= i < j < |ExtractDocsFromHtml(join, base, page)| ::
      FirstIndex(DocCandidates(join, base, page), ExtractDocsFromHtml(join, base, page)[i])
      < FirstIndex(DocCandidates(join, base, page), ExtractDocsFromHtml(join, base, page)[j])
  {
    DedupKeepsFirstOccurrenceOrder(DocCandidates(join, base, page));
  }

  /** The file-shaped URL an anchor contributes is its own link, and passed both filters. */
  lemma AnchorDocFile(join: (string, string) -> string, base: string, a: Anchor, u: string)
    requires u in AnchorDoc(join, base, a) && LooksLikeFile(u)
    ensures u == join(base, Strip(a.href)) && !UrlBlacklisted(u)
    ensures IsProbablyMeetingDocument(AfterLast(u, '/')) || IsProbablyMeetingDocument(a.text)
  {
  }

  /** A file-shaped URL contributed by an anchor passed the blacklist and the plausibility filter. */
  lemma AnchorFilesArePlausible(join: (string, string) -> string, base: string, anchors: seq<Anchor>, u: string)
    requires u in FlatMap(anchors, a => AnchorDoc(join, base, a)) && LooksLikeFile(u)
    ensures !UrlBlacklisted(u)
    ensures IsProbablyMeetingDocument(AfterLast(u, '/'))
      || exists i | 0 <= i < |anchors| ::
           join(base, Strip(anchors[i].href)) == u && IsProbablyMeetingDocument(anchors[i].text)
  {
    var i := AnchorOrigin(join, base, anchors, u);
    AnchorDocFile(join, base, anchors[i], u);
  }

  /** The anchor a URL of the anchor pass comes from. */
  lemma AnchorOrigin(join: (string, string) -> string, base: string, anchors: seq<Anchor>, u: string) returns (i: nat)
    requires u in FlatMap(anchors, a => AnchorDoc(join, base, a))
    ensures i < |anchors| && u in AnchorDoc(join, base, anchors[i])
  {
    FlatMapMembers(anchors, a => AnchorDoc(join, base, a), u);
    i :| 0 <= i < |anchors| && u in AnchorDoc(join, base, anchors[i]);
  }

  /** A file-shaped URL contributed by a frame passed the blacklist and has a plausible file name. */
  lemma FrameFilesArePlausible(join: (string, string) -> string, base: string, frames: seq<Frame>, u: string)
    requires u in FlatMap(frames, f => FrameDoc(join, base, f)) && LooksLikeFile(u)
    ensures !UrlBlacklisted(u) && IsProbablyMeetingDocument(AfterLast(u, '/'))
  {
    var i := FrameOrigin(join, base, frames, u);
    FrameDocFile(join, base, frames[i], u);
  }

  /** The frame a URL of the frame pass comes from. */
  lemma FrameOrigin(join: (string, string) -> string, base: string, frames: seq<Frame>, u: string) returns (i: nat)
    requires u in FlatMap(frames, f => FrameDoc(join, base, f))
    ensures i < |frames| && u in FrameDoc(join, base, frames[i])
  {
    FlatMapMembers(frames, f => FrameDoc(join, base, f), u);
    i :| 0 <= i < |frames| && u in FrameDoc(join, base, frames[i]);
  }

  /** The URL a frame contributes is its own source, not blacklisted, and plausible when file-shaped. */
  lemma FrameDocFile(join: (string, string) -> string, base: string, f: Frame, u: string)
    requires u in FrameDoc(join, base, f)
    ensures u == join(base, f.Source()) && !UrlBlacklisted(u)
    ensures LooksLikeFile(u) ==> IsProbablyMeetingDocument(AfterLast(u, '/'))
  {
    assert u == FrameDoc(join, base, f)[0];
  }

  /** A URL taken from a script passed the blacklist and has a plausible file name. */
  lemma ScriptFilesArePlausible(ms: seq<string>, u: string)
    requires u in FlatMap(ms, ScriptDoc)
    ensures !UrlBlacklisted(u) && IsProbablyMeetingDocument(AfterLast(u, '/'))
  {
    var i := FlatMapOrigin(ms, ScriptDoc, u);
    assert ScriptDoc(ms[i]) == [ms[i]];
  }

  /**
   * The reject list takes precedence: an extracted file-shaped URL that is
   * neither the hub page itself nor a `wpdmdl` link is not blacklisted, and
   * its file name or the text of an anchor pointing to it is plausible.
   */
  lemma ExtractedFilesArePlausible(join: (string, string) -> string, base: string, page: Page, u: string)
    requires u in ExtractDocsFromHtml(join, base, page) && LooksLikeFile(u)
    requires !(u == base && IsDownloadHubCandidate(base))
    requires forall h | h in page.wpdmdlHrefs :: join(base, h) != u
    ensures !UrlBlacklisted(u)
    ensures IsProbablyMeetingDocument(AfterLast(u, '/'))
      || exists i | 0 <= i < |page.anchors| ::
           join(base, Strip(page.anchors[i].href)) == u && IsProbablyMeetingDocument(page.anchors[i].text)
  {
    var anchorsPart := FlatMap(page.anchors, a => AnchorDoc(join, base, a));
    var framesPart := FlatMap(page.frames, f => FrameDoc(join, base, f));
    var scriptsPart := FlatMap(page.scriptDocUrls, ScriptDoc);
    var hubPart := if IsDownloadHubCandidate(base) then [base] else [];
    var wpdmdlPart := FlatMap(page.wpdmdlHrefs, (h: string) => [join(base, h)]);
    assert u in anchorsPart + framesPart + scriptsPart + hubPart + wpdmdlPart;
    assert u !in wpdmdlPart by {
      FlatMapMembers(page.wpdmdlHrefs, (h: string) => [join(base, h)], u);
    }
    assert u in anchorsPart || u in framesPart || u in scriptsPart;
    if u in anchorsPart {
      AnchorFilesArePlausible(join, base, page.anchors, u);
    } else if u in framesPart {
      FrameFilesArePlausible(join, base, page.frames, u);
    } else {
      ScriptFilesArePlausible(page.scriptDocUrls, u);
    }
  }

  // ------------------------------------------------------------------
  // extract_internal_links
  // ------------------------------------------------------------------

  /** The score of an internal link: the element score, plus 30 for a download hub. */
  function LinkScore(text: string, url: string): int
  {
    ElementTextScore(text, url) + if IsDownloadHubCandidate(url) then 30 else 0
  }

  /** The scored link of one anchor, unless it is blacklisted or leaves the domain. */
  function InternalCandidate(join: (string, string) -> string, base: string, a: Anchor): seq<(int, string)>
  {
    var abs := join(base, Strip(a.href));
    if UrlBlacklisted(abs) || DomainOf(abs) != DomainOf(base) then []
    else [(LinkScore(a.text, abs), abs)]
  }

  function InternalCandidates(join: (string, string) -> string, base: string, page: Page): seq<(int, string)>
  {
    FlatMap(page.anchors, a => InternalCandidate(join, base, a))
  }

  /**
   * The loop after the sort: keeps a pair when its score is positive and its
   * URL has not been kept yet.
   */
  function KeepBestUnique(s: seq<(int, string)>, seen: set<string>): (r: seq<(int, string)>)
    ensures forall i | 0 <= i < |r| :: r[i] in s && r[i].0 > 0 && r[i].1 !in seen
    ensures forall i, j | 0 <= i < j < |r| :: r[i].1 != r[j].1
  {
    if s == [] then []
    else if s[0].0 > 0 && s[0].1 !in seen then
      var rest := KeepBestUnique(s[1..], seen + {s[0].1});
      [s[0]] + rest
    else
      KeepBestUnique(s[1..], seen)
  }

  /** Every URL with a positive score that was not already seen is kept. */
  lemma {:induction false} KeepBestUniqueComplete(s: seq<(int, string)>, seen: set<string>, c: (int, string))
    requires c in s && c.0 > 0 && c.1 !in seen
    ensures exists i | 0 <= i < |KeepBestUnique(s, seen)| :: KeepBestUnique(s, seen)[i].1 == c.1
    decreases |s|
  {
    var r := KeepBestUnique(s, seen);
    if s[0].0 > 0 && s[0].1 !in seen {
      assert r[0] == s[0];
      if c.1 != s[0].1 {
        KeepBestUniqueComplete(s[1..], seen + {s[0].1}, c);
        var i :| 0 <= i < |KeepBestUnique(s[1..], seen + {s[0].1})| && KeepBestUnique(s[1..], seen + {s[0].1})[i].1 == c.1;
        assert r[i + 1].1 == c.1;
      }
    } else {
      assert c != s[0];
      KeepBestUniqueComplete(s[1..], seen, c);
    }
  }

  /** On sorted input the kept pairs stay sorted. */
  lemma {:induction false} KeepBestUniqueSorted(s: seq<(int, string)>, seen: set<string>)
    requires SortedDesc(s)
    ensures SortedDesc(KeepBestUnique(s, seen))
    decreases |s|
  {
    if s != [] {
      var seen' := if s[0].0 > 0 && s[0].1 !in seen then seen + {s[0].1} else seen;
      KeepBestUniqueSorted(s[1..], seen');
      var rest := KeepBestUnique(s[1..], seen');
      forall i | 0 <= i < |rest|
        ensures rest[i].0 <= s[0].0
      {
        var k :| 0 <= k < |s[1..]| && s[1..][k] == rest[i];
        assert s[k + 1] == rest[i];
      }
    }
  }

  /**
   * On sorted input the pair kept for a URL scores at least as much as
   * every pair with that URL: the first occurrence is the best one.
   */
  lemma {:induction false} KeepBestUniqueBest(s: seq<(int, string)>, seen: set<string>, c: (int, string), i: nat)
    requires SortedDesc(s) && c in s
    requires i < |KeepBestUnique(s, seen)| && KeepBestUnique(s, seen)[i].1 == c.1
    ensures KeepBestUnique(s, seen)[i].0 >= c.0
    decreases |s|
  {
    var r := KeepBestUnique(s, seen);
    if s[0].0 > 0 && s[0].1 !in seen {
      var rest := KeepBestUnique(s[1..], seen + {s[0].1});
      assert r == [s[0]] + rest;
      if i == 0 {
        var k :| 0 <= k < |s| && s[k] == c;
      } else {
        assert rest[i - 1] == r[i];
        assert c != s[0];
        KeepBestUniqueBest(s[1..], seen + {s[0].1}, c, i - 1);
      }
    } else if c == s[0] {
      // A later pair with a positive score would outrank the unkept head.
      assert false;
    } else {
      KeepBestUniqueBest(s[1..], seen, c, i);
    }
  }

  /** `extract_internal_links`: same-domain, non-blacklisted links by non-increasing score, each URL once. */
  function ExtractInternalLinks(join: (string, string) -> string, base: string, page: Page): (r: seq<(int, string)>)
    ensures page.html == "" ==> r == []
    ensures forall i | 0 <= i < |r| :: r[i].0 > 0
    ensures forall i, j | 0 <= i < j < |r| :: r[i].1 != r[j].1
    ensures SortedDesc(r)
  {
    if page.html == "" then []
    else
      var cands := InternalCandidates(join, base, page);
      var sorted := SortDesc(cands);
      var r := KeepBestUnique(sorted, {});
      KeepBestUniqueSorted(sorted, {});
      r
  }

  /** Every extracted link is on the base URL's domain and carries no blacklisted word. */
  lemma InternalLinksInScope(join: (string, string) -> string, base: string, page: Page, i: nat)
    requires i < |ExtractInternalLinks(join, base, page)|
    ensures var l := ExtractInternalLinks(join, base, page)[i];
      DomainOf(l.1) == DomainOf(base) && !UrlBlacklisted(l.1)
  {
    var cands := InternalCandidates(join, base, page);
    var sorted := SortDesc(cands);
    var r := KeepBestUnique(sorted, {});
    InternalCandidateSource(join, base, page, r[i]);
  }

  /** Every scored pair comes from an anchor of the page that passes the domain and blacklist rules. */
  lemma InternalCandidateSource(join: (string, string) -> string, base: string, page: Page, c: (int, string))
    requires c in SortDesc(InternalCandidates(join, base, page))
    ensures exists a | a in page.anchors ::
      c == (LinkScore(a.text, join(base, Strip(a.href))), join(base, Strip(a.href)))
    ensures DomainOf(c.1) == DomainOf(base) && !UrlBlacklisted(c.1)
  {
    var i := InternalCandidateOrigin(join, base, page, c);
    var a := page.anchors[i];
    assert c == (LinkScore(a.text, join(base, Strip(a.href))), join(base, Strip(a.href)));
  }

  /** The anchor a scored pair comes from. */
  lemma InternalCandidateOrigin(join: (string, string) -> string, base: string, page: Page, c: (int, string)) returns (i: nat)
    requires c in SortDesc(InternalCandidates(join, base, page))
    ensures i < |page.anchors| && c in InternalCandidate(join, base, page.anchors[i])
  {
    SortDescMembers(InternalCandidates(join, base, page), c);
    FlatMapMembers(page.anchors, a => InternalCandidate(join, base, a), c);
    i :| 0 <= i < |page.anchors| && c in InternalCandidate(join, base, page.anchors[i]);
  }

  /**
   * Every qualifying anchor with a positive score is represented, by an
   * entry at least as high as its own score: the stable sort puts the best
   * occurrence of a URL first.
   */
  lemma InternalLinksKeepBest(join: (string, string) -> string, base: string, page: Page, a: Anchor)
    requires page.html != "" && a in page.anchors
    requires !UrlBlacklisted(join(base, Strip(a.href))) && DomainOf(join(base, Strip(a.href))) == DomainOf(base)
    requires LinkScore(a.text, join(base, Strip(a.href))) > 0
    ensures exists i | 0 <= i < |ExtractInternalLinks(join, base, page)| ::
      ExtractInternalLinks(join, base, page)[i].1 == join(base, Strip(a.href))
      && ExtractInternalLinks(join, base, page)[i].0 >= LinkScore(a.text, join(base, Strip(a.href)))
  {
    var abs := join(base, Strip(a.href));
    var c := (LinkScore(a.text, abs), abs);
    var cands := InternalCandidates(join, base, page);
    var sorted := SortDesc(cands);
    assert c in sorted by {
      var k :| 0 <= k < |page.anchors| && page.anchors[k] == a;
      assert c in InternalCandidate(join, base, page.anchors[k]);
      FlatMapMembers(page.anchors, a' => InternalCandidate(join, base, a'), c);
      SortDescMembers(cands, c);
    }
    var r := KeepBestUnique(sorted, {});
    assert r == ExtractInternalLinks(join, base, page);
    KeepBestUniqueComplete(sorted, {}, c);
    var i :| 0 <= i < |r| && r[i].1 == c.1;
    KeepBestUniqueBest(sorted, {}, c, i);
  }

  // ------------------------------------------------------------------
  // Ranking of clickable elements (selenium_click_promising_and_collect)
  // ------------------------------------------------------------------

  const MaxClicks: nat := 12

  /** An element the browser step scores: no navigation text, and a positive score. */
  predicate ClickEligible(c: Clickable) {
    !ContainsAny(Lower(c.text + " " + c.href), NavBlacklistText) && ElementTextScore(c.text, c.href) > 0
  }

  /** The eligible elements from position `k` on, as (score, position) pairs. */
  function ScoredClickables(cs: seq<Clickable>, k: nat): (r: seq<(int, nat)>)
    ensures forall p | p in r ::
      (k <= p.1 < k + |cs| && ClickEligible(cs[p.1 - k])
       && p.0 == ElementTextScore(cs[p.1 - k].text, cs[p.1 - k].href))
    ensures forall j | 0 <= j < |cs| && ClickEligible(cs[j]) ::
      (ElementTextScore(cs[j].text, cs[j].href), k + j) in r
    ensures NoDup(r)
    ensures IndexIncreasing(r)
  {
    forall j | 0 <= j < |cs| && ClickEligible(cs[j])
      ensures (ElementTextScore(cs[j].text, cs[j].href), k + j) in ScoredFrom(cs, k, ClickEligible, ClickScore)
    {
      ScoredFromHas(cs, k, ClickEligible, ClickScore, j);
    }
    ScoredFromIncreasing(cs, k, ClickEligible, ClickScore);
    ScoredFrom(cs, k, ClickEligible, ClickScore)
  }

  /** The score of a clickable element. */
  function ClickScore(c: Clickable): int {
    ElementTextScore(c.text, c.href)
  }

  /** The pairs (score, position) of the elements `keep` accepts, positions counted from `k`. */
  function ScoredFrom<C>(cs: seq<C>, k: nat, keep: C -> bool, score: C -> int): (r: seq<(int, nat)>)
    ensures forall p | p in r :: k <= p.1 < k + |cs| && keep(cs[p.1 - k]) && p.0 == score(cs[p.1 - k])
    ensures NoDup(r)
    decreases |cs|
  {
    if cs == [] then []
    else
      var rest := ScoredFrom(cs[1..], k + 1, keep, score);
      var r := (if keep(cs[0]) then [(score(cs[0]), k)] else []) + rest;
      forall p | p in r
        ensures k <= p.1 < k + |cs| && keep(cs[p.1 - k]) && p.0 == score(cs[p.1 - k])
      {
        if p in rest {
          assert cs[1..][p.1 - (k + 1)] == cs[p.1 - k];
        }
      }
      r
  }

  /** Every element `keep` accepts has its pair. */
  lemma {:induction false} ScoredFromHas<C>(cs: seq<C>, k: nat, keep: C -> bool, score: C -> int, j: nat)
    requires j < |cs| && keep(cs[j])
    ensures (score(cs[j]), k + j) in ScoredFrom(cs, k, keep, score)
    decreases j
  {
    var rest := ScoredFrom(cs[1..], k + 1, keep, score);
    var r := (if keep(cs[0]) then [(score(cs[0]), k)] else []) + rest;
    assert ScoredFrom(cs, k, keep, score) == r;
    if j > 0 {
      assert cs[1..][j - 1] == cs[j];
      ScoredFromHas(cs[1..], k + 1, keep, score, j - 1);
      assert (score(cs[j]), k + j) in rest;
    }
  }

  /** The pairs come out in position order. */
  lemma {:induction false} ScoredFromIncreasing<C>(cs: seq<C>, k: nat, keep: C -> bool, score: C -> int)
    ensures IndexIncreasing(ScoredFrom(cs, k, keep, score))
    decreases |cs|
  {
    if cs != [] {
      var rest := ScoredFrom(cs[1..], k + 1, keep, score);
      ScoredFromIncreasing(cs[1..], k + 1, keep, score);
      if keep(cs[0]) {
        var r := [(score(cs[0]), k)] + rest;
        assert ScoredFrom(cs, k, keep, score) == r;
        forall i, j | 0 <= i < j < |r|
          ensures r[i].1 < r[j].1
        {
          assert r[j] == rest[j - 1];
          if i > 0 {
            assert r[i] == rest[i - 1];
            assert rest[i - 1].1 < rest[j - 1].1;
          } else {
            assert rest[j - 1] in rest;
            assert k + 1 <= rest[j - 1].1;
          }
        }
      } else {
        assert ScoredFrom(cs, k, keep, score) == rest;
      }
    }
  }

  /** `sorted(scored, reverse=True)[:12]`: the best twelve pairs, by non-increasing score. */
  function TopClicks<T(==)>(scored: seq<(int, T)>): (r: seq<(int, T)>)
    ensures |r| <= MaxClicks && SortedDesc(r)
    ensures forall i | 0 <= i < |r| :: r[i] in scored
    ensures forall p | p in scored && p !in r ::
      |r| == MaxClicks && forall i | 0 <= i < |r| :: r[i].0 >= p.0
    ensures |r| == if |scored| < MaxClicks then |scored| else MaxClicks
    ensures multiset(r) <= multiset(scored)
    ensures forall v :: WithScore(r, v) <= WithScore(scored, v)
  {
    var sorted := SortDesc(scored);
    var n := if |sorted| < MaxClicks then |sorted| else MaxClicks;
    TopPrefixMembers(scored, n);
    TopPrefixOutranks(scored, n);
    TopPrefixStable(scored, n);
    sorted[..n]
  }

  /** A prefix of the sorted pairs is sorted and takes its members from them. */
  lemma TopPrefixMembers<T>(scored: seq<(int, T)>, n: nat)
    requires n <= |scored|
    ensures var r := SortDesc(scored)[..n];
      && SortedDesc(r)
      && (forall i | 0 <= i < |r| :: r[i] in scored)
      && multiset(r) <= multiset(scored)
  {
    var sorted := SortDesc(scored);
    var r := sorted[..n];
    assert sorted == r + sorted[n..];
    forall i | 0 <= i < |r|
      ensures r[i] in scored
    {
      SortDescMembers(scored, r[i]);
    }
  }

  /** A prefix of the sorted pairs outranks every pair it leaves out. */
  lemma TopPrefixOutranks<T>(scored: seq<(int, T)>, n: nat)
    requires n <= |scored|
    ensures var r := SortDesc(scored)[..n];
      forall p | p in scored && p !in r :: n < |scored| && forall i | 0 <= i < |r| :: r[i].0 >= p.0
  {
    var sorted := SortDesc(scored);
    var r := sorted[..n];
    forall p | p in scored && p !in r
      ensures n < |scored| && forall i | 0 <= i < |r| :: r[i].0 >= p.0
    {
      SortDescMembers(scored, p);
      PrefixOutranksRest(sorted, n, p);
    }
  }

  /** A prefix of the stable sort keeps, for each score, the earliest pairs of that score in their order. */
  lemma TopPrefixStable<T>(scored: seq<(int, T)>, n: nat)
    requires n <= |scored|
    ensures forall v :: WithScore(SortDesc(scored)[..n], v) <= WithScore(scored, v)
  {
    var sorted := SortDesc(scored);
    assert sorted == sorted[..n] + sorted[n..];
    forall v
      ensures WithScore(sorted[..n], v) <= WithScore(scored, v)
    {
      SortDescStable(scored, v);
      WithScoreAppend(sorted[..n], sorted[n..], v);
    }
  }

  /** What a prefix of a sorted list leaves out scores no more than anything it keeps. */
  lemma PrefixOutranksRest<T>(sorted: seq<(int, T)>, n: nat, p: (int, T))
    requires SortedDesc(sorted) && n <= |sorted| && p in sorted && p !in sorted[..n]
    ensures n < |sorted| && forall i | 0 <= i < n :: sorted[i].0 >= p.0
  {
    forall k | 0 <= k < n
      ensures sorted[k] != p
    {
      assert sorted[..n][k] == sorted[k];
    }
    var m :| 0 <= m < |sorted| && sorted[m] == p;
  }

  /**
   * The elements the browser clicks: the eligible ones by non-increasing
   * score, at most twelve, and none left out that scores more than one
   * taken.
   */
  function ClickRank(cs: seq<Clickable>): (r: seq<(int, nat)>)
    ensures |r| <= MaxClicks
    ensures SortedDesc(r)
    ensures forall i | 0 <= i < |r| ::
      (r[i].1 < |cs| && ClickEligible(cs[r[i].1])
       && r[i].0 == ElementTextScore(cs[r[i].1].text, cs[r[i].1].href))
    ensures forall j | 0 <= j < |cs| && ClickEligible(cs[j]) && (ElementTextScore(cs[j].text, cs[j].href), j) !in r ::
      |r| == MaxClicks && forall i | 0 <= i < |r| :: r[i].0 >= ElementTextScore(cs[j].text, cs[j].href)
    ensures forall i, j | 0 <= i < j < |r| :: r[i].1 != r[j].1
  {
    var scored := ScoredClickables(cs, 0);
    var r := TopClicks<nat>(scored);
    NoDupSubMultiset(r, scored);
    r
  }

  /**
   * Ties are broken by page order: clicked elements of equal score come
   * in page order, and an eligible element left out comes after every
   * clicked element of its score.
   */
  lemma ClickRankTies(cs: seq<Clickable>)
    ensures var r := ClickRank(cs);
      && (forall i, j | 0 <= i < j < |r| && r[i].0 == r[j].0 :: r[i].1 < r[j].1)
      && forall i, j | 0 <= i < |r| && 0 <= j < |cs| && ClickEligible(cs[j])
        && r[i].0 == ElementTextScore(cs[j].text, cs[j].href) && (r[i].0, j) !in r :: r[i].1 < j
  {
    TopClicksEarliest(cs, ScoredClickables(cs, 0));
  }

  /**
   * Ties among the top pairs of a position-ordered list that holds every
   * eligible element go to the earliest elements, in page order.
   */
  lemma TopClicksEarliest(cs: seq<Clickable>, scored: seq<(int, nat)>)
    requires IndexIncreasing(scored)
    requires forall j | 0 <= j < |cs| && ClickEligible(cs[j]) :: (ElementTextScore(cs[j].text, cs[j].href), 0 + j) in scored
    ensures var r := TopClicks<nat>(scored);
      && TiesInIndexOrder(r)
      && forall i, j | 0 <= i < |r| && 0 <= j < |cs| && ClickEligible(cs[j])
        && r[i].0 == ElementTextScore(cs[j].text, cs[j].href) && (r[i].0, j) !in r :: r[i].1 < j
  {
    TopClicksTies(scored);
  }

  /** Among the top pairs of a position-ordered list, equal scores keep position order, and a kept pair precedes every left-out pair of its score. */
  lemma TopClicksTies(scored: seq<(int, nat)>)
    requires IndexIncreasing(scored)
    ensures var r := TopClicks<nat>(scored);
      && TiesInIndexOrder(r)
      && forall p, q | p in r && q in scored && q !in r && q.0 == p.0 :: p.1 < q.1
  {
    var sorted := SortDesc(scored);
    SortDescTies(scored);
    var r := TopClicks<nat>(scored);
    assert r == sorted[..|r|];
    forall p, q | p in r && q in scored && q !in r && q.0 == p.0
      ensures p.1 < q.1
    {
      PrefixTieEarlier(r, scored, p, q);
    }
  }

  /** A sequence whose elements all occur in a sequence without duplicates, no more often, has none either. */
  lemma NoDupSubMultiset<T>(r: seq<T>, s: seq<T>)
    requires NoDup(s) && multiset(r) <= multiset(s)
    ensures NoDup(r)
  {
    forall i, j | 0 <= i < j < |r|
      ensures r[i] != r[j]
    {
      if r[i] == r[j] {
        var x := r[i];
        assert r == r[..j] + [x] + r[j + 1..];
        assert x in r[..j];
        assert multiset(r)[x] >= 2;
        NoDupCountsOnce(s, x);
        assert false;
      }
    }
  }

  /** In a sequence without duplicates every element occurs at most once. */
  lemma {:induction false} NoDupCountsOnce<T>(s: seq<T>, x: T)
    requires NoDup(s)
    ensures multiset(s)[x] <= 1
    decreases |s|
  {
    if s != [] {
      assert s == [s[0]] + s[1..];
      NoDupCountsOnce(s[1..], x);
      if s[0] == x {
        assert x !in s[1..];
      }
    }
  }

  /** The documents on the page that click `k` leads to; none when the click fails. */
  function ClickDocs(join: (string, string) -> string, br: Browser, url: string, k: nat): seq<string> {
    match br.afterClick(url, k)
    case Some(p) => ExtractDocsFromHtml(join, url, p)
    case None => []
  }

  /** The click numbers `0 .. n - 1`, in order. */
  function ClickNumbers(n: nat): (r: seq<nat>)
    ensures |r| == n && forall i | 0 <= i < n :: r[i] == i
  {
    seq(n, i => i)
  }

  /**
   * `selenium_click_promising_and_collect`: the documents behind the top
   * clicks, in click order, each once, and exactly those.
   */
  function ClickCollect(join: (string, string) -> string, br: Browser, url: string): (r: seq<string>)
    ensures NoDup(r)
    ensures forall u :: u in r <==>
      exists i | 0 <= i < |ClickRank(br.clickables(url))| :: u in ClickDocs(join, br, url, i)
  {
    var n := |ClickRank(br.clickables(url))|;
    var clicks := ClickNumbers(n);
    var docsOf := (i: nat) => ClickDocs(join, br, url, i);
    var all := FlatMap(clicks, docsOf);
    forall u
      ensures u in all <==> exists i | 0 <= i < n :: u in ClickDocs(join, br, url, i)
    {
      FlatMapMembers(clicks, docsOf, u);
      if u in all {
        var i :| 0 <= i < |clicks| && u in docsOf(clicks[i]);
        assert clicks[i] == i && u in ClickDocs(join, br, url, i);
      }
      if exists i | 0 <= i < n :: u in ClickDocs(join, br, url, i) {
        var i :| 0 <= i < n && u in ClickDocs(join, br, url, i);
        assert clicks[i] == i && u in docsOf(clicks[i]);
      }
    }
    Dedup(all)
  }

  // ------------------------------------------------------------------
  // Detail pages: the `id=<digits>` detector and the detail:// token
  // ------------------------------------------------------------------

  /** `id=` followed by a digit starts at `i`. */
  predicate IdAt(s: string, i: int) {
    0 <= i && i + 4 <= |s| && s[i..i + 3] == "id=" && IsDigit(s[i + 3])
  }

  /** The length of the run of digits starting at `k`. */
  function DigitRun(s: string, k: nat): (n: nat)
    requires k <= |s|
    ensures k + n <= |s|
    ensures forall m | k <= m < k + n :: IsDigit(s[m])
    ensures k + n == |s| || !IsDigit(s[k + n])
    decreases |s| - k
  {
    if k == |s| || !IsDigit(s[k]) then 0 else 1 + DigitRun(s, k + 1)
  }

  /** The leftmost position at or after `k` where `id=<digit>` starts. */
  function FirstIdAt(s: string, k: nat): (r: Option<nat>)
    ensures r.Some? ==> k <= r.value && IdAt(s, r.value) && forall i | k <= i < r.value :: !IdAt(s, i)
    ensures r.None? ==> forall i | k <= i :: !IdAt(s, i)
    decreases |s| - k
  {
    if k + 4 > |s| then None
    else if IdAt(s, k) then Some(k)
    else FirstIdAt(s, k + 1)
  }

  /** `re.search(r"id=(\d+)", s).group(1)`: the digits after the leftmost `id=<digit>`. */
  function IdDigits(s: string): (r: Option<string>)
    ensures r.None? <==> forall i | 0 <= i :: !IdAt(s, i)
    ensures r.Some? ==>
      (r.value != [] && (forall m | 0 <= m < |r.value| :: IsDigit(r.value[m]))
       && Contains(s, "id=" + r.value))
  {
    match FirstIdAt(s, 0)
    case None => None
    case Some(i) =>
      var n := DigitRun(s, i + 3);
      var d := s[i + 3..i + 3 + n];
      assert n > 0;
      assert forall m | 0 <= m < |d| :: d[m] == s[i + 3 + m];
      assert ContainsAt(s, "id=" + d, i) by {
        assert s[i..i + 3 + n] == s[i..i + 3] + d;
      }
      Some(d)
  }

  /**
   * The identifier `IdDigits` finds is the whole digit run after the
   * leftmost `id=<digit>`: `i` is that position, nothing earlier matches,
   * and the run stops at the end or at a non-digit.
   */
  lemma IdDigitsFirst(s: string) returns (i: nat)
    requires IdDigits(s).Some?
    ensures IdAt(s, i) && forall j | 0 <= j < i :: !IdAt(s, j)
    ensures var d := IdDigits(s).value;
      && i + 3 + |d| <= |s|
      && d == s[i + 3..i + 3 + |d|]
      && (i + 3 + |d| == |s| || !IsDigit(s[i + 3 + |d|]))
  {
    i := FirstIdAt(s, 0).value;
  }

  /** A digit run that stops at `k + n`, read from `k`, has length `n`. */
  lemma {:induction false} DigitRunIs(s: string, k: nat, n: nat)
    requires k + n <= |s|
    requires forall m | k <= m < k + n :: IsDigit(s[m])
    requires k + n == |s| || !IsDigit(s[k + n])
    ensures DigitRun(s, k) == n
    decreases n
  {
    if n > 0 {
      DigitRunIs(s, k + 1, n - 1);
    }
  }

  /**
   * Reading back what was written: `id=` followed by digits and then
   * anything that does not start with a digit yields exactly those digits.
   */
  lemma IdDigitsOfWritten(d: string, t: string)
    requires d != [] && forall m | 0 <= m < |d| :: IsDigit(d[m])
    requires t == [] || !IsDigit(t[0])
    ensures IdDigits("id=" + d + t) == Some(d)
  {
    var s := "id=" + d + t;
    assert s[0..3] == "id=" && s[3] == d[0];
    assert IdAt(s, 0);
    assert forall m | 3 <= m < 3 + |d| :: s[m] == d[m - 3];
    if t != [] {
      assert s[3 + |d|] == t[0];
    }
    DigitRunIs(s, 3, |d|);
    assert FirstIdAt(s, 0) == Some(0);
    assert s[3..3 + |d|] == d;
  }

  /** Only the first `id=` counts: `id=12&id=3` gives `12`. */
  lemma IdDigitsTakesFirst()
    ensures IdDigits("id=12&id=3") == Some("12")
  {
    assert "id=12&id=3" == "id=" + "12" + "&id=3";
    IdDigitsOfWritten("12", "&id=3");
  }

  /** `f"detail://{url}|{file_id}"`. */
  function DetailToken(url: string, id: string): string {
    "detail://" + url + "|" + id
  }

  /**
   * The detail-page detector of the crawl: the identifier of a URL that
   * mentions `id=` and not `cat=` and whose path has no document extension.
   */
  function DetailIdOf(url: string): (r: Option<string>)
    ensures r.Some? <==>
      && !Contains(Lower(url), "cat=")
      && !EndsWithAny(Lower(Parse(url).path), DocExts)
      && exists i | 0 <= i :: IdAt(Lower(url), i)
    ensures r.Some? ==>
      (r.value != [] && (forall m | 0 <= m < |r.value| :: IsDigit(r.value[m]))
       && Contains(Lower(url), "id=" + r.value))
    ensures r.Some? ==> r == IdDigits(Lower(url))
  {
    var lower := Lower(url);
    var eligible := !Contains(lower, "cat=") && !EndsWithAny(Lower(Parse(url).path), DocExts);
    if !Contains(lower, "id=") then IdNeedsMarker(lower); None
    else if eligible then IdDigits(lower)
    else None
  }

  /** A string without `id=` has no `id=<digit>` anywhere. */
  lemma IdNeedsMarker(s: string)
    requires !Contains(s, "id=")
    ensures forall i | 0 <= i :: !IdAt(s, i)
  {
    forall i | 0 <= i && IdAt(s, i)
      ensures false
    {
      assert ContainsAt(s, "id=", i);
    }
  }

  /** The category-page patch: a detail token for every linked `id=<digits>` URL. */
  function CatAnchorToken(join: (string, string) -> string, url: string, a: Anchor): (r: seq<string>)
    ensures |r| <= 1
    ensures r != [] ==>
      exists d :: IdDigits(join(url, Strip(a.href))) == Some(d) && r[0] == DetailToken(join(url, Strip(a.href)), d)
  {
    var href := Strip(a.href);
    if !Contains(href, "id=") then []
    else
      var abs := join(url, href);
      match IdDigits(abs)
      case Some(d) => [DetailToken(abs, d)]
      case None => []
  }

  function CatPatchTokens(join: (string, string) -> string, url: string, page: Page): seq<string>
  {
    if Contains(Lower(url), "downloads.php?cat=") && page.html != ""
    then FlatMap(page.anchors, a => CatAnchorToken(join, url, a))
    else []
  }
}
