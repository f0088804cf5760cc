/**
 * The decision logic of core/downloader.py: how a saved file is named, the
 * content-hash check, the fallback chain of one URL, `detail://` pages
 * resolved by POST, and the routing of `download_files`. Requests go to the
 * `Web.World` oracle; writing files is not modelled, an entry records the
 * path the file is written to.
 */
module Downloader {
  import opened Wrappers
  import opened Text
  import opened Urls
  import opened Ranking
  import opened Web
  import opened Filenames
  import Discovery

  /** The `rpps_info` dictionary of the caller. */
  datatype RppsInfo = RppsInfo(name: string, uf: string)

  /** The dictionary returned for a saved file. */
  datatype Entry = Entry(filePath: string, fileUrl: string, sourcePage: string, rpps: Option<string>, uf: Option<string>)

  /**
   * What one download attempt did: the saved entry with the hash of its
   * content, the hash set afterwards, and the requests issued, in order.
   */
  datatype Outcome = Outcome(saved: Option<(Entry, string)>, seen: set<string>, requests: seq<Request>)

  /** The hash-set discipline: a save adds its own, new hash; every other outcome leaves the set alone. */
  predicate SeenStep(seen: set<string>, o: Outcome) {
    match o.saved
    case Some(p) => p.1 !in seen && o.seen == seen + {p.1}
    case None => o.seen == seen
  }

  /** `str(out_path / name)` for a name without `/`. */
  function PathJoin(dir: string, name: string): string {
    dir + "/" + name
  }

  /** An entry whose file sits in `outDir` under a name that passed the plausibility filter. */
  predicate PlausibleEntry(e: Entry, outDir: string) {
    StartsWith(e.filePath, outDir + "/") && IsProbablyMeetingDocument(e.filePath[|outDir| + 1..])
  }

  /** An outcome that issued `req` first and then did what `o` did. */
  function Prepend(req: Request, o: Outcome): (r: Outcome)
    ensures r.saved == o.saved && r.seen == o.seen && r.requests == [req] + o.requests
  {
    o.(requests := [req] + o.requests)
  }

  /** Saves the answer to `q` under `q`'s URL; nothing without an answer. */
  function SaveAnswer(w: World, outDir: string, info: Option<RppsInfo>, seen: set<string>): Request -> Outcome {
    q => match w.request(q)
      case Some(resp) => SaveBinary(w, resp, q.url, outDir, info, seen)
      case None => Outcome(None, seen, [])
  }

  /**
   * The shape of a request loop: the requests in order, stopping right after
   * the first one `stop` accepts, whose outcome `save` gives.
   */
  function StopAtFirst(reqs: seq<Request>, stop: Request -> bool, save: Request -> Outcome, seen: set<string>): Outcome
    decreases |reqs|
  {
    if reqs == [] then Outcome(None, seen, [])
    else if stop(reqs[0]) then Prepend(reqs[0], save(reqs[0]))
    else Prepend(reqs[0], StopAtFirst(reqs[1..], stop, save, seen))
  }

  /** The last request decides: if `stop` accepted it, its saved outcome is the loop's; otherwise nothing is saved. */
  lemma {:induction false} StopAtFirstLast(reqs: seq<Request>, stop: Request -> bool, save: Request -> Outcome, seen: set<string>)
    requires forall q :: save(q).requests == []
    ensures var r := StopAtFirst(reqs, stop, save, seen);
      && (r.requests == [] ==> r.saved.None?)
      && (r.requests != [] && !stop(r.requests[|r.requests| - 1]) ==> r.saved.None?)
      && (r.requests != [] && stop(r.requests[|r.requests| - 1]) ==> r.saved == save(r.requests[|r.requests| - 1]).saved)
    decreases |reqs|
  {
    if reqs != [] && !stop(reqs[0]) {
      var rest := StopAtFirst(reqs[1..], stop, save, seen);
      StopAtFirstLast(reqs[1..], stop, save, seen);
      if rest.requests != [] {
        LastOfPrepend(reqs[0], rest.requests);
      }
    }
  }

  /** The loop sends a prefix of `reqs`: up to and including the first accepted one. */
  lemma {:induction false} StopAtFirstRequests(reqs: seq<Request>, stop: Request -> bool, save: Request -> Outcome, seen: set<string>)
    requires forall q :: save(q).requests == []
    ensures StopAtFirst(reqs, stop, save, seen).requests == UntilFirst(reqs, stop)
    decreases |reqs|
  {
    if reqs != [] && !stop(reqs[0]) {
      StopAtFirstRequests(reqs[1..], stop, save, seen);
    }
  }

  /** Saving an answer issues no request of its own. */
  lemma SaveAnswerSendsNothing(w: World, outDir: string, info: Option<RppsInfo>, seen: set<string>)
    ensures forall q :: SaveAnswer(w, outDir, info, seen)(q).requests == []
  {
    var save := SaveAnswer(w, outDir, info, seen);
    forall q
      ensures save(q).requests == []
    {
      match w.request(q)
      case Some(resp) =>
        assert save(q) == SaveBinary(w, resp, q.url, outDir, info, seen);
      case None =>
    }
  }

  /** `SaveAnswer` on an answered request is `SaveBinary` of that answer under the request's URL. */
  lemma SaveAnswerIs(w: World, q: Request, outDir: string, info: Option<RppsInfo>, seen: set<string>)
    requires w.request(q).Some?
    ensures SaveAnswer(w, outDir, info, seen)(q) == SaveBinary(w, w.request(q).value, q.url, outDir, info, seen)
  {
  }

  /** `(resp.headers.get("Content-Type") or "").lower()`. */
  function ContentTypeOf(resp: Response): string {
    match resp.contentType
    case Some(ct) => Lower(ct)
    case None => ""
  }

  // ------------------------------------------------------------------
  // guess_filename and _download_binary_response
  // ------------------------------------------------------------------

  /** The extensions a saved name may already end with, in the order the source lists them. */
  const SavedExts: seq<string> := [".pdf", ".doc", ".docx", ".html", ".htm", ".xls", ".xlsx"]

  /** The last fallback of `guess_filename`, by content type. */
  function DefaultName(ct: string): string {
    if Contains(ct, "pdf") then "documento.pdf"
    else if Contains(ct, "word") || Contains(ct, "officedocument") then "documento.docx"
    else if Contains(ct, "html") then "pagina.html"
    else "arquivo.bin"
  }

  /** The name the final URL's path suggests: its last segment, percent-decoded and sanitised. */
  function UrlPathName(url: string): (r: string)
    ensures IsSanitized(r)
  {
    SanitizeFilename(Unquote(AfterLast(Parse(url).path, '/')))
  }

  /** The default names are themselves sanitised. */
  lemma DefaultNameSanitized(ct: string)
    ensures DefaultName(ct) != "" && IsSanitized(DefaultName(ct))
  {
    var n := DefaultName(ct);
    forall i | 0 <= i < |n|
      ensures IsFilenameChar(n[i])
    {
      assert IsAsciiLetter(n[i]) || n[i] == '.';
    }
  }

  /**
   * `guess_filename`: the Content-Disposition name wins, then the last
   * segment of the final URL's path, then a default chosen by content type.
   */
  function GuessFilename(resp: Response): (r: string)
    ensures r != "" && IsSanitized(r)
    ensures var cd := FilenameFromContentDisposition(resp.disposition);
      && (cd.Some? && cd.value != "" ==> r == cd.value)
      && (!(cd.Some? && cd.value != "") && UrlPathName(resp.url) != "" ==> r == UrlPathName(resp.url))
      && (!(cd.Some? && cd.value != "") && UrlPathName(resp.url) == "" ==> r == DefaultName(ContentTypeOf(resp)))
  {
    var cd := FilenameFromContentDisposition(resp.disposition);
    if cd.Some? && cd.value != "" then cd.value
    else
      var base := UrlPathName(resp.url);
      if base != "" then base
      else
        DefaultNameSanitized(ContentTypeOf(resp));
        DefaultName(ContentTypeOf(resp))
  }

  /** The extension added to a name that has none of the saved ones ("" when the content type suggests none). */
  function ExtensionFor(ct: string): (r: string)
    ensures r == "" || r in SavedExts
    ensures Contains(ct, "pdf") ==> r == ".pdf"
    ensures !Contains(ct, "pdf") && (Contains(ct, "word") || Contains(ct, "officedocument")) ==> r == ".docx"
    ensures !Contains(ct, "pdf") && !Contains(ct, "word") && !Contains(ct, "officedocument") ==>
      (r == ".html" <==> Contains(ct, "html")) && (r == "" <==> !Contains(ct, "html"))
  {
    if Contains(ct, "pdf") then ".pdf"
    else if Contains(ct, "word") || Contains(ct, "officedocument") then ".docx"
    else if Contains(ct, "html") then ".html"
    else ""
  }

  /**
   * The two content-type tables agree: the extension added to a bare name
   * is the one the default name carries, and none is added exactly when
   * the default is `arquivo.bin`.
   */
  lemma ExtensionAgreesWithDefault(ct: string)
    ensures ExtensionFor(ct) != "" ==> EndsWith(DefaultName(ct), ExtensionFor(ct))
    ensures ExtensionFor(ct) == "" <==> DefaultName(ct) == "arquivo.bin"
  {
    var d := DefaultName(ct);
    if Contains(ct, "pdf") {
      assert d[|d| - 4..] == ".pdf";
    } else if Contains(ct, "word") || Contains(ct, "officedocument") {
      assert d[|d| - 5..] == ".docx";
    } else if Contains(ct, "html") {
      assert d[|d| - 5..] == ".html";
    }
  }

  /** The extensions are written in lower case. */
  lemma SavedExtsLower(e: string)
    requires e in SavedExts
    ensures Lower(e) == e
  {
    LowerOfLower(e);
  }

  /**
   * The name a binary response is saved under: the guessed name, completed
   * with an extension taken from the content type when it has none.
   */
  function SavedName(resp: Response): (r: string)
    ensures StartsWith(r, GuessFilename(resp))
    ensures EndsWithAny(Lower(GuessFilename(resp)), SavedExts) ==> r == GuessFilename(resp)
    ensures !EndsWithAny(Lower(GuessFilename(resp)), SavedExts) ==>
      r == GuessFilename(resp) + ExtensionFor(ContentTypeOf(resp))
    ensures EndsWithAny(Lower(r), SavedExts) || ExtensionFor(ContentTypeOf(resp)) == ""
  {
    var name := GuessFilename(resp);
    if EndsWithAny(Lower(name), SavedExts) then name
    else
      var ext := ExtensionFor(ContentTypeOf(resp));
      ExtendedNameEnds(name, ext);
      name + ext
  }

  /**
   * When neither the header nor the URL names the file, the saved name is
   * the default name itself: the default is never extended a second time.
   */
  lemma DefaultNameSavedAsIs(resp: Response)
    requires var cd := FilenameFromContentDisposition(resp.disposition); !(cd.Some? && cd.value != "")
    requires UrlPathName(resp.url) == ""
    ensures SavedName(resp) == DefaultName(ContentTypeOf(resp))
  {
    var ct := ContentTypeOf(resp);
    assert GuessFilename(resp) == DefaultName(ct);
    DefaultNameEnds(ct);
    assert DefaultName(ct) + "" == DefaultName(ct);
  }

  /** A default name already ends with a saved extension exactly when the content type suggests one. */
  lemma DefaultNameEnds(ct: string)
    ensures EndsWithAny(Lower(DefaultName(ct)), SavedExts) <==> ExtensionFor(ct) != ""
  {
    var d := DefaultName(ct);
    LowerOfLower(d);
    if ExtensionFor(ct) == "" {
      assert d == "arquivo.bin";
      BinNameHasNoSavedExt();
    } else {
      ExtensionAgreesWithDefault(ct);
      assert EndsWith(d, ExtensionFor(ct)) && ExtensionFor(ct) in SavedExts;
    }
  }

  /** `arquivo.bin` ends with none of the saved extensions. */
  lemma BinNameHasNoSavedExt()
    ensures !EndsWithAny("arquivo.bin", SavedExts)
  {
    var d := "arquivo.bin";
    forall e | e in SavedExts
      ensures !EndsWith(d, e)
    {
      assert d[|d| - 1] == 'n';
      assert e[|e| - 1] != 'n';
    }
  }



  /** A name completed with one of the extensions ends, in lower case, with that extension. */
  lemma ExtendedNameEnds(name: string, ext: string)
    requires ext == "" || ext in SavedExts
    ensures ext != "" ==> EndsWithAny(Lower(name + ext), SavedExts)
  {
    if ext != "" {
      LowerAppend(name, ext);
      SavedExtsLower(ext);
      assert EndsWith(Lower(name) + ext, ext);
    }
  }

  function RppsName(info: Option<RppsInfo>): Option<string> {
    match info
    case Some(i) => Some(i.name)
    case None => None
  }

  function RppsUf(info: Option<RppsInfo>): Option<string> {
    match info
    case Some(i) => Some(i.uf)
    case None => None
  }

  /**
   * `_download_binary_response`: saves the response under `SavedName` in
   * `outDir` unless its name fails the plausibility filter or its content
   * hash was seen before.
   */
  function SaveBinary(w: World, resp: Response, url: string, outDir: string, info: Option<RppsInfo>, seen: set<string>): (r: Outcome)
    ensures r.requests == [] && SeenStep(seen, r)
    ensures r.saved.Some? <==> IsProbablyMeetingDocument(SavedName(resp)) && w.sha1(resp.content) !in seen
    ensures r.saved.Some? ==>
      && r.saved.value.1 == w.sha1(resp.content)
      && PlausibleEntry(r.saved.value.0, outDir)
      && r.saved.value.0.filePath == PathJoin(outDir, SavedName(resp))
      && r.saved.value.0.fileUrl == url && r.saved.value.0.sourcePage == url
      && r.saved.value.0.rpps == RppsName(info) && r.saved.value.0.uf == RppsUf(info)
  {
    var name := SavedName(resp);
    if !IsProbablyMeetingDocument(name) then Outcome(None, seen, [])
    else
      var h := w.sha1(resp.content);
      if h in seen then Outcome(None, seen, [])
      else
        var path := PathJoin(outDir, name);
        assert path[|outDir| + 1..] == name;
        Outcome(Some((Entry(path, url, url, RppsName(info), RppsUf(info)), h)), seen + {h}, [])
  }

  /** Two responses with the same content: once the first is saved, the second is refused. */
  lemma SameContentSavedOnce(w: World, r1: Response, r2: Response, u1: string, u2: string,
                             outDir: string, info: Option<RppsInfo>, seen: set<string>)
    requires r1.content == r2.content
    requires SaveBinary(w, r1, u1, outDir, info, seen).saved.Some?
    ensures SaveBinary(w, r2, u2, outDir, info, SaveBinary(w, r1, u1, outDir, info, seen).seen).saved.None?
  {
    var o := SaveBinary(w, r1, u1, outDir, info, seen);
    assert w.sha1(r2.content) in o.seen;
  }

  // ------------------------------------------------------------------
  // extract_candidate_doc_urls_from_html
  // ------------------------------------------------------------------

  /** An anchor's candidate: its link, unless it names an investment policy, when the link or text looks right. */
  function AnchorCandidate(join: (string, string) -> string, pageUrl: string, a: Anchor): (r: seq<string>)
    ensures |r| <= 1
    ensures r != [] ==> r[0] == join(pageUrl, Strip(a.href)) && !IsBlacklisted(Strip(a.href))
    ensures r != [] <==>
      (&& !IsBlacklisted(Strip(a.href))
       && (|| LooksLikeDocUrl(Strip(a.href))
           || Contains(Lower(a.text), "ata") || Contains(Lower(a.text), "reuni") || Contains(Lower(a.text), "comit")))
  {
    var href := Strip(a.href);
    if IsBlacklisted(href) then []
    else
      var txt := Lower(a.text);
      if LooksLikeDocUrl(href) || Contains(txt, "ata") || Contains(txt, "reuni") || Contains(txt, "comit")
      then [join(pageUrl, href)]
      else []
  }

  /** A frame's candidate: its absolute source, when that looks like a document. */
  function FrameCandidate(join: (string, string) -> string, pageUrl: string, f: Frame): (r: seq<string>)
    ensures |r| <= 1
    ensures r != [] ==> f.Source() != "" && r[0] == join(pageUrl, f.Source()) && LooksLikeDocUrl(r[0])
    ensures f.Source() != "" && LooksLikeDocUrl(join(pageUrl, f.Source())) ==> r == [join(pageUrl, f.Source())]
  {
    var src := f.Source();
    if src == "" then []
    else
      var abs := join(pageUrl, src);
      if LooksLikeDocUrl(abs) then [abs] else []
  }

  /** Every candidate, repeats included, in the order the source collects them. */
  function DownloadCandidates(join: (string, string) -> string, pageUrl: string, page: Page): seq<string> {
    FlatMap(page.anchors, a => AnchorCandidate(join, pageUrl, a))
    + FlatMap(page.frames, f => FrameCandidate(join, pageUrl, f))
    + page.scriptDocOrHtmlUrls
  }

  /** `extract_candidate_doc_urls_from_html`: the candidates, first occurrences only, in order. */
  function CandidateDocUrls(join: (string, string) -> string, pageUrl: string, page: Page): (r: seq<string>)
    ensures page.html == "" ==> r == []
    ensures NoDup(r)
    ensures forall u :: u in r <==> page.html != "" && u in DownloadCandidates(join, pageUrl, page)
  {
    if page.html == "" then [] else Dedup(DownloadCandidates(join, pageUrl, page))
  }

  /**
   * Where a candidate comes from: an anchor whose link does not name an
   * investment policy, a frame source that looks like a document, or a URL
   * quoted in a script.
   */
  lemma CandidateOrigins(join: (string, string) -> string, pageUrl: string, page: Page, u: string)
    requires u in CandidateDocUrls(join, pageUrl, page)
    ensures || (exists i | 0 <= i < |page.anchors| ::
                 u == join(pageUrl, Strip(page.anchors[i].href)) && !IsBlacklisted(Strip(page.anchors[i].href)))
            || LooksLikeDocUrl(u)
            || u in page.scriptDocOrHtmlUrls
  {
    var anchorsPart := FlatMap(page.anchors, a => AnchorCandidate(join, pageUrl, a));
    var framesPart := FlatMap(page.frames, f => FrameCandidate(join, pageUrl, f));
    assert u in anchorsPart + framesPart + page.scriptDocOrHtmlUrls;
    if u in anchorsPart {
      var i := FlatMapOrigin(page.anchors, a => AnchorCandidate(join, pageUrl, a), u);
      assert u in AnchorCandidate(join, pageUrl, page.anchors[i]);
    } else if u in framesPart {
      var i := FlatMapOrigin(page.frames, f => FrameCandidate(join, pageUrl, f), u);
      assert u in FrameCandidate(join, pageUrl, page.frames[i]);
    }
  }

  // ------------------------------------------------------------------
  // download_single_url
  // ------------------------------------------------------------------

  /** Content types saved directly by `download_single_url`. */
  const BinaryMarkers: seq<string> := ["pdf", "word", "officedocument", "octet-stream"]

  predicate IsBinaryType(ct: string) {
    ContainsAny(ct, BinaryMarkers) && !Contains(ct, "html")
  }

  /** `"html" in ct or "<html" in resp.text[:200].lower()`. */
  predicate LooksLikeHtml(resp: Response) {
    Contains(ContentTypeOf(resp), "html") || Contains(Lower(Take(resp.page.html, 200)), "<html")
  }

  /**
   * A binary content type is never saved as `.html`, and it gets no
   * extension exactly when `octet-stream` is the only marker it carries.
   */
  lemma BinaryTypeExtension(ct: string)
    requires IsBinaryType(ct)
    ensures ExtensionFor(ct) != ".html"
    ensures ExtensionFor(ct) == "" <==>
      Contains(ct, "octet-stream") && !Contains(ct, "pdf") && !Contains(ct, "word") && !Contains(ct, "officedocument")
  {
    var t :| t in BinaryMarkers && Contains(ct, t);
  }

  /**
   * A response looks like HTML exactly when its content type says `html`
   * or `<html`, in any case, starts within the first 200 characters of
   * its text.
   */
  lemma LooksLikeHtmlSniffs(resp: Response)
    ensures LooksLikeHtml(resp) <==>
      || Contains(ContentTypeOf(resp), "html")
      || exists i | 0 <= i <= 195 :: ContainsAt(Lower(resp.page.html), "<html", i)
  {
    var h := Lower(resp.page.html);
    var t := Lower(Take(resp.page.html, 200));
    LowerPrefix(resp.page.html, |t|);
    assert t == h[..|t|];
    if Contains(t, "<html") {
      var i :| 0 <= i <= |t| - 5 && ContainsAt(t, "<html", i);
      assert h[i..i + 5] == t[i..i + 5];
      assert ContainsAt(h, "<html", i);
    }
    if exists i | 0 <= i <= 195 :: ContainsAt(h, "<html", i) {
      var i :| 0 <= i <= 195 && ContainsAt(h, "<html", i);
      assert t[i..i + 5] == h[i..i + 5];
      assert ContainsAt(t, "<html", i);
    }
  }

  /** How many candidate links of an HTML page are followed. */
  const MaxFollowed: nat := 8

  /** The response to `req` is a non-empty body of a binary content type. */
  predicate BinaryAnswer(w: World, req: Request) {
    match w.request(req)
    case Some(resp) => resp.content != [] && IsBinaryType(ContentTypeOf(resp))
    case None => false
  }

  /**
   * The loop over `candidate_links[:8]`: a GET per candidate until the
   * first non-empty binary response, which is saved.
   */
  function FollowCandidates(w: World, cands: seq<string>, outDir: string, info: Option<RppsInfo>, seen: set<string>): (r: Outcome)
    ensures SeenStep(seen, r)
    ensures r.saved.Some? ==> PlausibleEntry(r.saved.value.0, outDir)
    decreases |cands|
  {
    if cands == [] then Outcome(None, seen, [])
    else
      var req := Get(cands[0]);
      if BinaryAnswer(w, req) then
        Prepend(req, SaveBinary(w, w.request(req).value, cands[0], outDir, info, seen))
      else
        var rest := FollowCandidates(w, cands[1..], outDir, info, seen);
        Prepend(req, rest)
  }

  /**
   * The candidates are requested in order, one GET each, and the loop stops
   * right after the first binary answer; a save happens only on such an answer.
   */
  lemma FollowCandidatesRequests(w: World, cands: seq<string>, outDir: string, info: Option<RppsInfo>, seen: set<string>)
    ensures var r := FollowCandidates(w, cands, outDir, info, seen);
      && r.requests == UntilFirst(GetsOf(cands), BinaryAnswerIn(w))
      && (r.saved.Some? ==> r.requests != [] && BinaryAnswer(w, r.requests[|r.requests| - 1]))
    ensures var r := FollowCandidates(w, cands, outDir, info, seen);
      r.requests != [] && BinaryAnswer(w, r.requests[|r.requests| - 1]) ==>
        r.saved == SaveBinary(w, w.request(r.requests[|r.requests| - 1]).value, r.requests[|r.requests| - 1].url, outDir, info, seen).saved
  {
    SaveAnswerSendsNothing(w, outDir, info, seen);
    FollowCandidatesStopsAtFirst(w, cands, outDir, info, seen);
    StopAtFirstRequests(GetsOf(cands), BinaryAnswerIn(w), SaveAnswer(w, outDir, info, seen), seen);
    FollowCandidatesSavesLast(w, cands, outDir, info, seen);
  }

  /** The loop ends on its binary answer exactly when it saves, and then that answer is what gets saved. */
  lemma FollowCandidatesSavesLast(w: World, cands: seq<string>, outDir: string, info: Option<RppsInfo>, seen: set<string>)
    ensures var r := FollowCandidates(w, cands, outDir, info, seen);
      r.saved.Some? ==> r.requests != [] && BinaryAnswer(w, r.requests[|r.requests| - 1])
    ensures var r := FollowCandidates(w, cands, outDir, info, seen);
      r.requests != [] && BinaryAnswer(w, r.requests[|r.requests| - 1]) ==>
        r.saved == SaveBinary(w, w.request(r.requests[|r.requests| - 1]).value, r.requests[|r.requests| - 1].url, outDir, info, seen).saved
  {
    var save := SaveAnswer(w, outDir, info, seen);
    SaveAnswerSendsNothing(w, outDir, info, seen);
    FollowCandidatesStopsAtFirst(w, cands, outDir, info, seen);
    StopAtFirstLast(GetsOf(cands), BinaryAnswerIn(w), save, seen);
    var r := FollowCandidates(w, cands, outDir, info, seen);
    if r.requests != [] {
      var last := r.requests[|r.requests| - 1];
      BinaryAnswerAt(w, last);
      if BinaryAnswer(w, last) {
        SaveAnswerIs(w, last, outDir, info, seen);
      }
    }
  }

  /** `FollowCandidates` is the shared loop shape over one GET per candidate, stopping at a binary answer. */
  lemma {:induction false} FollowCandidatesStopsAtFirst(w: World, cands: seq<string>, outDir: string, info: Option<RppsInfo>, seen: set<string>)
    ensures FollowCandidates(w, cands, outDir, info, seen) == StopAtFirst(GetsOf(cands), BinaryAnswerIn(w), SaveAnswer(w, outDir, info, seen), seen)
    decreases |cands|
  {
    var gets := GetsOf(cands);
    if cands != [] {
      assert gets[0] == Get(cands[0]);
      if !BinaryAnswer(w, Get(cands[0])) {
        FollowCandidatesStopsAtFirst(w, cands[1..], outDir, info, seen);
        assert gets[1..] == GetsOf(cands[1..]);
      }
    }
  }

  /** One GET per URL, in order. */
  function GetsOf(urls: seq<string>): (r: seq<Request>)
    ensures |r| == |urls| && forall i | 0 <= i < |urls| :: r[i] == Get(urls[i])
  {
    seq(|urls|, i requires 0 <= i < |urls| => Get(urls[i]))
  }

  /** `BinaryAnswer` at a fixed world, as a predicate on requests. */
  function BinaryAnswerIn(w: World): Request -> bool {
    req => BinaryAnswer(w, req)
  }

  lemma BinaryAnswerAt(w: World, q: Request)
    ensures BinaryAnswerIn(w)(q) == BinaryAnswer(w, q)
    ensures BinaryAnswer(w, q) ==> w.request(q).Some?
  {
  }

  /**
   * `download_single_url`: a binary answer is saved; an HTML page has its
   * document links followed, at most eight; any other non-empty answer is
   * saved as it is.
   */
  function DownloadSingleUrl(w: World, docUrl: string, outDir: string, info: Option<RppsInfo>, seen: set<string>): (r: Outcome)
    ensures SeenStep(seen, r)
    ensures r.saved.Some? ==> PlausibleEntry(r.saved.value.0, outDir)
    ensures w.request(Get(docUrl)).None? || w.request(Get(docUrl)).value.content == [] ==> r.saved.None?
    ensures var a := w.request(Get(docUrl));
      a.Some? && a.value.content != [] && (IsBinaryType(ContentTypeOf(a.value)) || !LooksLikeHtml(a.value)) ==>
        r.saved == SaveBinary(w, a.value, docUrl, outDir, info, seen).saved
    ensures var a := w.request(Get(docUrl));
      a.Some? && a.value.content != [] && !IsBinaryType(ContentTypeOf(a.value)) && LooksLikeHtml(a.value) ==>
        r.saved == FollowCandidates(w, FollowedLinks(w, a.value), outDir, info, seen).saved
  {
    var req := Get(docUrl);
    match w.request(req)
    case None => Outcome(None, seen, [req])
    case Some(resp) =>
      if resp.content == [] then Outcome(None, seen, [req])
      else if IsBinaryType(ContentTypeOf(resp)) then Prepend(req, SaveBinary(w, resp, docUrl, outDir, info, seen))
      else if LooksLikeHtml(resp) then Prepend(req, FollowCandidates(w, FollowedLinks(w, resp), outDir, info, seen))
      else Prepend(req, SaveBinary(w, resp, docUrl, outDir, info, seen))
  }

  /** The links an HTML answer has followed: its document candidates, or else the probed links, at most eight. */
  function FollowedLinks(w: World, resp: Response): (r: seq<string>)
    ensures |r| <= MaxFollowed
  {
    var found := CandidateDocUrls(w.join, resp.url, resp.page);
    var cands := if found == [] then w.probeLinks(resp.url) else found;
    if |cands| <= MaxFollowed then cands else cands[..MaxFollowed]
  }

  /**
   * `download_single_url` issues GETs only: the URL itself first, then at
   * most eight followed links, and nothing more when the first answer is binary.
   */
  lemma DownloadSingleUrlRequests(w: World, docUrl: string, outDir: string, info: Option<RppsInfo>, seen: set<string>)
    ensures var r := DownloadSingleUrl(w, docUrl, outDir, info, seen);
      && r.requests != [] && r.requests[0] == Get(docUrl)
      && |r.requests| <= 1 + MaxFollowed
      && (forall q | q in r.requests :: q.Get?)
      && (BinaryAnswer(w, Get(docUrl)) ==>
            |r.requests| == 1 && r.saved == SaveBinary(w, w.request(Get(docUrl)).value, docUrl, outDir, info, seen).saved)
  {
    var req := Get(docUrl);
    var r := DownloadSingleUrl(w, docUrl, outDir, info, seen);
    match w.request(req)
    case None =>
      assert r.requests == [req];
    case Some(resp) =>
      if resp.content == [] {
        assert r.requests == [req];
      } else if IsBinaryType(ContentTypeOf(resp)) {
        assert r == Prepend(req, SaveBinary(w, resp, docUrl, outDir, info, seen));
      } else if LooksLikeHtml(resp) {
        var links := FollowedLinks(w, resp);
        var o := FollowCandidates(w, links, outDir, info, seen);
        assert r == Prepend(req, o);
        FollowCandidatesRequests(w, links, outDir, info, seen);
        var sent := UntilFirst(GetsOf(links), BinaryAnswerIn(w));
        forall q | q in sent
          ensures q.Get?
        {
          var i :| 0 <= i < |sent| && sent[i] == q;
          assert q == GetsOf(links)[i];
        }
      } else {
        assert r == Prepend(req, SaveBinary(w, resp, docUrl, outDir, info, seen));
      }
  }

  // ------------------------------------------------------------------
  // download_detail_page
  // ------------------------------------------------------------------

  /**
   * Decoding of a `detail://<page>|<id>` token: every `detail://` is
   * removed, then the rest is split at its first `|`.
   */
  function DecodeDetail(token: string): (r: Option<(string, string)>)
    ensures r.None? <==> '|' !in token
    ensures r.Some? ==> '|' !in r.value.0
  {
    var raw := ReplaceAll(token, "detail://", "");
    ReplaceAllKeepsChar(token, "detail://", "", '|');
    var i := IndexOf(raw, '|');
    if i < 0 then None else Some((raw[..i], raw[i + 1..]))
  }

  /** Decoding undoes the crawl's encoding when the page URL has no `|` and neither part mentions `detail://`. */
  lemma DetailRoundTrip(page: string, id: string)
    requires '|' !in page && !Contains(page, "detail://") && !Contains(id, "detail://")
    ensures DecodeDetail(Discovery.DetailToken(page, id)) == Some((page, id))
  {
    var pre := "detail://";
    var rest := page + "|" + id;
    var token := Discovery.DetailToken(page, id);
    assert token[..|pre|] == pre && token[|pre|..] == rest;
    assert !Contains(rest, pre) by {
      assert page + ['|'] + id == rest;
      if Contains(page + ['|'] + id, pre) {
        ContainsAcross(page, '|', id, pre);
      }
    }
    ReplaceAllAbsent(rest, pre, "");
    assert ReplaceAll(token, pre, "") == rest;
    assert rest[..|page|] == page && rest[|page| + 1..] == id;
    IndexOfIs(rest, '|', |page|);
  }

  /** The identifiers of the crawl are digits, which never spell `detail://`. */
  lemma DigitsHaveNoDetailPrefix(id: string)
    requires forall m | 0 <= m < |id| :: IsDigit(id[m])
    ensures !Contains(id, "detail://")
  {
    forall m | 0 <= m < |id|
      ensures id[m] != 'd'
    {
      assert IsDigit(id[m]);
    }
    AbsentCharExcludes(id, "detail://", 'd');
  }

  /** The basenames tried next to the page when nothing else names an endpoint. */
  const CommonPaths: seq<string> := ["downloads.php", "download.php", "downloadsget.php", "baixar.php", "getfile.php"]

  /** Host names of social networks, never downloaded from. */
  const SocialHosts: seq<string> := ["facebook.com", "instagram.com", "twitter.com", "x.com", "linkedin.com", "whatsapp.com"]

  /** Query keys that name a file. */
  const FileParams: seq<string> := ["id=", "codigo=", "file=", "arquivo=", "doc="]

  /** `urljoin(page_url.rsplit("/", 1)[0] + "/", p)` for each common basename. */
  function CommonEndpoints(join: (string, string) -> string, pageUrl: string): (r: seq<string>)
    ensures |r| == |CommonPaths|
    ensures forall k | 0 <= k < |CommonPaths| :: r[k] == join(BeforeLast(pageUrl, '/') + "/", CommonPaths[k])
  {
    var dir := BeforeLast(pageUrl, '/') + "/";
    seq(|CommonPaths|, k requires 0 <= k < |CommonPaths| => join(dir, CommonPaths[k]))
  }

  function FormEndpoint(join: (string, string) -> string, pageUrl: string, action: string): seq<string> {
    if action != "" then [join(pageUrl, action)] else []
  }

  function PhpEndpoint(join: (string, string) -> string, pageUrl: string, s: string): seq<string> {
    if Contains(s, ".php") then [join(pageUrl, s)] else []
  }

  /** The endpoint candidates, in the order the source adds them to its set. */
  function EndpointCandidates(join: (string, string) -> string, pageUrl: string, page: Page): seq<string> {
    FlatMap(page.formActions, a => FormEndpoint(join, pageUrl, a))
    + FlatMap(page.downloadStrings, s => PhpEndpoint(join, pageUrl, s))
    + FlatMap(page.locationTargets, s => PhpEndpoint(join, pageUrl, s))
    + page.downloadUrls
    + CommonEndpoints(join, pageUrl)
  }

  /** The conventional endpoints are always among the candidates. */
  lemma CommonEndpointsCollected(join: (string, string) -> string, pageUrl: string, page: Page, k: nat)
    requires k < |CommonPaths|
    ensures join(BeforeLast(pageUrl, '/') + "/", CommonPaths[k]) in EndpointCandidates(join, pageUrl, page)
  {
    var c := CommonEndpoints(join, pageUrl);
    assert c[k] in c;
  }

  /** A cleaned endpoint: no social host, and a query, if any, that names a file. */
  predicate EndpointKept(ep: string) {
    && !ContainsAny(ep, SocialHosts)
    && var qs := Lower(Parse(ep).query);
    && (qs == "" || ContainsAny(qs, FileParams))
  }

  /** A candidate the cleaning loop would parse: non-empty, and not on a social host once stripped. */
  predicate ParsedInCleaning(c: string) {
    c != "" && !ContainsAny(Strip(c), SocialHosts)
  }

  /** What the cleaning loop does with one candidate: passes over it, raises, or keeps an endpoint. */
  datatype Verdict = Pass | Raise | Keep(ep: string)

  /** The cleaning of one candidate. */
  function EndpointVerdict(c: string): (r: Verdict)
    ensures r == Raise <==> ParsedInCleaning(c) && !ValidNetloc(Parse(Strip(c)).netloc)
    ensures r.Keep? <==> ParsedInCleaning(c) && ValidNetloc(Parse(Strip(c)).netloc) && EndpointKept(Strip(c))
    ensures r.Keep? ==> r.ep == Strip(c)
  {
    if !ParsedInCleaning(c) then Pass
    else if !ValidNetloc(Parse(Strip(c)).netloc) then Raise
    else if EndpointKept(Strip(c)) then Keep(Strip(c))
    else Pass
  }

  /** The cleaning loop over any per-candidate verdict: the first `Raise` ends it, kept endpoints are collected once each. */
  function CleanWith(verdict: string -> Verdict, cands: seq<string>): (r: Option<seq<string>>)
    ensures r.Some? ==> NoDup(r.value)
    decreases |cands|
  {
    if cands == [] then Some([])
    else
      match CleanWith(verdict, cands[..|cands| - 1])
      case None => None
      case Some(kept) =>
        match verdict(cands[|cands| - 1])
        case Pass => Some(kept)
        case Raise => None
        case Keep(ep) => Some(AppendNew(kept, [ep]))
  }

  lemma {:induction false} CleanWithFails(verdict: string -> Verdict, cands: seq<string>)
    ensures CleanWith(verdict, cands).None? <==> exists c | c in cands :: verdict(c) == Raise
    decreases |cands|
  {
    if cands != [] {
      var c := cands[|cands| - 1];
      var init := cands[..|cands| - 1];
      assert cands == init + [c];
      CleanWithFails(verdict, init);
      if exists d | d in cands :: verdict(d) == Raise {
        var d :| d in cands && verdict(d) == Raise;
        if d != c {
          assert d in init;
        }
      }
    }
  }

  lemma {:induction false} CleanWithMembers(verdict: string -> Verdict, cands: seq<string>, e: string)
    requires CleanWith(verdict, cands).Some?
    ensures e in CleanWith(verdict, cands).value <==> exists c | c in cands :: verdict(c) == Keep(e)
    decreases |cands|
  {
    if cands != [] {
      var c := cands[|cands| - 1];
      var init := cands[..|cands| - 1];
      assert cands == init + [c];
      CleanWithMembers(verdict, init, e);
      var kept := CleanWith(verdict, init).value;
      assert (exists d | d in cands :: verdict(d) == Keep(e))
        <==> (exists d | d in init :: verdict(d) == Keep(e)) || verdict(c) == Keep(e) by {
        if exists d | d in cands :: verdict(d) == Keep(e) {
          var d :| d in cands && verdict(d) == Keep(e);
          if d != c {
            assert d in init;
          }
        }
      }
      if verdict(c).Keep? {
        assert CleanWith(verdict, cands).value == AppendNew(kept, [verdict(c).ep]);
      } else {
        assert CleanWith(verdict, cands).value == kept;
      }
    }
  }

  /**
   * The cleaning loop: `None` when `urlparse` raises on one of the parsed
   * endpoints (which ends the whole call), otherwise the kept endpoints,
   * stripped, each once, in order.
   */
  function CleanEndpoints(cands: seq<string>): (r: Option<seq<string>>)
    ensures r.Some? ==> NoDup(r.value)
  {
    CleanWith(EndpointVerdict, cands)
  }

  /** The cleaning fails exactly when some candidate it parses has a malformed network location. */
  lemma CleanEndpointsFails(cands: seq<string>)
    ensures CleanEndpoints(cands).None?
      <==> exists c | c in cands :: ParsedInCleaning(c) && !ValidNetloc(Parse(Strip(c)).netloc)
  {
    CleanWithFails(EndpointVerdict, cands);
  }

  /** The kept endpoints are exactly the stripped candidates that are parsed, well formed and pass the filter. */
  lemma CleanEndpointsMembers(cands: seq<string>, e: string)
    requires CleanEndpoints(cands).Some?
    ensures e in CleanEndpoints(cands).value
      <==> exists c | c in cands :: ParsedInCleaning(c) && e == Strip(c) && EndpointKept(e)
  {
    CleanWithMembers(EndpointVerdict, cands, e);
    CleanWithFails(EndpointVerdict, cands);
    if exists c | c in cands :: ParsedInCleaning(c) && e == Strip(c) && EndpointKept(e) {
      var c :| c in cands && ParsedInCleaning(c) && e == Strip(c) && EndpointKept(e);
      assert EndpointVerdict(c) != Raise;
      assert EndpointVerdict(c) == Keep(e);
    }
  }

  /**
   * A candidate that, stripped, has no social host, no query and a valid
   * network location survives the cleaning.
   */
  lemma QuerylessEndpointSurvives(cands: seq<string>, c: string)
    requires c in cands && c != ""
    requires !ContainsAny(Strip(c), SocialHosts) && Parse(Strip(c)).query == ""
    requires CleanEndpoints(cands).Some?
    ensures Strip(c) in CleanEndpoints(cands).value
  {
    assert Lower(Parse(Strip(c)).query) == "";
    CleanEndpointsMembers(cands, Strip(c));
  }

  /**
   * A conventional endpoint next to the page survives the cleaning when the
   * join gives a URL without query, surrounding whitespace or social host.
   */
  lemma CommonEndpointSurvives(join: (string, string) -> string, pageUrl: string, page: Page, k: nat)
    requires k < |CommonPaths|
    requires var e := join(BeforeLast(pageUrl, '/') + "/", CommonPaths[k]);
      e != "" && Strip(e) == e && !ContainsAny(e, SocialHosts) && Parse(e).query == ""
    requires CleanEndpoints(EndpointCandidates(join, pageUrl, page)).Some?
    ensures join(BeforeLast(pageUrl, '/') + "/", CommonPaths[k]) in CleanEndpoints(EndpointCandidates(join, pageUrl, page)).value
  {
    CommonEndpointsCollected(join, pageUrl, page, k);
    QuerylessEndpointSurvives(EndpointCandidates(join, pageUrl, page), join(BeforeLast(pageUrl, '/') + "/", CommonPaths[k]));
  }

  /** The payloads tried at each endpoint; each one carries the identifier. */
  function PostPayloads(id: string): (r: seq<seq<(string, string)>>)
    ensures |r| == 7
    ensures forall k | 0 <= k < |r| :: CarriesId(r[k], id)
  {
    [[("id", id)], [("codigo", id)], [("file", id)], [("arquivo", id)], [("doc", id)],
     [("op", "download"), ("codigo", id)], [("acao", "download"), ("codigo", id)]]
  }

  /** The field names under which a payload sends the identifier. */
  const IdFields: seq<string> := ["id", "codigo", "file", "arquivo", "doc"]

  /** The payload ends with a field that sends the identifier under one of the file field names. */
  predicate CarriesId(payload: seq<(string, string)>, id: string) {
    payload != [] && payload[|payload| - 1].1 == id && payload[|payload| - 1].0 in IdFields
  }

  /** The POSTs tried at one endpoint, one per payload. */
  function PostsTo(ep: string, id: string): (r: seq<Request>)
    ensures |r| == 7
    ensures forall k | 0 <= k < 7 :: r[k] == Post(ep, PostPayloads(id)[k])
  {
    var ps := PostPayloads(id);
    seq(7, k requires 0 <= k < 7 => Post(ep, ps[k]))
  }

  /** Every POST the detail resolver may try: endpoints in order, each with every payload. */
  function PostPlan(eps: seq<string>, id: string): (r: seq<Request>)
    ensures |r| == 7 * |eps|
    ensures forall i | 0 <= i < |r| :: r[i] == Post(eps[i / 7], PostPayloads(id)[i % 7])
  {
    if eps == [] then []
    else
      var head := PostsTo(eps[0], id);
      var rest := PostPlan(eps[1..], id);
      assert forall i | 7 <= i < 7 * |eps| :: (i - 7) / 7 == i / 7 - 1 && (i - 7) % 7 == i % 7;
      head + rest
  }

  /** Content types the POST loop saves. */
  const PostBinaryMarkers: seq<string> := ["pdf", "octet-stream", "binary", "msword", "officedocument"]

  predicate PostAnswered(w: World, req: Request) {
    match w.request(req)
    case Some(resp) => ContainsAny(ContentTypeOf(resp), PostBinaryMarkers)
    case None => false
  }

  /** The POST loop: the plan in order until the first answer of a binary content type, which is saved. */
  function TryPosts(w: World, plan: seq<Request>, outDir: string, info: Option<RppsInfo>, seen: set<string>): (r: Outcome)
    ensures SeenStep(seen, r)
    ensures r.saved.Some? ==> PlausibleEntry(r.saved.value.0, outDir)
    decreases |plan|
  {
    if plan == [] then Outcome(None, seen, [])
    else
      var req := plan[0];
      if PostAnswered(w, req) then
        Prepend(req, SaveBinary(w, w.request(req).value, req.url, outDir, info, seen))
      else
        Prepend(req, TryPosts(w, plan[1..], outDir, info, seen))
  }

  /** `PostAnswered` at a fixed world, as a predicate on requests. */
  function PostAnsweredIn(w: World): Request -> bool {
    req => PostAnswered(w, req)
  }

  lemma PostAnsweredAt(w: World, q: Request)
    ensures PostAnsweredIn(w)(q) == PostAnswered(w, q)
    ensures PostAnswered(w, q) ==> w.request(q).Some?
  {
  }

  /**
   * The POST loop sends the plan in order and stops right after the first
   * answer of a binary content type; a save happens only on such an answer.
   */
  lemma TryPostsRequests(w: World, plan: seq<Request>, outDir: string, info: Option<RppsInfo>, seen: set<string>)
    ensures TryPosts(w, plan, outDir, info, seen).requests == UntilFirst(plan, PostAnsweredIn(w))
    ensures var r := TryPosts(w, plan, outDir, info, seen);
      r.saved.Some? ==> r.requests != [] && PostAnswered(w, r.requests[|r.requests| - 1])
    ensures var r := TryPosts(w, plan, outDir, info, seen);
      r.requests != [] && PostAnswered(w, r.requests[|r.requests| - 1]) ==>
        r.saved == SaveBinary(w, w.request(r.requests[|r.requests| - 1]).value, r.requests[|r.requests| - 1].url, outDir, info, seen).saved
  {
    TryPostsPlan(w, plan, outDir, info, seen);
    TryPostsSavesLast(w, plan, outDir, info, seen);
  }

  /**
   * The last POST decides: a document answer to it is what gets saved, and
   * any other ending of the loop saves nothing.
   */
  lemma TryPostsSavesLast(w: World, plan: seq<Request>, outDir: string, info: Option<RppsInfo>, seen: set<string>)
    ensures var r := TryPosts(w, plan, outDir, info, seen);
      r.requests == [] ==> r.saved.None?
    ensures var r := TryPosts(w, plan, outDir, info, seen);
      r.requests != [] && !PostAnswered(w, r.requests[|r.requests| - 1]) ==> r.saved.None?
    ensures var r := TryPosts(w, plan, outDir, info, seen);
      r.requests != [] && PostAnswered(w, r.requests[|r.requests| - 1]) ==>
        r.saved == SaveBinary(w, w.request(r.requests[|r.requests| - 1]).value, r.requests[|r.requests| - 1].url, outDir, info, seen).saved
  {
    var save := SaveAnswer(w, outDir, info, seen);
    SaveAnswerSendsNothing(w, outDir, info, seen);
    TryPostsStopsAtFirst(w, plan, outDir, info, seen);
    StopAtFirstLast(plan, PostAnsweredIn(w), save, seen);
    var r := TryPosts(w, plan, outDir, info, seen);
    if r.requests != [] {
      var last := r.requests[|r.requests| - 1];
      PostAnsweredAt(w, last);
      if PostAnswered(w, last) {
        SaveAnswerIs(w, last, outDir, info, seen);
      }
    }
  }

  /** `TryPosts` is the shared loop shape with the POST stop rule. */
  lemma {:induction false} TryPostsStopsAtFirst(w: World, plan: seq<Request>, outDir: string, info: Option<RppsInfo>, seen: set<string>)
    ensures TryPosts(w, plan, outDir, info, seen) == StopAtFirst(plan, PostAnsweredIn(w), SaveAnswer(w, outDir, info, seen), seen)
    decreases |plan|
  {
    if plan != [] && !PostAnswered(w, plan[0]) {
      TryPostsStopsAtFirst(w, plan[1..], outDir, info, seen);
    }
  }

  lemma TryPostsPlan(w: World, plan: seq<Request>, outDir: string, info: Option<RppsInfo>, seen: set<string>)
    ensures TryPosts(w, plan, outDir, info, seen).requests == UntilFirst(plan, PostAnsweredIn(w))
  {
    SaveAnswerSendsNothing(w, outDir, info, seen);
    TryPostsStopsAtFirst(w, plan, outDir, info, seen);
    StopAtFirstRequests(plan, PostAnsweredIn(w), SaveAnswer(w, outDir, info, seen), seen);
  }

  /** `f"id={file_id}" in urlparse(page_url).query.lower()`: the page itself is the download link. */
  predicate IsDirectLink(pageUrl: string, id: string) {
    Contains(Lower(Parse(pageUrl).query), "id=" + id)
  }

  /**
   * `download_detail_page`: decodes the token and resolves the page and
   * identifier it names; a malformed token issues no request.
   */
  function DownloadDetailPage(w: World, token: string, outDir: string, info: Option<RppsInfo>, seen: set<string>): (r: Outcome)
    ensures SeenStep(seen, r)
    ensures r.saved.Some? ==> PlausibleEntry(r.saved.value.0, outDir)
    ensures DecodeDetail(token).None? ==> r.requests == [] && r.saved.None?
    ensures DecodeDetail(token).Some? ==> var p := DecodeDetail(token).value.0;
      && (r.requests == [] <==> !ValidNetloc(Parse(p).netloc))
      && (r.requests == [] || r.requests[0] == Get(p))
    ensures DecodeDetail(token).Some? ==> var p, id := DecodeDetail(token).value.0, DecodeDetail(token).value.1;
      ValidNetloc(Parse(p).netloc) && IsDirectLink(p, id) ==> r == DownloadSingleUrl(w, p, outDir, info, seen)
    ensures DecodeDetail(token).Some? && !IsDirectLink(DecodeDetail(token).value.0, DecodeDetail(token).value.1) ==>
      (r.saved.Some? ==> 2 <= |r.requests| && PostAnswered(w, r.requests[|r.requests| - 1]))
    ensures DecodeDetail(token).Some? && !IsDirectLink(DecodeDetail(token).value.0, DecodeDetail(token).value.1) ==>
      (2 <= |r.requests| && PostAnswered(w, r.requests[|r.requests| - 1]) ==>
        r.saved == SaveBinary(w, w.request(r.requests[|r.requests| - 1]).value, r.requests[|r.requests| - 1].url, outDir, info, seen).saved)
  {
    match DecodeDetail(token)
    case None => Outcome(None, seen, [])
    case Some((pageUrl, id)) =>
      ResolveDetailAsks(w, pageUrl, id, outDir, info, seen);
      ResolveDetailSaves(w, pageUrl, id, outDir, info, seen);
      ResolveDetail(w, pageUrl, id, outDir, info, seen)
  }

  /** The resolver issues a request, the GET of the page first, exactly when the page URL has a valid network location. */
  lemma ResolveDetailAsks(w: World, pageUrl: string, id: string, outDir: string, info: Option<RppsInfo>, seen: set<string>)
    ensures var r := ResolveDetail(w, pageUrl, id, outDir, info, seen);
      && (r.requests == [] <==> !ValidNetloc(Parse(pageUrl).netloc))
      && (r.requests == [] || r.requests[0] == Get(pageUrl))
  {
    if !ValidNetloc(Parse(pageUrl).netloc) {
    } else if IsDirectLink(pageUrl, id) {
      DownloadSingleUrlRequests(w, pageUrl, outDir, info, seen);
    } else {
      ResolveDetailIsPosts(w, pageUrl, id, outDir, info, seen);
    }
  }

  /**
   * The body of `download_detail_page` after decoding: when the page URL
   * already carries the identifier it is fetched as a plain URL; otherwise
   * the page is fetched, its endpoint candidates cleaned, and every endpoint
   * tried with every payload.
   */
  function ResolveDetail(w: World, pageUrl: string, id: string, outDir: string, info: Option<RppsInfo>, seen: set<string>): (r: Outcome)
    ensures SeenStep(seen, r)
    ensures r.saved.Some? ==> PlausibleEntry(r.saved.value.0, outDir)
  {
    if !ValidNetloc(Parse(pageUrl).netloc) then Outcome(None, seen, [])
    else if IsDirectLink(pageUrl, id) then DownloadSingleUrl(w, pageUrl, outDir, info, seen)
    else
      var req := Get(pageUrl);
      match w.request(req)
      case None => Outcome(None, seen, [req])
      case Some(resp) =>
        if resp.page.html == "" then Outcome(None, seen, [req])
        else match CleanEndpoints(EndpointCandidates(w.join, pageUrl, resp.page))
          case None => Outcome(None, seen, [req])
          case Some(eps) => Prepend(req, TryPosts(w, PostPlan(eps, id), outDir, info, seen))
  }

  /**
   * What the resolver requests: the page URL first; GETs only for a direct
   * link; otherwise POSTs that carry the identifier to cleaned endpoints.
   */
  lemma ResolveDetailRequests(w: World, pageUrl: string, id: string, outDir: string, info: Option<RppsInfo>, seen: set<string>)
    ensures var r := ResolveDetail(w, pageUrl, id, outDir, info, seen);
      && (r.requests == [] || r.requests[0] == Get(pageUrl))
      && (IsDirectLink(pageUrl, id) ==> forall q | q in r.requests :: q.Get?)
      && (!IsDirectLink(pageUrl, id) ==>
            forall i | 1 <= i < |r.requests| :: (
              && r.requests[i].Post?
              && CarriesId(r.requests[i].payload, id)
              && EndpointKept(r.requests[i].url)))
  {
    if ValidNetloc(Parse(pageUrl).netloc) {
      if IsDirectLink(pageUrl, id) {
        DownloadSingleUrlRequests(w, pageUrl, outDir, info, seen);
      } else {
        match w.request(Get(pageUrl))
        case None =>
        case Some(resp) =>
          var cands := EndpointCandidates(w.join, pageUrl, resp.page);
          if resp.page.html != "" && CleanEndpoints(cands).Some? {
            var eps := CleanEndpoints(cands).value;
            forall e | e in eps
              ensures EndpointKept(e)
            {
              CleanEndpointsMembers(cands, e);
            }
            var o := TryPosts(w, PostPlan(eps, id), outDir, info, seen);
            TryPostsPlan(w, PostPlan(eps, id), outDir, info, seen);
            PlanRequestsFromEndpoints(eps, id, o.requests);
          }
      }
    }
  }

  /**
   * What the resolver saves: a direct link is downloaded as a plain URL;
   * otherwise the file is the document answer that stopped the POST loop,
   * and nothing is saved unless some POST was so answered.
   */
  lemma ResolveDetailSaves(w: World, pageUrl: string, id: string, outDir: string, info: Option<RppsInfo>, seen: set<string>)
    ensures ValidNetloc(Parse(pageUrl).netloc) && IsDirectLink(pageUrl, id) ==>
      ResolveDetail(w, pageUrl, id, outDir, info, seen) == DownloadSingleUrl(w, pageUrl, outDir, info, seen)
    ensures var r := ResolveDetail(w, pageUrl, id, outDir, info, seen);
      !IsDirectLink(pageUrl, id) && r.saved.Some? ==> 2 <= |r.requests| && PostAnswered(w, r.requests[|r.requests| - 1])
    ensures var r := ResolveDetail(w, pageUrl, id, outDir, info, seen);
      !IsDirectLink(pageUrl, id) && 2 <= |r.requests| && PostAnswered(w, r.requests[|r.requests| - 1]) ==>
        r.saved == SaveBinary(w, w.request(r.requests[|r.requests| - 1]).value, r.requests[|r.requests| - 1].url, outDir, info, seen).saved
  {
    if ValidNetloc(Parse(pageUrl).netloc) && !IsDirectLink(pageUrl, id) {
      ResolveDetailPosts(w, pageUrl, id, outDir, info, seen);
    }
  }

  /** The POSTs the resolver plans for a page that is not itself the download link; `None` when it gives up after the page. */
  function PagePlan(w: World, pageUrl: string, id: string): Option<seq<Request>> {
    match w.request(Get(pageUrl))
    case None => None
    case Some(resp) =>
      if resp.page.html == "" then None
      else match CleanEndpoints(EndpointCandidates(w.join, pageUrl, resp.page))
        case None => None
        case Some(eps) => Some(PostPlan(eps, id))
  }

  /** Past the two early exits, the resolver is one GET of the page followed by its POST loop. */
  lemma ResolveDetailIsPosts(w: World, pageUrl: string, id: string, outDir: string, info: Option<RppsInfo>, seen: set<string>)
    requires ValidNetloc(Parse(pageUrl).netloc) && !IsDirectLink(pageUrl, id)
    ensures ResolveDetail(w, pageUrl, id, outDir, info, seen) ==
      match PagePlan(w, pageUrl, id)
      case None => Outcome(None, seen, [Get(pageUrl)])
      case Some(plan) => Prepend(Get(pageUrl), TryPosts(w, plan, outDir, info, seen))
  {
  }

  /** The saving half of `ResolveDetailSaves`, for a page that is not itself the download link. */
  lemma ResolveDetailPosts(w: World, pageUrl: string, id: string, outDir: string, info: Option<RppsInfo>, seen: set<string>)
    requires ValidNetloc(Parse(pageUrl).netloc) && !IsDirectLink(pageUrl, id)
    ensures var r := ResolveDetail(w, pageUrl, id, outDir, info, seen);
      r.saved.Some? ==> 2 <= |r.requests| && PostAnswered(w, r.requests[|r.requests| - 1])
    ensures var r := ResolveDetail(w, pageUrl, id, outDir, info, seen);
      2 <= |r.requests| && PostAnswered(w, r.requests[|r.requests| - 1]) ==>
        r.saved == SaveBinary(w, w.request(r.requests[|r.requests| - 1]).value, r.requests[|r.requests| - 1].url, outDir, info, seen).saved
  {
    ResolveDetailIsPosts(w, pageUrl, id, outDir, info, seen);
    var pp := PagePlan(w, pageUrl, id);
    if pp.Some? {
      PagePostsSave(w, Get(pageUrl), pp.value, outDir, info, seen);
    }
  }

  /** The POST loop behind one page request saves the answer that stopped it, and only such an answer. */
  lemma PagePostsSave(w: World, req: Request, plan: seq<Request>, outDir: string, info: Option<RppsInfo>, seen: set<string>)
    ensures var r := Prepend(req, TryPosts(w, plan, outDir, info, seen));
      r.saved.Some? ==> 2 <= |r.requests| && PostAnswered(w, r.requests[|r.requests| - 1])
    ensures var r := Prepend(req, TryPosts(w, plan, outDir, info, seen));
      2 <= |r.requests| && PostAnswered(w, r.requests[|r.requests| - 1]) ==>
        r.saved == SaveBinary(w, w.request(r.requests[|r.requests| - 1]).value, r.requests[|r.requests| - 1].url, outDir, info, seen).saved
  {
    var o := TryPosts(w, plan, outDir, info, seen);
    var r := Prepend(req, o);
    if o.requests != [] {
      LastOfPrepend(req, o.requests);
    }
    assert r.saved.Some? ==> 2 <= |r.requests| && PostAnswered(w, r.requests[|r.requests| - 1]) by {
      TryPostsNoSave(w, plan, outDir, info, seen);
    }
    assert 2 <= |r.requests| && PostAnswered(w, r.requests[|r.requests| - 1]) ==>
        r.saved == SaveBinary(w, w.request(r.requests[|r.requests| - 1]).value, r.requests[|r.requests| - 1].url, outDir, info, seen).saved by {
      TryPostsSavesAnswer(w, plan, outDir, info, seen);
    }
  }

  /** Without a binary last answer, the POST loop saves nothing. */
  lemma TryPostsNoSave(w: World, plan: seq<Request>, outDir: string, info: Option<RppsInfo>, seen: set<string>)
    ensures var r := TryPosts(w, plan, outDir, info, seen);
      r.saved.Some? ==> r.requests != [] && PostAnswered(w, r.requests[|r.requests| - 1])
  {
    TryPostsSavesLast(w, plan, outDir, info, seen);
  }

  /** A binary last answer of the POST loop is the one it saves. */
  lemma TryPostsSavesAnswer(w: World, plan: seq<Request>, outDir: string, info: Option<RppsInfo>, seen: set<string>)
    ensures var r := TryPosts(w, plan, outDir, info, seen);
      r.requests != [] && PostAnswered(w, r.requests[|r.requests| - 1]) ==>
        r.saved == SaveBinary(w, w.request(r.requests[|r.requests| - 1]).value, r.requests[|r.requests| - 1].url, outDir, info, seen).saved
  {
    TryPostsSavesLast(w, plan, outDir, info, seen);
  }

  /** The requests of a prefix of the plan are POSTs to kept endpoints carrying the identifier. */
  lemma PlanRequestsFromEndpoints(eps: seq<string>, id: string, done: seq<Request>)
    requires forall e | e in eps :: EndpointKept(e)
    requires |done| <= |PostPlan(eps, id)| && done == PostPlan(eps, id)[..|done|]
    ensures forall i | 0 <= i < |done| :: done[i].Post? && CarriesId(done[i].payload, id) && EndpointKept(done[i].url)
  {
    forall i | 0 <= i < |done|
      ensures done[i].Post? && CarriesId(done[i].payload, id) && EndpointKept(done[i].url)
    {
      assert done[i] == PostPlan(eps, id)[i];
      assert eps[i / 7] in eps;
    }
  }

  // ------------------------------------------------------------------
  // download_files
  // ------------------------------------------------------------------

  /** Query fragments of navigation pages. */
  const NavTokens: seq<string> := ["cat=", "y=", "m=", "ano=", "mes=", "page=", "p="]

  /** What `download_files` does with one URL. */
  datatype Route = Skip | GetById | Detail | Single

  /** The routing rules of `download_files`, in the order the source applies them. */
  function RouteOf(u: string): (r: Route)
    ensures ContainsAny(u, SocialHosts) ==> r == Skip
    ensures r == Detail ==> StartsWith(u, "detail://")
    ensures && !ContainsAny(u, SocialHosts) && ValidNetloc(Parse(u).netloc) && !StartsWith(u, "detail://")
            && !Contains(Lower(Parse(u).query), "id=")
            && !EndsWithAny(Lower(Parse(u).path), DownloaderDocExts) && ContainsAny(Lower(Parse(u).query), NavTokens)
            ==> r == Skip
    ensures r == GetById <==>
      && !ContainsAny(u, SocialHosts) && ValidNetloc(Parse(u).netloc)
      && !StartsWith(u, "detail://") && Contains(Lower(Parse(u).query), "id=")
  {
    if ContainsAny(u, SocialHosts) then Skip
    else if !ValidNetloc(Parse(u).netloc) then Skip
    else
      var qs := Lower(Parse(u).query);
      var isDetail := StartsWith(u, "detail://");
      if !isDetail && Contains(qs, "id=") then GetById
      else if !isDetail && !EndsWithAny(Lower(Parse(u).path), DownloaderDocExts) && ContainsAny(qs, NavTokens) then Skip
      else if isDetail then Detail
      else Single
  }

  /** A skipped URL issues no request, and only detail tokens lead to POSTs. */
  predicate RoutedRequests(u: string, requests: seq<Request>) {
    && (RouteOf(u) == Skip ==> requests == [])
    && (RouteOf(u) != Detail ==> forall q | q in requests :: q.Get?)
  }

  const RoutedRequestsOf: (string, seq<Request>) -> bool := (u, rs) => RoutedRequests(u, rs)

  /** One URL of `download_files`, routed. */
  function DownloadOne(w: World, u: string, outDir: string, info: Option<RppsInfo>, seen: set<string>): (r: Outcome)
    ensures SeenStep(seen, r)
    ensures r.saved.Some? ==> PlausibleEntry(r.saved.value.0, outDir)
    ensures RouteOf(u) == Skip ==> r.saved.None?
    ensures RoutedRequests(u, r.requests)
    ensures RouteOf(u) == GetById || RouteOf(u) == Single ==> r == DownloadSingleUrl(w, u, outDir, info, seen)
    ensures RouteOf(u) == GetById || RouteOf(u) == Single ==>
      && r.requests != [] && r.requests[0] == Get(u)
      && (BinaryAnswer(w, Get(u)) ==> r.saved == SaveBinary(w, w.request(Get(u)).value, u, outDir, info, seen).saved)
    ensures RouteOf(u) == Detail ==> r == DownloadDetailPage(w, u, outDir, info, seen)
    ensures RouteOf(u) == Detail && DecodeDetail(u).Some? ==>
      (r.requests == [] <==> !ValidNetloc(Parse(DecodeDetail(u).value.0).netloc))
  {
    match RouteOf(u)
    case Skip => Outcome(None, seen, [])
    case GetById => DownloadSingleUrlRequests(w, u, outDir, info, seen); DownloadSingleUrl(w, u, outDir, info, seen)
    case Single => DownloadSingleUrlRequests(w, u, outDir, info, seen); DownloadSingleUrl(w, u, outDir, info, seen)
    case Detail => DownloadDetailPage(w, u, outDir, info, seen)
  }

  /** What one outcome adds to the entries and to the hashes. */
  function SavedEntries(o: Outcome): seq<Entry> {
    if o.saved.Some? then [o.saved.value.0] else []
  }

  function SavedHashes(o: Outcome): seq<string> {
    if o.saved.Some? then [o.saved.value.1] else []
  }

  /**
   * Handles `urls` in order with `step`, each URL seeing the hash set the
   * previous ones left; the entries, hashes and requests are appended.
   */
  function FoldSteps(step: (string, set<string>) -> Outcome, urls: seq<string>, seen: set<string>)
    : (seq<Entry>, seq<string>, seq<seq<Request>>)
    decreases |urls|
  {
    if urls == [] then ([], [], [])
    else
      var o := step(urls[0], seen);
      var rest := FoldSteps(step, urls[1..], o.seen);
      (SavedEntries(o) + rest.0, SavedHashes(o) + rest.1, [o.requests] + rest.2)
  }

  /** `DownloadOne` as a step of the fold. */
  function DownloadStep(w: World, outDir: string, info: Option<RppsInfo>): (string, set<string>) -> Outcome {
    (u, s) => DownloadOne(w, u, outDir, info, s)
  }

  /** The loop of `download_files` as a fold of `DownloadOne`. */
  function DownloadAll(w: World, urls: seq<string>, outDir: string, info: Option<RppsInfo>, seen: set<string>)
    : (seq<Entry>, seq<string>, seq<seq<Request>>)
  {
    FoldSteps(DownloadStep(w, outDir, info), urls, seen)
  }

  /** What every `DownloadOne` call promises, for any URL and hash set. */
  ghost predicate StepContract(step: (string, set<string>) -> Outcome, outDir: string) {
    forall u, s ::
      && SeenStep(s, step(u, s))
      && (step(u, s).saved.Some? ==> PlausibleEntry(step(u, s).saved.value.0, outDir))
      && RoutedRequests(u, step(u, s).requests)
  }

  lemma DownloadStepContract(w: World, outDir: string, info: Option<RppsInfo>)
    ensures StepContract(DownloadStep(w, outDir, info), outDir)
  {
    var step := DownloadStep(w, outDir, info);
    forall u, s
      ensures SeenStep(s, step(u, s))
      ensures step(u, s).saved.Some? ==> PlausibleEntry(step(u, s).saved.value.0, outDir)
      ensures RoutedRequests(u, step(u, s).requests)
    {
      var o := DownloadOne(w, u, outDir, info, s);
      assert step(u, s) == o;
    }
  }

  /** The fold of well-behaved steps has one request list per URL, routed as that URL demands. */
  lemma {:induction false} FoldStepsRequests(step: (string, set<string>) -> Outcome, urls: seq<string>, seen: set<string>, outDir: string)
    requires StepContract(step, outDir)
    ensures var r := FoldSteps(step, urls, seen);
      |r.2| == |urls| && forall i | 0 <= i < |urls| :: RoutedRequests(urls[i], r.2[i])
    decreases |urls|
  {
    if urls != [] {
      var o := step(urls[0], seen);
      var rest := FoldSteps(step, urls[1..], o.seen);
      FoldStepsRequests(step, urls[1..], o.seen, outDir);
      var r := FoldSteps(step, urls, seen);
      assert r.2 == [o.requests] + rest.2;
      forall i | 0 <= i < |urls|
        ensures RoutedRequests(urls[i], r.2[i])
      {
        if i > 0 {
          assert urls[i] == urls[1..][i - 1] && r.2[i] == rest.2[i - 1];
        }
      }
    }
  }

  /** The fold of well-behaved steps saves at most one entry per URL, each plausible. */
  lemma {:induction false} FoldStepsEntries(step: (string, set<string>) -> Outcome, urls: seq<string>, seen: set<string>, outDir: string)
    requires StepContract(step, outDir)
    ensures var r := FoldSteps(step, urls, seen);
      |r.1| == |r.0| <= |urls| && forall e | e in r.0 :: PlausibleEntry(e, outDir)
    decreases |urls|
  {
    if urls != [] {
      var o := step(urls[0], seen);
      FoldStepsEntries(step, urls[1..], o.seen, outDir);
    }
  }

  /** The hashes a fold of well-behaved steps records are distinct and new to the set it started from. */
  lemma {:induction false} FoldStepsHashes(step: (string, set<string>) -> Outcome, urls: seq<string>, seen: set<string>, outDir: string)
    requires StepContract(step, outDir)
    ensures var r := FoldSteps(step, urls, seen);
      NoDup(r.1) && forall h | h in r.1 :: h !in seen
    decreases |urls|
  {
    if urls != [] {
      var o := step(urls[0], seen);
      var rest := FoldSteps(step, urls[1..], o.seen);
      FoldStepsHashes(step, urls[1..], o.seen, outDir);
      var r := FoldSteps(step, urls, seen);
      assert SeenStep(seen, o);
      if o.saved.Some? {
        var h := o.saved.value.1;
        assert r.1 == [h] + rest.1;
        NoDupCons(h, rest.1);
      } else {
        assert r.1 == rest.1;
      }
    }
  }

  /**
   * `download_files`: each URL in turn with one hash set that starts empty.
   * Returns the entries, the content hash of each, and the requests issued
   * for each URL.
   */
  method DownloadFiles(w: World, urls: seq<string>, outDir: string, info: Option<RppsInfo>)
    returns (downloaded: seq<Entry>, hashes: seq<string>, requests: seq<seq<Request>>)
    ensures (downloaded, hashes, requests) == DownloadAll(w, urls, outDir, info, {})
    ensures |requests| == |urls| && |hashes| == |downloaded| <= |urls|
    ensures NoDup(hashes)
    ensures forall e | e in downloaded :: PlausibleEntry(e, outDir)
    ensures forall i | 0 <= i < |urls| :: RoutedRequests(urls[i], requests[i])
  {
    var seen: set<string> := {};
    downloaded, hashes, requests := [], [], [];
    ghost var step := DownloadStep(w, outDir, info);
    ghost var full := FoldSteps(step, urls, {});
    assert urls[0..] == urls;
    assert FoldRest(full, [], [], [], full) by {
      assert [] + full.0 == full.0 && [] + full.1 == full.1 && [] + full.2 == full.2;
    }
    for i := 0 to |urls|
      invariant FoldRest(full, downloaded, hashes, requests, FoldSteps(step, urls[i..], seen))
    {
      var o := DownloadOne(w, urls[i], outDir, info, seen);
      assert o == step(urls[i], seen);
      FoldStepsStep(step, urls, i, seen, full, downloaded, hashes, requests);
      requests := requests + [o.requests];
      if o.saved.Some? {
        downloaded := downloaded + [o.saved.value.0];
        hashes := hashes + [o.saved.value.1];
      } else {
        assert downloaded + SavedEntries(o) == downloaded;
        assert hashes + SavedHashes(o) == hashes;
      }
      seen := o.seen;
    }
    assert urls[|urls|..] == [];
    assert downloaded + [] == downloaded && hashes + [] == hashes && requests + [] == requests;
    DownloadStepContract(w, outDir, info);
    FoldStepsRequests(step, urls, {}, outDir);
    FoldStepsEntries(step, urls, {}, outDir);
    FoldStepsHashes(step, urls, {}, outDir);
  }

  /** The part done so far followed by the fold of the rest is the whole fold. */
  predicate FoldRest(full: (seq<Entry>, seq<string>, seq<seq<Request>>),
                     downloaded: seq<Entry>, hashes: seq<string>, requests: seq<seq<Request>>,
                     rest: (seq<Entry>, seq<string>, seq<seq<Request>>)) {
    full == (downloaded + rest.0, hashes + rest.1, requests + rest.2)
  }

  /** Handling URL `i` moves its contribution from the rest to the part done. */
  lemma FoldStepsStep(step: (string, set<string>) -> Outcome, urls: seq<string>, i: nat, seen: set<string>,
                      full: (seq<Entry>, seq<string>, seq<seq<Request>>),
                      downloaded: seq<Entry>, hashes: seq<string>, requests: seq<seq<Request>>)
    requires i < |urls|
    requires FoldRest(full, downloaded, hashes, requests, FoldSteps(step, urls[i..], seen))
    ensures var o := step(urls[i], seen);
      FoldRest(full, downloaded + SavedEntries(o), hashes + SavedHashes(o), requests + [o.requests],
               FoldSteps(step, urls[i + 1..], o.seen))
  {
    assert urls[i..][0] == urls[i];
    assert urls[i..][1..] == urls[i + 1..];
    var o := step(urls[i], seen);
    var rest := FoldSteps(step, urls[i + 1..], o.seen);
    assert FoldSteps(step, urls[i..], seen)
      == (SavedEntries(o) + rest.0, SavedHashes(o) + rest.1, [o.requests] + rest.2);
    assert downloaded + (SavedEntries(o) + rest.0) == (downloaded + SavedEntries(o)) + rest.0;
    assert hashes + (SavedHashes(o) + rest.1) == (hashes + SavedHashes(o)) + rest.1;
    assert requests + ([o.requests] + rest.2) == (requests + [o.requests]) + rest.2;
  }
}
