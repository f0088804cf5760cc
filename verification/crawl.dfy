/**
 * `crawl_site`: the breadth-first walk over one site. Fetching and the
 * browser are the oracles of `Web.World`; the manual skip listener and the
 * progress monitor are not modelled.
 */
module Crawl {
  import opened Wrappers
  import opened Text
  import opened Ranking
  import opened Web
  import opened Discovery
  import Downloader

  /** Words in a URL that justify a browser pass when the static page held no documents. */
  const PromisingWords: seq<string> := ["ata", "reuni", "comit", "invest"]

  /** `resp.text if resp else ""`: a failed fetch reads as an empty page. */
  function StaticPage(w: World, url: string): Page {
    match w.fetch(url)
    case Some(p) => p
    case None => EmptyPage
  }

  /** The detail token of a page that looks like a detail page. */
  function DetailFinding(url: string): (r: seq<string>)
    ensures r != [] <==> DetailIdOf(url).Some?
    ensures r != [] ==> r == [DetailToken(url, DetailIdOf(url).value)]
  {
    match DetailIdOf(url)
    case Some(id) => [DetailToken(url, id)]
    case None => []
  }

  /**
   * The token a detail page contributes is one the downloader decodes back
   * into the page URL and its identifier, as long as the URL itself holds
   * no `|` and no `detail://`.
   */
  lemma DetailFindingDecodes(url: string)
    requires '|' !in url && !Contains(url, "detail://")
    ensures DetailFinding(url) != [] ==>
      Downloader.DecodeDetail(DetailFinding(url)[0]) == Some((url, DetailIdOf(url).value))
  {
    if DetailIdOf(url).Some? {
      var id := DetailIdOf(url).value;
      Downloader.DigitsHaveNoDetailPrefix(id);
      Downloader.DetailRoundTrip(url, id);
    }
  }

  /**
   * The browser fallback: only with a browser, on a promising URL whose
   * static page gave no document, and only when the rendered page is not empty.
   */
  function DynamicDocs(w: World, url: string, staticDocs: seq<string>): (r: seq<string>)
    ensures r != [] ==> w.browser.Some? && ContainsAny(Lower(url), PromisingWords) && staticDocs == []
    ensures w.browser.Some? && ContainsAny(Lower(url), PromisingWords) && staticDocs == [] ==>
      match w.browser.value.render(url)
      case Some(p) => r == (if p.html != "" then ExtractDocsFromHtml(w.join, url, p) + ClickCollect(w.join, w.browser.value, url) else [])
      case None => r == []
  {
    match w.browser
    case None => []
    case Some(br) =>
      if ContainsAny(Lower(url), PromisingWords) && staticDocs == [] then
        match br.render(url)
        case Some(p) =>
          if p.html != "" then ExtractDocsFromHtml(w.join, url, p) + ClickCollect(w.join, br, url) else []
        case None => []
      else []
  }

  /** What a processed page adds to the results, in the order the crawl adds it. */
  function PageFindings(w: World, url: string): seq<string> {
    var page := StaticPage(w, url);
    var staticDocs := ExtractDocsFromHtml(w.join, url, page);
    DetailFinding(url) + CatPatchTokens(w.join, url, page) + staticDocs + DynamicDocs(w, url, staticDocs)
  }

  /** A `wpdmdl=` link is a result in itself; every other processed URL contributes its page's findings. */
  function Contribution(w: World, url: string): seq<string> {
    if Contains(Lower(url), "wpdmdl=") then [url] else PageFindings(w, url)
  }

  /** `Contribution` at a fixed world, as a function of the URL. */
  function ContributionIn(w: World): string -> seq<string> {
    url => Contribution(w, url)
  }

  /** The contributions of the processed pages, in processing order. */
  function Contributions(contribution: string -> seq<string>, processed: seq<(string, int)>): seq<string>
    decreases |processed|
  {
    if processed == [] then []
    else Contributions(contribution, processed[..|processed| - 1]) + contribution(processed[|processed| - 1].0)
  }

  /**
   * A URL is among the contributions exactly when some processed URL
   * contributed it: nothing is lost and nothing is invented.
   */
  lemma {:induction false} ContributionsMembers(contribution: string -> seq<string>, processed: seq<(string, int)>, u: string)
    ensures u in Contributions(contribution, processed) <==> exists q | q in processed :: u in contribution(q.0)
    decreases |processed|
  {
    if processed != [] {
      var p := processed[..|processed| - 1];
      var last := processed[|processed| - 1];
      assert processed == p + [last];
      ContributionsMembers(contribution, p, u);
      if exists q | q in processed :: u in contribution(q.0) {
        var q :| q in processed && u in contribution(q.0);
        if q != last {
          assert q in p;
        }
      }
    }
  }

  /**
   * The crawl's result, as `CrawlSite` states it, holds exactly the URLs
   * that some processed page (or `wpdmdl=` link) contributed.
   */
  lemma ResultsAreContributions(w: World, processed: seq<(string, int)>, u: string)
    ensures u in Dedup(Contributions(ContributionIn(w), processed))
      <==> exists q | q in processed :: u in Contribution(w, q.0)
  {
    ContributionsMembers(ContributionIn(w), processed, u);
  }

  /** `html_for_links`: the static page, or else the rendered one when a browser is available. */
  function LinksPage(w: World, url: string): Page {
    var page := StaticPage(w, url);
    if page.html != "" then page
    else match w.browser
      case None => EmptyPage
      case Some(br) =>
        match br.render(url)
        case Some(p) => p
        case None => EmptyPage
  }

  /** The queue entries added for the scored links of a page at `depth`. */
  function Enqueued(links: seq<(int, string)>, visited: set<string>, depth: int, maxDepth: int): (r: seq<(string, int)>)
    ensures forall q | q in r :: q.1 == depth + 1 <= maxDepth && q.0 !in visited
    ensures forall i | 0 <= i < |links| :: (
      (links[i].1, depth + 1) in r <==> links[i].1 !in visited && depth + 1 <= maxDepth)
  {
    if links == [] then []
    else
      var rest := Enqueued(links[1..], visited, depth, maxDepth);
      assert forall i | 1 <= i < |links| :: links[i] == links[1..][i - 1];
      if links[0].1 !in visited && depth + 1 <= maxDepth then [(links[0].1, depth + 1)] + rest else rest
  }

  /**
   * `crawl_site(base_url, max_depth)`. Besides the result, the method
   * returns what the walk did: the visited set, the URLs it processed with
   * their depths, the pages it fetched and the entries it queued.
   */
  method CrawlSite(w: World, baseUrl: string, maxDepth: int)
    returns (found: seq<string>, visited: set<string>, processed: seq<(string, int)>,
             fetched: seq<string>, enqueued: seq<(string, int)>)
    ensures |visited| <= MaxPagesFromSite
    ensures found == Dedup(Contributions(ContributionIn(w), processed))
    ensures NoDup(found)
    ensures forall q | q in processed :: (
      && q.0 in visited
      && 0 <= q.1 <= maxDepth
      && InScope(q.0, baseUrl))
    ensures UniqueUrls(processed)
    ensures forall u | u in fetched :: !Contains(Lower(u), "wpdmdl=")
    ensures forall q | q in processed :: Contains(Lower(q.0), "wpdmdl=") || q.0 in fetched
    ensures forall q | q in enqueued :: (
      && 1 <= q.1 <= maxDepth
      && InScope(q.0, baseUrl))
    ensures InScope(baseUrl, baseUrl) && 0 <= maxDepth ==> processed != [] && processed[0] == (baseUrl, 0)
    ensures |visited| < MaxPagesFromSite ==> forall q | q in enqueued :: q.0 in visited
    ensures forall u | u in visited :: u == baseUrl || exists q | q in processed :: q.0 == u
    ensures |visited| < MaxPagesFromSite ==>
      forall q, l | q in processed && !Contains(Lower(q.0), "wpdmdl=") && q.1 < maxDepth
          && l in ExtractInternalLinks(w.join, q.0, LinksPage(w, q.0)) :: exists p | p in processed :: p.0 == l.1
  {
    found, visited, processed, fetched, enqueued := WalkSite(w, baseUrl, maxDepth, ContributionIn(w));
  }

  /**
   * The rules one walk follows: the URL it starts from, which URLs it may
   * process (in the crawl, `InScope`), and which processed URLs it fetches
   * for links (in the crawl, those without `wpdmdl=`).
   */
  datatype Scope = Scope(baseUrl: string, inScope: string -> bool, fetches: string -> bool)

  /** The rules of `crawl_site(base_url, ...)`. */
  function CrawlScope(baseUrl: string): Scope {
    Scope(baseUrl, u => InScope(u, baseUrl), u => !Contains(Lower(u), "wpdmdl="))
  }

  /** The links the crawl queues from a page `url` that has seen `seen`, at depth `depth`. */
  function CrawlNext(w: World, maxDepth: int): (string, set<string>, int) -> seq<(string, int)> {
    (url, seen, depth) => NextEntries(w, url, seen, depth, maxDepth)
  }

  /** The internal links of the page the crawl fetches for `url`. */
  function CrawlLinks(w: World): string -> seq<(int, string)> {
    url => ExtractInternalLinks(w.join, url, LinksPage(w, url))
  }

  /**
   * The state of the breadth-first walk: the queue of `(url, depth)`
   * entries, the visited set, and what the walk did so far (the processed
   * entries, the fetched pages, every queued entry, and the result list).
   */
  datatype Walk = Walk(
    queue: seq<(string, int)>,
    visited: set<string>,
    processed: seq<(string, int)>,
    fetched: seq<string>,
    enqueued: seq<(string, int)>,
    all: seq<string>)

  /**
   * One turn of the `while queue` loop: pop the front entry; skip it when
   * visited; mark it visited; skip it when too deep or out of scope;
   * otherwise add its contribution, and unless it is a `wpdmdl=` link fetch
   * it and queue what `next` gives for it (in the crawl, `NextEntries`).
   */
  function Visit(sc: Scope, maxDepth: int, contribution: string -> seq<string>,
                 next: (string, set<string>, int) -> seq<(string, int)>, st: Walk): (r: Walk)
    requires st.queue != []
    ensures st.queue[0].0 in st.visited ==> r == st.(queue := st.queue[1..])
    ensures st.queue[0].0 !in st.visited ==> r.visited == st.visited + {st.queue[0].0} && st.queue[1..] <= r.queue
    ensures st.queue[0].0 !in st.visited && (st.queue[0].1 > maxDepth || !sc.inScope(st.queue[0].0)) ==>
      r == st.(queue := st.queue[1..], visited := st.visited + {st.queue[0].0})
    ensures r.processed == if st.queue[0].0 !in st.visited && st.queue[0].1 <= maxDepth && sc.inScope(st.queue[0].0)
      then st.processed + [st.queue[0]] else st.processed
    ensures st.processed <= r.processed
  {
    var (url, depth) := st.queue[0];
    var rest := st.queue[1..];
    if url in st.visited then st.(queue := rest)
    else
      var visited := st.visited + {url};
      if depth > maxDepth || !sc.inScope(url) then st.(queue := rest, visited := visited)
      else
        var fetch := sc.fetches(url);
        var links := if fetch then next(url, visited, depth) else [];
        Walk(rest + links, visited, st.processed + [(url, depth)],
             if fetch then st.fetched + [url] else st.fetched,
             st.enqueued + links, AppendNew(st.all, contribution(url)))
  }

  /** The result list is the deduplicated concatenation of the processed entries' contributions. */
  predicate AllInv(contribution: string -> seq<string>, st: Walk) {
    st.all == Dedup(Contributions(contribution, st.processed))
  }

  /** Processed entries are visited, in scope, within the depth limit, and unique; queued depths are not negative. */
  predicate ProcessedInv(sc: Scope, maxDepth: int, st: Walk) {
    && (forall q | q in st.queue :: q.1 >= 0)
    && (forall q | q in st.processed :: (
         && q.0 in st.visited
         && 0 <= q.1 <= maxDepth
         && sc.inScope(q.0)))
    && UniqueUrls(st.processed)
  }

  /** No `wpdmdl=` link is fetched, and every other processed URL is. */
  predicate FetchedInv(sc: Scope, st: Walk) {
    && (forall u | u in st.fetched :: sc.fetches(u))
    && (forall q | q in st.processed :: !sc.fetches(q.0) || q.0 in st.fetched)
  }

  /** Queued entries are in scope, one to `maxDepth` deep, and either still queued or visited. */
  predicate EnqueuedInv(sc: Scope, maxDepth: int, st: Walk) {
    && (forall q | q in st.enqueued :: (
         && 1 <= q.1 <= maxDepth
         && sc.inScope(q.0)))
    && (forall q | q in st.enqueued :: q.0 in st.visited || q in st.queue)
  }

  /** Until something is visited the queue holds the base URL alone; afterwards it was the first processed entry, when allowed. */
  predicate StartInv(sc: Scope, maxDepth: int, st: Walk) {
    && (st.visited == {} ==> st.queue == [(sc.baseUrl, 0)] && st.processed == [])
    && (st.visited != {} && sc.inScope(sc.baseUrl) && 0 <= maxDepth ==>
          st.processed != [] && st.processed[0] == (sc.baseUrl, 0))
  }

  /** Some processed entry is for `u`. */
  predicate WasProcessed(processed: seq<(string, int)>, u: string) {
    exists q | q in processed :: q.0 == u
  }

  /**
   * Every visited URL other than the base URL was processed: the queue
   * holds only the base entry and in-scope entries within the depth limit,
   * so a turn that marks a URL visited without processing it pops the base entry.
   */
  predicate VisitedInv(sc: Scope, maxDepth: int, st: Walk) {
    && (forall q | q in st.queue :: q == (sc.baseUrl, 0) || (1 <= q.1 <= maxDepth && sc.inScope(q.0)))
    && (forall u | u in st.visited :: u == sc.baseUrl || WasProcessed(st.processed, u))
  }

  /** A turn keeps every visited URL but the base one processed. */
  lemma VisitKeepsVisited(sc: Scope, maxDepth: int, contribution: string -> seq<string>,
                          next: (string, set<string>, int) -> seq<(string, int)>, st: Walk)
    requires st.queue != [] && NextContract(next, sc, maxDepth) && VisitedInv(sc, maxDepth, st)
    ensures VisitedInv(sc, maxDepth, Visit(sc, maxDepth, contribution, next, st))
  {
    var r := Visit(sc, maxDepth, contribution, next, st);
    var url, depth := st.queue[0].0, st.queue[0].1;
    var rest := st.queue[1..];
    assert forall q | q in rest :: q in st.queue;
    if url !in st.visited && depth <= maxDepth && sc.inScope(url) {
      var visited := st.visited + {url};
      var added := if sc.fetches(url) then next(url, visited, depth) else [];
      assert r.queue == rest + added && r.visited == visited && r.processed == st.processed + [(url, depth)];
      assert 0 <= depth;
      forall u | u in r.visited
        ensures u == sc.baseUrl || WasProcessed(r.processed, u)
      {
        if u == url {
          assert (url, depth) in r.processed;
        } else if u != sc.baseUrl {
          var q :| q in st.processed && q.0 == u;
          assert q in r.processed;
        }
      }
    } else if url !in st.visited {
      assert st.queue[0] == (sc.baseUrl, 0);
      assert r.queue == rest && r.visited == st.visited + {url} && r.processed == st.processed;
    } else {
      assert r.queue == rest && r.visited == st.visited && r.processed == st.processed;
    }
  }

  /** A turn keeps the result list in step with the processed entries. */
  lemma VisitKeepsAll(sc: Scope, maxDepth: int, contribution: string -> seq<string>,
                          next: (string, set<string>, int) -> seq<(string, int)>, st: Walk)
    requires st.queue != [] && AllInv(contribution, st)
    ensures AllInv(contribution, Visit(sc, maxDepth, contribution, next, st))
  {
    var url, depth := st.queue[0].0, st.queue[0].1;
    var r := Visit(sc, maxDepth, contribution, next, st);
    if url in st.visited || depth > maxDepth || !sc.inScope(url) {
      assert r.processed == st.processed && r.all == st.all;
    } else {
      assert r.processed == st.processed + [(url, depth)];
      assert r.all == AppendNew(st.all, contribution(url));
      ContributionsStep(contribution, st.processed, url, depth);
    }
  }

  /** A turn keeps the processed entries visited, in scope and unique. */
  lemma VisitKeepsProcessed(sc: Scope, maxDepth: int, contribution: string -> seq<string>,
                          next: (string, set<string>, int) -> seq<(string, int)>, st: Walk)
    requires st.queue != [] && ProcessedInv(sc, maxDepth, st) && NextContract(next, sc, maxDepth)
    ensures ProcessedInv(sc, maxDepth, Visit(sc, maxDepth, contribution, next, st))
  {
    var r := Visit(sc, maxDepth, contribution, next, st);
    var url, depth := st.queue[0].0, st.queue[0].1;
    var rest := st.queue[1..];
    assert forall q | q in rest :: q in st.queue;
    assert st.visited <= r.visited;
    if url !in st.visited && depth <= maxDepth && sc.inScope(url) {
      var visited := st.visited + {url};
      var links := if sc.fetches(url) then next(url, visited, depth) else [];
      assert r.queue == rest + links && r.processed == st.processed + [(url, depth)];
      UniqueUrlsStep(st.processed, (url, depth));
    } else {
      assert r.queue == rest && r.processed == st.processed;
    }
  }

  /** A turn never fetches a `wpdmdl=` link and fetches every other URL it processes. */
  lemma VisitKeepsFetched(sc: Scope, maxDepth: int, contribution: string -> seq<string>,
                          next: (string, set<string>, int) -> seq<(string, int)>, st: Walk)
    requires st.queue != [] && FetchedInv(sc, st)
    ensures FetchedInv(sc, Visit(sc, maxDepth, contribution, next, st))
  {
  }

  /** A turn queues only in-scope entries and leaves every queued entry queued or visited. */
  lemma VisitKeepsEnqueued(sc: Scope, maxDepth: int, contribution: string -> seq<string>,
                          next: (string, set<string>, int) -> seq<(string, int)>, st: Walk)
    requires st.queue != [] && NextContract(next, sc, maxDepth)
    requires EnqueuedInv(sc, maxDepth, st) && ProcessedInv(sc, maxDepth, st)
    ensures EnqueuedInv(sc, maxDepth, Visit(sc, maxDepth, contribution, next, st))
  {
    var r := Visit(sc, maxDepth, contribution, next, st);
    var url, depth := st.queue[0].0, st.queue[0].1;
    var rest := st.queue[1..];
    assert st.visited <= r.visited && url in r.visited;
    var links: seq<(string, int)> := [];
    if url !in st.visited && depth <= maxDepth && sc.inScope(url) {
      var visited := st.visited + {url};
      links := if sc.fetches(url) then next(url, visited, depth) else [];
      assert r.queue == rest + links && r.enqueued == st.enqueued + links;
      forall q | q in links
        ensures 1 <= q.1 <= maxDepth && sc.inScope(q.0)
      {
        assert depth >= 0 && q.1 == depth + 1 <= maxDepth;
      }
    } else {
      assert r.queue == rest && r.enqueued == st.enqueued;
    }
    assert r.queue == rest + links && r.enqueued == st.enqueued + links;
    forall q | q in r.enqueued
      ensures q.0 in r.visited || q in r.queue
    {
      if q in st.enqueued && q.0 !in st.visited && q != st.queue[0] {
        assert q in rest;
      }
    }
  }

  /** The first turn processes the base URL when it is in scope; later turns keep it first. */
  lemma VisitKeepsStart(sc: Scope, maxDepth: int, contribution: string -> seq<string>,
                          next: (string, set<string>, int) -> seq<(string, int)>, st: Walk)
    requires st.queue != [] && StartInv(sc, maxDepth, st)
    ensures StartInv(sc, maxDepth, Visit(sc, maxDepth, contribution, next, st))
  {
    var r := Visit(sc, maxDepth, contribution, next, st);
    if st.visited == {} {
      assert st.queue[0] == (sc.baseUrl, 0);
      assert sc.baseUrl in r.visited;
      if sc.inScope(sc.baseUrl) && 0 <= maxDepth {
        assert r.processed == [(sc.baseUrl, 0)];
      }
    } else {
      assert st.visited <= r.visited;
    }
  }

  /**
   * Every link of a processed, fetched page shallower than the depth limit is
   * visited or waits in the queue one level deeper.
   */
  predicate LinksInv(sc: Scope, links: string -> seq<(int, string)>, maxDepth: int, st: Walk) {
    forall q, l | q in st.processed && sc.fetches(q.0) && q.1 < maxDepth && l in links(q.0) ::
      l.1 in st.visited || (l.1, q.1 + 1) in st.queue
  }

  /** A turn leaves no link of a processed page behind: it is visited or queued. */
  lemma VisitKeepsLinks(sc: Scope, maxDepth: int, contribution: string -> seq<string>,
                        next: (string, set<string>, int) -> seq<(string, int)>,
                        links: string -> seq<(int, string)>, st: Walk)
    requires st.queue != [] && NextComplete(next, links, maxDepth) && LinksInv(sc, links, maxDepth, st)
    ensures LinksInv(sc, links, maxDepth, Visit(sc, maxDepth, contribution, next, st))
  {
    var r := Visit(sc, maxDepth, contribution, next, st);
    var url, depth := st.queue[0].0, st.queue[0].1;
    var isNew := url !in st.visited && depth <= maxDepth && sc.inScope(url);
    assert st.visited <= r.visited && url in r.visited && st.queue[1..] <= r.queue;
    assert r.processed == if isNew then st.processed + [(url, depth)] else st.processed;
    LinksStay(sc, links, maxDepth, st, r);
    if isNew && sc.fetches(url) && depth < maxDepth {
      VisitQueuesLinks(sc, maxDepth, contribution, next, links, st);
    }
    forall q, l | q in r.processed && sc.fetches(q.0) && q.1 < maxDepth && l in links(q.0)
      ensures l.1 in r.visited || (l.1, q.1 + 1) in r.queue
    {
      if q !in st.processed {
        assert q == (url, depth);
      }
    }
  }

  /** The turn that processes and fetches the front URL leaves each of its links visited or queued one level deeper. */
  lemma VisitQueuesLinks(sc: Scope, maxDepth: int, contribution: string -> seq<string>,
                         next: (string, set<string>, int) -> seq<(string, int)>,
                         links: string -> seq<(int, string)>, st: Walk)
    requires st.queue != [] && NextComplete(next, links, maxDepth)
    requires st.queue[0].0 !in st.visited && st.queue[0].1 < maxDepth
    requires sc.inScope(st.queue[0].0) && sc.fetches(st.queue[0].0)
    ensures var r := Visit(sc, maxDepth, contribution, next, st);
      forall l | l in links(st.queue[0].0) :: l.1 in r.visited || (l.1, st.queue[0].1 + 1) in r.queue
  {
    var r := Visit(sc, maxDepth, contribution, next, st);
    var url, depth := st.queue[0].0, st.queue[0].1;
    var visited := st.visited + {url};
    assert r.visited == visited && r.queue == st.queue[1..] + next(url, visited, depth);
    forall l | l in links(url)
      ensures l.1 in r.visited || (l.1, depth + 1) in r.queue
    {
      if l.1 !in visited {
        NextCompleteAt(next, links, maxDepth, url, visited, depth, l);
      }
    }
  }

  /**
   * The links of earlier pages stay visited or queued when a turn pops
   * the front entry, marks it visited and appends to the queue.
   */
  lemma LinksStay(sc: Scope, links: string -> seq<(int, string)>, maxDepth: int, st: Walk, r: Walk)
    requires st.queue != [] && LinksInv(sc, links, maxDepth, st)
    requires st.visited <= r.visited && st.queue[0].0 in r.visited && st.queue[1..] <= r.queue
    requires st.processed <= r.processed
    requires forall q | q in r.processed && q !in st.processed :: q == st.queue[0] && st.queue[0].0 !in st.visited
    ensures forall q, l | q in r.processed && q in st.processed && sc.fetches(q.0) && q.1 < maxDepth
        && l in links(q.0) :: l.1 in r.visited || (l.1, q.1 + 1) in r.queue
  {
    var rest := st.queue[1..];
    forall q, l | q in r.processed && q in st.processed && sc.fetches(q.0) && q.1 < maxDepth && l in links(q.0)
      ensures l.1 in r.visited || (l.1, q.1 + 1) in r.queue
    {
      if l.1 !in st.visited && (l.1, q.1 + 1) != st.queue[0] {
        assert (l.1, q.1 + 1) in st.queue;
        assert st.queue == [st.queue[0]] + rest;
        assert (l.1, q.1 + 1) in rest;
      }
    }
  }

  lemma NextCompleteAt(next: (string, set<string>, int) -> seq<(string, int)>,
                       links: string -> seq<(int, string)>, maxDepth: int,
                       url: string, seen: set<string>, depth: int, l: (int, string))
    requires NextComplete(next, links, maxDepth)
    requires l in links(url) && l.1 !in seen && depth + 1 <= maxDepth
    ensures (l.1, depth + 1) in next(url, seen, depth)
  {
  }

  /**
   * What the walk relies on to follow links: every link of the page that
   * is not yet seen is queued one level deeper when that level is allowed.
   */
  ghost predicate NextComplete(next: (string, set<string>, int) -> seq<(string, int)>,
                               links: string -> seq<(int, string)>, maxDepth: int) {
    forall url, seen, depth, l | l in links(url) && l.1 !in seen && depth + 1 <= maxDepth ::
      (l.1, depth + 1) in next(url, seen, depth)
  }

  /** The crawl queues every unseen internal link of a page, one level deeper, within the limit. */
  lemma NextEntriesComplete(w: World, maxDepth: int)
    ensures NextComplete(CrawlNext(w, maxDepth), CrawlLinks(w), maxDepth)
  {
  }

  /** An unseen link is queued one level deeper when that level is allowed. */
  lemma EnqueuedHas(links: seq<(int, string)>, visited: set<string>, depth: int, maxDepth: int, l: (int, string))
    requires l in links && l.1 !in visited && depth + 1 <= maxDepth
    ensures (l.1, depth + 1) in Enqueued(links, visited, depth, maxDepth)
  {
    var i :| 0 <= i < |links| && links[i] == l;
  }

  /**
   * What the walk relies on from the links it queues: each entry is one
   * level deeper, within the limit, unvisited, and in scope when the page
   * it was found on is.
   */
  ghost predicate NextContract(next: (string, set<string>, int) -> seq<(string, int)>, sc: Scope, maxDepth: int) {
    forall url, seen, depth, q | q in next(url, seen, depth) ::
      && q.1 == depth + 1 <= maxDepth
      && q.0 !in seen
      && (sc.inScope(url) ==> sc.inScope(q.0))
  }

  /** The crawl's queued links stay on the page's domain and off the blacklist, so in scope. */
  lemma NextEntriesContract(w: World, baseUrl: string, maxDepth: int)
    ensures NextContract(CrawlNext(w, maxDepth), CrawlScope(baseUrl), maxDepth)
  {
    forall url, seen, depth, q | q in NextEntries(w, url, seen, depth, maxDepth)
      ensures InScope(url, baseUrl) ==> InScope(q.0, baseUrl)
    {
      NextEntriesInScope(w, url, seen, depth, maxDepth, q);
    }
  }

  /** The breadth-first walk of `crawl_site`, for any per-page contribution. */
  method WalkSite(w: World, baseUrl: string, maxDepth: int, contribution: string -> seq<string>)
    returns (found: seq<string>, visited: set<string>, processed: seq<(string, int)>,
             fetched: seq<string>, enqueued: seq<(string, int)>)
    ensures |visited| <= MaxPagesFromSite
    ensures found == Dedup(Contributions(contribution, processed))
    ensures NoDup(found)
    ensures forall q | q in processed :: (
      && q.0 in visited
      && 0 <= q.1 <= maxDepth
      && InScope(q.0, baseUrl))
    ensures UniqueUrls(processed)
    ensures forall u | u in fetched :: !Contains(Lower(u), "wpdmdl=")
    ensures forall q | q in processed :: Contains(Lower(q.0), "wpdmdl=") || q.0 in fetched
    ensures forall q | q in enqueued :: (
      && 1 <= q.1 <= maxDepth
      && InScope(q.0, baseUrl))
    ensures InScope(baseUrl, baseUrl) && 0 <= maxDepth ==> processed != [] && processed[0] == (baseUrl, 0)
    ensures |visited| < MaxPagesFromSite ==> forall q | q in enqueued :: q.0 in visited
    ensures forall u | u in visited :: u == baseUrl || exists q | q in processed :: q.0 == u
    ensures |visited| < MaxPagesFromSite ==>
      forall q, l | q in processed && !Contains(Lower(q.0), "wpdmdl=") && q.1 < maxDepth
          && l in ExtractInternalLinks(w.join, q.0, LinksPage(w, q.0)) :: exists p | p in processed :: p.0 == l.1
  {
    NextEntriesContract(w, baseUrl, maxDepth);
    var st := RunWalk(CrawlScope(baseUrl), w, maxDepth, contribution);
    CrawlDoneInScope(baseUrl, maxDepth, contribution, st);
    CrawlDoneFetches(baseUrl, maxDepth, contribution, st);
    CrawlDoneVisited(baseUrl, maxDepth, contribution, st);
    CrawlDoneLinks(w, baseUrl, maxDepth, st.visited, st.processed);
    found, visited, processed, fetched, enqueued := Dedup(st.all), st.visited, st.processed, st.fetched, st.enqueued;
  }

  /** A finished walk under the crawl's rules keeps processed and queued URLs in scope. */
  lemma CrawlDoneInScope(baseUrl: string, maxDepth: int, contribution: string -> seq<string>, st: Walk)
    requires WalkDone(CrawlScope(baseUrl), maxDepth, contribution, st)
    ensures forall q | q in st.processed :: InScope(q.0, baseUrl)
    ensures forall q | q in st.enqueued :: InScope(q.0, baseUrl)
    ensures InScope(baseUrl, baseUrl) && 0 <= maxDepth ==> st.processed != [] && st.processed[0] == (baseUrl, 0)
  {
  }

  /** A finished walk under the crawl's rules fetches every processed URL except the `wpdmdl=` ones, and no `wpdmdl=` URL. */
  lemma CrawlDoneFetches(baseUrl: string, maxDepth: int, contribution: string -> seq<string>, st: Walk)
    requires WalkDone(CrawlScope(baseUrl), maxDepth, contribution, st)
    ensures forall u | u in st.fetched :: !Contains(Lower(u), "wpdmdl=")
    ensures forall q | q in st.processed :: Contains(Lower(q.0), "wpdmdl=") || q.0 in st.fetched
  {
  }

  /** In a finished walk under the crawl's rules, every visited URL but the base one was processed. */
  lemma CrawlDoneVisited(baseUrl: string, maxDepth: int, contribution: string -> seq<string>, st: Walk)
    requires WalkDone(CrawlScope(baseUrl), maxDepth, contribution, st)
    ensures forall u | u in st.visited :: u == baseUrl || exists q | q in st.processed :: q.0 == u
  {
  }

  /**
   * Below the page limit, a finished crawl processed every internal link
   * of a fetched page shallower than the depth limit: such a link is in
   * scope, so when it is the base URL that was processed first.
   */
  lemma CrawlDoneLinks(w: World, baseUrl: string, maxDepth: int, visited: set<string>, processed: seq<(string, int)>)
    requires InScope(baseUrl, baseUrl) && 0 <= maxDepth ==> processed != [] && processed[0] == (baseUrl, 0)
    requires forall q | q in processed :: 0 <= q.1
    requires |visited| < MaxPagesFromSite ==>
      forall q, l | q in processed && !Contains(Lower(q.0), "wpdmdl=") && q.1 < maxDepth
          && l in ExtractInternalLinks(w.join, q.0, LinksPage(w, q.0)) ::
        l.1 == baseUrl || WasProcessed(processed, l.1)
    ensures |visited| < MaxPagesFromSite ==>
      forall q, l | q in processed && !Contains(Lower(q.0), "wpdmdl=") && q.1 < maxDepth
          && l in ExtractInternalLinks(w.join, q.0, LinksPage(w, q.0)) :: exists p | p in processed :: p.0 == l.1
  {
    forall q, l | |visited| < MaxPagesFromSite && q in processed && !Contains(Lower(q.0), "wpdmdl=") && q.1 < maxDepth
        && l in ExtractInternalLinks(w.join, q.0, LinksPage(w, q.0))
      ensures exists p | p in processed :: p.0 == l.1
    {
      if l.1 == baseUrl {
        BaseLinkInScope(w, q, l, baseUrl);
        assert processed[0] == (baseUrl, 0);
      }
    }
  }

  /** A page's internal link to the base URL shows that the base URL is in scope. */
  lemma BaseLinkInScope(w: World, q: (string, int), l: (int, string), baseUrl: string)
    requires l in ExtractInternalLinks(w.join, q.0, LinksPage(w, q.0)) && l.1 == baseUrl
    ensures InScope(baseUrl, baseUrl)
  {
    var links := ExtractInternalLinks(w.join, q.0, LinksPage(w, q.0));
    var i :| 0 <= i < |links| && links[i] == l;
    InternalLinksInScope(w.join, q.0, LinksPage(w, q.0), i);
  }

  /**
   * The state a finished walk is in: within the page limit, with the
   * deduplicated contributions of its processed pages, the invariants of
   * `Visit`, the base URL processed first when it is in scope, and, unless
   * the page limit stopped it, every queued entry visited.
   */
  ghost predicate WalkDone(sc: Scope, maxDepth: int, contribution: string -> seq<string>, st: Walk) {
    && |st.visited| <= MaxPagesFromSite
    && Dedup(st.all) == Dedup(Contributions(contribution, st.processed))
    && NoDup(Dedup(st.all))
    && ProcessedInv(sc, maxDepth, st) && FetchedInv(sc, st) && EnqueuedInv(sc, maxDepth, st)
    && (sc.inScope(sc.baseUrl) && 0 <= maxDepth ==> st.processed != [] && st.processed[0] == (sc.baseUrl, 0))
    && (|st.visited| < MaxPagesFromSite ==> forall q | q in st.enqueued :: q.0 in st.visited)
    && (forall u | u in st.visited :: u == sc.baseUrl || WasProcessed(st.processed, u))
  }

  /**
   * The walk from the base URL, queueing the crawl's links of each fetched
   * page, under any rules `sc` that those links keep to.
   */
  method RunWalk(sc: Scope, w: World, maxDepth: int, contribution: string -> seq<string>) returns (st: Walk)
    requires NextContract(CrawlNext(w, maxDepth), sc, maxDepth)
    ensures WalkDone(sc, maxDepth, contribution, st)
    ensures |st.visited| < MaxPagesFromSite ==>
      forall q, l | q in st.processed && sc.fetches(q.0) && q.1 < maxDepth
          && l in ExtractInternalLinks(w.join, q.0, LinksPage(w, q.0)) ::
        l.1 in st.visited && (l.1 == sc.baseUrl || WasProcessed(st.processed, l.1))
  {
    var st0 := WalkStart(sc.baseUrl);
    st := WalkFrom(sc, maxDepth, contribution, CrawlNext(w, maxDepth), st0);
    WalkOutcome(sc, maxDepth, contribution, CrawlNext(w, maxDepth), st0);
    NextEntriesComplete(w, maxDepth);
    WalkKeepsLinks(sc, maxDepth, contribution, CrawlNext(w, maxDepth), CrawlLinks(w), st0);
    forall q, l | |st.visited| < MaxPagesFromSite && q in st.processed && sc.fetches(q.0) && q.1 < maxDepth
        && l in ExtractInternalLinks(w.join, q.0, LinksPage(w, q.0))
      ensures l.1 in st.visited && (l.1 == sc.baseUrl || WasProcessed(st.processed, l.1))
    {
      assert l in CrawlLinks(w)(q.0);
    }
  }

  /**
   * What the walk from the start state gives for any rules `sc` whose
   * `next` queues only deeper, unseen, in-scope links.
   */
  lemma WalkOutcome(sc: Scope, maxDepth: int, contribution: string -> seq<string>,
                    next: (string, set<string>, int) -> seq<(string, int)>, st0: Walk)
    requires NextContract(next, sc, maxDepth) && st0 == WalkStart(sc.baseUrl)
    ensures WalkDone(sc, maxDepth, contribution, WalkFrom(sc, maxDepth, contribution, next, st0))
  {
    var st := WalkFrom(sc, maxDepth, contribution, next, st0);
    WalkKeepsAll(sc, maxDepth, contribution, next, st0);
    WalkKeepsProcessed(sc, maxDepth, contribution, next, st0);
    WalkKeepsFetched(sc, maxDepth, contribution, next, st0);
    WalkKeepsEnqueued(sc, maxDepth, contribution, next, st0);
    WalkKeepsStart(sc, maxDepth, contribution, next, st0);
    WalkKeepsVisited(sc, maxDepth, contribution, next, st0);
    WalkExit(sc, maxDepth, contribution, st);
  }

  /** The `while queue and len(visited) < MAX_PAGES_FROM_SITE` loop, from the state `st`. */
  function WalkFrom(sc: Scope, maxDepth: int, contribution: string -> seq<string>,
                    next: (string, set<string>, int) -> seq<(string, int)>, st: Walk): (r: Walk)
    ensures r.queue == [] || |r.visited| >= MaxPagesFromSite
    ensures |st.visited| <= MaxPagesFromSite ==> |r.visited| <= MaxPagesFromSite
    decreases MaxPagesFromSite - |st.visited|, |st.queue|
  {
    if st.queue == [] || |st.visited| >= MaxPagesFromSite then st
    else WalkFrom(sc, maxDepth, contribution, next, Visit(sc, maxDepth, contribution, next, st))
  }

  /** The result list stays the deduplicated contributions of the processed entries. */
  lemma {:induction false} WalkKeepsAll(
      sc: Scope, maxDepth: int, contribution: string -> seq<string>,
      next: (string, set<string>, int) -> seq<(string, int)>, st: Walk)
    requires AllInv(contribution, st)
    ensures AllInv(contribution, WalkFrom(sc, maxDepth, contribution, next, st))
    decreases MaxPagesFromSite - |st.visited|, |st.queue|
  {
    if st.queue != [] && |st.visited| < MaxPagesFromSite {
      VisitKeepsAll(sc, maxDepth, contribution, next, st);
      WalkKeepsAll(sc, maxDepth, contribution, next, Visit(sc, maxDepth, contribution, next, st));
    }
  }

  /** Processed entries stay visited, in scope, within the limit, and unique. */
  lemma {:induction false} WalkKeepsProcessed(
      sc: Scope, maxDepth: int, contribution: string -> seq<string>,
      next: (string, set<string>, int) -> seq<(string, int)>, st: Walk)
    requires NextContract(next, sc, maxDepth) && ProcessedInv(sc, maxDepth, st)
    ensures ProcessedInv(sc, maxDepth, WalkFrom(sc, maxDepth, contribution, next, st))
    decreases MaxPagesFromSite - |st.visited|, |st.queue|
  {
    if st.queue != [] && |st.visited| < MaxPagesFromSite {
      VisitKeepsProcessed(sc, maxDepth, contribution, next, st);
      WalkKeepsProcessed(sc, maxDepth, contribution, next, Visit(sc, maxDepth, contribution, next, st));
    }
  }

  /** No `wpdmdl=` link is ever fetched, and every other processed URL is. */
  lemma {:induction false} WalkKeepsFetched(
      sc: Scope, maxDepth: int, contribution: string -> seq<string>,
      next: (string, set<string>, int) -> seq<(string, int)>, st: Walk)
    requires FetchedInv(sc, st)
    ensures FetchedInv(sc, WalkFrom(sc, maxDepth, contribution, next, st))
    decreases MaxPagesFromSite - |st.visited|, |st.queue|
  {
    if st.queue != [] && |st.visited| < MaxPagesFromSite {
      VisitKeepsFetched(sc, maxDepth, contribution, next, st);
      WalkKeepsFetched(sc, maxDepth, contribution, next, Visit(sc, maxDepth, contribution, next, st));
    }
  }

  /** Queued entries stay in scope and within the limit, and each is still queued or visited. */
  lemma {:induction false} WalkKeepsEnqueued(
      sc: Scope, maxDepth: int, contribution: string -> seq<string>,
      next: (string, set<string>, int) -> seq<(string, int)>, st: Walk)
    requires NextContract(next, sc, maxDepth) && EnqueuedInv(sc, maxDepth, st) && ProcessedInv(sc, maxDepth, st)
    ensures EnqueuedInv(sc, maxDepth, WalkFrom(sc, maxDepth, contribution, next, st))
    decreases MaxPagesFromSite - |st.visited|, |st.queue|
  {
    if st.queue != [] && |st.visited| < MaxPagesFromSite {
      VisitKeepsEnqueued(sc, maxDepth, contribution, next, st);
      VisitKeepsProcessed(sc, maxDepth, contribution, next, st);
      WalkKeepsEnqueued(sc, maxDepth, contribution, next, Visit(sc, maxDepth, contribution, next, st));
    }
  }

  /** The base URL stays the first processed entry once anything is visited. */
  lemma {:induction false} WalkKeepsStart(
      sc: Scope, maxDepth: int, contribution: string -> seq<string>,
      next: (string, set<string>, int) -> seq<(string, int)>, st: Walk)
    requires StartInv(sc, maxDepth, st)
    ensures StartInv(sc, maxDepth, WalkFrom(sc, maxDepth, contribution, next, st))
    decreases MaxPagesFromSite - |st.visited|, |st.queue|
  {
    if st.queue != [] && |st.visited| < MaxPagesFromSite {
      VisitKeepsStart(sc, maxDepth, contribution, next, st);
      WalkKeepsStart(sc, maxDepth, contribution, next, Visit(sc, maxDepth, contribution, next, st));
    }
  }

  /** No link of a processed page is ever left behind. */
  lemma {:induction false} WalkKeepsLinks(
      sc: Scope, maxDepth: int, contribution: string -> seq<string>,
      next: (string, set<string>, int) -> seq<(string, int)>, links: string -> seq<(int, string)>, st: Walk)
    requires NextComplete(next, links, maxDepth) && LinksInv(sc, links, maxDepth, st)
    ensures LinksInv(sc, links, maxDepth, WalkFrom(sc, maxDepth, contribution, next, st))
    decreases MaxPagesFromSite - |st.visited|, |st.queue|
  {
    if st.queue != [] && |st.visited| < MaxPagesFromSite {
      VisitKeepsLinks(sc, maxDepth, contribution, next, links, st);
      WalkKeepsLinks(sc, maxDepth, contribution, next, links, Visit(sc, maxDepth, contribution, next, st));
    }
  }

  /** Every visited URL but the base one stays processed. */
  lemma {:induction false} WalkKeepsVisited(
      sc: Scope, maxDepth: int, contribution: string -> seq<string>,
      next: (string, set<string>, int) -> seq<(string, int)>, st: Walk)
    requires NextContract(next, sc, maxDepth) && VisitedInv(sc, maxDepth, st)
    ensures VisitedInv(sc, maxDepth, WalkFrom(sc, maxDepth, contribution, next, st))
    decreases MaxPagesFromSite - |st.visited|, |st.queue|
  {
    if st.queue != [] && |st.visited| < MaxPagesFromSite {
      VisitKeepsVisited(sc, maxDepth, contribution, next, st);
      WalkKeepsVisited(sc, maxDepth, contribution, next, Visit(sc, maxDepth, contribution, next, st));
    }
  }

  /** The state the walk starts from: the base URL at depth zero, queued alone. */
  function WalkStart(baseUrl: string): Walk {
    Walk([(baseUrl, 0)], {}, [], [], [], [])
  }

  /** When the loop stops, the invariant gives what `WalkSite` promises. */
  lemma WalkExit(sc: Scope, maxDepth: int, contribution: string -> seq<string>, st: Walk)
    requires |st.visited| <= MaxPagesFromSite && (st.queue == [] || |st.visited| >= MaxPagesFromSite)
    requires AllInv(contribution, st) && ProcessedInv(sc, maxDepth, st) && FetchedInv(sc, st)
    requires EnqueuedInv(sc, maxDepth, st) && StartInv(sc, maxDepth, st) && VisitedInv(sc, maxDepth, st)
    ensures WalkDone(sc, maxDepth, contribution, st)
  {
    DedupOfNoDup(st.all);
  }

  /** A page the crawl of `baseUrl` may process: not blacklisted, and on the base URL's domain. */
  predicate InScope(url: string, baseUrl: string) {
    !UrlBlacklisted(url) && DomainOf(url) == DomainOf(baseUrl)
  }

  /** Processing one more URL appends its contribution's new elements to the results. */
  lemma ContributionsStep(contribution: string -> seq<string>, processed: seq<(string, int)>, url: string, depth: int)
    ensures Dedup(Contributions(contribution, processed + [(url, depth)]))
      == AppendNew(Dedup(Contributions(contribution, processed)), contribution(url))
  {
    AppendNewConcat([], Contributions(contribution, processed), contribution(url));
    assert (processed + [(url, depth)])[..|processed|] == processed;
  }

  /**
   * The loop over `extract_internal_links(url, html_for_links)`: the
   * unvisited links, one level deeper, when that level is allowed.
   */
  function NextEntries(w: World, url: string, visited: set<string>, depth: int, maxDepth: int): (r: seq<(string, int)>)
    ensures forall q | q in r :: q.1 == depth + 1 <= maxDepth && q.0 !in visited
    ensures forall l | l in ExtractInternalLinks(w.join, url, LinksPage(w, url)) && l.1 !in visited && depth + 1 <= maxDepth ::
      (l.1, depth + 1) in r
  {
    var links := ExtractInternalLinks(w.join, url, LinksPage(w, url));
    var next := Enqueued(links, visited, depth, maxDepth);
    forall l | l in links && l.1 !in visited && depth + 1 <= maxDepth
      ensures (l.1, depth + 1) in next
    {
      EnqueuedHas(links, visited, depth, maxDepth, l);
    }
    next
  }

  /** A queued link stays on the page's domain and off the blacklist. */
  lemma NextEntriesInScope(w: World, url: string, visited: set<string>, depth: int, maxDepth: int, q: (string, int))
    requires q in NextEntries(w, url, visited, depth, maxDepth)
    ensures !UrlBlacklisted(q.0) && DomainOf(q.0) == DomainOf(url)
  {
    var links := ExtractInternalLinks(w.join, url, LinksPage(w, url));
    var i := EnqueuedFrom(links, visited, depth, maxDepth, q);
    InternalLinksInScope(w.join, url, LinksPage(w, url), i);
  }

  /** No URL occurs twice among the processed entries. */
  predicate UniqueUrls(p: seq<(string, int)>) {
    forall i, j | 0 <= i < j < |p| :: p[i].0 != p[j].0
  }

  lemma UniqueUrlsStep(p: seq<(string, int)>, x: (string, int))
    requires UniqueUrls(p) && forall q | q in p :: q.0 != x.0
    ensures UniqueUrls(p + [x])
  {
  }

  /** Every queued entry comes from a scored link. */
  lemma EnqueuedFrom(links: seq<(int, string)>, visited: set<string>, depth: int, maxDepth: int, q: (string, int))
    returns (i: nat)
    requires q in Enqueued(links, visited, depth, maxDepth)
    ensures i < |links| && links[i].1 == q.0
    decreases |links|
  {
    var rest := Enqueued(links[1..], visited, depth, maxDepth);
    if q in rest {
      var k := EnqueuedFrom(links[1..], visited, depth, maxDepth, q);
      i := k + 1;
    } else {
      i := 0;
    }
  }
}
